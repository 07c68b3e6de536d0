/** Pulse-position modulation as the receiver samples it, and the noise margin of the correlators. */
module Ppm {
  import opened Slicer

  /**
    * A modulated message on the tick clock: bit n occupies twelve ticks from `start` + 12n on, and its pulse fills
    * the first six of them for a one and the last six for a zero. Ticks outside the message are arbitrary.
    */
  datatype Signal = Signal(bits: seq<bool>, start: nat, amplitude: real, around: int -> real) {

    ghost predicate Valid() {
      amplitude > 0.0 && forall t :: 0.0 <= around(t) <= amplitude
    }

    function Level(t: int): real {
      var u := t - start;
      if 0 <= u < 12 * |bits| then
        if (u % 12 < 6) == bits[u / 12] then amplitude else 0.0
      else around(t)
    }

    /** A sample integrates five ticks. */
    function Sample(i: int): real {
      Level(5 * i) + Level(5 * i + 1) + Level(5 * i + 2) + Level(5 * i + 3) + Level(5 * i + 4)
    }

    lemma LevelBounds(t: int)
      requires Valid()
      ensures 0.0 <= Level(t) <= amplitude
    {
    }

    lemma BitLevel(n: nat, d: nat)
      requires n < |bits| && d < 12
      ensures Level(start + 12 * n + d) == if (d < 6) == bits[n] then amplitude else 0.0
    {
      var u := 12 * n + d;
      assert u / 12 == n && u % 12 == d;
    }
  }

  /** The samples that hold ticks from `from` up to `to` are within `noise` of the box-integrated signal. */
  ghost predicate ReceivedOver(m: seq<u16>, s: Signal, noise: real, from: nat, to: nat) {
    forall i :: from / 5 <= i < |m| && 5 * i < to ==> Near(m[i], s.Sample(i), noise)
  }

  /** The samples of bit `n` are; the rest of the buffer is arbitrary. */
  ghost predicate BitReceived(m: seq<u16>, s: Signal, noise: real, n: nat) {
    ReceivedOver(m, s, noise, s.start + 12 * n, s.start + 12 * n + 12)
  }

  /** The samples of the message are; the rest of the buffer is arbitrary. */
  ghost predicate Received(m: seq<u16>, s: Signal, noise: real) {
    ReceivedOver(m, s, noise, s.start, s.start + 12 * |s.bits|)
  }

  lemma BitOfReceived(m: seq<u16>, s: Signal, noise: real, n: nat)
    requires Received(m, s, noise) && n < |s.bits|
    ensures BitReceived(m, s, noise, n)
  {
    hide Near;
    assert s.start / 5 <= (s.start + 12 * n) / 5;
  }

  ghost predicate Near(x: int, v: real, e: real) {
    v - e <= x as real <= v + e
  }

  /** The largest noise the correlators bear: 38/41 of the amplitude of one tick. */
  ghost predicate Bearable(a: real, e: real) {
    a > 0.0 && 41.0 * e <= 38.0 * a
  }

  /** The largest noise that one correlator bears: the one for bits that begin at tick `p` of a sample. */
  ghost predicate BearableAt(p: nat, a: real, e: real) {
    && a > 0.0
    && (p == 0 ==> 36.0 * e < 66.0 * a) && (p == 1 ==> 28.0 * e < 28.0 * a) && (p == 2 ==> 41.0 * e <= 38.0 * a)
    && (p == 3 ==> 36.0 * e < 58.0 * a) && (p == 4 ==> 40.0 * e <= 79.0 * a)
  }

  // ---- one bit through one correlator ----

  /** Twenty ticks of which the twelve from `p` on belong to the bit `b`. */
  ghost predicate Window(w: seq<real>, p: nat, a: real, b: bool) {
    && |w| == 20 && p < 5
    && (forall j :: 0 <= j < 20 ==> 0.0 <= w[j] <= a)
    && (forall j :: p <= j < p + 12 ==> w[j] == if (j - p < 6) == b then a else 0.0)
  }

  function Box(w: seq<real>, k: nat): real
    requires |w| == 20 && k < 4
  {
    w[5 * k] + w[5 * k + 1] + w[5 * k + 2] + w[5 * k + 3] + w[5 * k + 4]
  }

  lemma Correlate0(w: seq<real>, a: real, e: real, b: bool, x: int, y: int, z: int)
    requires Window(w, 0, a, b) && BearableAt(0, a, e)
    requires Near(x, Box(w, 0), e) && Near(y, Box(w, 1), e) && Near(z, Box(w, 2), e)
    ensures (18 * x - 15 * y - 3 * z > 0) == b
  {
    assert (18 * x - 15 * y - 3 * z) as real == 18.0 * (x as real) - 15.0 * (y as real) - 3.0 * (z as real);
  }

  lemma Correlate1(w: seq<real>, a: real, e: real, b: bool, x: int, y: int, z: int)
    requires Window(w, 1, a, b) && BearableAt(1, a, e)
    requires Near(x, Box(w, 0), e) && Near(y, Box(w, 1), e) && Near(z, Box(w, 2), e)
    ensures (14 * x - 5 * y - 9 * z > 0) == b
  {
    assert (14 * x - 5 * y - 9 * z) as real == 14.0 * (x as real) - 5.0 * (y as real) - 9.0 * (z as real);
  }

  lemma Correlate2(w: seq<real>, a: real, e: real, b: bool, x: int, y: int, z: int)
    requires Window(w, 2, a, b) && BearableAt(2, a, e)
    requires Near(x, Box(w, 0), e) && Near(y, Box(w, 1), e) && Near(z, Box(w, 2), e)
    ensures (16 * x + 5 * y - 20 * z > 0) == b
  {
    assert (16 * x + 5 * y - 20 * z) as real == 16.0 * (x as real) + 5.0 * (y as real) - 20.0 * (z as real);
  }

  lemma Correlate3(w: seq<real>, a: real, e: real, b: bool, x: int, y: int, z: int)
    requires Window(w, 3, a, b) && BearableAt(3, a, e)
    requires Near(x, Box(w, 0), e) && Near(y, Box(w, 1), e) && Near(z, Box(w, 2), e)
    ensures (7 * x + 11 * y - 18 * z > 0) == b
  {
    assert (7 * x + 11 * y - 18 * z) as real == 7.0 * (x as real) + 11.0 * (y as real) - 18.0 * (z as real);
  }

  lemma Correlate4(w: seq<real>, a: real, e: real, b: bool, x: int, y: int, z: int, v: int)
    requires Window(w, 4, a, b) && BearableAt(4, a, e) && v >= 0
    requires Near(x, Box(w, 0), e) && Near(y, Box(w, 1), e) && Near(z, Box(w, 2), e) && Near(v, Box(w, 3), e)
    ensures (4 * x + 15 * y - 20 * z + v > 0) == b
  {
    assert (4 * x + 15 * y - 20 * z + v) as real == 4.0 * (x as real) + 15.0 * (y as real) - 20.0 * (z as real)
      + (v as real);
  }

  /** The twenty ticks from sample `i` on. */
  function Ticks(s: Signal, i: nat): (w: seq<real>)
    ensures |w| == 20
  {
    seq(20, j requires 0 <= j < 20 => s.Level(5 * i + j))
  }

  lemma TicksAreWindow(s: Signal, n: nat, i: nat, p: nat)
    requires s.Valid() && n < |s.bits| && p < 5 && s.start + 12 * n == 5 * i + p
    ensures Window(Ticks(s, i), p, s.amplitude, s.bits[n])
  {
    var w := Ticks(s, i);
    forall j | 0 <= j < 20
      ensures 0.0 <= w[j] <= s.amplitude
    {
      s.LevelBounds(5 * i + j);
    }
    forall j | p <= j < p + 12
      ensures w[j] == if (j - p < 6) == s.bits[n] then s.amplitude else 0.0
    {
      s.BitLevel(n, j - p);
      assert s.start + 12 * n + (j - p) == 5 * i + j;
    }
  }

  lemma BoxIsSample(s: Signal, i: nat, k: nat)
    requires k < 4
    ensures Box(Ticks(s, i), k) == s.Sample(i + k)
  {
  }

  lemma SampleNear(m: seq<u16>, s: Signal, noise: real, n: nat, i: nat, k: nat)
    requires k < 4 && i + k < |m| && BitReceived(m, s, noise, n)
    requires i == (s.start + 12 * n) / 5 && 5 * (i + k) < s.start + 12 * n + 12
    ensures Near(m[i + k], Box(Ticks(s, i), k), noise)
  {
    BoxIsSample(s, i, k);
    assert Near(m[i + k], s.Sample(i + k), noise);
  }

  /** A bit is decided as it was sent if the samples it reaches into are received within its correlator's margin. */
  lemma BitDecided(m: seq<u16>, s: Signal, noise: real, n: nat)
    requires s.Valid() && BitReceived(m, s, noise, n)
    requires n < |s.bits| && BearableAt((s.start + 12 * n) % 5, s.amplitude, noise) && Readable(m, s.start + 12 * n)
    ensures Decision(m, s.start + 12 * n) == s.bits[n]
  {
    hide Near, Box, Window, Ticks, BearableAt, BitReceived;
    var t := s.start + 12 * n;
    var i, p := t / 5, t % 5;
    var w, a, b := Ticks(s, i), s.amplitude, s.bits[n];
    TicksAreWindow(s, n, i, p);
    SampleNear(m, s, noise, n, i, 0);
    SampleNear(m, s, noise, n, i, 1);
    SampleNear(m, s, noise, n, i, 2);
    match p
    case 0 => Correlate0(w, a, noise, b, m[i], m[i + 1], m[i + 2]);
    case 1 => Correlate1(w, a, noise, b, m[i], m[i + 1], m[i + 2]);
    case 2 => Correlate2(w, a, noise, b, m[i], m[i + 1], m[i + 2]);
    case 3 => Correlate3(w, a, noise, b, m[i], m[i + 1], m[i + 2]);
    case _ =>
      SampleNear(m, s, noise, n, i, 3);
      Correlate4(w, a, noise, b, m[i], m[i + 1], m[i + 2], m[i + 3]);
  }

  /** The smallest of the five margins is that of correlator 2. */
  lemma SmallestMargin(a: real, e: real)
    ensures Bearable(a, e) <==> BearableAt(2, a, e)
    ensures Bearable(a, e) ==> forall p :: 0 <= p < 5 ==> BearableAt(p, a, e)
  {
  }

  /**
    * A bit is decided as it was sent, whichever correlator its start selects, if the samples it reaches into are
    * received within the smallest margin.
    */
  lemma BitRecovered(m: seq<u16>, s: Signal, noise: real, n: nat)
    requires s.Valid() && Bearable(s.amplitude, noise) && BitReceived(m, s, noise, n)
    requires n < |s.bits| && Readable(m, s.start + 12 * n)
    ensures Decision(m, s.start + 12 * n) == s.bits[n]
  {
    hide BearableAt, Bearable, BitReceived, Decision;
    SmallestMargin(s.amplitude, noise);
    BitDecided(m, s, noise, n);
  }

  // ---- every margin is exact ----

  /** A sample less the noise, as far as a sample can fall. */
  function Lowered(x: nat, e: nat): (y: nat)
    ensures y <= x
  {
    if x < e then 0 else x - e
  }

  /** One bit that begins at tick `p`, between ticks of full amplitude where `high` says so. */
  ghost function Lone(b: bool, p: nat, a: nat, high: int -> bool): Signal {
    var z := 0.0;
    Signal([b], p, a as real, t => if high(t) then a as real else z)
  }

  /** With any more noise than its margin a correlator can misread a bit. */
  lemma MarginIsExact(p: nat, a: nat, e: nat) returns (m: seq<u16>, s: Signal)
    requires p < 5 && 0 < a && !BearableAt(p, a as real, e as real) && 5 * a + e < 0x10000
    ensures s.Valid() && s.amplitude == a as real && s.start == p && |s.bits| == 1 && Received(m, s, e as real)
    ensures Readable(m, p) && Decision(m, p) != s.bits[0]
  {
    match p
    case 0 => m, s := Misread0(a, e);
    case 1 => m, s := Misread1(a, e);
    case 2 => m, s := Misread2(a, e);
    case 3 => m, s := Misread3(a, e);
    case _ => m, s := Misread4(a, e);
  }

  lemma Misread0(a: nat, e: nat) returns (m: seq<u16>, s: Signal)
    requires 0 < a && 36 * e >= 66 * a && 5 * a + e < 0x10000
    ensures s.Valid() && s.amplitude == a as real && s.start == 0 && s.bits == [true] && Received(m, s, e as real)
    ensures Readable(m, 0) && !Decision(m, 0)
  {
    s := Lone(true, 0, a, t => 12 <= t < 15);
    m := [Lowered(5 * a, e), a + e, 3 * a + e];
    assert s.Sample(0) == 5.0 * a as real && s.Sample(1) == a as real && s.Sample(2) == 3.0 * a as real;
  }

  lemma Misread1(a: nat, e: nat) returns (m: seq<u16>, s: Signal)
    requires 0 < a && e >= a && 5 * a + e < 0x10000
    ensures s.Valid() && s.amplitude == a as real && s.start == 1 && s.bits == [true] && Received(m, s, e as real)
    ensures Readable(m, 1) && !Decision(m, 1)
  {
    s := Lone(true, 1, a, t => 13 <= t < 15);
    m := [Lowered(4 * a, e), 2 * a + e, 2 * a + e];
    assert s.Sample(0) == 4.0 * a as real && s.Sample(1) == 2.0 * a as real && s.Sample(2) == 2.0 * a as real;
  }

  lemma Misread2(a: nat, e: nat) returns (m: seq<u16>, s: Signal)
    requires 0 < a && 41 * e > 38 * a && 5 * a + e < 0x10000
    ensures s.Valid() && s.amplitude == a as real && s.start == 2 && s.bits == [false] && Received(m, s, e as real)
    ensures Readable(m, 2) && Decision(m, 2)
  {
    s := Lone(false, 2, a, t => 0 <= t < 2);
    m := [2 * a + e, 2 * a + e, Lowered(4 * a, e)];
    assert s.Sample(0) == 2.0 * a as real && s.Sample(1) == 2.0 * a as real && s.Sample(2) == 4.0 * a as real;
  }

  lemma Misread3(a: nat, e: nat) returns (m: seq<u16>, s: Signal)
    requires 0 < a && 36 * e >= 58 * a && 5 * a + e < 0x10000
    ensures s.Valid() && s.amplitude == a as real && s.start == 3 && s.bits == [true] && Received(m, s, e as real)
    ensures Readable(m, 3) && !Decision(m, 3)
  {
    s := Lone(true, 3, a, t => false);
    m := [Lowered(2 * a, e), Lowered(4 * a, e), e];
    assert s.Sample(0) == 2.0 * a as real && s.Sample(1) == 4.0 * a as real && s.Sample(2) == 0.0;
  }

  lemma Misread4(a: nat, e: nat) returns (m: seq<u16>, s: Signal)
    requires 0 < a && 40 * e > 79 * a && 5 * a + e < 0x10000
    ensures s.Valid() && s.amplitude == a as real && s.start == 4 && s.bits == [false] && Received(m, s, e as real)
    ensures Readable(m, 4) && Decision(m, 4)
  {
    s := Lone(false, 4, a, t => 0 <= t < 4 || 16 <= t < 20);
    m := [4 * a + e, e, Lowered(5 * a, e), 5 * a + e];
    Late4(s, a);
    hide Signal.Sample;
  }

  lemma Late4(s: Signal, a: nat)
    requires s.bits == [false] && s.start == 4 && s.amplitude == a as real
    requires forall t :: s.around(t) == if 0 <= t < 4 || 16 <= t < 20 then a as real else 0.0
    ensures s.Sample(0) == 4.0 * a as real && s.Sample(1) == 0.0
    ensures s.Sample(2) == 5.0 * a as real && s.Sample(3) == 5.0 * a as real
  {
  }

  // ---- a common offset ----

  /**
    * A level that is added to all samples changes no decision, but that of correlator 2, whose weights add up to one.
    */
  lemma OffsetResponse(k: nat, m: seq<u16>, up: seq<u16>, i: nat, h: nat)
    requires k < 5 && i + 3 < |m| == |up| && forall j :: 0 <= j < |m| ==> up[j] == m[j] + h
    ensures SliceFunc(k, up, i) == SliceFunc(k, m, i) + if k == 2 then h else 0
  {
  }
}
