/** A frame that arrives in two reads: the reader parses the first part as if what stands behind it were the rest. */
module BeastFragments {
  import opened Common
  import opened Beast
  import opened BeastReader
  import opened BeastProps
  import opened BeastReads

  // ---- what the first part of a frame parses to ----

  function Zeros(n: nat): (z: seq<byte>)
    ensures |z| == n
  {
    seq(n, _ => 0)
  }

  lemma {:induction false} DestuffZeros(n: nat)
    ensures Destuffed(Zeros(n)) == Zeros(n)
  {
    if n > 0 {
      DestuffZeros(n - 1);
      assert Zeros(n)[1..] == Zeros(n - 1);
      assert Zeros(n) == [0] + Zeros(n - 1);
    }
  }

  /** The last byte of a stuffed payload, whole or half, in front of zeros. */
  lemma DestuffLast(x: byte, pair: bool, n: nat)
    requires pair ==> x == ESC
    ensures Destuffed((if pair then [x, x] else [x]) + Zeros(n)) == [x] + Zeros(n)
  {
    DestuffZeros(n);
    if pair {
      assert ([x, x] + Zeros(n))[2..] == Zeros(n);
    } else {
      assert ([x] + Zeros(n))[1..] == Zeros(n);
    }
  }

  /** How many payload bytes have begun within the first `m` bytes of the stuffed payload. */
  function Arrived(data: seq<byte>, m: nat): (a: nat)
    ensures a <= |data|
  {
    if |data| == 0 then 0
    else
      var front := data[..|data| - 1];
      if m > |Escaped(front)| then |data| else Arrived(front, m)
  }

  lemma {:induction false} ArrivedBytes(data: seq<byte>, m: nat)
    requires m <= |Escaped(data)|
    ensures m <= 2 * Arrived(data, m)
  {
    if |data| > 0 && m <= |Escaped(data[..|data| - 1])| {
      ArrivedBytes(data[..|data| - 1], m);
    }
  }

  /** A payload cut short and filled up with zeros: half a doubled 0x1a counts as the whole of it. */
  lemma {:induction false} CutPayload(data: seq<byte>, m: nat, zeros: nat)
    requires m <= |Escaped(data)|
    ensures Destuffed(Escaped(data)[..m] + Zeros(zeros)) == data[..Arrived(data, m)] + Zeros(zeros)
  {
    hide Destuffed;
    if |data| == 0 {
      DestuffZeros(zeros);
      assert Escaped(data)[..m] + Zeros(zeros) == Zeros(zeros);
    } else {
      var front, last := data[..|data| - 1], data[|data| - 1];
      if m <= |Escaped(front)| {
        CutPayload(front, m, zeros);
        assert Escaped(data)[..m] == Escaped(front)[..m];
        assert front[..Arrived(front, m)] == data[..Arrived(front, m)];
      } else {
        var pair := m == |Escaped(front)| + 2;
        var tail := (if pair then [last, last] else [last]) + Zeros(zeros);
        assert Escaped(data)[..m] + Zeros(zeros) == Escaped(front) + tail;
        DestuffEscaped(front, tail);
        DestuffLast(last, pair, zeros);
        assert front + ([last] + Zeros(zeros)) == data[..|data|] + Zeros(zeros);
      }
    }
  }

  lemma {:induction false} ValueInjective(a: seq<byte>, b: seq<byte>)
    requires |a| == |b| && Value(a) == Value(b)
    ensures a == b
  {
    var n := |a|;
    if n > 0 {
      LastDigits(Value(a[..n - 1]), a[n - 1] as int, Value(b[..n - 1]), b[n - 1] as int);
      ValueInjective(a[..n - 1], b[..n - 1]);
      assert a == a[..n - 1] + [a[n - 1]] && b == b[..n - 1] + [b[n - 1]];
    }
  }

  lemma LastDigits(a: nat, x: int, b: nat, y: int)
    requires a * 0x100 + x == b * 0x100 + y && 0 <= x < 0x100 && 0 <= y < 0x100
    ensures a == b && x == y
  {
  }

  function PayloadPart(k: nat): nat {
    if k > 9 then k - 9 else 0
  }

  /** All bytes that are still to come are zeros; half a doubled 0x1a counts as the whole of it. */
  ghost predicate MissingAreZeros(x: Sent, k: nat) {
    && (forall j :: k <= j < 9 && j < |Wire(x)| ==> Wire(x)[j] == 0)
    && (forall i :: Arrived(x.data, PayloadPart(k)) <= i < |x.data| ==> x.data[i] == 0)
  }

  function Part(x: Sent, k: nat): seq<byte>
    requires k <= |Wire(x)| <= BUFFER
  {
    Filled(ZeroBuffer(), 0, Wire(x)[..k])
  }

  lemma PartHeader(x: Sent, k: nat)
    requires IsMessage(x.data) && 2 <= k < |Wire(x)| <= BUFFER
    ensures var buf, w := Part(x, k), Wire(x);
            && |buf| == BUFFER && buf[0] == ESC && buf[1] == TypeFor(|x.data|)
            && (forall j :: 0 <= j < 9 ==> buf[j] == if j < k then w[j] else 0)
            && (forall j :: k <= j < BUFFER ==> buf[j] == 0)
            && w[2..8] == TimestampBytes(x.ts) && w[8] == x.rssi
  {
    hide TimestampBytes, Escaped;
  }

  lemma PartPayload(x: Sent, k: nat)
    requires IsMessage(x.data) && 2 <= k < |Wire(x)| <= BUFFER
    ensures |Escaped(x.data)| <= 2 * |x.data| && PayloadPart(k) <= |Escaped(x.data)|
    ensures Part(x, k)[9..9 + 2 * |x.data|] ==
            Escaped(x.data)[..PayloadPart(k)] + Zeros(2 * |x.data| - PayloadPart(k))
  {
    hide Escaped, TimestampBytes;
    var w := Wire(x);
    assert w[9..] == Escaped(x.data);
    forall j | 9 <= j < 9 + 2 * |x.data|
      ensures Part(x, k)[j] == if j < k then Escaped(x.data)[j - 9] else 0
    {
      if j < k {
        assert w[9..][j - 9] == w[j];
      }
    }
  }

  lemma SameHeader(x: Sent, k: nat)
    requires IsMessage(x.data) && 2 <= k < |Wire(x)| <= BUFFER
    ensures |Part(x, k)| == BUFFER
    ensures (Value(Part(x, k)[2..8]) == x.ts % TS_RANGE && Part(x, k)[8] == x.rssi)
            <==> forall j :: k <= j < 9 && j < |Wire(x)| ==> Wire(x)[j] == 0
  {
    hide TimestampBytes, Value, Encoded, Filled;
    var buf, w := Part(x, k), Wire(x);
    WireShort(x);
    PartHeader(x, k);
    TimestampRoundTrip(x.ts);
    if Value(buf[2..8]) == x.ts % TS_RANGE {
      ValueInjective(buf[2..8], w[2..8]);
      forall j | 2 <= j < 8
        ensures buf[j] == w[j]
      {
        assert buf[2..8][j - 2] == buf[j] && w[2..8][j - 2] == w[j];
      }
    }
    if forall j :: k <= j < 9 && j < |w| ==> w[j] == 0 {
      assert buf[2..8] == w[2..8];
    }
  }

  lemma SamePayload(x: Sent, k: nat)
    requires IsMessage(x.data) && 2 <= k < |Wire(x)| <= BUFFER
    ensures |Part(x, k)| == BUFFER
    ensures var p, n := Destuffed(Part(x, k)[9..9 + 2 * |x.data|]), |x.data|;
            p[..Min(|p|, n)] == x.data <==> forall i :: Arrived(x.data, PayloadPart(k)) <= i < n ==> x.data[i] == 0
  {
    hide Destuffed, Escaped, Encoded, Filled, Arrived;
    var n, m := |x.data|, PayloadPart(k);
    var a := Arrived(x.data, m);
    PartHeader(x, k);
    PartPayload(x, k);
    CutPayload(x.data, m, 2 * n - m);
    ArrivedBytes(x.data, m);
    var p := x.data[..a] + Zeros(2 * n - m);
    assert p[..n] == x.data[..a] + Zeros(n - a);
    forall i | a <= i < n
      ensures p[..n][i] == 0
    {
    }
  }

  /** The first part of a frame, its type included, parses; to the whole frame exactly when what is missing is zeros. */
  lemma PartParses(x: Sent, k: nat)
    requires IsMessage(x.data) && 2 <= k < |Wire(x)| <= BUFFER
    ensures |Part(x, k)| == BUFFER && Part(x, k)[0] == ESC && ParseBeastFrame(Part(x, k)).Some?
    ensures ParseBeastFrame(Part(x, k)).value == FrameOf(x.data, x.rssi, x.ts) <==> MissingAreZeros(x, k)
  {
    hide Destuffed, Escaped, Encoded, Filled, Value, Arrived;
    PartHeader(x, k);
    SameHeader(x, k);
    SamePayload(x, k);
    assert MaxPayload(Part(x, k)[1]) == |x.data|;
  }

  // ---- the first read ----

  /** Behind its first byte, nothing in the first part of an unambiguous frame parses. */
  lemma PartClean(x: Sent, k: nat)
    requires IsMessage(x.data) && Unambiguous(Wire(x)) && 2 <= k < |Wire(x)| <= BUFFER
    ensures |Part(x, k)| == BUFFER
    ensures NothingParses(Part(x, k), 1, k) && Marked(Part(x, k), 1, k) == []
  {
    hide ParseBeastFrame, Encoded, Marked;
    var w := Wire(x)[..k];
    PartHeader(x, k);
    forall i | 1 <= i < |w| - 1 && w[i] == ESC
      ensures !IsType(w[i + 1])
    {
      assert w[i] == Wire(x)[i] && w[i + 1] == Wire(x)[i + 1];
    }
    InnerClean(Part(x, k), 0, w);
  }

  /** Where the first inner 0x1a of the first part stands, or its end. */
  function Consumed(x: Sent, k: nat): (c: nat)
    requires 1 <= k <= |Wire(x)|
    ensures 1 <= c <= k
  {
    NextMarker(Wire(x), k, 1)
  }

  lemma FirstScan(x: Sent, k: nat, max: nat)
    requires IsMessage(x.data) && Unambiguous(Wire(x)) && 2 <= k < |Wire(x)| <= BUFFER && max > 0
    ensures |Part(x, k)| == BUFFER && ParseBeastFrame(Part(x, k)).Some?
    ensures ScanBuffer(Part(x, k), k, 0, Scanned([], 0), max) ==
            Scanned([ParseBeastFrame(Part(x, k)).value], Consumed(x, k))
  {
    hide ParseBeastFrame, Encoded;
    var buf := Part(x, k);
    PartParses(x, k);
    PartClean(x, k);
    assert buf[0..] == buf && buf[..k] == Wire(x)[..k];
    SamePrefixMarker(buf, Wire(x), k, 1);
    var g := ParseBeastFrame(buf).value;
    var next := NextMarker(buf, k, 1);
    assert [] + [g] == [g];
    NothingScanned(buf, k, next, Scanned([g], next), max);
  }

  lemma {:induction false} SamePrefixMarker(a: seq<byte>, b: seq<byte>, k: nat, i: nat)
    requires i <= k <= |a| && k <= |b| && a[..k] == b[..k]
    ensures NextMarker(a, k, i) == NextMarker(b, k, i)
    decreases k - i
  {
    if i < k {
      assert a[..k][i] == b[..k][i];
      SamePrefixMarker(a, b, k, i + 1);
    }
  }

  // ---- the second read ----

  /** A stale byte of the first part, a frame type, stands behind the last byte of the second, an 0x1a. */
  predicate StaleMarker(x: Sent, k: nat)
    requires 1 <= k <= |Wire(x)|
  {
    var w := Wire(x);
    var end := |w| - Consumed(x, k);
    EndsInMarker(w) && end < k && IsType(w[end])
  }

  /** The buffer after the second read: the frame from the kept bytes on, and what the first read left. */
  function Second(x: Sent, k: nat): (buf: seq<byte>)
    requires 2 <= k < |Wire(x)| <= BUFFER
    ensures |buf| == BUFFER
  {
    var c := Consumed(x, k);
    Wire(x)[c..] + Part(x, k)[|Wire(x)| - c..]
  }

  lemma SecondIsFilled(x: Sent, k: nat)
    requires 2 <= k < |Wire(x)| <= BUFFER
    ensures var c, w := Consumed(x, k), Wire(x);
            && (c < k ==> Filled(Shifted(Part(x, k), c, k), k - c, w[k..]) == Second(x, k))
            && (c == k ==> Filled(Part(x, k), 0, w[k..]) == Second(x, k))
  {
    hide Encoded, Consumed;
    var c, w, buf := Consumed(x, k), Wire(x), Part(x, k);
    assert buf[c..k] == w[c..k];
    assert w[c..] == w[c..k] + w[k..];
  }

  lemma SecondMarked(x: Sent, k: nat)
    requires IsMessage(x.data) && Unambiguous(Wire(x)) && 2 <= k < |Wire(x)| <= BUFFER - 9
    ensures var end := |Wire(x)| - Consumed(x, k);
            Marked(Second(x, k), 0, end) == [] <==> !StaleMarker(x, k)
  {
    hide ParseBeastFrame, Encoded, Marked, IsType, Consumed;
    var w, c, buf := Wire(x), Consumed(x, k), Second(x, k);
    var end := |w| - c;
    forall p | 0 <= p < end
      ensures buf[p] == w[c + p]
    {
    }
    SecondStale(x, k);
    EscIsNoType();
    if StaleMarker(x, k) {
      MarkerAt(buf, end - 1);
      MarkedSplit(buf, 0, end - 1, end);
      LastMarked(buf, end);
    } else {
      forall p | 0 <= p < end
        ensures buf[p] != ESC || ParseBeastFrame(buf[p..]).None?
      {
        MarkerOrNot(buf, p);
        assert p + 1 < end && buf[p] == ESC ==> !IsType(w[c + p + 1]);
      }
      NothingMarked(buf, 0, end);
    }
  }

  lemma SecondStale(x: Sent, k: nat)
    requires IsMessage(x.data) && 2 <= k < |Wire(x)| <= BUFFER - 9
    ensures var end := |Wire(x)| - Consumed(x, k);
            Second(x, k)[end] == if end < k then Wire(x)[end] else 0
    ensures !IsType(0)
  {
    hide Encoded, Consumed;
    PartBytes(x, k, |Wire(x)| - Consumed(x, k));
  }

  lemma PartBytes(x: Sent, k: nat, j: nat)
    requires k <= |Wire(x)| <= BUFFER && j < BUFFER
    ensures |Part(x, k)| == BUFFER && Part(x, k)[j] == if j < k then Wire(x)[j] else 0
  {
    hide Encoded;
  }

  lemma LastMarked(buf: seq<byte>, end: nat)
    requires 0 < end <= |buf| && buf[end - 1] == ESC && ParseBeastFrame(buf[end - 1..]).Some?
    ensures |Marked(buf, end - 1, end)| > 0
  {
    hide ParseBeastFrame;
  }

  /** A run over two parts whose first one parses. */
  lemma SecondTurn(x: Sent, k: nat, max: nat, g: Frame)
    requires IsMessage(x.data) && Unambiguous(Wire(x)) && 2 <= k < |Wire(x)| <= BUFFER - 9 && max > 1
    ensures var c := Consumed(x, k);
            var later := [Data(Wire(x)[k..])] + [];
            var r := if c < k then ReadAll(Shifted(Part(x, k), c, k), k - c, [g], later, max)
                     else ReadAll(Part(x, k), 0, [g], later, max);
            r.Ok? && |r.frames| >= 1 && r.frames[0] == g && (r.frames == [g] <==> !StaleMarker(x, k))
  {
    hide ScanBuffer, Encoded, Filled, Shifted, ReadAll, Marked, StaleMarker, ParseBeastFrame, Consumed, Second;
    var c, w, next := Consumed(x, k), Wire(x), Second(x, k);
    var end := |w| - c;
    SecondIsFilled(x, k);
    SecondMarked(x, k);
    ScanIsMarked(next, end, 0, Scanned([g], 0), max);
    if c < k {
      OneTurn(Shifted(Part(x, k), c, k), k - c, [g], w[k..], [], max);
    } else {
      OneTurn(Part(x, k), 0, [g], w[k..], [], max);
    }
    var s := ScanBuffer(next, end, 0, Scanned([g], 0), max);
    assert s.frames[0] == g && (s.frames == [g] <==> Marked(next, 0, end) == []);
    if |s.frames| < max {
      if s.consumed < end {
        NoReads(Shifted(next, s.consumed, end), end - s.consumed, s.frames, max);
      } else {
        NoReads(next, 0, s.frames, max);
      }
    }
  }

  /** A first read that brings the type of the frame, or more. */
  lemma TypeArrived(x: Sent, k: nat, max: nat)
    requires IsMessage(x.data) && Unambiguous(Wire(x)) && 2 <= k < |Wire(x)| && max > 0
    ensures var r := ReadAll(ZeroBuffer(), 0, [], [Data(Wire(x)[..k])] + [Data(Wire(x)[k..])], max);
            r == Ok([FrameOf(x.data, x.rssi, x.ts)]) <==> MissingAreZeros(x, k) && (max == 1 || !StaleMarker(x, k))
  {
    hide ScanBuffer, Encoded, Filled, Shifted, ReadAll, StaleMarker, ParseBeastFrame, Consumed, MissingAreZeros,
         FrameOf, Part;
    WireShort(x);
    var later := [Data(Wire(x)[k..])];
    assert later + [] == later;
    PartParses(x, k);
    FirstScan(x, k, max);
    assert Part(x, k) == Filled(ZeroBuffer(), 0, Wire(x)[..k]) by { PartIs(x, k); }
    OneTurn(ZeroBuffer(), 0, [], Wire(x)[..k], later, max);
    if max > 1 {
      SecondTurn(x, k, max, ParseBeastFrame(Part(x, k)).value);
    }
  }

  lemma PartIs(x: Sent, k: nat)
    requires k <= |Wire(x)| <= BUFFER
    ensures Part(x, k) == Filled(ZeroBuffer(), 0, Wire(x)[..k])
  {
  }

  // ---- a lone marker ----

  /** A lone marker is kept for the next read. */
  lemma MarkerKept(x: Sent, max: nat)
    requires IsMessage(x.data) && max > 0
    ensures var w := Wire(x);
            ReadAll(ZeroBuffer(), 0, [], [Data(w[..1])] + [Data(w[1..])], max)
            == ReadAll(Filled(ZeroBuffer(), 0, w[..1]), 1, [], [Data(w[1..])] + [], max)
  {
    hide Escaped, Encoded, ParseBeastFrame, ReadAll;
    var w := Wire(x);
    WireStart(x);
    WireShort(x);
    var first := Filled(ZeroBuffer(), 0, w[..1]);
    MarkerAt(first, 0);
    assert ScanBuffer(first, 1, 0, Scanned([], 0), max) == Scanned([], 0);
    assert Shifted(first, 0, 1) == first;
    OneTurn(ZeroBuffer(), 0, [], w[..1], [Data(w[1..])], max);
    assert [Data(w[1..])] + [] == [Data(w[1..])];
  }

  lemma MarkerCompleted(x: Sent, max: nat)
    requires IsMessage(x.data) && Unambiguous(Wire(x)) && max > 0
    ensures var w := Wire(x);
            ReadAll(Filled(ZeroBuffer(), 0, w[..1]), 1, [], [Data(w[1..])] + [], max)
            == Ok([FrameOf(x.data, x.rssi, x.ts)])
  {
    hide Marked, Escaped, Encoded, ParseBeastFrame, Unambiguous, ScanBuffer, Shifted, ReadAll, CompletedAt, BytesAt;
    var w := Wire(x);
    WireStart(x);
    WireShort(x);
    var first := Filled(ZeroBuffer(), 0, w[..1]);
    var second := Filled(first, 1, w[1..]);
    assert second == Filled(ZeroBuffer(), 0, w);
    ScanIsMarked(second, |w|, 0, Scanned([], 0), max);
    assert [] + Marked(second, 0, |w|) == Marked(second, 0, |w|);
    StreamAtStart(w);
    FrameMarked(second, 0, x);
    InnerClean(second, 0, w);
    assert Marked(second, 0, |w|) == [FrameOf(x.data, x.rssi, x.ts)];
    OneTurn(first, 1, [], w[1..], [], max);
    var s := ScanBuffer(second, |w|, 0, Scanned([], 0), max);
    if |s.frames| < max {
      if s.consumed < |w| {
        NoReads(Shifted(second, s.consumed, |w|), |w| - s.consumed, s.frames, max);
      } else {
        NoReads(second, 0, s.frames, max);
      }
    }
  }

  /**
    * Exactly when one unambiguous frame comes back from two reads: the first read ends right behind the marker; or all
    * that the second read brings is zeros, half a doubled 0x1a counting as the whole of it, and the reader stops at one
    * frame or finds no stale frame type behind a last 0x1a. The reader is meant to keep partial data between reads; of
    * a frame it keeps the marker, and no more.
    */
  lemma SplitFrame(x: Sent, k: nat, max: nat)
    requires IsMessage(x.data) && Unambiguous(Wire(x)) && 1 <= k < |Wire(x)| && max > 0
    ensures var r := ReadAll(ZeroBuffer(), 0, [], [Data(Wire(x)[..k]), Data(Wire(x)[k..])], max);
            r == Ok([FrameOf(x.data, x.rssi, x.ts)])
            <==> k == 1 || (MissingAreZeros(x, k) && (max == 1 || !StaleMarker(x, k)))
  {
    hide ReadAll, Encoded, Unambiguous, MissingAreZeros, StaleMarker;
    assert [Data(Wire(x)[..k])] + [Data(Wire(x)[k..])] == [Data(Wire(x)[..k]), Data(Wire(x)[k..])];
    if k == 1 {
      MarkerKept(x, max);
      MarkerCompleted(x, max);
    } else {
      TypeArrived(x, k, max);
    }
  }

  // ---- a concrete run ----

  lemma {:induction false} EscapedPlain(data: seq<byte>)
    requires ESC !in data
    ensures Escaped(data) == data
  {
    if |data| > 0 {
      EscapedPlain(data[..|data| - 1]);
    }
  }

  lemma {:induction false} BigEndianZero(n: nat)
    ensures BigEndian(0, n) == Zeros(n)
  {
    if n > 0 {
      BigEndianZero(n - 1);
      assert Zeros(n) == Zeros(n - 1) + [0];
    }
  }

  lemma SevenZeros()
    ensures Zeros(7) == Zeros(6) + [0]
  {
  }

  /** A frame sent at time zero with signal byte zero. */
  lemma ZeroWire(data: seq<byte>)
    ensures Wire(Sent(data, 0, 0)) == [ESC, TypeFor(|data|)] + Zeros(7) + Escaped(data)
  {
    hide Zeros, Escaped;
    BigEndianZero(6);
    SevenZeros();
  }

  /** Without 0x1a the payload is printed as it is. */
  lemma PlainWire(data: seq<byte>)
    requires ESC !in data
    ensures Wire(Sent(data, 0, 0)) == [ESC, TypeFor(|data|)] + Zeros(7) + data
  {
    hide Encoded;
    EscapedPlain(data);
    ZeroWire(data);
  }

  lemma EscapedMarkerEnd(data: seq<byte>)
    requires ESC !in data
    ensures Escaped(data + [ESC]) == data + [ESC, ESC]
  {
    EscapedPlain(data);
    var all := data + [ESC];
    assert all[..|data|] == data && all[|data|] == ESC;
  }

  lemma MarkerEndWire(data: seq<byte>)
    requires ESC !in data
    ensures Wire(Sent(data + [ESC], 0, 0)) == [ESC, TypeFor(|data| + 1)] + Zeros(7) + (data + [ESC, ESC])
  {
    hide Encoded, Escaped;
    EscapedMarkerEnd(data);
    ZeroWire(data + [ESC]);
  }

  const LONG_PAYLOAD: seq<byte> := [0, 0, 0, 0, 0, 0, 0, 0, 0x31, 0, 0, 0, 0, 0]
  const SHORT_PAYLOAD: seq<byte> := [0, 0, 0, 0, 0, 0]

  lemma NoMarkers()
    ensures ESC !in LONG_PAYLOAD && ESC !in SHORT_PAYLOAD
  {
    assert forall i :: 0 <= i < 14 ==> LONG_PAYLOAD[i] != ESC;
    assert forall i :: 0 <= i < 6 ==> SHORT_PAYLOAD[i] != ESC;
  }

  lemma LongWire()
    ensures var w := Wire(Sent(LONG_PAYLOAD, 0, 0));
            |w| == 23 && w[17] == 0x31 && Unambiguous(w) && Kept(Sent(LONG_PAYLOAD, 0, 0)) == []
  {
    hide Encoded;
    NoMarkers();
    PlainWire(LONG_PAYLOAD);
    var w := Wire(Sent(LONG_PAYLOAD, 0, 0));
    forall k | 1 <= k < 23
      ensures w[k] != ESC
    {
      assert k >= 9 ==> w[k] == LONG_PAYLOAD[k - 9];
    }
    assert NextMarker(w, 23, 1) == 23;
  }

  lemma ShortWire()
    ensures var v := Wire(Sent(SHORT_PAYLOAD + [ESC], 0, 0));
            |v| == 17 && EndsInMarker(v) && Unambiguous(v)
  {
    hide Encoded;
    NoMarkers();
    MarkerEndWire(SHORT_PAYLOAD);
    EscIsNoType();
    var v := Wire(Sent(SHORT_PAYLOAD + [ESC], 0, 0));
    forall k | 1 <= k < 15
      ensures v[k] != ESC
    {
      assert k >= 9 ==> v[k] == SHORT_PAYLOAD[k - 9];
    }
  }

  lemma {:induction false} NoneArrived(data: seq<byte>)
    ensures Arrived(data, 0) == 0
  {
    if |data| > 0 {
      NoneArrived(data[..|data| - 1]);
    }
  }

  /** A frame whose header comes in one read and whose payload in the next is lost, whatever the limit. */
  lemma CutFrameMisread(max: nat)
    requires max > 0
    ensures var x := Sent(LONG_PAYLOAD, 0, 0);
            && Unambiguous(Wire(x)) && |Wire(x)| == 23
            && ReadAll(ZeroBuffer(), 0, [], [Data(Wire(x)[..9]), Data(Wire(x)[9..])], max)
               != Ok([FrameOf(x.data, x.rssi, x.ts)])
  {
    hide ReadAll, Encoded, Unambiguous, StaleMarker, FrameOf;
    LongWire();
    NoneArrived(LONG_PAYLOAD);
    assert LONG_PAYLOAD[8] != 0;
    SplitFrame(Sent(LONG_PAYLOAD, 0, 0), 9, max);
  }

  lemma OneInStream(x: Sent)
    ensures Stream([x]) == Wire(x) && AllFrames([[x]]) == Frames([x])
  {
    hide Encoded;
    assert [x][0] == x && [x][1..] == [];
    assert Stream([]) == [];
    assert [[x]][1..] == [];
  }

  /**
    * Two unambiguous frames in two reads, a long one and a short one whose payload ends in 0x1a: behind that 0x1a the
    * buffer still has a byte of the long one, 0x31, and the reader returns a third frame.
    */
  lemma StaleByteMisread()
    ensures var chunks := [[Sent(LONG_PAYLOAD, 0, 0)], [Sent(SHORT_PAYLOAD + [ESC], 0, 0)]];
            && AllUnambiguous(chunks[0]) && AllUnambiguous(chunks[1])
            && ReadAll(ZeroBuffer(), 0, [], Reads(chunks), 3) != Ok(AllFrames(chunks))
  {
    hide ReadAll, Encoded, Unambiguous, Kept, Reads;
    var x, y := Sent(LONG_PAYLOAD, 0, 0), Sent(SHORT_PAYLOAD + [ESC], 0, 0);
    var chunks := [[x], [y]];
    LongWire();
    ShortWire();
    OneInStream(x);
    OneInStream(y);
    assert chunks[1..] == [[y]];
    var img := Loaded(ZeroBuffer(), [], [x]);
    assert img[17] == 0x31;
    assert CompletedAt(Loaded(img, [], [y]), 0, Wire(y));
    assert !FaithfulRead(img, [], [y]);
    assert |AllFrames(chunks)| == 2;
    assert chunks[0][|chunks[0]| - 1] == x;
    NotFaithful(x, y);
    WholeFrameReads(chunks, 3);
  }

  lemma NotFaithful(x: Sent, y: Sent)
    requires ReadFits(0, [x]) && ReadFits(0, [y]) && Kept(x) == []
    requires |Stream([x])| <= BUFFER && |Stream([y])| <= BUFFER
    requires !FaithfulRead(Loaded(ZeroBuffer(), [], [x]), [], [y])
    ensures ReadsFit(0, [[x], [y]]) && !Faithful(ZeroBuffer(), [], [[x], [y]])
  {
    hide Kept, FaithfulRead, Loaded, ReadFits;
    var chunks := [[x], [y]];
    assert ReadsFit(0, [[y]]) by { assert [[y]][0] == [y] && [[y]][1..] == []; }
    assert chunks[0] == [x] && chunks[1..] == [[y]] && [x][|[x]| - 1] == x && [[y]][0] == [y];
  }
}
