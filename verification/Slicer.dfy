/** The 2.4 MHz bit slicer: five correlators driven by phase tables. */
module Slicer {
  import opened Bits

  /** Magnitude samples. */
  type u16 = x: int | 0 <= x < 0x10000

  const LONG_MSG_BYTES: nat := 14
  const SHORT_MSG_BYTES: nat := 7
  const LONG_MSG_SAMPLES: nat := 269

  // ---- the correlators, on the samples from index `i` on ----

  function SlicePhase0(m: seq<u16>, i: nat): int
    requires i + 2 < |m|
  {
    18 * (m[i] as int) - 15 * (m[i + 1] as int) - 3 * (m[i + 2] as int)
  }

  function SlicePhase1(m: seq<u16>, i: nat): int
    requires i + 2 < |m|
  {
    14 * (m[i] as int) - 5 * (m[i + 1] as int) - 9 * (m[i + 2] as int)
  }

  function SlicePhase2(m: seq<u16>, i: nat): int
    requires i + 2 < |m|
  {
    16 * (m[i] as int) + 5 * (m[i + 1] as int) - 20 * (m[i + 2] as int)
  }

  function SlicePhase3(m: seq<u16>, i: nat): int
    requires i + 2 < |m|
  {
    7 * (m[i] as int) + 11 * (m[i + 1] as int) - 18 * (m[i + 2] as int)
  }

  function SlicePhase4(m: seq<u16>, i: nat): int
    requires i + 3 < |m|
  {
    4 * (m[i] as int) + 15 * (m[i + 1] as int) - 20 * (m[i + 2] as int) + (m[i + 3] as int)
  }

  function SliceFunc(k: nat, m: seq<u16>, i: nat): int
    requires k < 5 && i + (if k == 4 then 3 else 2) < |m|
  {
    match k
    case 0 => SlicePhase0(m, i)
    case 1 => SlicePhase1(m, i)
    case 2 => SlicePhase2(m, i)
    case 3 => SlicePhase3(m, i)
    case _ => SlicePhase4(m, i)
  }

  const SLICE_OFFSETS: seq<seq<nat>> := [
    [0, 2, 4, 7, 9, 12, 14, 16],
    [0, 2, 5, 7, 9, 12, 14, 17],
    [0, 2, 5, 7, 10, 12, 14, 17],
    [0, 3, 5, 7, 10, 12, 15, 17],
    [0, 3, 5, 8, 10, 12, 15, 17]
  ]

  const SLICE_ADVANCE: seq<nat> := [19, 19, 19, 19, 20]
  const SLICE_NEXT_PHASE: seq<nat> := [1, 2, 3, 4, 0]

  const SLICE_FUNC_MAP: seq<seq<nat>> := [
    [0, 2, 4, 1, 3, 0, 2, 4],
    [1, 3, 0, 2, 4, 1, 3, 0],
    [2, 4, 1, 3, 0, 2, 4, 1],
    [3, 0, 2, 4, 1, 3, 0, 2],
    [4, 1, 3, 0, 2, 4, 1, 3]
  ]

  /** The tables are a clock of five ticks per sample and twelve ticks per bit. */
  lemma TablesAreAClock(phase: nat, bit: nat)
    requires phase < 5 && bit < 8
    ensures |SLICE_OFFSETS| == |SLICE_FUNC_MAP| == |SLICE_ADVANCE| == |SLICE_NEXT_PHASE| == 5
    ensures |SLICE_OFFSETS[phase]| == |SLICE_FUNC_MAP[phase]| == 8
    ensures 5 * SLICE_OFFSETS[phase][bit] + SLICE_FUNC_MAP[phase][bit] == phase + 12 * bit
    ensures SLICE_FUNC_MAP[phase][bit] < 5
    ensures 5 * SLICE_ADVANCE[phase] + SLICE_NEXT_PHASE[phase] == phase + 96
    ensures SLICE_NEXT_PHASE[phase] < 5
  {
  }

  // ---- the slicer as a clock: the bit that begins at tick `t` ----

  /** The samples a decision at tick `t` reads are there. */
  predicate Readable(m: seq<u16>, t: nat) {
    t / 5 + (if t % 5 == 4 then 3 else 2) < |m|
  }

  predicate Decision(m: seq<u16>, t: nat)
    requires Readable(m, t)
  {
    SliceFunc(t % 5, m, t / 5) > 0
  }

  /** The guard of every call, `pos + 20 <= len`, makes the eight decisions of a byte readable. */
  lemma GuardReadable(m: seq<u16>, t: nat, bit: nat)
    requires t / 5 + 20 <= |m| && bit < 8
    ensures Readable(m, t + 12 * bit)
  {
    var phase := t % 5;
    TablesAreAClock(phase, bit);
    var u := phase + 12 * bit;
    assert t + 12 * bit == 5 * (t / 5) + u;
    assert (t + 12 * bit) / 5 == t / 5 + u / 5 && (t + 12 * bit) % 5 == u % 5;
  }

  function Pack(bits: seq<bool>): bv8
    requires |bits| <= 8
  {
    if |bits| == 0 then 0 else
      var b := Pack(bits[..|bits| - 1]);
      if bits[|bits| - 1] then b | Mask(|bits| - 1) else b
  }

  lemma {:induction false} PackBit(bits: seq<bool>, j: nat)
    requires |bits| <= 8 && j < 8
    ensures BitAt(Pack(bits), j) == (j < |bits| && bits[j])
  {
    hide BitAt, Mask;
    var n := |bits|;
    if n == 0 {
      ZeroBit(j);
    } else {
      PackBit(bits[..n - 1], j);
      if bits[n - 1] {
        OrBit(Pack(bits[..n - 1]), Mask(n - 1), j);
        MaskBit(n - 1, j);
      }
    }
  }

  lemma ZeroBit(j: nat)
    requires j < 8
    ensures !BitAt(0, j)
  {
  }

  predicate DecisionAt(m: seq<u16>, t: nat) {
    Readable(m, t) && Decision(m, t)
  }

  /** The byte whose first bit begins at tick `t`. */
  function SlicedByte(m: seq<u16>, t: nat): bv8 {
    Pack(seq(8, k requires 0 <= k < 8 => DecisionAt(m, t + 12 * k)))
  }

  lemma SlicedBit(m: seq<u16>, t: nat, k: nat)
    requires k < 8
    ensures BitAt(SlicedByte(m, t), k) == DecisionAt(m, t + 12 * k)
  {
    hide BitAt, DecisionAt;
    PackBit(seq(8, j requires 0 <= j < 8 => DecisionAt(m, t + 12 * j)), k);
  }

  method SliceByte(mag: seq<u16>, pos: nat, phase: nat) returns (byte: bv8, pos': nat, phase': nat)
    requires phase < 5 && pos + 20 <= |mag|
    ensures byte == SlicedByte(mag, 5 * pos + phase)
    ensures phase' < 5 && 5 * pos' + phase' == 5 * pos + phase + 96
  {
    hide BitAt, Mask, Decision, Readable, SliceFunc, SLICE_OFFSETS, SLICE_FUNC_MAP, SLICE_ADVANCE, SLICE_NEXT_PHASE;
    ghost var t := 5 * pos + phase;
    ghost var bits := seq(8, k requires 0 <= k < 8 => DecisionAt(mag, t + 12 * k));
    TablesAreAClock(phase, 0);
    byte := 0;
    for bit := 0 to 8
      invariant byte == Pack(bits[..bit])
    {
      TablesAreAClock(phase, bit);
      var funcIdx := SLICE_FUNC_MAP[phase][bit];
      var at := pos + SLICE_OFFSETS[phase][bit];
      ClockTick(mag, pos, phase, bit, at, funcIdx);
      var result := SliceFunc(funcIdx, mag, at);
      assert bits[..bit + 1][..bit] == bits[..bit];
      if result > 0 {
        byte := byte | Mask(bit);
      }
    }
    assert bits[..8] == bits;
    pos' := pos + SLICE_ADVANCE[phase];
    phase' := SLICE_NEXT_PHASE[phase];
  }

  lemma ClockTick(mag: seq<u16>, pos: nat, phase: nat, bit: nat, at: nat, funcIdx: nat)
    requires phase < 5 && pos + 20 <= |mag| && bit < 8 && funcIdx < 5
    requires 5 * (at - pos) + funcIdx == phase + 12 * bit
    ensures var t := 5 * pos + phase + 12 * bit;
            && t / 5 == at && t % 5 == funcIdx
            && at + (if funcIdx == 4 then 3 else 2) < |mag|
            && (DecisionAt(mag, t) <==> SliceFunc(funcIdx, mag, at) > 0)
  {
    hide SliceFunc;
    var t := 5 * pos + phase;
    assert t / 5 == pos && t % 5 == phase;
    GuardReadable(mag, t, bit);
    assert t + 12 * bit == 5 * at + funcIdx;
  }
}
