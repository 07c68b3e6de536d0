/** Subtracting a decoded message from the magnitude buffer, in place. */
module Subtraction {
  import opened Bits
  import opened Slicer

  const PREAMBLE_SAMPLES: nat := 16
  const BIT_SPREAD: nat := 8
  const PREAMBLE_HIGH: nat := 300
  const PREAMBLE_LOW: nat := 50
  const QI_HIGH: nat := 250
  const QI_LOW: nat := 40
  const PREAMBLE_BITS: seq<nat> := [1, 0, 1, 0, 1, 0, 1, 0, 1, 1, 1, 1, 1, 1, 1, 1]

  /** The share of the full amounts that a signal level asks for. */
  function Share(signal: real): (scale: real)
    ensures 0.25 <= scale <= 2.0
  {
    var s := signal / 200.0;
    if s < 0.25 then 0.25 else if s > 2.0 then 2.0 else s
  }

  function Scaled(full: nat, signal: real): (amount: nat)
    ensures amount <= 2 * full
  {
    var x := full as real * Share(signal);
    assert 0.0 <= x <= 2.0 * full as real;
    x.Floor
  }

  function SaturatingSub(x: u16, amount: nat): (y: u16)
    ensures y <= x
  {
    if x < amount then 0 else x - amount
  }

  function TotalSamples(nbytes: nat): nat {
    LONG_MSG_SAMPLES + if nbytes < SHORT_MSG_BYTES then 0 else nbytes - SHORT_MSG_BYTES
  }

  /** The amounts of one message at one signal level. */
  datatype Pulse = Pulse(bytes: seq<bv8>, pos: nat, signal: real) {

    function End(len: nat): nat {
      if pos + TotalSamples(|bytes|) < len then pos + TotalSamples(|bytes|) else len
    }

    function BitAmount(n: nat): nat
      requires n < 8 * |bytes|
    {
      if BitAt(bytes[n / 8], n % 8) then Scaled(QI_HIGH, signal) else Scaled(QI_LOW, signal)
    }

    function PreambleAmount(k: nat): nat
      requires k < PREAMBLE_SAMPLES
    {
      if PREAMBLE_BITS[k] == 1 then Scaled(PREAMBLE_HIGH, signal) else Scaled(PREAMBLE_LOW, signal)
    }

    /** The first sample of data bit `n`: the bits are 95 samples apart. */
    function BitStart(n: nat): nat {
      pos + PREAMBLE_SAMPLES + 95 * n
    }

    /** What the sample `i` of a buffer of length `len` loses. */
    function Amount(i: nat, len: nat): nat {
      if i < pos || i >= End(len) then 0
      else if i < pos + PREAMBLE_SAMPLES then PreambleAmount(i - pos)
      else
        var k := i - (pos + PREAMBLE_SAMPLES);
        if k / 95 < 8 * |bytes| && k % 95 < BIT_SPREAD then BitAmount(k / 95) else 0
    }

    function SubtractedFrom(mag: seq<u16>): (r: seq<u16>)
      ensures |r| == |mag|
    {
      seq(|mag|, i requires 0 <= i < |mag| => SaturatingSub(mag[i], Amount(i, |mag|)))
    }

    lemma AmountOfBit(n: nat, k: nat, len: nat)
      requires n < 8 * |bytes| && k < BIT_SPREAD && BitStart(n) + k < End(len)
      ensures Amount(BitStart(n) + k, len) == BitAmount(n)
    {
      assert (95 * n + k) / 95 == n && (95 * n + k) % 95 == k;
    }

    lemma NothingAfter(i: nat, len: nat)
      requires i >= BitStart(8 * |bytes|)
      ensures Amount(i, len) == 0
    {
      var k := i - (pos + PREAMBLE_SAMPLES);
      assert k / 95 >= 8 * |bytes|;
    }

    /** Only the first three data bits are taken out of the buffer, although the message has 56 or 112. */
    lemma OnlyThreeBits(i: nat, len: nat)
      requires |bytes| <= LONG_MSG_BYTES && i >= BitStart(2) + BIT_SPREAD
      ensures Amount(i, len) == 0
    {
      if i < End(len) {
        var k := i - (pos + PREAMBLE_SAMPLES);
        assert 198 <= k < 269 + 7 - 16;
        assert k / 95 == 2 && k % 95 == k - 190;
      }
    }
  }

  /** The state of the buffer when the samples before `upto` have been done. */
  ghost predicate DoneUpTo(p: Pulse, before: seq<u16>, now: seq<u16>, upto: nat) {
    && |now| == |before|
    && (forall i :: 0 <= i < |now| && i < upto ==> now[i] == SaturatingSub(before[i], p.Amount(i, |now|)))
    && (forall i :: 0 <= i < |now| && i >= upto ==> now[i] == before[i])
  }

  method SubtractPreamble(p: Pulse, mag: array<u16>)
    requires p.pos <= mag.Length
    modifies mag
    ensures DoneUpTo(p, old(mag[..]), mag[..], p.pos + PREAMBLE_SAMPLES)
  {
    hide Scaled, Share;
    var end := p.End(mag.Length);
    var n := if end - p.pos < PREAMBLE_SAMPLES then end - p.pos else PREAMBLE_SAMPLES;
    for i := 0 to n
      invariant DoneUpTo(p, old(mag[..]), mag[..], p.pos + i)
    {
      var amount := if PREAMBLE_BITS[i] == 1 then Scaled(PREAMBLE_HIGH, p.signal) else Scaled(PREAMBLE_LOW, p.signal);
      mag[p.pos + i] := SaturatingSub(mag[p.pos + i], amount);
    }
  }

  /** The eight samples of data bit `n`. */
  method SubtractBit(p: Pulse, n: nat, mag: array<u16>, ghost before: seq<u16>)
    requires n < 8 * |p.bytes|
    requires DoneUpTo(p, before, mag[..], p.BitStart(n))
    modifies mag
    ensures DoneUpTo(p, before, mag[..], p.BitStart(n + 1))
  {
    hide Scaled, Share, BitAt;
    var end, pos := p.End(mag.Length), p.BitStart(n);
    for k := 0 to BIT_SPREAD
      invariant DoneUpTo(p, before, mag[..], pos + k)
    {
      var idx := pos + k;
      if idx >= end {
        break;
      }
      p.AmountOfBit(n, k, mag.Length);
      if BitAt(p.bytes[n / 8], n % 8) {
        mag[idx] := SaturatingSub(mag[idx], Scaled(QI_HIGH, p.signal));
      } else {
        mag[idx] := SaturatingSub(mag[idx], Scaled(QI_LOW, p.signal));
      }
    }
  }

  /** The advance after a bit: a phase of 0 makes it five table steps of 19 samples. */
  method Advance(pos: nat, phase: nat) returns (pos': nat, phase': nat)
    requires phase == 0
    ensures pos' == pos + 95 && phase' == 0
  {
    pos', phase' := pos, phase;
    var advances := SLICE_ADVANCE[phase];
    for i := 0 to 8
      invariant i <= 4 && phase' == i && pos' == pos + 19 * i
    {
      pos' := pos' + advances;
      phase' := SLICE_NEXT_PHASE[phase'];
      if phase' == 0 {
        break;
      }
    }
  }

  lemma DoneBeyondEnd(p: Pulse, before: seq<u16>, now: seq<u16>, upto: nat)
    requires DoneUpTo(p, before, now, upto)
    requires upto >= p.End(|now|) || upto == p.BitStart(8 * |p.bytes|)
    ensures now == p.SubtractedFrom(before)
  {
    hide BitAt, Scaled;
    forall i | upto <= i < |now|
      ensures p.Amount(i, |now|) == 0
    {
      if upto < p.End(|now|) {
        p.NothingAfter(i, |now|);
      }
    }
  }

  /** The whole subtraction, in place. */
  method SubtractFrom(p: Pulse, mag: array<u16>)
    requires p.pos <= mag.Length
    modifies mag
    ensures mag[..] == p.SubtractedFrom(old(mag[..]))
  {
    ghost var before := mag[..];
    var end := p.End(mag.Length);
    SubtractPreamble(p, mag);
    var pos: nat, phase: nat := p.pos + PREAMBLE_SAMPLES, 0;
    for b := 0 to |p.bytes|
      invariant phase == 0 && DoneUpTo(p, before, mag[..], pos)
      invariant pos >= end || pos == p.BitStart(8 * b)
    {
      for bit := 0 to 8
        invariant phase == 0 && DoneUpTo(p, before, mag[..], pos)
        invariant pos >= end || pos == p.BitStart(8 * b + bit)
      {
        if pos >= end {
          break;
        }
        SubtractBit(p, 8 * b + bit, mag, before);
        pos, phase := Advance(pos, phase);
      }
    }
    DoneBeyondEnd(p, before, mag[..], pos);
  }

  /** A subtraction never raises a sample, and leaves everything outside the window of the message alone. */
  lemma SubtractionLocal(p: Pulse, mag: seq<u16>)
    ensures var r := p.SubtractedFrom(mag);
            forall i :: 0 <= i < |mag| ==>
                          && r[i] <= mag[i]
                          && (i < p.pos || i >= p.pos + TotalSamples(|p.bytes|) ==> r[i] == mag[i])
  {
    hide BitAt, Scaled;
  }
}
