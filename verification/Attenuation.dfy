/** What subtracting a message does to the samples, in numbers, and what it leaves for the next pass. */
module Attenuation {
  import opened Bits
  import opened Slicer
  import opened Demod
  import opened Subtraction

  // ---- amounts ----

  /** An amount is proportional to the signal level, rounded down, with 200 for the whole of it. */
  lemma AmountProportional(full: nat, signal: real)
    requires 50.0 <= signal <= 400.0
    ensures 200.0 * Scaled(full, signal) as real <= full as real * signal < 200.0 * (Scaled(full, signal) as real + 1.0)
  {
    var x := full as real * Share(signal);
    assert 200.0 * Share(signal) == signal;
    assert 200.0 * x == full as real * signal;
  }

  /** Weaker signals count as 50 and stronger ones as 400. */
  lemma AmountClamped(full: nat, signal: real)
    ensures signal <= 50.0 ==> Scaled(full, signal) == Scaled(full, 50.0)
    ensures signal >= 400.0 ==> Scaled(full, signal) == 2 * full
  {
    assert signal >= 400.0 ==> full as real * Share(signal) == (2 * full) as real;
  }

  /** A stronger signal takes at least as much. */
  lemma AmountMonotone(full: nat, weak: real, strong: real)
    requires weak <= strong
    ensures Scaled(full, weak) <= Scaled(full, strong)
  {
    var d := Share(strong) - Share(weak);
    assert d >= 0.0;
    assert full as real * d >= 0.0;
    assert full as real * Share(strong) == full as real * Share(weak) + full as real * d;
  }

  // ---- samples ----

  /** What the sample number `k` of a message loses at a signal level of 200. */
  function FullLoss(bytes: seq<bv8>, k: nat): nat
    requires |bytes| > 0
  {
    if k < 16 then (if k == 1 || k == 3 || k == 5 || k == 7 then 50 else 300)
    else if k < 24 then OfBit(BitAt(bytes[0], 0))
    else if 111 <= k < 119 then OfBit(BitAt(bytes[0], 1))
    else if 206 <= k < 214 then OfBit(BitAt(bytes[0], 2))
    else 0
  }

  function OfBit(one: bool): nat {
    if one then 250 else 40
  }

  lemma NothingScaled(signal: real)
    ensures Scaled(0, signal) == 0
  {
  }

  /** Every sample behind the position of a message loses its part, and none falls below zero. */
  lemma SampleLoss(p: Pulse, mag: seq<u16>, k: nat)
    requires |p.bytes| == SHORT_MSG_BYTES || |p.bytes| == LONG_MSG_BYTES
    requires p.pos + k < |mag|
    ensures var loss := Scaled(FullLoss(p.bytes, k), p.signal);
            var before, after := mag[p.pos + k] as int, p.SubtractedFrom(mag)[p.pos + k] as int;
            after == if before < loss then 0 else before - loss
  {
    hide BitAt, Scaled;
    NothingScaled(p.signal);
    if k >= 16 {
      if k - 16 >= 198 {
        p.OnlyThreeBits(p.pos + k, |mag|);
      } else if k - 16 >= 190 {
        assert (k - 16) / 95 == 2 && (k - 16) % 95 == k - 206;
      } else if k - 16 >= 95 {
        assert (k - 16) / 95 == 1 && (k - 16) % 95 == k - 111;
      }
    }
  }

  // ---- the preamble of a message that has been taken out ----

  /**
    * Taking a message out does not take its preamble out: the next pass finds it again unless the subtraction has used
    * up sample 1 or sample 12 of it.
    */
  lemma PreambleFoundAgain(p: Pulse, mag: seq<u16>)
    requires |p.bytes| == SHORT_MSG_BYTES || |p.bytes| == LONG_MSG_BYTES
    requires p.pos + 15 < |mag|
    ensures PreambleAt(p.SubtractedFrom(mag), p.pos)
            <==> PreambleAt(mag, p.pos)
                 && mag[p.pos + 1] as int > Scaled(50, p.signal) && mag[p.pos + 12] as int > Scaled(300, p.signal)
  {
    hide BitAt, Scaled, Pulse.SubtractedFrom;
    SampleLoss(p, mag, 1);
    SampleLoss(p, mag, 7);
    SampleLoss(p, mag, 12);
    SampleLoss(p, mag, 14);
    SampleLoss(p, mag, 15);
  }
}
