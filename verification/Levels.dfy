/** What the pre-check and the levels of a scan mean for the samples. */
module Levels {
  import opened Slicer
  import opened Ppm
  import opened Scoring
  import opened Demod
  import opened Preamble

  // ---- the pre-check ----

  /** A buffer of silence and of equal pulses in the samples `on`. */
  function Pulses(on: set<nat>, height: u16, len: nat): (mag: seq<u16>)
    ensures |mag| == len
  {
    seq(len, k => if k in on then height else 0)
  }

  /**
    * Among pulses of one height the pre-check asks for those in samples 1 and 12 and for silence in samples 7, 14 and
    * 15. No other sample matters to it.
    */
  lemma PulsesPass(on: set<nat>, height: u16, len: nat, pa: nat)
    requires height > 0 && pa + 15 < len
    ensures PreambleAt(Pulses(on, height, len), pa)
            <==> pa + 1 in on && pa + 12 in on && pa + 7 !in on && pa + 14 !in on && pa + 15 !in on
  {
  }

  lemma OtherSamplesIgnored(a: seq<u16>, b: seq<u16>, pa: nat)
    requires pa + 15 < |a| && pa + 15 < |b|
    requires forall k {:trigger a[pa + k]} :: k == 1 || k == 7 || k == 12 || k == 14 || k == 15 ==>
             a[pa + k] == b[pa + k]
    ensures PreambleAt(a, pa) == PreambleAt(b, pa)
  {
    assert a[pa + 1] == b[pa + 1] && a[pa + 7] == b[pa + 7] && a[pa + 12] == b[pa + 12];
    assert a[pa + 14] == b[pa + 14] && a[pa + 15] == b[pa + 15];
  }

  // ---- the level of a phase against the noise ----

  lemma NegativeWraps(x: int)
    requires -0x1_0000_0000 <= x < 0x1_0000_0000
    ensures AsU32(x) == if x < 0 then x + 0x1_0000_0000 else x
  {
  }

  /**
    * Exactly when a phase is tried: its level is above a thirty-second of the noise times the threshold, rounded down,
    * or it is negative, whatever the noise and the threshold are, for a negative level reads as an enormous one.
    */
  lemma AttemptedExactly(mag: seq<u16>, p: nat, threshold: nat, t: nat)
    requires p + 18 < |mag| && 4 <= t <= 8
    ensures var noise := (NoiseSum(mag, p) * threshold) % 0x1_0000_0000;
            Attempted(mag, p, threshold, t) <==> OwnLevel(mag, p, t) < 0 || 32 * (OwnLevel(mag, p, t) + 1) > noise
  {
    NegativeWraps(OwnLevel(mag, p, t));
  }

  /** A disturbance in sample 10 makes the level of phases 4 and 5 negative, and they are tried at any threshold. */
  lemma NegativeLevelTried(threshold: nat)
    ensures var mag := Pulses({10}, 100, 19);
            OwnLevel(mag, 0, 4) == -100 && Attempted(mag, 0, threshold, 4) && Attempted(mag, 0, threshold, 5)
  {
    AttemptedExactly(Pulses({10}, 100, 19), 0, threshold, 4);
    AttemptedExactly(Pulses({10}, 100, 19), 0, threshold, 5);
  }

  /** The levels of the phases are sums over the samples with pulses less those without, and ignore a common offset. */
  lemma LevelsBalanced(mag: seq<u16>, p: nat, t: nat)
    requires p + 18 < |mag| && 4 <= t <= 8
    ensures var m := k requires 0 <= k <= 18 => mag[p + k] as int;
            && (t <= 5 ==> OwnLevel(mag, p, t) == (m(1) + m(3) + m(4) + m(9) + m(11) + m(12)) - (m(2) + m(10)))
            && (t == 6 || t == 7 ==>
                  OwnLevel(mag, p, t) == (m(1) + m(3) + m(4) + m(9) + m(10) + m(12)) - (m(2) + m(11)))
            && (t == 8 ==>
                  OwnLevel(mag, p, t) == (m(1) + m(4) + m(10) + m(12) + 2 * m(2)) - (2 * m(3) + m(11)))
  {
  }

  // ---- the signal level of a detection ----

  /**
    * The level that is reported for a received preamble. Of the four samples it averages, the one at the position lies
    * where the first pulse has hardly begun and the one seven behind it is silent, so that it is about the amplitude of
    * one tick, a fifth of what a whole sample of a pulse has, and a quarter of the sample at the position.
    */
  lemma LevelOfPreamble(mag: seq<u16>, s: Signal, e: real, t: nat, p: nat)
    requires s.Valid() && HasPreamble(s) && s.start == StartTick(t, p) && 4 <= t <= 8
    requires PreambleNear(mag, s, e, p) && p + 18 < |mag|
    ensures var a, x := s.amplitude, 4.0 * SignalLevel(mag, p) - mag[p] as real;
            var n := if t == 4 then 5.0 else 4.0;
            n * a - 3.0 * e <= x <= n * a + 3.0 * e
  {
    hide HasPreamble, Hits, PreambleNear, Signal.Valid, Within;
    var a := s.amplitude;
    SampleWithin(mag, s, e, t, p, 2);
    SampleWithin(mag, s, e, t, p, 7);
    SampleWithin(mag, s, e, t, p, 9);
    EarlyHits(t);
    LateHits(t);
    QuietSamples(t, 7);
    ThreeSamples(mag[p + 2], mag[p + 7], mag[p + 9], Hits(t, 2), Hits(t, 9), a, e);
    assert Hits(t, 2) + Hits(t, 9) == if t == 4 then 5 else 4;
  }

  lemma ThreeSamples(x: int, y: int, z: int, m: nat, n: nat, a: real, e: real)
    requires Within(x, m, 2, a, e) && Within(y, 0, 7, a, e) && Within(z, n, 9, a, e)
    ensures var sum := x as real + y as real + z as real;
            (m + n) as real * a - 3.0 * e <= sum <= (m + n) as real * a + 3.0 * e
  {
    var u, v := m as real * a, n as real * a;
    assert u - e <= x as real <= u + e && -e <= y as real <= e && v - e <= z as real <= v + e;
    hide Within;
    assert (m + n) as real * a == u + v;
  }

  /** A constant buffer has that constant for its level. */
  lemma LevelOfConstant(height: u16, len: nat, p: nat)
    requires p + 9 < len
    ensures SignalLevel(seq(len, _ => height), p) == height as real
  {
  }
}
