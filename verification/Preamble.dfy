/** The preamble of a received message is found, and the message is tried at its own phase. */
module Preamble {
  import opened Slicer
  import opened Ppm
  import opened Scoring
  import opened Demod

  /** The preamble takes 96 ticks; its four pulses take six ticks each. */
  const PREAMBLE_TICKS: nat := 96

  predicate PulseTick(u: int) {
    0 <= u < 6 || 12 <= u < 18 || 42 <= u < 48 || 54 <= u < 60
  }

  /** The message follows a preamble of the same amplitude. */
  ghost predicate HasPreamble(s: Signal) {
    forall u {:trigger PulseTick(u)} :: 0 <= u < PREAMBLE_TICKS ==>
      s.Level(s.start - PREAMBLE_TICKS + u) == if PulseTick(u) then s.amplitude else 0.0
  }

  /** One if the tick `j` of sample `k`, counted from the position of the preamble, belongs to a pulse. */
  function Hit(t: nat, k: nat, j: nat): nat {
    if PulseTick(5 * k + j + 1 - t) then 1 else 0
  }

  /** How many ticks of sample `k` belong to pulses, at phase `t`. */
  function Hits(t: nat, k: nat): nat {
    Hit(t, k, 0) + Hit(t, k, 1) + Hit(t, k, 2) + Hit(t, k, 3) + Hit(t, k, 4)
  }

  lemma AtMostFive(t: nat, k: nat)
    ensures Hits(t, k) <= 5
  {
  }

  lemma TickLevel(s: Signal, t: nat, p: nat, k: nat, j: nat)
    requires s.Valid() && HasPreamble(s) && s.start == StartTick(t, p) && 4 <= t <= 8 && k <= 18 && j < 5
    ensures 5 * k + j + 1 >= t ==> s.Level(5 * (p + k) + j) == Hit(t, k, j) as real * s.amplitude
    ensures s.Level(5 * (p + k) + j) >= Hit(t, k, j) as real * s.amplitude
  {
    s.LevelBounds(5 * (p + k) + j);
    var u := 5 * k + j + 1 - t;
    assert 5 * (p + k) + j == s.start - PREAMBLE_TICKS + u;
    assert u < PREAMBLE_TICKS;
  }

  lemma SampleHits(s: Signal, t: nat, p: nat, k: nat)
    requires s.Valid() && HasPreamble(s) && s.start == StartTick(t, p) && 4 <= t <= 8 && 1 <= k <= 18
    ensures s.Sample(p + k) >= Hits(t, k) as real * s.amplitude
    ensures k >= 2 ==> s.Sample(p + k) == Hits(t, k) as real * s.amplitude
  {
    hide HasPreamble, StartTick, Hit, Signal.Level, Signal.Valid;
    TickLevel(s, t, p, k, 0);
    TickLevel(s, t, p, k, 1);
    TickLevel(s, t, p, k, 2);
    TickLevel(s, t, p, k, 3);
    TickLevel(s, t, p, k, 4);
    FiveProducts(Hit(t, k, 0), Hit(t, k, 1), Hit(t, k, 2), Hit(t, k, 3), Hit(t, k, 4), s.amplitude);
  }

  lemma FiveProducts(b: nat, c: nat, d: nat, f: nat, g: nat, a: real)
    ensures (b + c + d + f + g) as real * a == b as real * a + c as real * a + d as real * a + f as real * a
            + g as real * a
  {
  }

  /**
    * A sample is at least its pulses, less the noise; from the second sample on, no more than its pulses and the
    * noise.
    */
  ghost predicate Within(x: int, n: nat, k: nat, a: real, e: real) {
    x as real >= n as real * a - e && (k >= 2 ==> x as real <= n as real * a + e)
  }

  /** The samples of the preamble are received within `e`, from the one behind its position on. */
  ghost predicate PreambleNear(mag: seq<u16>, s: Signal, e: real, p: nat) {
    ReceivedOver(mag, s, e, 5 * p + 5, s.start)
  }

  lemma SampleWithin(mag: seq<u16>, s: Signal, e: real, t: nat, p: nat, k: nat)
    requires s.Valid() && HasPreamble(s) && s.start == StartTick(t, p) && 4 <= t <= 8 && 1 <= k <= 18
    requires PreambleNear(mag, s, e, p) && p + k < |mag|
    ensures Within(mag[p + k], Hits(t, k), k, s.amplitude, e)
  {
    hide HasPreamble, Hits, Signal.Sample, Signal.Valid;
    SampleHits(s, t, p, k);
    assert Near(mag[p + k], s.Sample(p + k), e);
  }

  ghost predicate AllWithin(mag: seq<u16>, t: nat, p: nat, a: real, e: real)
    requires p + 18 < |mag|
  {
    forall k {:trigger Hits(t, k)} :: 1 <= k <= 18 ==> Within(mag[p + k], Hits(t, k), k, a, e)
  }

  /** The pulses move through the samples tick by tick, from phase to phase. */
  lemma EarlyHits(t: nat)
    requires 4 <= t <= 8
    ensures Hits(t, 1) == if t <= 5 then t else 11 - t
    ensures Hits(t, 2) == if t <= 5 then 0 else t - 5
    ensures Hits(t, 3) == 9 - t
    ensures Hits(t, 4) == t - 3
  {
  }

  lemma LateHits(t: nat)
    requires 4 <= t <= 8
    ensures Hits(t, 9) == 9 - t
    ensures Hits(t, 10) == t - 3
    ensures Hits(t, 11) == if t <= 7 then 7 - t else 0
    ensures Hits(t, 12) == if t <= 6 then t - 1 else 12 - t
  {
  }

  /** No pulse reaches the samples that are compared with, or taken for noise. */
  lemma QuietSamples(t: nat, k: nat)
    requires 4 <= t <= 8 && (k == 5 || k == 7 || k == 8 || 14 <= k <= 18)
    ensures Hits(t, k) == 0
  {
  }

  lemma PulseAbove(x: int, n: nat, k: nat, y: int, l: nat, a: real, e: real)
    requires Within(x, n, k, a, e) && n >= 3 && Within(y, 0, l, a, e) && l >= 2 && Bearable(a, e)
    ensures x > y
  {
    assert Bearable(a, e) ==> 0.0 < a && 41.0 * e <= 38.0 * a;
    ThreeOrMore(n, a);
    var v := n as real * a;
    assert x as real >= v - e && v >= 3.0 * a;
  }

  lemma ThreeOrMore(n: nat, a: real)
    requires n >= 3 && a > 0.0
    ensures n as real * a >= 3.0 * a
  {
    assert (n as real - 3.0) * a >= 0.0;
  }

  lemma PreambleSeen(mag: seq<u16>, t: nat, p: nat, a: real, e: real)
    requires p + 18 < |mag| && 4 <= t <= 8 && AllWithin(mag, t, p, a, e) && Bearable(a, e)
    ensures PreambleAt(mag, p)
  {
    hide Hits, Within;
    EarlyHits(t);
    LateHits(t);
    QuietSamples(t, 7);
    QuietSamples(t, 14);
    QuietSamples(t, 15);
    PulseAbove(mag[p + 1], Hits(t, 1), 1, mag[p + 7], 7, a, e);
    PulseAbove(mag[p + 12], Hits(t, 12), 12, mag[p + 14], 14, a, e);
    PulseAbove(mag[p + 12], Hits(t, 12), 12, mag[p + 15], 15, a, e);
  }

  /** The largest threshold at which any bearable noise leaves the preamble strong enough, whatever its phase. */
  const MAX_THRESHOLD: nat := 80

  function NoiseSum(mag: seq<u16>, p: nat): nat
    requires p + 18 < |mag|
  {
    mag[p + 5] as int + mag[p + 8] as int + mag[p + 16] as int + mag[p + 17] as int + mag[p + 18] as int
  }

  lemma NoiseSumSmall(mag: seq<u16>, t: nat, p: nat, a: real, e: real)
    requires p + 18 < |mag| && 4 <= t <= 8 && AllWithin(mag, t, p, a, e)
    ensures NoiseSum(mag, p) as real <= 5.0 * e
  {
    hide Hits;
    QuietSamples(t, 5);
    QuietSamples(t, 8);
    QuietSamples(t, 16);
    QuietSamples(t, 17);
    QuietSamples(t, 18);
    assert Within(mag[p + 5], Hits(t, 5), 5, a, e) && Within(mag[p + 8], Hits(t, 8), 8, a, e);
    assert Within(mag[p + 16], Hits(t, 16), 16, a, e) && Within(mag[p + 17], Hits(t, 17), 17, a, e);
    assert Within(mag[p + 18], Hits(t, 18), 18, a, e);
  }

  lemma StrongEnough(base: nat, threshold: nat, level: int, a: real, e: real)
    requires threshold <= MAX_THRESHOLD && Bearable(a, e)
    requires base as real <= 5.0 * e && level as real >= 19.0 * a - 8.0 * e
    ensures base * threshold <= 32 * level
  {
    assert base * threshold <= base * MAX_THRESHOLD;
  }

  lemma LevelSuffices(mag: seq<u16>, t: nat, p: nat, a: real, e: real, threshold: nat, level: int)
    requires p + 18 < |mag| && 4 <= t <= 8 && AllWithin(mag, t, p, a, e) && Bearable(a, e)
    requires threshold <= MAX_THRESHOLD && level < 0x1_0000_0000
    requires level as real >= 19.0 * a - 8.0 * e
    ensures AsU32(level) >= RefLevel(mag, p, threshold)
  {
    hide AllWithin, Bearable;
    NoiseSumSmall(mag, t, p, a, e);
    StrongEnough(NoiseSum(mag, p), threshold, level, a, e);
    WrapsDown(NoiseSum(mag, p) * threshold, level);
  }

  lemma WrapsDown(x: nat, level: int)
    requires x <= 32 * level && level < 0x1_0000_0000
    ensures AsU32(x) / 32 <= AsU32(level)
  {
  }

  /** The level that decides whether phase `t` is tried. */
  function OwnLevel(mag: seq<u16>, p: nat, t: nat): (level: int)
    requires p + 18 < |mag|
    ensures level < 0x1_0000_0000
  {
    if t <= 5 then Common3456(mag, p) - Diff1011(mag, p)
    else if t <= 7 then Common3456(mag, p) + Diff1011(mag, p)
    else Sum14(mag, p) + 2 * Diff23(mag, p) + Diff1011(mag, p) + mag[p + 12] as int
  }

  /** The samples that make up the levels, within their bounds. */
  lemma LevelSamples(mag: seq<u16>, t: nat, p: nat, a: real, e: real)
    requires p + 18 < |mag| && AllWithin(mag, t, p, a, e)
    ensures Within(mag[p + 1], Hits(t, 1), 1, a, e) && Within(mag[p + 2], Hits(t, 2), 2, a, e)
    ensures Within(mag[p + 3], Hits(t, 3), 3, a, e) && Within(mag[p + 4], Hits(t, 4), 4, a, e)
    ensures Within(mag[p + 9], Hits(t, 9), 9, a, e) && Within(mag[p + 10], Hits(t, 10), 10, a, e)
    ensures Within(mag[p + 11], Hits(t, 11), 11, a, e) && Within(mag[p + 12], Hits(t, 12), 12, a, e)
  {
    hide Within, Hits;
  }

  lemma LevelFour(mag: seq<u16>, p: nat, a: real, e: real)
    requires p + 18 < |mag| && a > 0.0 && e >= 0.0
    requires Within(mag[p + 1], 4, 1, a, e) && Within(mag[p + 2], 0, 2, a, e) && Within(mag[p + 3], 5, 3, a, e)
             && Within(mag[p + 4], 1, 4, a, e)
    requires Within(mag[p + 9], 5, 9, a, e) && Within(mag[p + 10], 1, 10, a, e)
             && Within(mag[p + 11], 3, 11, a, e) && Within(mag[p + 12], 3, 12, a, e)
    ensures OwnLevel(mag, p, 4) as real >= 19.0 * a - 8.0 * e
  {
  }

  lemma LevelFive(mag: seq<u16>, p: nat, a: real, e: real)
    requires p + 18 < |mag| && a > 0.0 && e >= 0.0
    requires Within(mag[p + 1], 5, 1, a, e) && Within(mag[p + 2], 0, 2, a, e) && Within(mag[p + 3], 4, 3, a, e)
             && Within(mag[p + 4], 2, 4, a, e)
    requires Within(mag[p + 9], 4, 9, a, e) && Within(mag[p + 10], 2, 10, a, e)
             && Within(mag[p + 11], 2, 11, a, e) && Within(mag[p + 12], 4, 12, a, e)
    ensures OwnLevel(mag, p, 5) as real >= 19.0 * a - 8.0 * e
  {
  }

  lemma LevelSix(mag: seq<u16>, p: nat, a: real, e: real)
    requires p + 18 < |mag| && a > 0.0 && e >= 0.0
    requires Within(mag[p + 1], 5, 1, a, e) && Within(mag[p + 2], 1, 2, a, e) && Within(mag[p + 3], 3, 3, a, e)
             && Within(mag[p + 4], 3, 4, a, e)
    requires Within(mag[p + 9], 3, 9, a, e) && Within(mag[p + 10], 3, 10, a, e)
             && Within(mag[p + 11], 1, 11, a, e) && Within(mag[p + 12], 5, 12, a, e)
    ensures OwnLevel(mag, p, 6) as real >= 19.0 * a - 8.0 * e
  {
  }

  lemma LevelSeven(mag: seq<u16>, p: nat, a: real, e: real)
    requires p + 18 < |mag| && a > 0.0 && e >= 0.0
    requires Within(mag[p + 1], 4, 1, a, e) && Within(mag[p + 2], 2, 2, a, e) && Within(mag[p + 3], 2, 3, a, e)
             && Within(mag[p + 4], 4, 4, a, e)
    requires Within(mag[p + 9], 2, 9, a, e) && Within(mag[p + 10], 4, 10, a, e)
             && Within(mag[p + 11], 0, 11, a, e) && Within(mag[p + 12], 5, 12, a, e)
    ensures OwnLevel(mag, p, 7) as real >= 19.0 * a - 8.0 * e
  {
  }

  lemma LevelEight(mag: seq<u16>, p: nat, a: real, e: real)
    requires p + 18 < |mag| && Bearable(a, e) && e >= 0.0
    requires Within(mag[p + 1], 3, 1, a, e) && Within(mag[p + 2], 3, 2, a, e) && Within(mag[p + 3], 1, 3, a, e)
             && Within(mag[p + 4], 5, 4, a, e)
    requires Within(mag[p + 9], 1, 9, a, e) && Within(mag[p + 10], 5, 10, a, e)
             && Within(mag[p + 11], 0, 11, a, e) && Within(mag[p + 12], 4, 12, a, e)
    ensures OwnLevel(mag, p, 8) as real >= 19.0 * a - 8.0 * e
  {
  }

  lemma OwnLevelStrong(mag: seq<u16>, t: nat, p: nat, a: real, e: real)
    requires p + 18 < |mag| && 4 <= t <= 8 && AllWithin(mag, t, p, a, e) && Bearable(a, e) && e >= 0.0
    ensures OwnLevel(mag, p, t) as real >= 19.0 * a - 8.0 * e
  {
    hide Hits, AllWithin, Within, OwnLevel;
    LevelSamples(mag, t, p, a, e);
    EarlyHits(t);
    LateHits(t);
    match t
    case 4 => LevelFour(mag, p, a, e);
    case 5 => LevelFive(mag, p, a, e);
    case 6 => LevelSix(mag, p, a, e);
    case 7 => LevelSeven(mag, p, a, e);
    case _ => LevelEight(mag, p, a, e);
  }

  /** A received preamble passes the pre-check, and its level suffices for its own phase. */
  lemma PreambleReceived(mag: seq<u16>, s: Signal, e: real, t: nat, p: nat, threshold: nat)
    requires s.Valid() && HasPreamble(s) && s.start == StartTick(t, p) && 4 <= t <= 8
    requires PreambleNear(mag, s, e, p) && Bearable(s.amplitude, e)
    requires p + 18 < |mag| && threshold <= MAX_THRESHOLD
    ensures PreambleAt(mag, p) && Attempted(mag, p, threshold, t)
  {
    hide HasPreamble, StartTick, Hits, PreambleNear, RefLevel, AsU32, PreambleAt, Within;
    var a := s.amplitude;
    forall k | 1 <= k <= 18
      ensures Within(mag[p + k], Hits(t, k), k, a, e)
    {
      SampleWithin(mag, s, e, t, p, k);
    }
    NoiseNotNegative(mag, s, e, t, p);
    PreambleSeen(mag, t, p, a, e);
    OwnLevelStrong(mag, t, p, a, e);
    LevelSuffices(mag, t, p, a, e, threshold, OwnLevel(mag, p, t));
  }

  lemma NoiseNotNegative(mag: seq<u16>, s: Signal, e: real, t: nat, p: nat)
    requires p + 1 < |mag| && PreambleNear(mag, s, e, p) && s.start == StartTick(t, p)
    ensures e >= 0.0
  {
    hide Signal.Sample;
    assert Near(mag[p + 1], s.Sample(p + 1), e);
  }
}
