/** One scan of a magnitude buffer: find preambles, try phases, keep the best message of each position. */
module Demod {
  import opened Common
  import opened Slicer
  import opened Scoring

  datatype Detection = Detection(bytes: seq<bv8>, signal: real, pos: nat)

  /** The scan needs this many samples from the preamble on. */
  const GUARD: nat := LONG_MSG_SAMPLES + 16

  function Stop(magLen: nat): nat {
    if magLen < GUARD then 0 else magLen - GUARD
  }

  predicate PreambleAt(mag: seq<u16>, pa: nat)
    requires pa + 15 < |mag|
  {
    mag[pa + 1] > mag[pa + 7] && mag[pa + 12] > mag[pa + 14] && mag[pa + 12] > mag[pa + 15]
  }

  // ---- which phases a position is tried at ----

  /** A signed number as a u32. */
  function AsU32(x: int): nat {
    x % 0x1_0000_0000
  }

  function RefLevel(mag: seq<u16>, pa: nat, threshold: nat): nat
    requires pa + 18 < |mag|
  {
    var baseNoise := mag[pa + 5] as int + mag[pa + 8] as int + mag[pa + 16] as int + mag[pa + 17] as int
                     + mag[pa + 18] as int;
    AsU32(baseNoise * threshold) / 32
  }

  function Diff23(mag: seq<u16>, pa: nat): int
    requires pa + 18 < |mag|
  {
    mag[pa + 2] as int - mag[pa + 3] as int
  }

  function Sum14(mag: seq<u16>, pa: nat): int
    requires pa + 18 < |mag|
  {
    mag[pa + 1] as int + mag[pa + 4] as int
  }

  function Diff1011(mag: seq<u16>, pa: nat): int
    requires pa + 18 < |mag|
  {
    mag[pa + 10] as int - mag[pa + 11] as int
  }

  function Common3456(mag: seq<u16>, pa: nat): int
    requires pa + 18 < |mag|
  {
    Sum14(mag, pa) - Diff23(mag, pa) + mag[pa + 9] as int + mag[pa + 12] as int
  }

  /** The preamble is strong enough, for the pulse positions of this phase. */
  predicate Attempted(mag: seq<u16>, pa: nat, threshold: nat, tryPhase: nat)
    requires pa + 18 < |mag|
  {
    var level := RefLevel(mag, pa, threshold);
    if tryPhase == 4 || tryPhase == 5 then AsU32(Common3456(mag, pa) - Diff1011(mag, pa)) >= level
    else if tryPhase == 6 || tryPhase == 7 then AsU32(Common3456(mag, pa) + Diff1011(mag, pa)) >= level
    else tryPhase == 8 &&
         AsU32(Sum14(mag, pa) + 2 * Diff23(mag, pa) + Diff1011(mag, pa) + mag[pa + 12] as int) >= level
  }

  // ---- the best message of a position ----

  /** The score that stands for no message yet. */
  const NO_SCORE: int := -42

  function Better(best: Option<Scored>, r: Option<Scored>): Option<Scored> {
    if r.None? then best
    else if r.value.score > (if best.Some? then best.value.score else NO_SCORE) then r
    else best
  }

  /** The best of the phases from 4 up to `t`. */
  function BestBefore(rx: Receiver, mag: seq<u16>, pa: nat, threshold: nat, t: nat): Option<Scored>
    requires pa + 18 < |mag|
  {
    if t <= 4 then None
    else
      var best := BestBefore(rx, mag, pa, threshold, t - 1);
      if Attempted(mag, pa, threshold, t - 1) then Better(best, PhaseResult(rx, t - 1, mag, pa)) else best
  }

  function Best(rx: Receiver, mag: seq<u16>, pa: nat, threshold: nat): Option<Scored>
    requires pa + 18 < |mag|
  {
    BestBefore(rx, mag, pa, threshold, 9)
  }

  /** `r` is the result at phase `p`, no attempted phase before `t` scores more, and no earlier one as much. */
  ghost predicate Highest(rx: Receiver, mag: seq<u16>, pa: nat, threshold: nat, t: nat, r: Scored, p: nat)
    requires pa + 18 < |mag|
  {
    && 4 <= p < t && Attempted(mag, pa, threshold, p) && PhaseResult(rx, p, mag, pa) == Some(r)
    && forall q :: 4 <= q < t && Attempted(mag, pa, threshold, q) && PhaseResult(rx, q, mag, pa).Some? ==>
                     var score := PhaseResult(rx, q, mag, pa).value.score;
                     score <= r.score && (q < p ==> score < r.score)
  }

  lemma {:induction false} BestIsHighest(rx: Receiver, mag: seq<u16>, pa: nat, threshold: nat, t: nat)
    requires pa + 18 < |mag|
    ensures var best := BestBefore(rx, mag, pa, threshold, t);
            && (best.None? ==>
                  forall q :: 4 <= q < t && Attempted(mag, pa, threshold, q) ==> PhaseResult(rx, q, mag, pa).None?)
            && (best.Some? ==> exists p :: Highest(rx, mag, pa, threshold, t, best.value, p))
  {
    hide Attempted, PhaseResult;
    if t > 4 {
      BestIsHighest(rx, mag, pa, threshold, t - 1);
      var before, best := BestBefore(rx, mag, pa, threshold, t - 1), BestBefore(rx, mag, pa, threshold, t);
      var r := PhaseResult(rx, t - 1, mag, pa);
      ScoresPositive(rx, mag, pa, t - 1);
      if best.Some? {
        if Attempted(mag, pa, threshold, t - 1) && r.Some? && best == r && best != before {
          assert Highest(rx, mag, pa, threshold, t, best.value, t - 1);
        } else {
          var p :| Highest(rx, mag, pa, threshold, t - 1, before.value, p);
          assert Highest(rx, mag, pa, threshold, t, best.value, p);
        }
      }
    }
  }

  lemma ScoresPositive(rx: Receiver, mag: seq<u16>, pa: nat, t: nat)
    ensures PhaseResult(rx, t, mag, pa).Some? ==>
              PhaseResult(rx, t, mag, pa).value.score >= 0 && WellFormed(PhaseResult(rx, t, mag, pa).value.msg)
  {
  }

  /** The phases `from` and `to` at one position, when the preamble is strong enough for them. */
  method TryPhases(rx: Receiver, mag: seq<u16>, pa: nat, threshold: nat, from: nat, to: nat, before: Option<Scored>)
    returns (best: Option<Scored>)
    requires pa + 18 < |mag| && 4 <= from <= to <= 8
    requires forall t :: from <= t <= to ==> Attempted(mag, pa, threshold, t)
    requires before == BestBefore(rx, mag, pa, threshold, from)
    ensures best == BestBefore(rx, mag, pa, threshold, to + 1)
  {
    hide Attempted, PhaseResult;
    best := before;
    var bestScore := if best.Some? then best.value.score else NO_SCORE;
    for tryPhase := from to to + 1
      invariant best == BestBefore(rx, mag, pa, threshold, tryPhase)
      invariant bestScore == if best.Some? then best.value.score else NO_SCORE
    {
      var result := ScorePhase(rx, tryPhase, mag, pa);
      if result.Some? && result.value.score > bestScore {
        bestScore := result.value.score;
        best := result;
      }
    }
  }

  lemma PairSkipped(rx: Receiver, mag: seq<u16>, pa: nat, threshold: nat, t: nat)
    requires pa + 18 < |mag| && t >= 4
    requires !Attempted(mag, pa, threshold, t) && !Attempted(mag, pa, threshold, t + 1)
    ensures BestBefore(rx, mag, pa, threshold, t + 2) == BestBefore(rx, mag, pa, threshold, t)
  {
    hide Attempted, PhaseResult;
    assert BestBefore(rx, mag, pa, threshold, t + 1) == BestBefore(rx, mag, pa, threshold, t);
  }

  method BestMessage(rx: Receiver, mag: seq<u16>, pa: nat, threshold: nat) returns (best: Option<Scored>)
    requires pa + 18 < |mag|
    ensures best == Best(rx, mag, pa, threshold)
  {
    hide PhaseResult, RefLevel, AsU32;
    var refLevel := RefLevel(mag, pa, threshold);
    var diff23, sum14, diff1011 := Diff23(mag, pa), Sum14(mag, pa), Diff1011(mag, pa);
    var common3456 := Common3456(mag, pa);
    best := None;
    if AsU32(common3456 - diff1011) >= refLevel {
      best := TryPhases(rx, mag, pa, threshold, 4, 5, best);
    } else {
      PairSkipped(rx, mag, pa, threshold, 4);
    }
    if AsU32(common3456 + diff1011) >= refLevel {
      best := TryPhases(rx, mag, pa, threshold, 6, 7, best);
    } else {
      PairSkipped(rx, mag, pa, threshold, 6);
    }
    if AsU32(sum14 + 2 * diff23 + diff1011 + mag[pa + 12] as int) >= refLevel {
      best := TryPhases(rx, mag, pa, threshold, 8, 8, best);
    }
  }

  // ---- the scan ----

  /** How many of the next `limit` positions have no preamble before the first one that has. */
  function Skipped(mag: seq<u16>, pa: nat, limit: nat): (k: nat)
    requires pa + limit + 15 <= |mag|
    ensures k <= limit
    ensures forall q :: pa <= q < pa + k ==> !PreambleAt(mag, q)
    ensures k < limit ==> PreambleAt(mag, pa + k)
    decreases limit
  {
    if limit == 0 || PreambleAt(mag, pa) then 0 else 1 + Skipped(mag, pa + 1, limit - 1)
  }

  function SignalLevel(mag: seq<u16>, pa: nat): (level: real)
    requires pa + 9 < |mag|
    ensures 0.0 <= level
  {
    (mag[pa] as real + mag[pa + 2] as real + mag[pa + 7] as real + mag[pa + 9] as real) / 4.0
  }

  /** The detections of a scan from position `pa` on. */
  function Scan(rx: Receiver, mag: seq<u16>, magLen: nat, threshold: nat, pa: nat): seq<Detection>
    requires magLen <= |mag|
    decreases magLen - pa
  {
    if pa >= Stop(magLen) then []
    else
      var limit := Min(Stop(magLen) - pa, 10);
      var k := Skipped(mag, pa, limit);
      if k == limit then Scan(rx, mag, magLen, threshold, pa + k + 1)
      else
        var best := Best(rx, mag, pa + k, threshold);
        if best.None? then Scan(rx, mag, magLen, threshold, pa + k + 1)
        else
          [Detection(best.value.msg, SignalLevel(mag, pa + k), pa + k)]
          + Scan(rx, mag, magLen, threshold, pa + k + LONG_MSG_SAMPLES)
  }

  /** The fast pre-check: at most `preMax` positions are looked at, one step each. */
  method PreScan(mag: seq<u16>, magLen: nat, start: nat, preMax: nat) returns (pa: nat, preFound: bool)
    requires magLen <= |mag| && start + preMax + 15 <= magLen
    ensures pa == start + Skipped(mag, start, preMax)
    ensures preFound <==> pa < start + preMax
  {
    hide PreambleAt;
    pa, preFound := start, false;
    for i := 0 to preMax
      invariant pa == start + i && !preFound
      invariant Skipped(mag, start, preMax) == i + Skipped(mag, pa, preMax - i)
    {
      if pa + 15 < magLen && PreambleAt(mag, pa) {
        preFound := true;
        break;
      }
      pa := pa + 1;
    }
  }

  /** One turn of the scan loop, as a step of the specification. */
  lemma ScanStep(rx: Receiver, mag: seq<u16>, magLen: nat, threshold: nat, start: nat, k: nat, sofar: seq<Detection>)
    requires magLen <= |mag| && start < Stop(magLen)
    requires k == Skipped(mag, start, Min(Stop(magLen) - start, 10))
    ensures k == Min(Stop(magLen) - start, 10) ==>
              Scan(rx, mag, magLen, threshold, start) == Scan(rx, mag, magLen, threshold, start + k + 1)
    ensures k < Min(Stop(magLen) - start, 10) ==>
              var best := Best(rx, mag, start + k, threshold);
              && (best.None? ==>
                    Scan(rx, mag, magLen, threshold, start) == Scan(rx, mag, magLen, threshold, start + k + 1))
              && (best.Some? ==>
                    var d := Detection(best.value.msg, SignalLevel(mag, start + k), start + k);
                    var rest := Scan(rx, mag, magLen, threshold, start + k + LONG_MSG_SAMPLES);
                    && Scan(rx, mag, magLen, threshold, start) == [d] + rest
                    && sofar + Scan(rx, mag, magLen, threshold, start) == sofar + [d] + rest)
  {
    hide PreambleAt, Best, SignalLevel, Skipped, Stop;
  }

  method Demodulate2400(rx: Receiver, mag: seq<u16>, magLen: nat, threshold: nat) returns (messages: seq<Detection>)
    requires magLen <= |mag|
    ensures messages == Scan(rx, mag, magLen, threshold, 0)
  {
    hide PreambleAt, Best, SignalLevel, Skipped, Scan;
    messages := [];
    var pa := 0;
    var stop := Stop(magLen);
    while pa < stop && pa + 18 < magLen
      invariant messages + Scan(rx, mag, magLen, threshold, pa) == Scan(rx, mag, magLen, threshold, 0)
      decreases magLen - pa
    {
      ghost var start := pa;
      var preFound;
      pa, preFound := PreScan(mag, magLen, pa, Min(stop - pa, 10));
      ScanStep(rx, mag, magLen, threshold, start, pa - start, messages);
      if pa >= stop || !preFound {
        if !preFound {
          pa := pa + 1;
        }
        continue;
      }
      var best := BestMessage(rx, mag, pa, threshold);
      if best.Some? {
        messages := messages + [Detection(best.value.msg, SignalLevel(mag, pa), pa)];
        pa := pa + LONG_MSG_SAMPLES;
      } else {
        pa := pa + 1;
      }
    }
    ScanOver(rx, mag, magLen, threshold, pa);
  }

  lemma ScanOver(rx: Receiver, mag: seq<u16>, magLen: nat, threshold: nat, pa: nat)
    requires magLen <= |mag| && pa >= Stop(magLen)
    ensures Scan(rx, mag, magLen, threshold, pa) == []
  {
  }

  // ---- what a scan returns ----

  /** A detection of the scan: in reach of the guard, on a preamble, and the best message of its position. */
  ghost predicate Detected(rx: Receiver, mag: seq<u16>, magLen: nat, threshold: nat, d: Detection)
    requires magLen <= |mag|
  {
    && d.pos < Stop(magLen)
    && PreambleAt(mag, d.pos)
    && WellFormed(d.bytes)
    && 0.0 <= d.signal
    && exists r: Scored, p: nat :: r.msg == d.bytes && Highest(rx, mag, d.pos, threshold, 9, r, p)
  }

  /** Detections in order, none closer to the next than a long message. */
  ghost predicate Spaced(ds: seq<Detection>) {
    forall i, j :: 0 <= i < j < |ds| ==> ds[i].pos + LONG_MSG_SAMPLES <= ds[j].pos
  }

  /** What holds of all detections from position `pa` on. */
  ghost predicate ScanResult(rx: Receiver, mag: seq<u16>, magLen: nat, threshold: nat, pa: nat, ds: seq<Detection>)
    requires magLen <= |mag|
  {
    Spaced(ds) && forall i :: 0 <= i < |ds| ==> ds[i].pos >= pa && Detected(rx, mag, magLen, threshold, ds[i])
  }

  lemma PrependDetection(rx: Receiver, mag: seq<u16>, magLen: nat, threshold: nat, d: Detection, rest: seq<Detection>)
    requires magLen <= |mag| && Detected(rx, mag, magLen, threshold, d)
    requires ScanResult(rx, mag, magLen, threshold, d.pos + LONG_MSG_SAMPLES, rest)
    ensures ScanResult(rx, mag, magLen, threshold, d.pos, [d] + rest)
  {
    hide Detected;
  }

  /** Detections come in order, at least 269 samples apart, below the guard, each the best message of its position. */
  lemma {:induction false} ScanSound(rx: Receiver, mag: seq<u16>, magLen: nat, threshold: nat, pa: nat)
    requires magLen <= |mag|
    ensures ScanResult(rx, mag, magLen, threshold, pa, Scan(rx, mag, magLen, threshold, pa))
    decreases magLen - pa
  {
    hide PreambleAt, Best, SignalLevel, Detected, Scan;
    if pa >= Stop(magLen) {
      ScanOver(rx, mag, magLen, threshold, pa);
    } else {
      var k := Skipped(mag, pa, Min(Stop(magLen) - pa, 10));
      ScanStep(rx, mag, magLen, threshold, pa, k, []);
      if k == Min(Stop(magLen) - pa, 10) || Best(rx, mag, pa + k, threshold).None? {
        ScanSound(rx, mag, magLen, threshold, pa + k + 1);
      } else {
        var d := Detection(Best(rx, mag, pa + k, threshold).value.msg, SignalLevel(mag, pa + k), pa + k);
        BestDetected(rx, mag, magLen, threshold, pa + k);
        ScanSound(rx, mag, magLen, threshold, pa + k + LONG_MSG_SAMPLES);
        PrependDetection(rx, mag, magLen, threshold, d, Scan(rx, mag, magLen, threshold, pa + k + LONG_MSG_SAMPLES));
      }
    }
  }

  lemma BestDetected(rx: Receiver, mag: seq<u16>, magLen: nat, threshold: nat, pa: nat)
    requires magLen <= |mag| && pa < Stop(magLen) && PreambleAt(mag, pa)
    requires Best(rx, mag, pa, threshold).Some?
    ensures Detected(rx, mag, magLen, threshold,
                     Detection(Best(rx, mag, pa, threshold).value.msg, SignalLevel(mag, pa), pa))
  {
    hide PreambleAt, Attempted, PhaseResult, WellFormed, BestBefore;
    BestIsHighest(rx, mag, pa, threshold, 9);
    var best := Best(rx, mag, pa, threshold);
    var p :| Highest(rx, mag, pa, threshold, 9, best.value, p);
    ScoresPositive(rx, mag, pa, p);
  }

  // ---- which positions a scan reaches ----

  lemma FirstSkip(mag: seq<u16>, pa: nat, limit: nat, p: nat)
    requires pa <= p && pa + limit + 15 <= |mag| && p + 15 < |mag|
    requires forall q :: pa <= q < p ==> !PreambleAt(mag, q)
    requires PreambleAt(mag, p)
    ensures Skipped(mag, pa, limit) == Min(limit, p - pa)
  {
    hide PreambleAt;
  }

  /** Where a scan that has come to `pa` begins to look again. */
  function NextStart(rx: Receiver, mag: seq<u16>, magLen: nat, threshold: nat, pa: nat): (next: nat)
    requires magLen <= |mag| && pa < Stop(magLen)
    ensures next > pa
  {
    var limit := Min(Stop(magLen) - pa, 10);
    var k := Skipped(mag, pa, limit);
    if k < limit && Best(rx, mag, pa + k, threshold).Some? then pa + k + LONG_MSG_SAMPLES else pa + k + 1
  }

  /** What one look from `pa` on detects: nothing, or one message. */
  function Found(rx: Receiver, mag: seq<u16>, magLen: nat, threshold: nat, pa: nat): (ds: seq<Detection>)
    requires magLen <= |mag| && pa < Stop(magLen)
    ensures |ds| <= 1
  {
    var limit := Min(Stop(magLen) - pa, 10);
    var p := pa + Skipped(mag, pa, limit);
    if p < pa + limit && Best(rx, mag, p, threshold).Some? then
      [Detection(Best(rx, mag, p, threshold).value.msg, SignalLevel(mag, p), p)]
    else []
  }

  lemma ScanTurn(rx: Receiver, mag: seq<u16>, magLen: nat, threshold: nat, pa: nat)
    requires magLen <= |mag| && pa < Stop(magLen)
    ensures Scan(rx, mag, magLen, threshold, pa) ==
            Found(rx, mag, magLen, threshold, pa)
            + Scan(rx, mag, magLen, threshold, NextStart(rx, mag, magLen, threshold, pa))
  {
    hide PreambleAt, Best, SignalLevel, Skipped, Scan;
    ScanStep(rx, mag, magLen, threshold, pa, Skipped(mag, pa, Min(Stop(magLen) - pa, 10)), []);
  }

  /** A scan from `from` on begins to look again at `r`. */
  ghost predicate Resumes(rx: Receiver, mag: seq<u16>, magLen: nat, threshold: nat, from: nat, r: nat)
    requires magLen <= |mag|
    decreases r - from
  {
    from == r
    || (from < r && from < Stop(magLen)
        && Resumes(rx, mag, magLen, threshold, NextStart(rx, mag, magLen, threshold, from), r))
  }

  /** What a scan detects from a restart on is the rest of what it detects. */
  lemma {:induction false} ScanResumed(rx: Receiver, mag: seq<u16>, magLen: nat, threshold: nat, from: nat, r: nat)
    returns (before: seq<Detection>)
    requires magLen <= |mag| && Resumes(rx, mag, magLen, threshold, from, r)
    ensures Scan(rx, mag, magLen, threshold, from) == before + Scan(rx, mag, magLen, threshold, r)
    ensures forall i :: 0 <= i < |before| ==> from <= before[i].pos < r
    decreases r - from
  {
    hide Scan, NextStart, Found, Stop;
    before := [];
    if from != r {
      var next := NextStart(rx, mag, magLen, threshold, from);
      ScanTurn(rx, mag, magLen, threshold, from);
      FoundBetween(rx, mag, magLen, threshold, from);
      assert next <= r;
      var rest := ScanResumed(rx, mag, magLen, threshold, next, r);
      before := Found(rx, mag, magLen, threshold, from) + rest;
    }
  }

  lemma FoundBetween(rx: Receiver, mag: seq<u16>, magLen: nat, threshold: nat, pa: nat)
    requires magLen <= |mag| && pa < Stop(magLen)
    ensures forall d :: d in Found(rx, mag, magLen, threshold, pa) ==>
                          pa <= d.pos < NextStart(rx, mag, magLen, threshold, pa)
  {
    hide PreambleAt, Best, SignalLevel;
  }

  /** The last restart at or before position `p`. */
  function LastStart(rx: Receiver, mag: seq<u16>, magLen: nat, threshold: nat, from: nat, p: nat): (r: nat)
    requires magLen <= |mag| && from <= p < Stop(magLen)
    ensures from <= r <= p
    ensures p < NextStart(rx, mag, magLen, threshold, r)
    ensures Resumes(rx, mag, magLen, threshold, from, r)
    decreases p - from
  {
    hide NextStart, Stop;
    var next := NextStart(rx, mag, magLen, threshold, from);
    if p < next then from else LastStart(rx, mag, magLen, threshold, next, p)
  }

  ghost predicate NoPreamble(mag: seq<u16>, from: nat, to: nat)
    requires to + 15 <= |mag|
  {
    forall q :: from <= q < to ==> !PreambleAt(mag, q)
  }

  /**
    * A scan tries position `p`: nothing that passes the pre-check lies between its last restart and `p`, and `p` is not
    * the position behind the ten that the pre-check looks at.
    */
  ghost predicate Tried(rx: Receiver, mag: seq<u16>, magLen: nat, threshold: nat, p: nat)
    requires magLen <= |mag| && p < Stop(magLen)
  {
    var r := LastStart(rx, mag, magLen, threshold, 0, p);
    NoPreamble(mag, r, p) && p != r + 10
  }

  /** With no preamble up to `p`, the next restart lies behind `p`, or eleven positions on. */
  lemma NextBehind(rx: Receiver, mag: seq<u16>, magLen: nat, threshold: nat, r: nat, p: nat)
    requires magLen <= |mag| && r <= p < Stop(magLen) && NoPreamble(mag, r, p)
    ensures var next := NextStart(rx, mag, magLen, threshold, r); if p <= r + 10 then p < next else next == r + 11
  {
    hide PreambleAt, Best;
    var limit := Min(Stop(magLen) - r, 10);
    var k := Skipped(mag, r, limit);
    assert k < limit ==> r + k >= p;
  }

  /** A look from `r` on stops at `p`. */
  predicate StopsAt(mag: seq<u16>, magLen: nat, r: nat, p: nat)
    requires magLen <= |mag| && r < Stop(magLen)
  {
    var limit := Min(Stop(magLen) - r, 10);
    r + Skipped(mag, r, limit) == p && p < r + limit
  }

  lemma StopsAtPreamble(mag: seq<u16>, magLen: nat, r: nat, p: nat)
    requires magLen <= |mag| && r <= p < Stop(magLen) && p <= r + 10
    ensures StopsAt(mag, magLen, r, p) <==> PreambleAt(mag, p) && NoPreamble(mag, r, p) && p != r + 10
  {
    hide PreambleAt;
    var limit := Min(Stop(magLen) - r, 10);
    if PreambleAt(mag, p) && NoPreamble(mag, r, p) {
      FirstSkip(mag, r, limit, p);
    }
  }

  lemma FoundWhere(rx: Receiver, mag: seq<u16>, magLen: nat, threshold: nat, r: nat, p: nat)
    requires magLen <= |mag| && r <= p < Stop(magLen)
    ensures var ds := Found(rx, mag, magLen, threshold, r);
            && ((exists d :: d in ds && d.pos == p)
                <==> StopsAt(mag, magLen, r, p) && Best(rx, mag, p, threshold).Some?)
            && (forall d :: d in ds && d.pos == p ==>
                  d == Detection(Best(rx, mag, p, threshold).value.msg, SignalLevel(mag, p), p))
  {
    hide PreambleAt, Best, SignalLevel, Skipped;
    var ds := Found(rx, mag, magLen, threshold, r);
    if StopsAt(mag, magLen, r, p) && Best(rx, mag, p, threshold).Some? {
      assert ds[0] in ds;
    }
  }

  lemma FoundAt(rx: Receiver, mag: seq<u16>, magLen: nat, threshold: nat, r: nat, p: nat)
    requires magLen <= |mag| && r <= p < Stop(magLen) && p < NextStart(rx, mag, magLen, threshold, r)
    ensures var ds := Found(rx, mag, magLen, threshold, r);
            && ((exists d :: d in ds && d.pos == p)
                <==> PreambleAt(mag, p) && Best(rx, mag, p, threshold).Some? && NoPreamble(mag, r, p) && p != r + 10)
            && (forall d :: d in ds && d.pos == p ==>
                  d == Detection(Best(rx, mag, p, threshold).value.msg, SignalLevel(mag, p), p))
  {
    hide PreambleAt, Best, SignalLevel, Found, NoPreamble, NextStart, Skipped;
    FoundWhere(rx, mag, magLen, threshold, r, p);
    if p <= r + 10 {
      StopsAtPreamble(mag, magLen, r, p);
    } else if NoPreamble(mag, r, p) {
      NextBehind(rx, mag, magLen, threshold, r, p);
    }
  }

  /** Exactly which positions of a buffer are detected, and what is detected there. */
  lemma DetectedExactly(rx: Receiver, mag: seq<u16>, magLen: nat, threshold: nat, p: nat)
    requires magLen <= |mag| && p < Stop(magLen)
    ensures var ds := Scan(rx, mag, magLen, threshold, 0);
            && ((exists d :: d in ds && d.pos == p) <==>
                PreambleAt(mag, p) && Best(rx, mag, p, threshold).Some? && Tried(rx, mag, magLen, threshold, p))
            && (forall d :: d in ds && d.pos == p ==>
                  d == Detection(Best(rx, mag, p, threshold).value.msg, SignalLevel(mag, p), p))
  {
    hide PreambleAt, Best, SignalLevel, Scan, NextStart, Found, Stop, NoPreamble, Detected;
    var r := LastStart(rx, mag, magLen, threshold, 0, p);
    var next := NextStart(rx, mag, magLen, threshold, r);
    var before := ScanResumed(rx, mag, magLen, threshold, 0, r);
    ScanTurn(rx, mag, magLen, threshold, r);
    FoundAt(rx, mag, magLen, threshold, r, p);
    ScanSound(rx, mag, magLen, threshold, next);
  }

  lemma {:induction false} LastStartIs(rx: Receiver, mag: seq<u16>, magLen: nat, threshold: nat, from: nat, r: nat,
                                       p: nat)
    requires magLen <= |mag| && from <= r <= p < Stop(magLen)
    requires Resumes(rx, mag, magLen, threshold, from, r) && p < NextStart(rx, mag, magLen, threshold, r)
    ensures LastStart(rx, mag, magLen, threshold, from, p) == r
    decreases r - from
  {
    hide NextStart;
    if from < r {
      LastStartIs(rx, mag, magLen, threshold, NextStart(rx, mag, magLen, threshold, from), r, p);
    }
  }

  lemma {:induction false} ResumesOn(rx: Receiver, mag: seq<u16>, magLen: nat, threshold: nat, from: nat, r: nat)
    requires magLen <= |mag| && r < Stop(magLen) && Resumes(rx, mag, magLen, threshold, from, r)
    ensures Resumes(rx, mag, magLen, threshold, from, NextStart(rx, mag, magLen, threshold, r))
    decreases r - from
  {
    hide NextStart;
    if from < r {
      ResumesOn(rx, mag, magLen, threshold, NextStart(rx, mag, magLen, threshold, from), r);
    }
  }

  /**
    * Behind any restart `r` with no preamble up to `p`, position `p` is tried exactly when it is not the eleventh, the
    * twenty-second and so on: the pre-check looks at ten positions and leaves out the next one.
    */
  lemma {:induction false} TriedBehindRestart(rx: Receiver, mag: seq<u16>, magLen: nat, threshold: nat, r: nat, p: nat)
    requires magLen <= |mag| && r <= p < Stop(magLen)
    requires Resumes(rx, mag, magLen, threshold, 0, r) && NoPreamble(mag, r, p)
    ensures Tried(rx, mag, magLen, threshold, p) <==> (p - r) % 11 != 10
    decreases p - r
  {
    hide PreambleAt, NextStart;
    var next := NextStart(rx, mag, magLen, threshold, r);
    NextBehind(rx, mag, magLen, threshold, r, p);
    if p < next {
      LastStartIs(rx, mag, magLen, threshold, 0, r, p);
    } else {
      ResumesOn(rx, mag, magLen, threshold, 0, r);
      TriedBehindRestart(rx, mag, magLen, threshold, next, p);
    }
  }
}
