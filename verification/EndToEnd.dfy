/** From the samples of a modulated message to the message that the multi-pass demodulator emits. */
module EndToEnd {
  import opened Common
  import opened Bits
  import opened Words
  import opened Engine
  import opened CrcFix
  import opened FixTable
  import opened Repair
  import opened Slicer
  import opened Ppm
  import opened Scoring
  import opened Recovery
  import opened Preamble
  import opened Demod
  import opened MultiPass

  /** The buffer holds a transmission of `msg`, preamble included, that begins at position `p` and phase `phase`. */
  ghost predicate Present(mag: seq<u16>, msg: seq<bv8>, p: nat, phase: nat, s: Signal, noise: real) {
    && s.Valid() && HasPreamble(s) && s.bits == ToBits(msg) && s.start == StartTick(phase, p)
    && Bearable(s.amplitude, noise) && PreambleNear(mag, s, noise, p) && Received(mag, s, noise)
    && WellFormed(msg) && Holds(mag, s.start, |msg| - 1)
    && p + 18 < |mag| && 4 <= phase <= 8
  }

  /** The score of a message of the length its format prescribes. */
  function Score(rx: Receiver, msg: seq<bv8>): (score: int)
    requires WellFormed(msg)
    ensures score >= 0
  {
    WellFormedFrame(msg);
    ScoreModesMessage(rx, msg, 8 * |msg|)
  }

  lemma ResultScore(rx: Receiver, tryPhase: nat, mag: seq<u16>, pa: nat)
    requires PhaseResult(rx, tryPhase, mag, pa).Some?
    ensures var r := PhaseResult(rx, tryPhase, mag, pa).value;
            WellFormed(r.msg) && r.score == Score(rx, r.msg)
  {
    hide ScoreModesMessage, SlicedByte;
  }

  /** No other phase tried at this position yields another message with as high a score. */
  ghost predicate Unrivalled(rx: Receiver, mag: seq<u16>, threshold: nat, msg: seq<bv8>, p: nat)
    requires p + 18 < |mag| && WellFormed(msg)
  {
    forall q :: 4 <= q < 9 && Attempted(mag, p, threshold, q) && PhaseResult(rx, q, mag, p).Some? ==>
                  PhaseResult(rx, q, mag, p).value.msg == msg || PhaseResult(rx, q, mag, p).value.score < Score(rx, msg)
  }

  /** A transmission makes its position a preamble that yields a message that scores at least as much. */
  lemma BestAtPresent(rx: Receiver, mag: seq<u16>, threshold: nat, msg: seq<bv8>, p: nat, phase: nat, s: Signal,
                      noise: real)
    requires Present(mag, msg, p, phase, s, noise) && threshold <= MAX_THRESHOLD
    ensures PreambleAt(mag, p)
    ensures var best := Best(rx, mag, p, threshold);
            && best.Some? && WellFormed(best.value.msg)
            && Score(rx, best.value.msg) >= Score(rx, msg)
            && (Unrivalled(rx, mag, threshold, msg, p) ==> best.value.msg == msg)
  {
    hide PhaseResult, Attempted, Received, Bearable, WellFormed, ToBits, ScoreModesMessage, BestBefore, HasPreamble,
         PreambleAt;
    PreambleReceived(mag, s, noise, phase, p, threshold);
    ModulatedMessageRecovered(rx, mag, s, noise, msg, phase, p);
    BestIsHighest(rx, mag, p, threshold, 9);
    var best := Best(rx, mag, p, threshold);
    var q :| Highest(rx, mag, p, threshold, 9, best.value, q);
    ResultScore(rx, q, mag, p);
    assert PhaseResult(rx, phase, mag, p).value.score <= best.value.score;
  }

  // ---- extended squitters ----

  predicate IsSquitter(msg: seq<bv8>) {
    |msg| == LONG_MSG_BYTES && (msg[0] >> 3 == 17 || msg[0] >> 3 == 18)
  }

  ghost predicate CleanSquitter(msg: seq<bv8>) {
    WellFormed(msg) && IsSquitter(msg) && Checksum(msg, 8 * |msg|) == 0
  }

  /** A clean squitter scores more than anything whose checksum is not zero. */
  lemma SquitterScores(rx: Receiver, msg: seq<bv8>)
    requires CleanSquitter(msg)
    ensures Score(rx, msg) >= 1400
  {
    hide Checksum;
    assert !ValidShort(msg[0] >> 3);
  }

  lemma HighScoreClean(rx: Receiver, msg: seq<bv8>)
    requires WellFormed(msg) && Score(rx, msg) > 900
    ensures Checksum(msg, 8 * |msg|) == 0
  {
    hide Checksum, WellFormed;
  }

  // ---- the first message of a run ----

  lemma {:induction false} KeepAllExtends(rx: Receiver, s: State, ds: seq<Detection>)
    requires rx.Valid() && AllWellFormed(ds)
    ensures |s.messages| <= |KeepAll(rx, s, ds).messages|
    ensures KeepAll(rx, s, ds).messages[..|s.messages|] == s.messages
  {
    hide WellFormed, Repaired;
    if |ds| > 0 {
      KeepAllExtends(rx, s, ds[..|ds| - 1]);
    }
  }

  function Unchanged(d: Detection): Message {
    Message(d.bytes, d.signal, d.pos, false)
  }

  /** Every clean detection is emitted as it is, and every emitted message comes from a detection at its position. */
  lemma {:induction false} CleanKept(rx: Receiver, mag: seq<u16>, ds: seq<Detection>)
    requires rx.Valid() && AllWellFormed(ds)
    ensures var ms := KeepAll(rx, State(mag, []), ds).messages;
            && (forall d :: d in ds && Checksum(d.bytes, 8 * |d.bytes|) == 0 ==> Unchanged(d) in ms)
            && (forall m :: m in ms ==> exists d :: d in ds && d.pos == m.pos)
    decreases |ds|
  {
    hide WellFormed, Checksum;
    if |ds| > 0 {
      var front, last := ds[..|ds| - 1], ds[|ds| - 1];
      CleanKept(rx, mag, front);
      assert last in ds && forall d :: d in front ==> d in ds;
      assert forall d :: d in ds ==> d in front || d == last;
    }
  }

  /** Later passes only add messages. */
  lemma {:induction false} PassesExtend(rx: Receiver, start: seq<u16>, magLen: nat, config: Config, floor: nat, n: nat)
    requires rx.Valid() && magLen <= |start| && n >= 1
    ensures var one := Passes(rx, start, magLen, config, floor, 1).messages;
            var all := Passes(rx, start, magLen, config, floor, n).messages;
            |one| <= |all| && all[..|one|] == one
  {
    hide Invariant, Scan, KeepAll, AllWellFormed;
    if n > 1 {
      PassesExtend(rx, start, magLen, config, floor, n - 1);
      var s, threshold := Passes(rx, start, magLen, config, floor, n - 1), PassThreshold(n - 1, config, floor);
      ScanWellFormed(rx, s.mag, magLen, threshold);
      KeepAllExtends(rx, s, Scan(rx, s.mag, magLen, threshold, 0));
    }
  }

  /** An emitted message that stands for a transmission of `msg` at `p`. */
  ghost predicate StandsFor(rx: Receiver, m: Message, msg: seq<bv8>, p: nat)
    requires WellFormed(msg)
  {
    m.pos == p && !m.corrected && Clean(m.bytes) && Score(rx, m.bytes) >= Score(rx, msg)
  }

  /** The detection at the position of a clean squitter, when the scan tries that position. */
  lemma SquitterDetected(rx: Receiver, mag: seq<u16>, magLen: nat, threshold: nat,
                         msg: seq<bv8>, p: nat, phase: nat, s: Signal, noise: real)
    requires magLen <= |mag| && Present(mag, msg, p, phase, s, noise) && CleanSquitter(msg)
    requires threshold <= MAX_THRESHOLD && p < Stop(magLen)
    ensures var ds := Scan(rx, mag, magLen, threshold, 0);
            && ((exists d :: d in ds && d.pos == p) <==> Tried(rx, mag, magLen, threshold, p))
            && (forall d :: d in ds && d.pos == p ==>
                  && WellFormed(d.bytes) && Checksum(d.bytes, 8 * |d.bytes|) == 0
                  && Score(rx, d.bytes) >= Score(rx, msg)
                  && (Unrivalled(rx, mag, threshold, msg, p) ==> d.bytes == msg))
  {
    hide PreambleAt, Best, Scan, Checksum, Score, SignalLevel, Unrivalled, WellFormed, IsSquitter, Attempted, ToBits,
         Tried;
    BestAtPresent(rx, mag, threshold, msg, p, phase, s, noise);
    SquitterScores(rx, msg);
    HighScoreClean(rx, Best(rx, mag, p, threshold).value.msg);
    DetectedExactly(rx, mag, magLen, threshold, p);
  }

  /**
    * End to end: a clean extended squitter that is received with its preamble, anywhere in the buffer, is answered by a
    * clean message at its position that scores at least as much, whenever the first scan tries that position; with no
    * rival among the phases, that message is the squitter. The first scan emits something at its position exactly then.
    */
  lemma SquitterEmitted(rx: Receiver, start: seq<u16>, magLen: nat, config: Config, floor: nat, n: nat,
                        msg: seq<bv8>, p: nat, phase: nat, s: Signal, noise: real)
    requires rx.Valid() && magLen <= |start| && n >= 1
    requires Present(start, msg, p, phase, s, noise) && CleanSquitter(msg)
    requires config.threshold <= MAX_THRESHOLD && p < Stop(magLen)
    ensures var ms, tried := Passes(rx, start, magLen, config, floor, n).messages,
                             Tried(rx, start, magLen, config.threshold, p);
            && (tried ==>
                  exists m :: m in ms && StandsFor(rx, m, msg, p)
                              && (Unrivalled(rx, start, config.threshold, msg, p) ==> m.bytes == msg))
            && (n == 1 ==> ((exists m :: m in ms && m.pos == p) <==> tried))
  {
    hide Present, WellFormed, Checksum, Score, Unrivalled, CleanSquitter, Tried, StandsFor, Passes, Clean, Stop;
    PresentFits(start, msg, p, phase, s, noise);
    FirstPassEmits(rx, start, magLen, config, floor, msg, p, phase, s, noise);
    PassesExtend(rx, start, magLen, config, floor, n);
    assert forall m :: m in Passes(rx, start, magLen, config, floor, 1).messages ==>
                         m in Passes(rx, start, magLen, config, floor, n).messages;
  }

  lemma PresentFits(mag: seq<u16>, msg: seq<bv8>, p: nat, phase: nat, s: Signal, noise: real)
    requires Present(mag, msg, p, phase, s, noise)
    ensures WellFormed(msg) && p + 18 < |mag|
  {
  }

  lemma FirstPassEmits(rx: Receiver, start: seq<u16>, magLen: nat, config: Config, floor: nat,
                       msg: seq<bv8>, p: nat, phase: nat, s: Signal, noise: real)
    requires rx.Valid() && magLen <= |start|
    requires Present(start, msg, p, phase, s, noise) && CleanSquitter(msg)
    requires config.threshold <= MAX_THRESHOLD && p < Stop(magLen)
    ensures var ms, tried := Passes(rx, start, magLen, config, floor, 1).messages,
                             Tried(rx, start, magLen, config.threshold, p);
            && (tried ==>
                  exists m :: m in ms && StandsFor(rx, m, msg, p)
                              && (Unrivalled(rx, start, config.threshold, msg, p) ==> m.bytes == msg))
            && ((exists m :: m in ms && m.pos == p) <==> tried)
  {
    hide Present, WellFormed, Scan, Checksum, Score, Unrivalled, CleanSquitter, KeepAll, AllWellFormed, Tried, Clean,
         Stop;
    PresentFits(start, msg, p, phase, s, noise);
    var ds := Scan(rx, start, magLen, config.threshold, 0);
    SquitterDetected(rx, start, magLen, config.threshold, msg, p, phase, s, noise);
    ScanWellFormed(rx, start, magLen, config.threshold);
    CleanKept(rx, start, ds);
    FirstPass(rx, start, magLen, config, floor);
    if Tried(rx, start, magLen, config.threshold, p) {
      var d :| d in ds && d.pos == p;
      CleanDetection(d.bytes);
      assert Unchanged(d) in Passes(rx, start, magLen, config, floor, 1).messages;
      assert StandsFor(rx, Unchanged(d), msg, p);
    }
  }

  lemma CleanDetection(bytes: seq<bv8>)
    requires WellFormed(bytes) && Checksum(bytes, 8 * |bytes|) == 0
    ensures Clean(bytes)
  {
    hide Checksum;
    WellFormedFrame(bytes);
  }

  lemma FirstPass(rx: Receiver, start: seq<u16>, magLen: nat, config: Config, floor: nat)
    requires rx.Valid() && magLen <= |start|
    ensures AllWellFormed(Scan(rx, start, magLen, config.threshold, 0))
    ensures Passes(rx, start, magLen, config, floor, 1)
            == KeepAll(rx, State(start, []), Scan(rx, start, magLen, config.threshold, 0))
  {
    hide Scan, KeepAll, AllWellFormed;
    ScanWellFormed(rx, start, magLen, config.threshold);
    assert Passes(rx, start, magLen, config, floor, 0) == State(start, []);
  }

  // ---- which of two messages of one aircraft wins ----

  predicate Known(rx: Receiver, msg: seq<bv8>)
    requires WellFormed(msg)
  {
    rx.known(Join(msg[1], msg[2], msg[3]))
  }

  function Diagnosed(rx: Receiver, msg: seq<bv8>): Option<ErrorInfo>
    requires WellFormed(msg)
  {
    WellFormedFrame(msg);
    rx.Diagnose(Checksum(msg, 8 * |msg|), 8 * |msg|)
  }

  /** The diagnosis of a damaged message is a single bit. */
  predicate OneBitOff(rx: Receiver, msg: seq<bv8>)
    requires WellFormed(msg)
  {
    Diagnosed(rx, msg).Some? && Diagnosed(rx, msg).value.errors <= 1
  }

  lemma DiagnosedErrors(rx: Receiver, msg: seq<bv8>)
    requires rx.Valid() && WellFormed(msg) && Diagnosed(rx, msg).Some?
    ensures 1 <= Diagnosed(rx, msg).value.errors <= 2
  {
    hide Checksum, TableFor, MessageLength;
    WellFormedFrame(msg);
    RepairSound(rx.Engine(8 * |msg|), msg, 8 * |msg|);
  }

  /** The score of a clean message is no more than that of a single-bit error from a known aircraft. */
  predicate Beatable(rx: Receiver, clean: seq<bv8>)
    requires WellFormed(clean)
  {
    var df := clean[0] >> 3;
    if df == 11 then !(clean[0] & 7 == 0 && Known(rx, clean)) else df != 17 && df != 18 && !Known(rx, clean)
  }

  /**
    * A clean message outscores a damaged one of the same format, whatever else differs between them, in every case but
    * one: the damaged one is a single bit off and seems to come from a known aircraft, and the clean one is an all-call
    * reply to a numbered interrogator or from an unknown aircraft, or any other reply from an unknown aircraft.
    * Extended squitters always win.
    */
  lemma CleanOutscoresDamaged(rx: Receiver, clean: seq<bv8>, damaged: seq<bv8>)
    requires rx.Valid() && WellFormed(clean) && WellFormed(damaged)
    requires clean[0] >> 3 == damaged[0] >> 3
    requires Checksum(clean, 8 * |clean|) == 0 && Checksum(damaged, 8 * |damaged|) != 0
    ensures Score(rx, clean) > Score(rx, damaged)
            <==> !(OneBitOff(rx, damaged) && Known(rx, damaged) && Beatable(rx, clean))
  {
    hide Checksum, MessageLength, Join;
    if Diagnosed(rx, damaged).Some? {
      DiagnosedErrors(rx, damaged);
    }
  }
}
