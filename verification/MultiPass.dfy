/** The multi-pass demodulator: scan, repair, subtract, scan again with a lower threshold. */
module MultiPass {
  import opened Common
  import opened Engine
  import opened CrcFix
  import opened FixTable
  import opened Repair
  import opened Slicer
  import opened Scoring
  import opened Demod
  import opened Subtraction
  import opened NoiseFloor

  datatype Message = Message(bytes: seq<bv8>, signal: real, pos: nat, corrected: bool)

  datatype Config = Config(threshold: nat, multiPass: bool, margin: real)

  const MAX_PASSES: nat := 4

  /** A message the demodulator vouches for: right length for its format, and a clean checksum. */
  ghost predicate Clean(bytes: seq<bv8>) {
    && WellFormed(bytes)
    && (|bytes| == 7 || |bytes| == 14)
    && IsFrame(bytes, 8 * |bytes|)
    && Checksum(bytes, 8 * |bytes|) == 0
  }

  lemma WellFormedFrame(bytes: seq<bv8>)
    requires WellFormed(bytes)
    ensures |bytes| == 7 || |bytes| == 14
    ensures IsFrame(bytes, 8 * |bytes|) && NBytes(8 * |bytes|) == |bytes|
  {
  }

  /** The bytes to keep for a detection and whether they had to be repaired, or nothing if it is uncorrectable. */
  function Repaired(rx: Receiver, bytes: seq<bv8>): Option<(seq<bv8>, bool)>
    requires rx.Valid() && WellFormed(bytes)
  {
    WellFormedFrame(bytes);
    var msgbits := 8 * |bytes|;
    var syndrome := Checksum(bytes, msgbits);
    if syndrome == 0 then Some((bytes, false))
    else
      match rx.Diagnose(syndrome, msgbits)
      case Some(info) =>
        RepairSound(rx.Engine(msgbits), bytes, msgbits);
        Some((Corrected(bytes, info.bits), true))
      case None => None
  }

  /** What a kept message says is clean, and it is at most two bits from what was sliced. */
  lemma RepairedClean(rx: Receiver, bytes: seq<bv8>)
    requires rx.Valid() && WellFormed(bytes) && Repaired(rx, bytes).Some?
    ensures var (kept, corrected) := Repaired(rx, bytes).value;
            && Clean(kept) && |kept| == |bytes|
            && Distance(kept, bytes) <= 2
            && (corrected <==> kept != bytes)
  {
    hide Checksum, Corrected, Distance, TableFor, MessageLength;
    var msgbits := 8 * |bytes|;
    var syndrome := Checksum(bytes, msgbits);
    WellFormedFrame(bytes);
    DistanceSelf(bytes);
    if syndrome != 0 {
      RepairSound(rx.Engine(msgbits), bytes, msgbits);
    }
  }

  // ---- one pass ----

  /** The state of the demodulator between two detections. */
  datatype State = State(mag: seq<u16>, messages: seq<Message>)

  function KeepOne(rx: Receiver, s: State, d: Detection): (r: State)
    requires rx.Valid() && WellFormed(d.bytes)
    ensures |r.mag| == |s.mag|
  {
    match Repaired(rx, d.bytes)
    case Some((bytes, corrected)) =>
      State(Pulse(bytes, d.pos, d.signal).SubtractedFrom(s.mag),
            s.messages + [Message(bytes, d.signal, d.pos, corrected)])
    case None => s
  }

  ghost predicate AllWellFormed(ds: seq<Detection>) {
    forall i :: 0 <= i < |ds| ==> WellFormed(ds[i].bytes)
  }

  ghost predicate AllInReach(ds: seq<Detection>, magLen: nat) {
    forall i :: 0 <= i < |ds| ==> ds[i].pos < Stop(magLen)
  }

  /** The detections of one scan, one after the other: repair, subtract, emit. */
  function KeepAll(rx: Receiver, s: State, ds: seq<Detection>): (r: State)
    requires rx.Valid() && AllWellFormed(ds)
    ensures |r.mag| == |s.mag|
  {
    if |ds| == 0 then s else KeepOne(rx, KeepAll(rx, s, ds[..|ds| - 1]), ds[|ds| - 1])
  }

  lemma ScanWellFormed(rx: Receiver, mag: seq<u16>, magLen: nat, threshold: nat)
    requires magLen <= |mag|
    ensures AllWellFormed(Scan(rx, mag, magLen, threshold, 0))
            && AllInReach(Scan(rx, mag, magLen, threshold, 0), magLen)
  {
    hide Scan, WellFormed, PreambleAt, Highest;
    ScanSound(rx, mag, magLen, threshold, 0);
  }

  /** One pass: the whole buffer is scanned before anything is subtracted from it. */
  function Pass(rx: Receiver, s: State, magLen: nat, threshold: nat): (r: State)
    requires rx.Valid() && magLen <= |s.mag|
    ensures |r.mag| == |s.mag|
  {
    hide Scan, AllWellFormed, KeepAll;
    ScanWellFormed(rx, s.mag, magLen, threshold);
    KeepAll(rx, s, Scan(rx, s.mag, magLen, threshold, 0))
  }

  // ---- what every step keeps ----

  /** The samples a message may touch. */
  ghost predicate InWindow(m: Message, i: nat) {
    m.pos <= i < m.pos + TotalSamples(|m.bytes|)
  }

  /**
    * What holds of the state at any time of a run on the buffer `start`: every message is clean and in reach, no sample
    * has risen, and every sample outside the windows of the messages is what it was.
    */
  ghost predicate Invariant(start: seq<u16>, magLen: nat, s: State) {
    && |s.mag| == |start|
    && (forall m :: m in s.messages ==> Clean(m.bytes) && m.pos < Stop(magLen))
    && (forall i :: 0 <= i < |start| ==> s.mag[i] <= start[i])
    && (forall i :: 0 <= i < |start| && (forall m :: m in s.messages ==> !InWindow(m, i)) ==> s.mag[i] == start[i])
  }

  lemma KeepOneInvariant(rx: Receiver, start: seq<u16>, magLen: nat, s: State, d: Detection)
    requires rx.Valid() && WellFormed(d.bytes) && d.pos < Stop(magLen) && Invariant(start, magLen, s)
    ensures Invariant(start, magLen, KeepOne(rx, s, d))
  {
    hide Clean, Repaired, WellFormed;
    if Repaired(rx, d.bytes).Some? {
      RepairedClean(rx, d.bytes);
      var (bytes, corrected) := Repaired(rx, d.bytes).value;
      var m := Message(bytes, d.signal, d.pos, corrected);
      var p := Pulse(bytes, d.pos, d.signal);
      SubtractionLocal(p, s.mag);
      StepInvariant(start, magLen, s, m, p.SubtractedFrom(s.mag));
    }
  }

  lemma StepInvariant(start: seq<u16>, magLen: nat, s: State, m: Message, mag: seq<u16>)
    requires Invariant(start, magLen, s) && Clean(m.bytes) && m.pos < Stop(magLen)
    requires |mag| == |s.mag|
    requires forall i :: 0 <= i < |mag| ==> mag[i] <= s.mag[i] && (!InWindow(m, i) ==> mag[i] == s.mag[i])
    ensures Invariant(start, magLen, State(mag, s.messages + [m]))
  {
    hide Clean, InWindow;
    var ms := s.messages + [m];
    assert m in ms && forall x :: x in s.messages ==> x in ms;
    assert forall x :: x in ms ==> x in s.messages || x == m;
  }

  lemma {:induction false} KeepAllInvariant(rx: Receiver, start: seq<u16>, magLen: nat, s: State, ds: seq<Detection>)
    requires rx.Valid() && Invariant(start, magLen, s)
    requires AllWellFormed(ds) && AllInReach(ds, magLen)
    ensures Invariant(start, magLen, KeepAll(rx, s, ds))
  {
    hide Invariant, WellFormed, KeepOne;
    if |ds| > 0 {
      KeepAllInvariant(rx, start, magLen, s, ds[..|ds| - 1]);
      KeepOneInvariant(rx, start, magLen, KeepAll(rx, s, ds[..|ds| - 1]), ds[|ds| - 1]);
    }
  }

  lemma PassInvariant(rx: Receiver, start: seq<u16>, magLen: nat, s: State, threshold: nat)
    requires rx.Valid() && magLen <= |s.mag| && Invariant(start, magLen, s)
    ensures Invariant(start, magLen, Pass(rx, s, magLen, threshold))
  {
    hide Invariant, AllWellFormed, AllInReach, Scan, KeepAll;
    ScanWellFormed(rx, s.mag, magLen, threshold);
    KeepAllInvariant(rx, start, magLen, s, Scan(rx, s.mag, magLen, threshold, 0));
  }

  // ---- all passes ----

  function PassThreshold(pass: nat, config: Config, floor: nat): nat {
    if pass == 0 then config.threshold else AdaptiveThreshold(pass, config.threshold, config.margin, floor)
  }

  function Passes(rx: Receiver, start: seq<u16>, magLen: nat, config: Config, floor: nat, n: nat): (s: State)
    requires rx.Valid() && magLen <= |start|
    ensures |s.mag| == |start|
  {
    hide Pass;
    if n == 0 then State(start, [])
    else Pass(rx, Passes(rx, start, magLen, config, floor, n - 1), magLen, PassThreshold(n - 1, config, floor))
  }

  /** The invariant holds after every pass of a run. */
  lemma {:induction false} PassesInvariant(rx: Receiver, start: seq<u16>, magLen: nat, config: Config, floor: nat,
                                           n: nat)
    requires rx.Valid() && magLen <= |start|
    ensures Invariant(start, magLen, Passes(rx, start, magLen, config, floor, n))
  {
    hide Pass, Clean;
    if n > 0 {
      PassesInvariant(rx, start, magLen, config, floor, n - 1);
      var s := Passes(rx, start, magLen, config, floor, n - 1);
      PassInvariant(rx, start, magLen, s, PassThreshold(n - 1, config, floor));
    }
  }

  // ---- thresholds ----

  /**
    * Later passes are meant to use a reduced threshold. With a margin from zero to one they never raise it again, but
    * the step from the first pass to the second lowers or keeps it only when one and a half times the noise floor does
    * not exceed the configured threshold. With a larger margin no pass lowers it. With a negative one every other pass
    * sets it to the noise floor's minimum, and the passes between never go below that.
    */
  lemma ThresholdReduced(config: Config, floor: nat, pass: nat)
    requires config.threshold < 0x1_0000_0000
    ensures var now, next := PassThreshold(pass, config, floor), PassThreshold(pass + 1, config, floor);
            var minimum := TruncateU32(floor as real * 1.5);
            if config.margin < 0.0 && pass % 2 == 1 then next >= now == minimum
            else if config.margin <= 1.0 then next <= now <==> pass > 0 || minimum <= config.threshold
            else next >= now
  {
    hide AdaptiveThreshold, TruncateU32;
    if config.margin < 0.0 {
      AdaptiveAlternates(if pass % 2 == 1 then pass else pass + 1, config.threshold, config.margin, floor);
    } else if config.margin <= 1.0 {
      AdaptiveFalls(pass, config.threshold, config.margin, floor);
    } else {
      AdaptiveRises(pass, config.threshold, config.margin, floor);
    }
  }

  /** A buffer of equal samples above the threshold: the second pass demands more than the first. */
  lemma ThresholdRaisedByNoise(n: nat)
    requires n > 0
    ensures var mag, config := seq(n, _ => 40 as u16), Config(58, true, 0.8);
            var sorted := Sorted(Clipped(mag));
            && |sorted| == n && 1 <= Target(n, 75) <= n
            && var floor := sorted[Target(n, 75) - 1];
            PassThreshold(1, config, floor) >= 60 > PassThreshold(0, config, floor)
  {
    hide AdaptiveThreshold, Sorted, Target;
    var mag: seq<u16> := seq(n, _ => 40);
    var sorted := Sorted(Clipped(mag));
    SortedIsSorted(Clipped(mag));
    SameLength(sorted, Clipped(mag));
    TargetBounds(n, 75);
    var floor := sorted[Target(n, 75) - 1];
    assert floor in multiset(sorted);
    assert floor in Clipped(mag);
  }

  // ---- the code ----

  /** The loop over the detections of one scan. */
  method KeepDetections(rx: Receiver, mag: array<u16>, ds: seq<Detection>, before: seq<Message>)
    returns (messages: seq<Message>)
    requires rx.Valid() && AllWellFormed(ds)
    requires forall i :: 0 <= i < |ds| ==> ds[i].pos <= mag.Length
    modifies mag
    ensures State(mag[..], messages) == KeepAll(rx, State(old(mag[..]), before), ds)
  {
    hide WellFormed, Repaired, Clean;
    messages := before;
    ghost var s := State(mag[..], before);
    for i := 0 to |ds|
      invariant State(mag[..], messages) == KeepAll(rx, s, ds[..i])
    {
      assert ds[..i + 1][..i] == ds[..i];
      var kept := RepairDetection(rx, ds[i].bytes);
      if kept.Some? {
        var (bytes, corrected) := kept.value;
        SubtractFrom(Pulse(bytes, ds[i].pos, ds[i].signal), mag);
        messages := messages + [Message(bytes, ds[i].signal, ds[i].pos, corrected)];
      }
    }
    assert ds[..|ds|] == ds;
  }

  /** The checksum test and the repair of one detection. */
  method RepairDetection(rx: Receiver, sliced: seq<bv8>) returns (kept: Option<(seq<bv8>, bool)>)
    requires rx.Valid() && WellFormed(sliced)
    ensures kept == Repaired(rx, sliced)
  {
    hide Checksum, Corrected, TableFor, MessageLength, Distance, Format;
    WellFormedFrame(sliced);
    var msgbits := 8 * |sliced|;
    var syndrome := ModesChecksum(sliced, msgbits);
    if syndrome == 0 {
      return Some((sliced, false));
    }
    var info := rx.Diagnose(syndrome, msgbits);
    if info.Some? {
      RepairSound(rx.Engine(msgbits), sliced, msgbits);
      var bytes := new bv8[|sliced|](i requires 0 <= i < |sliced| => sliced[i]);
      assert bytes[..] == sliced;
      Fix(bytes, info.value);
      return Some((bytes[..], true));
    }
    return None;
  }

  method Demodulate2400MultiPass(rx: Receiver, mag: array<u16>, count: nat, config: Config)
    returns (messages: seq<Message>, ghost floor: nat)
    requires rx.Valid() && count <= mag.Length < 0x1_0000_0000
    modifies mag
    ensures !config.multiPass ==>
              mag[..] == old(mag[..]) && messages == Unrepaired(Scan(rx, mag[..], count, config.threshold, 0))
    ensures config.multiPass ==>
              State(mag[..], messages) == Passes(rx, old(mag[..]), count, config, floor, 4)
    ensures config.multiPass && mag.Length > 0 ==>
              var sorted := Sorted(Clipped(old(mag[..])));
              |sorted| == mag.Length && floor == sorted[Target(mag.Length, 75) - 1]
  {
    hide Invariant, Scan, KeepAll, Sorted, Clipped, AllWellFormed;
    floor := 0;
    if !config.multiPass {
      var ds := Demodulate2400(rx, mag[..], count, config.threshold);
      return Unrepaired(ds), 0;
    }
    ghost var start := mag[..];
    var estimate := EstimateNoiseFloor(mag[..]);
    floor := estimate.floor;
    messages := [];
    for pass := 0 to MAX_PASSES
      invariant State(mag[..], messages) == Passes(rx, start, count, config, floor, pass)
    {
      var threshold := PassThreshold(pass, config, estimate.floor);
      ghost var s := State(mag[..], messages);
      var ds := Demodulate2400(rx, mag[..], count, threshold);
      ScanWellFormed(rx, mag[..], count, threshold);
      InReach(ds, count, mag.Length);
      messages := KeepDetections(rx, mag, ds, messages);
      assert State(mag[..], messages) == Pass(rx, s, count, threshold);
    }
  }

  lemma InReach(ds: seq<Detection>, magLen: nat, len: nat)
    requires AllInReach(ds, magLen) && magLen <= len
    ensures forall i :: 0 <= i < |ds| ==> ds[i].pos <= len
  {
  }

  /** Without multiple passes, detections are passed on as they are. */
  function Unrepaired(ds: seq<Detection>): (ms: seq<Message>)
    ensures |ms| == |ds|
  {
    seq(|ds|, i requires 0 <= i < |ds| => Message(ds[i].bytes, ds[i].signal, ds[i].pos, false))
  }

  // ---- what a run promises ----

  /** Every emitted message has a zero checksum and the length its format prescribes. */
  lemma EmittedMessagesClean(rx: Receiver, start: seq<u16>, magLen: nat, config: Config, floor: nat, n: nat)
    requires rx.Valid() && magLen <= |start|
    ensures forall m :: m in Passes(rx, start, magLen, config, floor, n).messages ==> Clean(m.bytes)
  {
    hide Clean, Passes;
    PassesInvariant(rx, start, magLen, config, floor, n);
  }

  /** No sample ever rises, and none outside the windows of the emitted messages changes. */
  lemma SamplesOnlyFallInWindows(rx: Receiver, start: seq<u16>, magLen: nat, config: Config, floor: nat, n: nat, i: nat)
    requires rx.Valid() && magLen <= |start| && i < |start|
    ensures var s := Passes(rx, start, magLen, config, floor, n);
            && |s.mag| == |start| && s.mag[i] <= start[i]
            && (s.mag[i] != start[i] ==> exists m :: m in s.messages && InWindow(m, i))
  {
    hide Clean, InWindow, Passes;
    PassesInvariant(rx, start, magLen, config, floor, n);
  }
}
