/** Which detections are emitted, in what form, and what that leaves of the buffer. */
module Emission {
  import opened Common
  import opened Bits
  import opened Engine
  import opened CrcFix
  import opened FixTable
  import opened Repair
  import opened Slicer
  import opened Ppm
  import opened Scoring
  import opened Demod
  import opened Subtraction
  import opened Preamble
  import opened MultiPass
  import opened EndToEnd

  // ---- one detection ----

  lemma CleanFrame(rx: Receiver, valid: seq<bv8>)
    requires rx.Valid() && Clean(valid)
    ensures TableFor(rx.Engine(8 * |valid|), 8 * |valid|)
    ensures Key(0) !in rx.Engine(8 * |valid|)
  {
    hide TableFor, Checksum;
    ValidNotDiagnosed(rx.Engine(8 * |valid|), 8 * |valid|);
  }

  lemma FlipWellFormed(msg: seq<bv8>, p: nat)
    requires WellFormed(msg) && 5 <= p < 8 * |msg|
    ensures WellFormed(Flip(msg, p))
  {
    hide Flip;
    FlipKeepsFormat(msg, p);
  }

  /** One damaged bit outside the format field: the message that was sent is kept, marked as corrected. */
  lemma FlippedRepaired(rx: Receiver, valid: seq<bv8>, p: nat)
    requires rx.Valid() && Clean(valid) && 5 <= p < 8 * |valid|
    ensures WellFormed(Flip(valid, p)) && Repaired(rx, Flip(valid, p)) == Some((valid, true))
  {
    hide TableFor, Checksum, Flip, WellFormed;
    FlipWellFormed(valid, p);
    CleanFrame(rx, valid);
    SingleErrorCorrected(rx.Engine(8 * |valid|), valid, 8 * |valid|, p);
  }

  /**
    * Two damaged bits: a clean message is kept in any case, and it is the one that was sent exactly when the table
    * names the two.
    */
  lemma TwiceFlippedRepaired(rx: Receiver, valid: seq<bv8>, p: nat, q: nat)
    requires rx.Valid() && Clean(valid) && 5 <= p < q < 8 * |valid|
    ensures var damaged := Flip(Flip(valid, p), q);
            && WellFormed(damaged) && Repaired(rx, damaged).Some?
            && var (kept, corrected) := Repaired(rx, damaged).value;
            && Clean(kept) && corrected && Diagnosed(rx, damaged).Some?
            && (kept == valid <==> Diagnosed(rx, damaged).value.bits == [p as int, q])
  {
    hide TableFor, Checksum, Flip, WellFormed, Distance;
    var damaged := Flip(Flip(valid, p), q);
    FlipWellFormed(valid, p);
    FlipWellFormed(Flip(valid, p), q);
    CleanFrame(rx, valid);
    DoubleErrorRepaired(rx.Engine(8 * |valid|), valid, 8 * |valid|, p, q);
    RepairedClean(rx, damaged);
  }

  // ---- exactly which detections are kept ----

  lemma {:induction false} SomeOne(x: seq<bool>) returns (p: nat)
    requires Ones(x) > 0
    ensures p < |x| && x[p]
  {
    if x[|x| - 1] {
      p := |x| - 1;
    } else {
      p := SomeOne(x[..|x| - 1]);
    }
  }

  lemma {:induction false} NoOnes(x: seq<bool>, i: nat)
    requires Ones(x) == 0 && i < |x|
    ensures !x[i]
  {
    if i < |x| - 1 {
      NoOnes(x[..|x| - 1], i);
    }
  }

  lemma FormatBit(a: bv8, b: bv8, i: nat)
    requires i < 5 && a >> 3 == b >> 3
    ensures BitAt(a, i) == BitAt(b, i)
  {
  }

  /** Two messages of one format that differ can be brought one bit closer, outside the format field. */
  lemma Closer(a: seq<bv8>, b: seq<bv8>) returns (p: nat)
    requires |a| == |b| > 0 && Format(a) == Format(b) && Distance(a, b) > 0
    ensures 5 <= p < 8 * |a| && Distance(Flip(a, p), b) == Distance(a, b) - 1
  {
    hide Flip, Ones, BitAt;
    var x := Xor(ToBits(a), ToBits(b));
    p := SomeOne(x);
    if p < 5 {
      FormatBit(a[0], b[0], p);
    }
    var y := Xor(ToBits(Flip(a, p)), ToBits(b));
    forall k | 0 <= k < |y|
      ensures y[k] == x[p := false][k]
    {
      FlipBitAt(a, p, k);
    }
    OnesSet(y, p);
    assert y[p := true] == x;
  }

  lemma SameBits(a: seq<bv8>, b: seq<bv8>)
    requires |a| == |b| && Distance(a, b) == 0
    ensures a == b
  {
    hide ToBits, Ones;
    var x := Xor(ToBits(a), ToBits(b));
    forall i | 0 <= i < |x|
      ensures ToBits(a)[i] == ToBits(b)[i]
    {
      NoOnes(x, i);
    }
    BytesExtensional(a, b);
  }

  /** There is a clean message of the same format at most two bits away. */
  ghost predicate NearClean(bytes: seq<bv8>) {
    exists m :: |m| == |bytes| > 0 && Clean(m) && Format(m) == Format(bytes) && Distance(m, bytes) <= 2
  }

  /** A detection is kept if and only if there is such a message. */
  lemma KeptExactly(rx: Receiver, bytes: seq<bv8>)
    requires rx.Valid() && WellFormed(bytes)
    ensures Repaired(rx, bytes).Some? <==> NearClean(bytes)
  {
    hide Checksum, Clean, WellFormed, Flip, Distance, Format;
    if Repaired(rx, bytes).Some? {
      RepairedClean(rx, bytes);
      RepairedFormat(rx, bytes);
    }
    if NearClean(bytes) {
      var m :| |m| == |bytes| > 0 && Clean(m) && Format(m) == Format(bytes) && Distance(m, bytes) <= 2;
      NearKept(rx, m, bytes);
    }
  }

  lemma RepairedFormat(rx: Receiver, bytes: seq<bv8>)
    requires rx.Valid() && WellFormed(bytes) && Repaired(rx, bytes).Some?
    ensures |Repaired(rx, bytes).value.0| == |bytes| > 0 && Format(Repaired(rx, bytes).value.0) == Format(bytes)
  {
    hide Checksum, Corrected, Distance, TableFor, MessageLength;
    WellFormedFrame(bytes);
    if Checksum(bytes, 8 * |bytes|) != 0 {
      RepairSound(rx.Engine(8 * |bytes|), bytes, 8 * |bytes|);
    }
  }

  lemma NearKept(rx: Receiver, m: seq<bv8>, bytes: seq<bv8>)
    requires rx.Valid() && WellFormed(bytes) && Clean(m)
    requires |m| == |bytes| > 0 && Format(m) == Format(bytes) && Distance(m, bytes) <= 2
    ensures Repaired(rx, bytes).Some?
  {
    hide Checksum, WellFormed, Flip, Distance, Format, TableFor;
    if Distance(m, bytes) == 0 {
      SameBits(m, bytes);
    } else {
      var p := Closer(m, bytes);
      if Distance(m, bytes) == 1 {
        SameBits(Flip(m, p), bytes);
        FlippedRepaired(rx, m, p);
      } else {
        FlipKeepsFormat(m, p);
        var q := Closer(Flip(m, p), bytes);
        SameBits(Flip(Flip(m, p), q), bytes);
        NearlyTwice(rx, m, p, q);
      }
    }
  }

  lemma NearlyTwice(rx: Receiver, m: seq<bv8>, p: nat, q: nat)
    requires rx.Valid() && Clean(m) && 5 <= p < 8 * |m| && 5 <= q < 8 * |m|
    ensures WellFormed(Flip(Flip(m, p), q)) && Repaired(rx, Flip(Flip(m, p), q)).Some?
  {
    hide Checksum, WellFormed, Flip, TableFor;
    if p == q {
      FlipTwice(m, p);
    } else if p < q {
      TwiceFlippedRepaired(rx, m, p, q);
    } else {
      FlipsCommute(m, p, q);
      TwiceFlippedRepaired(rx, m, q, p);
    }
  }

  // ---- one pass ----

  function MessageOf(d: Detection, kept: (seq<bv8>, bool)): Message {
    Message(kept.0, d.signal, d.pos, kept.1)
  }

  /** The messages that a scan's detections give, in order. */
  function Emitted(rx: Receiver, ds: seq<Detection>): (ms: seq<Message>)
    requires rx.Valid() && AllWellFormed(ds)
    ensures |ms| <= |ds|
  {
    if |ds| == 0 then []
    else
      var kept := Repaired(rx, ds[|ds| - 1].bytes);
      Emitted(rx, ds[..|ds| - 1]) + if kept.Some? then [MessageOf(ds[|ds| - 1], kept.value)] else []
  }

  /** A buffer with the pulses of messages taken out, one after the other. */
  function Without(mag: seq<u16>, ms: seq<Message>): (r: seq<u16>)
    ensures |r| == |mag|
  {
    if |ms| == 0 then mag
    else
      var m := ms[|ms| - 1];
      Pulse(m.bytes, m.pos, m.signal).SubtractedFrom(Without(mag, ms[..|ms| - 1]))
  }

  lemma {:induction false} WithoutConcat(mag: seq<u16>, a: seq<Message>, b: seq<Message>)
    ensures Without(mag, a + b) == Without(Without(mag, a), b)
  {
    hide Pulse.SubtractedFrom;
    if |b| == 0 {
      assert a + b == a;
    } else {
      assert (a + b)[..|a + b| - 1] == a + b[..|b| - 1];
      WithoutConcat(mag, a, b[..|b| - 1]);
    }
  }

  lemma WithoutOne(mag: seq<u16>, m: Message)
    ensures Without(mag, [m]) == Pulse(m.bytes, m.pos, m.signal).SubtractedFrom(mag)
  {
    hide Pulse.SubtractedFrom;
    assert [m][..0] == [] && Without(mag, []) == mag;
  }

  /** The detections of a scan add their messages, and take their pulses out of the buffer. */
  lemma {:induction false} KeepAllEmits(rx: Receiver, s: State, ds: seq<Detection>)
    requires rx.Valid() && AllWellFormed(ds)
    ensures KeepAll(rx, s, ds) == State(Without(s.mag, Emitted(rx, ds)), s.messages + Emitted(rx, ds))
  {
    hide Repaired, WellFormed, Pulse.SubtractedFrom;
    if |ds| == 0 {
      assert s.messages + [] == s.messages;
    } else {
      var front, last := ds[..|ds| - 1], ds[|ds| - 1];
      KeepAllEmits(rx, s, front);
      if Repaired(rx, last.bytes).Some? {
        var m := MessageOf(last, Repaired(rx, last.bytes).value);
        WithoutConcat(s.mag, Emitted(rx, front), [m]);
        WithoutOne(Without(s.mag, Emitted(rx, front)), m);
        assert s.messages + Emitted(rx, front) + [m] == s.messages + (Emitted(rx, front) + [m]);
      } else {
        assert Emitted(rx, front) + [] == Emitted(rx, front);
      }
    }
  }

  /** The messages emitted are those of the detections that can be kept. */
  lemma {:induction false} EmittedExactly(rx: Receiver, ds: seq<Detection>, m: Message)
    requires rx.Valid() && AllWellFormed(ds)
    ensures m in Emitted(rx, ds) <==>
            exists d :: d in ds && Repaired(rx, d.bytes).Some? && m == MessageOf(d, Repaired(rx, d.bytes).value)
    decreases |ds|
  {
    hide Repaired, WellFormed;
    if |ds| > 0 {
      var front, last := ds[..|ds| - 1], ds[|ds| - 1];
      EmittedExactly(rx, front, m);
      assert last in ds && forall d :: d in front ==> d in ds;
      assert forall d :: d in ds ==> d in front || d == last;
    }
  }

  // ---- whole runs ----

  /** What the passes leave of the buffer is the buffer without the pulses of all emitted messages, in their order. */
  lemma {:induction false} BufferAccounted(rx: Receiver, start: seq<u16>, magLen: nat, config: Config, floor: nat,
                                           n: nat)
    requires rx.Valid() && magLen <= |start|
    ensures var s := Passes(rx, start, magLen, config, floor, n);
            s.mag == Without(start, s.messages)
  {
    hide Scan, KeepAll, AllWellFormed, Without, Emitted;
    if n == 0 {
      NothingTaken(start);
    } else {
      BufferAccounted(rx, start, magLen, config, floor, n - 1);
      var s, threshold := Passes(rx, start, magLen, config, floor, n - 1), PassThreshold(n - 1, config, floor);
      ScanWellFormed(rx, s.mag, magLen, threshold);
      var ds := Scan(rx, s.mag, magLen, threshold, 0);
      KeepAllEmits(rx, s, ds);
      WithoutConcat(start, s.messages, Emitted(rx, ds));
    }
  }

  lemma NothingTaken(mag: seq<u16>)
    ensures Without(mag, []) == mag
  {
  }

  /** A detection of any pass is emitted by that pass, with its level and position, as it was repaired. */
  lemma PassEmits(rx: Receiver, s: State, magLen: nat, threshold: nat, d: Detection)
    requires rx.Valid() && magLen <= |s.mag| && d in Scan(rx, s.mag, magLen, threshold, 0)
    ensures WellFormed(d.bytes)
    ensures Repaired(rx, d.bytes).Some? ==>
              MessageOf(d, Repaired(rx, d.bytes).value) in Pass(rx, s, magLen, threshold).messages
  {
    hide Scan, KeepAll, Repaired, WellFormed, Emitted;
    ScanWellFormed(rx, s.mag, magLen, threshold);
    var ds := Scan(rx, s.mag, magLen, threshold, 0);
    KeepAllEmits(rx, s, ds);
    if Repaired(rx, d.bytes).Some? {
      EmittedExactly(rx, ds, MessageOf(d, Repaired(rx, d.bytes).value));
    }
  }

  /**
    * End to end: a message that is received with one damaged bit outside its format field, wherever in the buffer, is
    * emitted as it was sent, marked as corrected, when the first scan tries its position and no other phase yields a
    * message that scores as much.
    */
  lemma DamagedMessageHealed(rx: Receiver, start: seq<u16>, magLen: nat, config: Config, floor: nat, n: nat,
                             sent: seq<bv8>, k: nat, p: nat, phase: nat, s: Signal, noise: real)
    requires rx.Valid() && magLen <= |start| && n >= 1
    requires Clean(sent) && 5 <= k < 8 * |sent| && Present(start, Flip(sent, k), p, phase, s, noise)
    requires config.threshold <= MAX_THRESHOLD && p < Stop(magLen)
    requires Unrivalled(rx, start, config.threshold, Flip(sent, k), p)
             && Tried(rx, start, magLen, config.threshold, p)
    ensures Message(sent, SignalLevel(start, p), p, true) in Passes(rx, start, magLen, config, floor, n).messages
  {
    hide Present, WellFormed, Scan, Flip, Unrivalled, Tried, Clean, Stop, Repaired, Best, PreambleAt, SignalLevel,
         KeepAll;
    var damaged := Flip(sent, k);
    BestAtPresent(rx, start, config.threshold, damaged, p, phase, s, noise);
    PresentFits(start, damaged, p, phase, s, noise);
    DetectedExactly(rx, start, magLen, config.threshold, p);
    var d := Detection(damaged, SignalLevel(start, p), p);
    assert d in Scan(rx, start, magLen, config.threshold, 0);
    FlippedRepaired(rx, sent, k);
    PassEmits(rx, State(start, []), magLen, config.threshold, d);
    FirstIsPass(rx, start, magLen, config, floor);
    PassesExtend(rx, start, magLen, config, floor, n);
    var one, all := Passes(rx, start, magLen, config, floor, 1).messages,
                    Passes(rx, start, magLen, config, floor, n).messages;
    assert forall m :: m in all[..|one|] ==> m in all;
  }

  lemma FirstIsPass(rx: Receiver, start: seq<u16>, magLen: nat, config: Config, floor: nat)
    requires rx.Valid() && magLen <= |start|
    ensures Passes(rx, start, magLen, config, floor, 1)
            == Pass(rx, State(start, []), magLen, config.threshold)
  {
    hide Pass;
    assert Passes(rx, start, magLen, config, floor, 0) == State(start, []);
  }

  lemma DetectionPassedOn(ds: seq<Detection>, d: Detection)
    requires d in ds
    ensures Message(d.bytes, d.signal, d.pos, false) in Unrepaired(ds)
  {
    var i :| 0 <= i < |ds| && ds[i] == d;
    assert Unrepaired(ds)[i] == Message(d.bytes, d.signal, d.pos, false);
  }

  /** Without multiple passes the same message is passed on as it was received, with a wrong checksum and no mark. */
  lemma DamagedMessagePassedOn(rx: Receiver, mag: seq<u16>, magLen: nat, threshold: nat,
                               sent: seq<bv8>, k: nat, p: nat, phase: nat, s: Signal, noise: real)
    requires rx.Valid() && magLen <= |mag|
    requires Clean(sent) && 5 <= k < 8 * |sent| && Present(mag, Flip(sent, k), p, phase, s, noise)
    requires threshold <= MAX_THRESHOLD && p < Stop(magLen)
    requires Unrivalled(rx, mag, threshold, Flip(sent, k), p) && Tried(rx, mag, magLen, threshold, p)
    ensures Message(Flip(sent, k), SignalLevel(mag, p), p, false)
            in Unrepaired(Scan(rx, mag, magLen, threshold, 0))
    ensures Checksum(Flip(sent, k), 8 * |sent|) != 0
  {
    hide Present, WellFormed, Scan, Flip, Unrivalled, Tried, Stop, Best, PreambleAt, SignalLevel, Checksum, TableFor;
    var damaged := Flip(sent, k);
    BestAtPresent(rx, mag, threshold, damaged, p, phase, s, noise);
    PresentFits(mag, damaged, p, phase, s, noise);
    DetectedExactly(rx, mag, magLen, threshold, p);
    DetectionPassedOn(Scan(rx, mag, magLen, threshold, 0), Detection(damaged, SignalLevel(mag, p), p));
    CleanFrame(rx, sent);
    SingleErrorCorrected(rx.Engine(8 * |sent|), sent, 8 * |sent|, k);
  }
}
