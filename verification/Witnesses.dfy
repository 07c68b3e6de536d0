/** Concrete transmissions: the ones the theorems are about exist, and so do those at which the code falls short. */
module Witnesses {
  import opened Bits
  import opened Words
  import opened Engine
  import opened CrcFix
  import opened FixTable
  import opened Repair
  import opened Parser
  import opened ParserProps
  import opened Slicer
  import opened Ppm
  import opened Scoring
  import opened Demod
  import opened Preamble
  import opened MultiPass
  import opened EndToEnd

  // ---- a noiseless transmission ----

  /** The ticks that carry signal: the pulses of the preamble and of the message. */
  predicate HighTick(bits: seq<bool>, start: nat, t: int) {
    var u := t - start;
    if 0 <= u < 12 * |bits| then (u % 12 < 6) == bits[u / 12] else PulseTick(u + PREAMBLE_TICKS)
  }

  function High(bits: seq<bool>, start: nat, t: int): (n: nat)
    ensures n <= 1
  {
    if HighTick(bits, start, t) then 1 else 0
  }

  /** How many of the five ticks of sample `i` carry signal. */
  function HighTicks(bits: seq<bool>, start: nat, i: int): (n: nat)
    ensures n <= 5
  {
    High(bits, start, 5 * i) + High(bits, start, 5 * i + 1) + High(bits, start, 5 * i + 2)
    + High(bits, start, 5 * i + 3) + High(bits, start, 5 * i + 4)
  }

  const AMPLITUDE: nat := 41

  function Transmitted(bits: seq<bool>, start: nat, len: nat): (mag: seq<u16>)
    ensures |mag| == len
  {
    seq<u16>(len, i => AMPLITUDE * HighTicks(bits, start, i))
  }

  function Carrier(bits: seq<bool>, start: nat): Signal {
    var a := AMPLITUDE as real;
    Signal(bits, start, a, t => if PulseTick(t - start + PREAMBLE_TICKS) then a else 0.0)
  }

  lemma CarrierLevel(bits: seq<bool>, start: nat, t: int)
    ensures Carrier(bits, start).Level(t) == (AMPLITUDE * High(bits, start, t)) as real
  {
  }

  lemma CarrierSample(bits: seq<bool>, start: nat, i: int)
    ensures Carrier(bits, start).Sample(i) == (AMPLITUDE * HighTicks(bits, start, i)) as real
  {
    hide Carrier, High, Signal.Level;
    CarrierLevel(bits, start, 5 * i);
    CarrierLevel(bits, start, 5 * i + 1);
    CarrierLevel(bits, start, 5 * i + 2);
    CarrierLevel(bits, start, 5 * i + 3);
    CarrierLevel(bits, start, 5 * i + 4);
  }

  lemma CarrierValid(bits: seq<bool>, start: nat)
    ensures Carrier(bits, start).Valid() && HasPreamble(Carrier(bits, start))
  {
    var s := Carrier(bits, start);
    forall u {:trigger PulseTick(u)} | 0 <= u < PREAMBLE_TICKS
      ensures s.Level(s.start - PREAMBLE_TICKS + u) == if PulseTick(u) then s.amplitude else 0.0
    {
      assert s.start - PREAMBLE_TICKS + u - s.start + PREAMBLE_TICKS == u;
    }
  }

  lemma TransmittedNear(bits: seq<bool>, start: nat, len: nat, from: nat, to: nat)
    ensures ReceivedOver(Transmitted(bits, start, len), Carrier(bits, start), 0.0, from, to)
  {
    hide Carrier, HighTicks, Signal.Sample;
    var m := Transmitted(bits, start, len);
    forall i | from / 5 <= i < |m| && 5 * i < to
      ensures Near(m[i], Carrier(bits, start).Sample(i), 0.0)
    {
      CarrierSample(bits, start, i);
    }
  }

  /** Any message can be transmitted, from any position and phase, in a buffer that is long enough. */
  lemma TransmissionPresent(msg: seq<bv8>, p: nat, phase: nat, len: nat)
    requires WellFormed(msg) && 4 <= phase <= 8 && p + 290 <= len
    ensures var start := StartTick(phase, p);
            Present(Transmitted(ToBits(msg), start, len), msg, p, phase, Carrier(ToBits(msg), start), 0.0)
  {
    hide WellFormed, ToBits, HasPreamble, ReceivedOver, Signal.Valid;
    var bits, start := ToBits(msg), StartTick(phase, p);
    var s := Carrier(bits, start);
    CarrierValid(bits, start);
    TransmittedNear(bits, start, len, 5 * p + 5, start);
    TransmittedNear(bits, start, len, start, start + 12 * |bits|);
    WellFormedFrame(msg);
  }

  /** At phase 8 the samples up to the position of the preamble are silent. */
  lemma SilentBefore(bits: seq<bool>, p: nat, len: nat)
    requires p + 18 < len
    ensures NoPreamble(Transmitted(bits, StartTick(8, p), len), 0, p)
  {
    var m := Transmitted(bits, StartTick(8, p), len);
    forall q | 0 <= q < p
      ensures !PreambleAt(m, q)
    {
      assert m[q + 1] == AMPLITUDE * HighTicks(bits, StartTick(8, p), q + 1);
      assert HighTicks(bits, StartTick(8, p), q + 1) == 0;
    }
  }

  /** The first preamble of this buffer stands at position 10, yields a message, and is not tried. */
  lemma EleventhPreambleMissed(rx: Receiver, msg: seq<bv8>) returns (mag: seq<u16>)
    requires WellFormed(msg)
    ensures |mag| == 600 && PreambleAt(mag, 10) && Best(rx, mag, 10, 58).Some? && NoPreamble(mag, 0, 10)
    ensures forall d :: d in Scan(rx, mag, 600, 58, 0) ==> d.pos != 10
  {
    hide WellFormed, PreambleAt, Best, Scan, NoPreamble, Present, Transmitted, ToBits, Tried, Score;
    var start := StartTick(8, 10);
    mag := Transmitted(ToBits(msg), start, 600);
    TransmissionPresent(msg, 10, 8, 600);
    BestAtPresent(rx, mag, 58, msg, 10, 8, Carrier(ToBits(msg), start), 0.0);
    SilentBefore(ToBits(msg), 10, 600);
    TriedBehindRestart(rx, mag, 600, 58, 0, 10);
    DetectedExactly(rx, mag, 600, 58, 10);
  }

  // ---- the largest threshold ----

  /** Noise that weakens the pulses of phase 5 and fills the gaps, as strong as the correlators bear. */
  function Disturbance(k: nat): int {
    if k == 1 || k == 3 || k == 4 || k == 9 || k == 11 || k == 12 then -38
    else if k == 2 || k == 5 || k == 8 || k == 10 || 16 <= k <= 18 then 38
    else 0
  }

  lemma SilentPhase(k: nat)
    requires k <= 18
    ensures HighTicks([], StartTick(5, 0), k) == Hits(5, k)
  {
  }

  lemma DisturbedFits(k: nat)
    requires k <= 18
    ensures 0 <= AMPLITUDE * Hits(5, k) + Disturbance(k) < 0x10000
  {
    hide Hits;
    AtMostFive(5, k);
    EarlyHits(5);
    LateHits(5);
  }

  function Disturbed(): (mag: seq<u16>)
    ensures |mag| == 19
  {
    seq<u16>(19, k requires 0 <= k < 19 => DisturbedFits(k); AMPLITUDE * Hits(5, k) + Disturbance(k))
  }

  lemma DisturbedNear()
    ensures PreambleNear(Disturbed(), Carrier([], StartTick(5, 0)), 38.0, 0)
  {
    hide Carrier, Hits, HighTicks, Signal.Sample;
    var m, s := Disturbed(), Carrier([], StartTick(5, 0));
    forall i | 1 <= i < |m|
      ensures Near(m[i], s.Sample(i), 38.0)
    {
      CarrierSample([], StartTick(5, 0), i);
      SilentPhase(i);
    }
  }

  /** At a threshold above 80, a preamble within the noise margin can be too weak for its own phase. */
  lemma ThresholdIsLargest(threshold: nat)
    requires MAX_THRESHOLD < threshold && 190 * threshold < 0x1_0000_0000
    ensures var mag, s := Disturbed(), Carrier([], StartTick(5, 0));
            && s.Valid() && HasPreamble(s) && s.start == StartTick(5, 0) && Bearable(s.amplitude, 38.0)
            && PreambleNear(mag, s, 38.0, 0) && PreambleAt(mag, 0)
            && !Attempted(mag, 0, threshold, 5)
  {
    hide Hits, HasPreamble, PreambleNear;
    CarrierValid([], StartTick(5, 0));
    DisturbedNear();
    EarlyHits(5);
    LateHits(5);
    QuietSamples(5, 5);
    QuietSamples(5, 7);
    QuietSamples(5, 8);
    QuietSamples(5, 14);
    QuietSamples(5, 15);
    QuietSamples(5, 16);
    QuietSamples(5, 17);
    QuietSamples(5, 18);
    var mag := Disturbed();
    assert Common3456(mag, 0) - Diff1011(mag, 0) == 475;
    assert RefLevel(mag, 0, threshold) == (190 * threshold) / 32;
  }

  // ---- sealing a message with its parity ----

  function High8(c: bv32): bv8 {
    ((c >> 16) & 0xFF) as bv8
  }

  function Middle8(c: bv32): bv8 {
    ((c >> 8) & 0xFF) as bv8
  }

  function Low8(c: bv32): bv8 {
    (c & 0xFF) as bv8
  }

  lemma JoinParity(c: bv32)
    requires Is24(c)
    ensures Join(High8(c), Middle8(c), Low8(c)) == c
  {
  }

  /**
    * The data with the parity field that a transponder gives it: the checksum of the data with the address laid over.
    */
  function Overlay(data: seq<bv8>, address: bv32): (msg: seq<bv8>)
    requires |data| == 4 || |data| == 11
    ensures |msg| == |data| + 3 && msg[..|data|] == data
  {
    var c := Sum24(Checksum(data + [0, 0, 0], 8 * (|data| + 3)), address);
    data + [High8(c), Middle8(c), Low8(c)]
  }

  /** Every data field and address have a frame whose checksum is the address. */
  lemma OverlayChecksum(data: seq<bv8>, address: bv32)
    requires (|data| == 4 || |data| == 11) && Is24(address)
    ensures var msg, bits := Overlay(data, address), 8 * (|data| + 3);
            && IsFrame(msg, bits) && Checksum(msg, bits) == address
            && WithoutParity(msg) == data + [0, 0, 0]
            && Join(msg[|data|], msg[|data| + 1], msg[|data| + 2]) == Sum24(Checksum(WithoutParity(msg), bits), address)
  {
    hide Checksum, Join, Is24, High8, Middle8, Low8, Sum24, WordBits;
    var bits := 8 * (|data| + 3);
    var zero := data + [0, 0, 0];
    var msg := Overlay(data, address);
    FrameChecksum(zero, bits);
    SumBits(Checksum(zero, bits), address);
    JoinParity(Sum24(Checksum(zero, bits), address));
    assert WithoutParity(msg) == zero;
    OverlaidWord(msg, bits, address);
  }

  /** The data with the parity field that makes the checksum zero. */
  function Sealed(data: seq<bv8>): (msg: seq<bv8>)
    requires |data| == 4 || |data| == 11
    ensures |msg| == |data| + 3 && msg[..|data|] == data
  {
    Overlay(data, 0)
  }

  /** Every data field has a parity field that makes a valid frame of it. */
  lemma SealedValid(data: seq<bv8>)
    requires |data| == 4 || |data| == 11
    ensures IsFrame(Sealed(data), 8 * (|data| + 3)) && Checksum(Sealed(data), 8 * (|data| + 3)) == 0
  {
    hide Checksum, Join, Overlay;
    OverlayChecksum(data, 0);
  }

  // ---- altitude replies ----

  /** The data field of an altitude reply, format 4. */
  const ALTITUDE_REPLY: seq<bv8> := [0x20, 0, 0, 0]

  lemma AltitudeFormat()
    ensures TypeOf(0x20) == 4
  {
  }

  lemma LostDigit(address: bv32)
    requires EndsInZero(address)
    ensures address != 1
  {
  }

  /** An altitude reply from the aircraft with address 1 parses to another address. */
  lemma AltitudeReplyLost(table: Table)
    requires TableFor(table, 56)
    ensures var frame := Overlay(ALTITUDE_REPLY, 1);
            && Checksum(frame, 56) == 1 && RepairableFrame(frame, 56, table)
            && ParseFrame(frame, 56, table).addr != 1
  {
    hide Checksum, Join, TableFor, ParseFrame, RepairableFrame, Overlay, Surviving, EndsInZero, TypeOf;
    One24();
    var frame := Overlay(ALTITUDE_REPLY, 1);
    assert frame[0] == frame[..4][0];
    OverlayChecksum(ALTITUDE_REPLY, 1);
    AltitudeFormat();
    AltitudeReplyAddressLost(frame, 1, table);
    LostDigit(ParseFrame(frame, 56, table).addr);
  }

  lemma One24()
    ensures Is24(1)
  {
  }

  // ---- a clean all-call reply that loses ----

  /** All-call replies, format 11: to interrogator 1, and to none in particular. */
  const NUMBERED: bv8 := 0x59
  const UNNUMBERED: bv8 := 0x58

  lemma AllCallFormat(b: bv8)
    requires b == NUMBERED || b == UNNUMBERED
    ensures b >> 3 == 11 && (b & 7 == 0 <==> b == UNNUMBERED)
  {
  }

  lemma AllCallWellFormed(msg: seq<bv8>)
    requires |msg| == 7 && (msg[0] == NUMBERED || msg[0] == UNNUMBERED)
    ensures WellFormed(msg) && msg[0] >> 3 == 11 && (msg[0] & 7 == 0 <==> msg[0] == UNNUMBERED)
  {
    AllCallFormat(msg[0]);
  }

  lemma FlipKeepsByte(msg: seq<bv8>, p: nat)
    requires 8 <= p < 8 * |msg|
    ensures Flip(msg, p)[0] == msg[0]
  {
    hide Mask;
  }

  /** A clean reply whose own address is zero, and a copy with the first bit of the address damaged. */
  function CleanReply(first: bv8): (msg: seq<bv8>)
    ensures |msg| == 7 && msg[..4] == [first, 0, 0, 0]
  {
    Sealed([first, 0, 0, 0])
  }

  lemma DamagedReply(table: Table, first: bv8)
    requires TableFor(table, 56) && (first == NUMBERED || first == UNNUMBERED)
    ensures var clean, damaged := CleanReply(first), Flip(CleanReply(first), 8);
            && WellFormed(clean) && WellFormed(damaged) && clean[0] == damaged[0] == first
            && Checksum(clean, 56) == 0 && Checksum(damaged, 56) != 0
            && Lookup(table, Checksum(damaged, 56)).Some? && Lookup(table, Checksum(damaged, 56)).value.errors == 1
  {
    hide Checksum, WellFormed, TableFor, Flip, Sealed;
    var clean := CleanReply(first);
    assert clean[0] == clean[..4][0];
    SealedValid([first, 0, 0, 0]);
    FlipKeepsByte(clean, 8);
    AllCallWellFormed(clean);
    AllCallWellFormed(Flip(clean, 8));
    SingleErrorCorrected(table, clean, 56, 8);
    ValidNotDiagnosed(table, 56);
  }

  /**
    * For a receiver that knows every aircraft, a clean numbered reply scores no more than a copy with one damaged
    * bit.
    */
  lemma CleanAllCallLoses(rx: Receiver) returns (clean: seq<bv8>, damaged: seq<bv8>)
    requires rx.Valid() && forall a :: rx.known(a)
    ensures WellFormed(clean) && WellFormed(damaged) && clean[0] == damaged[0] == NUMBERED
    ensures Checksum(clean, 56) == 0 && Checksum(damaged, 56) != 0
    ensures Score(rx, clean) <= Score(rx, damaged)
  {
    hide Checksum, WellFormed, TableFor, Flip, Score, CleanReply;
    clean, damaged := CleanReply(NUMBERED), Flip(CleanReply(NUMBERED), 8);
    DamagedReply(rx.short, NUMBERED);
    AllCallWellFormed(clean);
    CleanOutscoresDamaged(rx, clean, damaged);
  }

  lemma OtherAddress(clean: seq<bv8>)
    requires |clean| == 7 && clean[1] == clean[2] == clean[3] == 0
    ensures var damaged := Flip(clean, 8);
            Join(clean[1], clean[2], clean[3]) == 0 && Join(damaged[1], damaged[2], damaged[3]) == 0x800000
  {
    assert Mask(0) == 0x80;
    assert Flip(clean, 8) == clean[1 := clean[1] ^ Mask(0)];
    assert (0 as bv8) ^ 0x80 == 0x80;
    assert Join(0, 0, 0) == 0 && Join(0x80, 0, 0) == 0x800000;
  }

  /** A receiver that knows only the address into which the damage turns the real one prefers the damaged reply. */
  lemma CleanUnnumberedLoses(short: Table, long: Table) returns (rx: Receiver, clean: seq<bv8>, damaged: seq<bv8>)
    requires TableFor(short, 56) && TableFor(long, 112)
    ensures rx.Valid() && WellFormed(clean) && WellFormed(damaged) && clean[0] == damaged[0] == UNNUMBERED
    ensures Checksum(clean, 56) == 0 && Checksum(damaged, 56) != 0
    ensures Score(rx, clean) <= Score(rx, damaged)
  {
    hide Checksum, WellFormed, TableFor, Flip, Score, CleanReply, Join;
    rx := Receiver(short, long, a => a == 0x800000);
    clean, damaged := CleanReply(UNNUMBERED), Flip(CleanReply(UNNUMBERED), 8);
    DamagedReply(short, UNNUMBERED);
    assert clean[..4][1] == clean[1] && clean[..4][2] == clean[2] && clean[..4][3] == clean[3];
    OtherAddress(clean);
    AllCallWellFormed(clean);
    CleanOutscoresDamaged(rx, clean, damaged);
  }
}
