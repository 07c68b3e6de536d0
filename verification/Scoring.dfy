/** Trying one phase at one preamble position: slice a message, score it. */
module Scoring {
  import opened Common
  import opened Words
  import opened Engine
  import opened CrcFix
  import opened FixTable
  import opened Slicer

  /** The two error-correction tables and the filter of recently seen addresses. */
  datatype Receiver = Receiver(short: Table, long: Table, known: bv32 -> bool) {

    ghost predicate Valid() {
      TableFor(short, 56) && TableFor(long, 112)
    }

    function Engine(msgbits: nat): Table {
      if msgbits == 112 then long else short
    }

    function Diagnose(syndrome: bv32, msgbits: nat): Option<ErrorInfo> {
      Lookup(Engine(msgbits), syndrome)
    }
  }

  predicate ValidShort(df: bv8) {
    df == 0 || df == 4 || df == 5 || df == 11
  }

  predicate ValidLong(df: bv8) {
    df == 16 || df == 17 || df == 18 || df == 20 || df == 21
  }

  /** The two sets of formats as the masks that the program tests. */
  lemma FormatMasks(df: bv8)
    requires df < 32
    ensures ValidShort(df) <==> (1 as bv32 << df) & 0x831 != 0
    ensures ValidLong(df) <==> (1 as bv32 << df) & 0x370000 != 0
  {
  }

  function MessageLength(df: bv8): (n: nat)
    ensures n == 0 || n == SHORT_MSG_BYTES || n == LONG_MSG_BYTES
  {
    if ValidLong(df) then LONG_MSG_BYTES else if ValidShort(df) then SHORT_MSG_BYTES else 0
  }

  /** A message whose length is the one its downlink format prescribes. */
  predicate WellFormed(msg: seq<bv8>) {
    |msg| > 0 && |msg| == MessageLength(msg[0] >> 3)
  }

  function ScoreModesMessage(rx: Receiver, msg: seq<bv8>, msgbits: nat): (score: int)
    requires FrameBits(msgbits) && 8 * |msg| == msgbits
    ensures score >= 0 <==> (if msgbits == 56 then ValidShort(msg[0] >> 3) else ValidLong(msg[0] >> 3))
    ensures score >= 0 || score == -2
  {
    var df := msg[0] >> 3;
    if !(if msgbits == 56 then ValidShort(df) else ValidLong(df)) then -2
    else
      var syndrome := Checksum(msg, msgbits);
      var known := rx.known(Join(msg[1], msg[2], msg[3]));
      var info := rx.Diagnose(syndrome, msgbits);
      if df == 11 then AllCallScore(syndrome == 0, msg[0] & 7 == 0, known, info)
      else if df == 17 || df == 18 then SquitterScore(syndrome == 0, known, info)
      else ParityScore(syndrome == 0, known, info)
  }

  function ParityScore(clean: bool, known: bool, info: Option<ErrorInfo>): (score: nat) {
    if clean then (if known then 1000 else 700)
    else if info.Some? && info.value.errors == 1 then (if known then 700 else 500)
    else 100
  }

  function AllCallScore(clean: bool, noInterrogator: bool, known: bool, info: Option<ErrorInfo>): (score: nat) {
    if clean then
      if noInterrogator && known then 1600
      else if noInterrogator then 750
      else if known then 700 else 500
    else if info.Some? && info.value.errors <= 1 then (if known then 800 else 400)
    else 100
  }

  function SquitterScore(clean: bool, known: bool, info: Option<ErrorInfo>): (score: nat) {
    if clean then (if known then 1800 else 1400)
    else if info.Some? && info.value.errors == 1 then (if known then 900 else 700)
    else if info.Some? && info.value.errors == 2 then (if known then 450 else 350)
    else 100
  }

  datatype Scored = Scored(score: int, msg: seq<bv8>)

  /** The tick at which the first data bit of a message begins, for a preamble at `pa` tried at a phase. */
  function StartTick(tryPhase: nat, pa: nat): nat {
    5 * (pa + 19) + tryPhase
  }

  function SlicedBytes(mag: seq<u16>, start: nat, n: nat): (msg: seq<bv8>)
    ensures |msg| == n
  {
    seq(n, k requires 0 <= k < n => SlicedByte(mag, start + 96 * k))
  }

  /** The buffer still holds the samples the byte number `k` is sliced from. */
  predicate Holds(mag: seq<u16>, start: nat, k: nat) {
    (start + 96 * k) / 5 + 20 <= |mag|
  }

  function PhaseResult(rx: Receiver, tryPhase: nat, mag: seq<u16>, pa: nat): (r: Option<Scored>)
    ensures r.Some? ==> WellFormed(r.value.msg) && r.value.score >= 0
  {
    var start := StartTick(tryPhase, pa);
    if !Holds(mag, start, 0) then None
    else
      var n := MessageLength(SlicedByte(mag, start) >> 3);
      if n == 0 || !Holds(mag, start, n - 1) then None
      else
        var msg := SlicedBytes(mag, start, n);
        Some(Scored(ScoreModesMessage(rx, msg, 8 * n), msg))
  }

  method ScorePhase(rx: Receiver, tryPhase: nat, mag: seq<u16>, pa: nat) returns (r: Option<Scored>)
    ensures r == PhaseResult(rx, tryPhase, mag, pa)
  {
    hide SlicedByte, ScoreModesMessage, MessageLength, SlicedBytes;
    var start := pa + 19 + tryPhase / 5;
    ghost var t := StartTick(tryPhase, pa);
    if start + 20 > |mag| {
      return None;
    }
    var pos: nat, phase: nat := start, tryPhase % 5;
    var first;
    first, pos, phase := SliceByte(mag, pos, phase);
    var nbytes := MessageLength(first >> 3);
    if nbytes == 0 {
      return None;
    }
    var msg := [first];
    SlicedBytesOne(mag, t);
    while |msg| < nbytes
      invariant 1 <= |msg| <= nbytes
      invariant phase < 5 && 5 * pos + phase == t + 96 * |msg|
      invariant msg == SlicedBytes(mag, t, |msg|)
      invariant Holds(mag, t, |msg| - 1)
    {
      if pos + 20 > |mag| {
        HoldsBefore(mag, t, |msg|, nbytes - 1);
        return None;
      }
      var byte;
      SlicedBytesNext(mag, t, |msg|);
      byte, pos, phase := SliceByte(mag, pos, phase);
      msg := msg + [byte];
    }
    var score := ScoreModesMessage(rx, msg, 8 * nbytes);
    if score >= 0 {
      return Some(Scored(score, msg));
    } else {
      return None;
    }
  }

  lemma HoldsBefore(mag: seq<u16>, start: nat, j: nat, k: nat)
    requires j <= k
    ensures Holds(mag, start, k) ==> Holds(mag, start, j)
  {
    assert start + 96 * j <= start + 96 * k;
  }

  lemma SlicedBytesOne(mag: seq<u16>, start: nat)
    ensures SlicedBytes(mag, start, 1) == [SlicedByte(mag, start)]
  {
  }

  lemma SlicedBytesNext(mag: seq<u16>, start: nat, n: nat)
    ensures SlicedBytes(mag, start, n + 1) == SlicedBytes(mag, start, n) + [SlicedByte(mag, start + 96 * n)]
  {
  }
}
