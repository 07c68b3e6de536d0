/** From the demodulator through the parser to the registry: what becomes of replies with an overlaid address. */
module Tracking {
  import opened Common
  import opened Engine
  import opened CrcFix
  import opened FixTable
  import opened Slicer
  import opened Scoring
  import opened MultiPass
  import opened Parser
  import opened ParserProps
  import Registry

  /** Formats that announce no address in clear and are not given another one. */
  predicate TakesChecksum(t: bv8) {
    t == 0 || t == 5 || t == 20 || t == 21
  }

  /** A frame with a zero checksum in one of these formats parses to address zero. */
  lemma CleanReplyHasNoAddress(bytes: seq<bv8>, bitlen: nat, table: Table)
    requires IsFrame(bytes, bitlen) && TableFor(table, bitlen) && Checksum(bytes, bitlen) == 0
    requires TakesChecksum(TypeOf(bytes[0]))
    ensures RepairableFrame(bytes, bitlen, table)
    ensures ParseFrame(bytes, bitlen, table).addr == 0
  {
    hide Checksum, TableFor, TypeOf, Lookup, AltitudeReplyAddress;
    TableFits(table, bitlen, bytes, bitlen);
    var padded := Padded(bytes, bitlen / 8);
    assert padded[..bitlen / 8] == bytes;
    assert padded[0] == padded[..bitlen / 8][0];
    ChecksumPrefix(padded, bitlen);
  }

  /**
    * The multi-pass demodulator emits only zero checksums. In formats 0 and 5 the checksum is the address, and
    * formats 20 and 21 are given none, so such a message, if it is emitted at all, has address zero, and the registry
    * ignores it.
    */
  lemma EmittedRepliesUntracked(rx: Receiver, start: seq<u16>, magLen: nat, config: Config, floor: nat, n: nat,
                                m: Message, s: Registry.State, squawk: Option<nat>, level: real, now: int)
    requires rx.Valid() && magLen <= |start| && m in Passes(rx, start, magLen, config, floor, n).messages
    requires |m.bytes| > 0 && TakesChecksum(TypeOf(m.bytes[0]))
    ensures var bits := 8 * |m.bytes|;
            && FrameBits(bits) && RepairableFrame(m.bytes, bits, rx.Engine(bits))
            && var addr := ParseFrame(m.bytes, bits, rx.Engine(bits)).addr as nat;
            addr == 0 && Registry.Step(s, Registry.Received(addr, squawk, level, now)) == s
  {
    hide Checksum, TableFor, TypeOf, TakesChecksum, Passes, ParseFrame, RepairableFrame, WellFormed;
    EmittedMessagesClean(rx, start, magLen, config, floor, n);
    assert Clean(m.bytes);
    CleanReplyHasNoAddress(m.bytes, 8 * |m.bytes|, rx.Engine(8 * |m.bytes|));
  }

  /** A reply with the address of its aircraft laid over its parity is dropped, or emitted as something else. */
  lemma OverlaidReplyNotKept(rx: Receiver, reply: seq<bv8>)
    requires rx.Valid() && WellFormed(reply) && Checksum(reply, 8 * |reply|) != 0
    ensures Repaired(rx, reply).Some? ==> Repaired(rx, reply).value.0 != reply
  {
    hide Checksum, WellFormed, TableFor, Repaired;
    if Repaired(rx, reply).Some? {
      RepairedClean(rx, reply);
    }
  }
}
