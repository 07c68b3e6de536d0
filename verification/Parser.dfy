/** The checksum, correction and address paths of the Mode S message parser. */
module Parser {
  import opened Common
  import opened Words
  import opened Engine
  import opened CrcFix
  import opened FixTable
  import opened Repair

  const LONG_BYTES := 14

  /** The fields of a parsed message that the checksum and address paths assign. */
  class ModesMessage {
    const msg: array<bv8>
    const verbatim: array<bv8>
    var msgtype: bv8
    var msgbits: nat
    var crc: bv32
    var correctedBits: nat
    var crcOk: bool
    var corrected: bool
    var addr: bv32
    var aa: bv32

    constructor ()
      ensures fresh(msg) && fresh(verbatim) && msg != verbatim
      ensures msg.Length == LONG_BYTES && verbatim.Length == LONG_BYTES
      ensures msg[..] == ZeroBytes(LONG_BYTES) && verbatim[..] == ZeroBytes(LONG_BYTES)
      ensures correctedBits == 0 && !crcOk && !corrected && addr == 0 && crc == 0
    {
      msg := new bv8[LONG_BYTES](_ => 0);
      verbatim := new bv8[LONG_BYTES](_ => 0);
      msgtype, msgbits, crc, correctedBits, crcOk, corrected, addr := 0, 0, 0, 0, false, false, 0;
      aa := 0;
    }

    /** The message as a value. */
    function View(): Parsed
      reads this, msg, verbatim
    {
      Parsed(msg[..], verbatim[..], msgtype, crc, correctedBits, crcOk, corrected, addr)
    }
  }

  datatype Parsed = Parsed(msg: seq<bv8>, verbatim: seq<bv8>, msgtype: bv8, crc: bv32, correctedBits: nat,
                           crcOk: bool, corrected: bool, addr: bv32)

  // ---- what a parse yields ----

  function Padded(msg: seq<bv8>, nbytes: nat): (p: seq<bv8>)
    requires nbytes <= LONG_BYTES && nbytes <= |msg|
    ensures |p| == LONG_BYTES && p[..nbytes] == msg[..nbytes]
  {
    msg[..nbytes] + ZeroBytes(LONG_BYTES - nbytes)
  }

  /** The message type: the first five bits. */
  function TypeOf(b: bv8): bv8 {
    (b & 0xF8) >> 3
  }

  predicate AddressParity(t: bv8) {
    t == 0 || t == 4 || t == 5
  }

  /** The 24 bits from bit 36 on, which formats 4 and 16 take for the address. */
  function AltitudeReplyAddress(msg: seq<bv8>): bv32
    requires |msg| == LONG_BYTES
  {
    ((FirstDigit(msg[4]) | MiddleDigits(msg[5])) | LowDigits(msg[6])) | LastDigit(msg[7])
  }

  function FirstDigit(b: bv8): bv32 {
    ((b as bv32) & 0x0F) << 20
  }

  function MiddleDigits(b: bv8): bv32 {
    (b as bv32) << 12
  }

  function LowDigits(b: bv8): bv32 {
    (b as bv32) << 4
  }

  function LastDigit(b: bv8): bv32 {
    ((b as bv32) & 0xF0) >> 4
  }

  /** Which address a message carries, given its bytes after correction and the address so far. */
  function Address(t: bv8, msg: seq<bv8>, addr: bv32): bv32
    requires |msg| == LONG_BYTES
  {
    if t == 11 || t == 17 || t == 18 then Join(msg[1], msg[2], msg[3])
    else if t == 4 || t == 16 then AltitudeReplyAddress(msg)
    else addr
  }

  /** A diagnosis as the parser uses it: none for address/parity formats and valid frames. */
  function Diagnosis(t: bv8, crc: bv32, table: Table): Option<ErrorInfo> {
    if AddressParity(t) || crc == 0 then None else Lookup(table, crc)
  }

  /** The diagnosis of this message names bits of its buffer; with any other the repair would leave the buffer. */
  ghost predicate Repairable(t: bv8, msg: seq<bv8>, msgbits: nat, table: Table)
    requires FrameBits(msgbits) && |msg| == LONG_BYTES
  {
    var diagnosis := Diagnosis(t, Checksum(msg, msgbits), table);
    diagnosis.Some? ==> BitsFit(diagnosis.value.bits, 8 * LONG_BYTES)
  }

  ghost predicate RepairableFrame(bytes: seq<bv8>, msgbits: nat, table: Table)
    requires FrameBits(msgbits) && msgbits / 8 <= |bytes|
  {
    var p := Unchecked(bytes, msgbits);
    Repairable(p.msgtype, p.msg, msgbits, table)
  }

  /** The checksum path: an address/parity format takes the checksum as address, any other is repaired if it can be. */
  function Checked(p: Parsed, msgbits: nat, table: Table): (r: Parsed)
    requires FrameBits(msgbits) && |p.msg| == LONG_BYTES && Repairable(p.msgtype, p.msg, msgbits, table)
    ensures |r.msg| == LONG_BYTES
  {
    var crc := Checksum(p.msg, msgbits);
    match Diagnosis(p.msgtype, crc, table)
    case Some(info) =>
      var fixed := Corrected(p.msg, info.bits);
      var crc' := Checksum(fixed, msgbits);
      p.(msg := fixed, crc := crc', correctedBits := info.errors, crcOk := crc' == 0, corrected := true)
    case None =>
      var overlaid := AddressParity(p.msgtype);
      p.(crc := crc, crcOk := overlaid || crc == 0, addr := if overlaid then crc else p.addr)
  }

  /** A message as it was sliced, before anything is known about it. */
  function Unchecked(bytes: seq<bv8>, msgbits: nat): (p: Parsed)
    requires FrameBits(msgbits) && msgbits / 8 <= |bytes|
    ensures |p.msg| == LONG_BYTES
  {
    var padded := Padded(bytes, msgbits / 8);
    Parsed(padded, padded, TypeOf(padded[0]), 0, 0, false, false, 0)
  }

  function ParseFrame(bytes: seq<bv8>, msgbits: nat, table: Table): Parsed
    requires FrameBits(msgbits) && msgbits / 8 <= |bytes|
    requires RepairableFrame(bytes, msgbits, table)
  {
    var p := Checked(Unchecked(bytes, msgbits), msgbits, table);
    p.(addr := Address(p.msgtype, p.msg, p.addr))
  }

  /** The tables of both frame lengths fit, whatever the length of the frame they are used for. */
  lemma TableFits(table: Table, bitlen: nat, bytes: seq<bv8>, msgbits: nat)
    requires bitlen <= 8 * LONG_BYTES && TableFor(table, bitlen)
    requires FrameBits(msgbits) && msgbits / 8 <= |bytes|
    ensures RepairableFrame(bytes, msgbits, table)
  {
    hide Syndrome, Syndrome2, Checksum, Padded, TypeOf;
    var crc := Checksum(Unchecked(bytes, msgbits).msg, msgbits);
    if Key(crc) in table {
      assert Entry(bitlen, crc, table[Key(crc)]);
    }
  }

  // ---- the parser ----

  /** Formats that announce their address in clear. */
  method ExtractCommonFields(mm: ModesMessage)
    requires mm.msg.Length == LONG_BYTES
    modifies mm`aa, mm`addr
    ensures mm.addr == if mm.msgtype == 11 || mm.msgtype == 17 || mm.msgtype == 18
                       then Join(mm.msg[1], mm.msg[2], mm.msg[3]) else old(mm.addr)
  {
    hide Join;
    if mm.msgtype == 11 || mm.msgtype == 17 || mm.msgtype == 18 {
      mm.aa := Join(mm.msg[1], mm.msg[2], mm.msg[3]);
      mm.addr := mm.aa;
    }
  }

  /** Altitude replies: only the address they assign. */
  method DecodeDf0416(mm: ModesMessage)
    requires mm.msg.Length == LONG_BYTES
    modifies mm`addr
    ensures mm.addr == if mm.msgtype == 4 || mm.msgtype == 16
                       then AltitudeReplyAddress(mm.msg[..]) else old(mm.addr)
  {
    hide AltitudeReplyAddress;
    if mm.msgtype == 4 || mm.msgtype == 16 {
      mm.addr := AltitudeReplyAddress(mm.msg[..]);
    }
  }

  method CheckAndRepair(mm: ModesMessage, bits: nat, engine: CrcFixEngine)
    requires mm.msg.Length == LONG_BYTES && mm.msg != mm.verbatim
    requires FrameBits(bits) && Repairable(mm.msgtype, mm.msg[..], bits, engine.table)
    modifies mm, mm.msg
    ensures mm.msgbits == old(mm.msgbits)
    ensures mm.View() == Checked(old(mm.View()), bits, engine.table)
  {
    hide Checksum, Corrected, TableFor;
    var crc := ModesChecksum(mm.msg[..], bits);
    mm.crc := crc;
    if mm.msgtype == 0 || mm.msgtype == 4 || mm.msgtype == 5 {
      mm.addr := crc;
      mm.crcOk := true;
    } else if crc != 0 {
      var diagnosis := engine.Diagnose(crc);
      if diagnosis.Some? {
        Fix(mm.msg, diagnosis.value);
        mm.correctedBits := diagnosis.value.errors;
        var again := ModesChecksum(mm.msg[..], bits);
        mm.crc := again;
        mm.corrected := true;
      }
      mm.crcOk := mm.crc == 0;
    } else {
      mm.crcOk := true;
    }
  }

  /** A two-byte reply: a Mode A code and no checksum. */
  method ParseModeAC(msg: seq<bv8>) returns (mm: ModesMessage)
    requires |msg| >= 2
    ensures fresh(mm) && mm.msgbits == 16 && mm.View() == ParsedAC(msg[0], msg[1])
  {
    hide TypeOf, ModeAAddress;
    mm := new ModesMessage();
    mm.msgbits := 16;
    mm.msgtype := TypeOf(msg[0]);
    mm.msg[0], mm.msg[1] := msg[0], msg[1];
    mm.verbatim[0], mm.verbatim[1] := msg[0], msg[1];
    mm.addr := ModeAAddress(msg[0], msg[1]);
    mm.crcOk := true;
  }

  /** An address no aircraft has: the low bits of the code, marked outside the 24-bit space. */
  function ModeAAddress(a: bv8, b: bv8): (addr: bv32)
    ensures !Is24(addr)
  {
    ((((a as bv32) << 4) | ((b as bv32) >> 4)) & 0x7F) | 0x01000000
  }

  function ParsedAC(a: bv8, b: bv8): Parsed {
    var msg := [a, b] + ZeroBytes(LONG_BYTES - 2);
    Parsed(msg, msg, TypeOf(a), 0, 0, true, false, ModeAAddress(a, b))
  }

  method ParseFrameBytes(msg: seq<bv8>, msgbits: nat, engine: CrcFixEngine) returns (mm: ModesMessage)
    requires FrameBits(msgbits) && msgbits / 8 <= |msg| && RepairableFrame(msg, msgbits, engine.table)
    ensures fresh(mm) && mm.msgbits == msgbits
    ensures mm.View() == ParseFrame(msg, msgbits, engine.table)
  {
    hide Checked, AltitudeReplyAddress, Join, TypeOf, Padded, Repairable;
    mm := new ModesMessage();
    mm.msgbits := msgbits;
    var padded := Padded(msg, msgbits / 8);
    CopyInto(padded, mm.msg);
    CopyInto(padded, mm.verbatim);
    mm.msgtype := TypeOf(padded[0]);
    assert mm.View() == Unchecked(msg, msgbits);
    CheckAndRepair(mm, msgbits, engine);
    ExtractCommonFields(mm);
    DecodeDf0416(mm);
  }

  method ParseModesMessage(msg: seq<bv8>, msgbits: nat, engine: CrcFixEngine) returns (r: Option<ModesMessage>)
    requires msgbits == 16 ==> |msg| >= 2
    requires FrameBits(msgbits) ==> msgbits / 8 <= |msg| && RepairableFrame(msg, msgbits, engine.table)
    ensures r.Some? <==> msgbits == 16 || FrameBits(msgbits)
    ensures r.Some? ==> fresh(r.value) && r.value.msgbits == msgbits
    ensures FrameBits(msgbits) ==> r.value.View() == ParseFrame(msg, msgbits, engine.table)
    ensures msgbits == 16 ==> r.value.View() == ParsedAC(msg[0], msg[1])
  {
    hide ParseFrame, ParsedAC, RepairableFrame;
    if msgbits == 16 {
      var ac := ParseModeAC(msg);
      return Some(ac);
    }
    if msgbits != 56 && msgbits != 112 {
      return None;
    }
    var mm := ParseFrameBytes(msg, msgbits, engine);
    return Some(mm);
  }

  method CopyInto(from: seq<bv8>, to: array<bv8>)
    requires |from| == to.Length
    modifies to
    ensures to[..] == from
  {
    for i := 0 to |from|
      invariant to[..i] == from[..i]
    {
      to[i] := from[i];
    }
  }
}
