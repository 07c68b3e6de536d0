/** What a parsed frame promises: soundness of the checksum flag, of the repair and of the address. */
module ParserProps {
  import opened Common
  import opened Bits
  import opened Words
  import opened Crc
  import opened Engine
  import opened CrcFix
  import opened FixTable
  import opened Repair
  import opened Parser

  lemma {:induction false} CorrectedPrefix(a: seq<bv8>, n: nat, bits: seq<int>)
    requires n <= |a| && BitsFit(bits, 8 * n)
    ensures Corrected(a, bits)[..n] == Corrected(a[..n], bits)
    ensures Corrected(a, bits)[n..] == a[n..]
    decreases |bits|
  {
    hide Mask;
    if |bits| > 0 && bits[0] >= 0 {
      FlipPrefix(a, n, bits[0]);
      CorrectedPrefix(Flip(a, bits[0]), n, bits[1..]);
    }
  }

  lemma FlipPrefix(a: seq<bv8>, n: nat, p: nat)
    requires n <= |a| && p < 8 * n
    ensures Flip(a, p)[..n] == Flip(a[..n], p)
    ensures Flip(a, p)[n..] == a[n..]
  {
    hide Mask;
  }

  lemma ChecksumPrefix(a: seq<bv8>, msgbits: nat)
    requires FrameBits(msgbits) && msgbits / 8 <= |a|
    ensures IsFrame(a[..msgbits / 8], msgbits)
    ensures Checksum(a, msgbits) == Checksum(a[..msgbits / 8], msgbits)
  {
    hide Residue, ToBits, FromBits;
    var n := msgbits / 8;
    assert a[..n][..n] == a[..n];
  }

  /** The checksum flag, the repair and the bit count of every frame whose parity is not an address. */
  lemma ParseSound(bytes: seq<bv8>, msgbits: nat, table: Table)
    requires FrameBits(msgbits) && msgbits / 8 <= |bytes| && TableFor(table, msgbits)
    ensures RepairableFrame(bytes, msgbits, table)
    ensures var r, n := ParseFrame(bytes, msgbits, table), msgbits / 8;
            && |r.msg| == LONG_BYTES && r.verbatim == Padded(bytes, n) && r.msg[n..] == r.verbatim[n..]
            && Format(r.msg) == Format(r.verbatim)
            && Distance(r.msg[..n], r.verbatim[..n]) == r.correctedBits
            && (r.corrected ==> r.crcOk && 1 <= r.correctedBits <= 2)
            && (!AddressParity(r.msgtype) ==> (r.crcOk <==> Checksum(r.msg, msgbits) == 0))
            && (AddressParity(r.msgtype) ==> r.crcOk && r.msg == r.verbatim)
  {
    hide Checksum, Corrected, TableFor, Distance, Address, TypeOf, AddressParity, Residue, Is24;
    TableFits(table, msgbits, bytes, msgbits);
    var n := msgbits / 8;
    var padded := Padded(bytes, n);
    var crc := Checksum(padded, msgbits);
    var frame := padded[..n];
    ChecksumPrefix(padded, msgbits);
    match Diagnosis(TypeOf(padded[0]), crc, table)
    case Some(info) =>
      RepairSound(table, frame, msgbits);
      CorrectedPrefix(padded, n, info.bits);
      ChecksumPrefix(Corrected(padded, info.bits), msgbits);
      SameFormat(Corrected(padded, info.bits), Corrected(frame, info.bits), n);
      SameFormat(padded, frame, n);
    case None =>
      DistanceSelf(frame);
  }

  /** The parser's message type is the downlink format that the demodulator goes by. */
  lemma TypeIsFormat(msg: seq<bv8>)
    requires |msg| > 0
    ensures TypeOf(msg[0]) == Format(msg)
  {
  }

  lemma TypeIsParity(t: bv8)
    ensures AddressParity(t) <==> t == 0 || t == 4 || t == 5
  {
  }

  lemma SameFormat(a: seq<bv8>, b: seq<bv8>, n: nat)
    requires 0 < n <= |a| && b == a[..n]
    ensures Format(a) == Format(b)
  {
  }

  /**
    * The other fields of every parsed frame: the bytes as they came with zeros behind them, the demodulator's format,
    * and the checksum of the message as it is now. Formats 0, 4 and 5 alone are never checked and never repaired.
    */
  lemma ParsedFields(bytes: seq<bv8>, msgbits: nat, table: Table)
    requires FrameBits(msgbits) && msgbits / 8 <= |bytes| && RepairableFrame(bytes, msgbits, table)
    ensures var r, n := ParseFrame(bytes, msgbits, table), msgbits / 8;
            var parity := Format(bytes) == 0 || Format(bytes) == 4 || Format(bytes) == 5;
            && r.verbatim == bytes[..n] + ZeroBytes(LONG_BYTES - n) && r.msgtype == Format(bytes)
            && |r.msg| == LONG_BYTES && r.crc == Checksum(r.msg, msgbits)
            && (r.crcOk <==> parity || r.crc == 0)
  {
    hide Checksum, Corrected, TableFor, Address, TypeOf, AddressParity, Residue, Is24;
    TypeIsFormat(bytes);
    TypeIsParity(TypeOf(bytes[0]));
    var p := Unchecked(bytes, msgbits);
    assert p.msg[0] == p.msg[..msgbits / 8][0] == bytes[0];
  }

  /** A valid frame damaged in one bit outside the format field parses to the original frame. */
  lemma ParseHeals(valid: seq<bv8>, msgbits: nat, p: nat, table: Table)
    requires IsFrame(valid, msgbits) && TableFor(table, msgbits) && Checksum(valid, msgbits) == 0
    requires 5 <= p < msgbits && !AddressParity(TypeOf(valid[0]))
    ensures RepairableFrame(Flip(valid, p), msgbits, table)
    ensures var r := ParseFrame(Flip(valid, p), msgbits, table);
            && r.msg[..|valid|] == valid && r.crcOk && r.corrected && r.correctedBits == 1
            && r.msgtype == TypeOf(valid[0])
  {
    hide Checksum, Corrected, TableFor, Address, AddressParity, TypeOf, Residue, Flip, Syndrome, Is24;
    TableFits(table, msgbits, Flip(valid, p), msgbits);
    var n := msgbits / 8;
    var bytes := Flip(valid, p);
    var padded := Padded(bytes, n);
    assert bytes[..n] == bytes && padded[..n] == bytes;
    ChecksumPrefix(padded, msgbits);
    SingleErrorCorrected(table, valid, msgbits, p);
    SingleNotZero(table, msgbits, Checksum(bytes, msgbits));
    FlipKeepsType(valid, p);
    assert padded[0] == padded[..n][0];
    var info := table[Key(Checksum(bytes, msgbits))];
    CorrectedPrefix(padded, n, info.bits);
    ChecksumPrefix(Corrected(padded, info.bits), msgbits);
  }

  lemma SingleNotZero(table: Table, msgbits: nat, s: bv32)
    requires FrameBits(msgbits) && TableFor(table, msgbits) && Key(s) in table
    ensures s != 0
  {
    hide TableFor;
    ValidNotDiagnosed(table, msgbits);
  }

  lemma FlipKeepsType(msg: seq<bv8>, p: nat)
    requires 5 <= p < 8 * |msg|
    ensures TypeOf(Flip(msg, p)[0]) == TypeOf(msg[0])
  {
    hide Mask;
    if p < 8 {
      MaskKeepsType(msg[0], p);
    }
  }

  lemma MaskKeepsType(b: bv8, i: nat)
    requires 5 <= i < 8
    ensures TypeOf(b ^ Mask(i)) == TypeOf(b)
  {
  }

  // ---- address/parity formats ----

  /** The bytes of a 56-bit or 112-bit frame whose parity field is zero. */
  function WithoutParity(frame: seq<bv8>): (r: seq<bv8>)
    requires |frame| >= 3
    ensures |r| == |frame|
  {
    frame[..|frame| - 3] + [0, 0, 0]
  }

  lemma JoinZero()
    ensures Join(0, 0, 0) == 0
  {
  }

  /** The residue of a frame is that of its data with the parity field added in. */
  lemma ParitySplit(frame: seq<bv8>)
    requires |frame| >= 3
    ensures var n := |frame|;
            Residue(ToBits(frame)) ==
            Xor(Residue(ToBits(WithoutParity(frame))), WordBits(Join(frame[n - 3], frame[n - 2], frame[n - 1])))
  {
    hide *;
    var n := |frame|;
    var zero := WithoutParity(frame);
    assert zero[..n - 3] == frame[..n - 3] && zero[n - 3] == zero[n - 2] == zero[n - 1] == 0 by { ParityIsZero(frame); }
    LastThree(frame);
    LastThree(zero);
    var d := ToBits(frame[..n - 3]);
    var p := ByteBits(frame[n - 3]) + ByteBits(frame[n - 2]) + ByteBits(frame[n - 1]);
    var z := ByteBits(0) + ByteBits(0) + ByteBits(0);
    AddParity(d, p);
    AddParity(d, z);
    JoinBits(frame[n - 3], frame[n - 2], frame[n - 1]);
    JoinBits(0, 0, 0);
    JoinZero();
    ZeroBits();
    XorZero(Register(d));
  }

  lemma ParityIsZero(frame: seq<bv8>)
    requires |frame| >= 3
    ensures WithoutParity(frame)[..|frame| - 3] == frame[..|frame| - 3]
    ensures WithoutParity(frame)[|frame| - 3] == 0
    ensures WithoutParity(frame)[|frame| - 2] == 0
    ensures WithoutParity(frame)[|frame| - 1] == 0
  {
  }

  lemma OverlaidBits(frame: seq<bv8>, zero: seq<bv8>, msgbits: nat, sum: bv32, address: bv32)
    requires IsFrame(frame, msgbits) && IsFrame(zero, msgbits)
    requires Residue(ToBits(frame)) == Xor(Residue(ToBits(zero)), WordBits(sum))
    requires WordBits(sum) == Xor(WordBits(Checksum(zero, msgbits)), WordBits(address))
    ensures WordBits(Checksum(frame, msgbits)) == WordBits(address)
  {
    hide Residue, ToBits, WordBits, Checksum, Xor, Is24;
    FrameChecksum(frame, msgbits);
    FrameChecksum(zero, msgbits);
    CancelLeft(Residue(ToBits(zero)), WordBits(address));
  }

  lemma OverlaidWord(frame: seq<bv8>, msgbits: nat, address: bv32)
    requires IsFrame(frame, msgbits) && Is24(address)
    requires WordBits(Join(frame[|frame| - 3], frame[|frame| - 2], frame[|frame| - 1])) ==
             Xor(WordBits(Checksum(WithoutParity(frame), msgbits)), WordBits(address))
    ensures Checksum(frame, msgbits) == address
  {
    hide Residue, ToBits, Join, WordBits, Checksum, Xor, WithoutParity, Is24;
    var n := |frame|;
    ParitySplit(frame);
    OverlaidBits(frame, WithoutParity(frame), msgbits, Join(frame[n - 3], frame[n - 2], frame[n - 1]), address);
    FrameChecksum(frame, msgbits);
    WordExtensional(Checksum(frame, msgbits), address);
  }

  /** A frame whose parity is its data's checksum plus an address has that address for a checksum. */
  lemma OverlaidChecksum(frame: seq<bv8>, msgbits: nat, address: bv32)
    requires IsFrame(frame, msgbits) && Is24(address)
    requires Join(frame[|frame| - 3], frame[|frame| - 2], frame[|frame| - 1]) ==
             Checksum(WithoutParity(frame), msgbits) ^ address
    ensures Checksum(frame, msgbits) == address
  {
    hide Join, WordBits, Checksum, Xor, WithoutParity, Is24;
    XorWordBits(Checksum(WithoutParity(frame), msgbits), address);
    OverlaidWord(frame, msgbits, address);
  }

  lemma CancelLeft(r: seq<bool>, s: seq<bool>)
    requires |r| == |s|
    ensures Xor(r, Xor(r, s)) == s
  {
  }

  /** Formats 0 and 5 recover the address that the transponder laid over the parity field. */
  lemma OverlaidAddress(frame: seq<bv8>, msgbits: nat, address: bv32, table: Table)
    requires IsFrame(frame, msgbits) && TableFor(table, msgbits) && Is24(address)
    requires TypeOf(frame[0]) == 0 || TypeOf(frame[0]) == 5
    requires Join(frame[|frame| - 3], frame[|frame| - 2], frame[|frame| - 1]) ==
             Checksum(WithoutParity(frame), msgbits) ^ address
    ensures RepairableFrame(frame, msgbits, table)
    ensures var r := ParseFrame(frame, msgbits, table);
            r.addr == address && r.crcOk && !r.corrected && r.msg[..|frame|] == frame
  {
    hide Checksum, Join, TableFor, WithoutParity, AltitudeReplyAddress, TypeOf, Is24;
    TableFits(table, msgbits, frame, msgbits);
    OverlaidChecksum(frame, msgbits, address);
    var padded := Padded(frame, msgbits / 8);
    assert padded[..|frame|] == frame;
    assert padded[0] == padded[..|frame|][0];
    ChecksumPrefix(padded, msgbits);
  }

  /** The last hexadecimal digit of an address is zero. */
  predicate EndsInZero(address: bv32) {
    address & 0x0F == 0
  }

  /** The 24 bits of a parity field, moved up by four. */
  function MovedUp(a: bv8, b: bv8, c: bv8): bv32 {
    (Join(a, b, c) << 4) & 0xFFFFFF
  }

  lemma ReplyField(a: bv8, b: bv8, c: bv8)
    ensures ((FirstDigit(a) | MiddleDigits(b)) | LowDigits(c)) | LastDigit(0) == MovedUp(a, b, c)
    ensures EndsInZero(MovedUp(a, b, c))
  {
  }

  lemma ReplyAddressShort(msg: seq<bv8>)
    requires |msg| == LONG_BYTES && msg[7] == 0
    ensures AltitudeReplyAddress(msg) == MovedUp(msg[4], msg[5], msg[6])
    ensures EndsInZero(AltitudeReplyAddress(msg))
  {
    hide MovedUp, EndsInZero;
    ReplyField(msg[4], msg[5], msg[6]);
  }

  lemma ReplyParsed(frame: seq<bv8>, table: Table)
    requires IsFrame(frame, 56) && TableFor(table, 56) && TypeOf(frame[0]) == 4
    ensures RepairableFrame(frame, 56, table)
    ensures var r := ParseFrame(frame, 56, table);
            r.crc == Checksum(frame, 56) && r.addr == AltitudeReplyAddress(Padded(frame, 7))
  {
    hide Checksum, TableFor, TypeOf, AltitudeReplyAddress, Lookup, Corrected, Is24;
    TableFits(table, 56, frame, 56);
    var padded := Padded(frame, 7);
    assert padded[..7] == frame;
    assert padded[0] == padded[..7][0];
    ChecksumPrefix(padded, 56);
  }

  function Sum24(a: bv32, b: bv32): bv32 {
    a ^ b
  }

  lemma SumBits(a: bv32, b: bv32)
    requires Is24(a) && Is24(b)
    ensures Is24(Sum24(a, b)) && WordBits(Sum24(a, b)) == Xor(WordBits(a), WordBits(b))
  {
    hide WordBits;
    XorWordBits(a, b);
  }

  /** The one address that survives, when the data of the frame have the checksum `c`. */
  function Surviving(c: bv32): bv32 {
    ((c << 4) ^ (c << 8) ^ (c << 12) ^ (c << 16) ^ (c << 20)) & 0xFFFFFF
  }

  function MovedWord(w: bv32): bv32 {
    (w << 4) & 0xFFFFFF
  }

  /** Moving the overlaid parity field up by four bits gives the address back exactly for the surviving one. */
  lemma SurvivingWord(c: bv32, address: bv32)
    requires Is24(address)
    ensures MovedWord(Sum24(c, address)) == address <==> address == Surviving(c)
  {
  }

  lemma SurvivingField(a: bv8, b: bv8, d: bv8, c: bv32, address: bv32)
    requires Is24(address) && Join(a, b, d) == Sum24(c, address)
    ensures MovedUp(a, b, d) == address <==> address == Surviving(c)
  {
    hide Is24, Surviving, Join;
    SurvivingWord(c, address);
    MovedJoin(a, b, d);
  }

  lemma MovedJoin(a: bv8, b: bv8, c: bv8)
    ensures MovedUp(a, b, c) == MovedWord(Join(a, b, c))
  {
    hide Join;
  }

  lemma ReplyLost(frame: seq<bv8>, address: bv32, table: Table)
    requires IsFrame(frame, 56) && TableFor(table, 56) && Is24(address) && TypeOf(frame[0]) == 4
    requires Join(frame[4], frame[5], frame[6]) == Sum24(Checksum(WithoutParity(frame), 56), address)
    ensures RepairableFrame(frame, 56, table)
    ensures var r := ParseFrame(frame, 56, table);
            && r.crc == address
            && r.addr == MovedUp(frame[4], frame[5], frame[6])
            && EndsInZero(r.addr)
            && (r.addr == address <==> address == Surviving(Checksum(WithoutParity(frame), 56)))
  {
    hide Checksum, Join, TableFor, WithoutParity, ParseFrame, RepairableFrame, AltitudeReplyAddress, TypeOf, MovedUp,
         EndsInZero, Is24, Surviving, Sum24, WordBits;
    var zero := WithoutParity(frame);
    FrameChecksum(zero, 56);
    SumBits(Checksum(zero, 56), address);
    OverlaidWord(frame, 56, address);
    ReplyParsed(frame, table);
    var padded := Padded(frame, 7);
    assert forall i | 0 <= i < 7 :: padded[i] == padded[..7][i];
    ReplyAddressShort(padded);
    SurvivingField(frame[4], frame[5], frame[6], Checksum(zero, 56), address);
  }

  /**
    * Format 4 has its address overlaid in the same way, but what is returned is its parity field moved up by four bits.
    * For each data field exactly one address survives that, and it ends in a zero digit.
    */
  lemma AltitudeReplyAddressLost(frame: seq<bv8>, address: bv32, table: Table)
    requires IsFrame(frame, 56) && TableFor(table, 56) && Is24(address) && TypeOf(frame[0]) == 4
    requires Join(frame[4], frame[5], frame[6]) == Checksum(WithoutParity(frame), 56) ^ address
    ensures RepairableFrame(frame, 56, table)
    ensures var r := ParseFrame(frame, 56, table);
            && r.crc == address
            && r.addr == MovedUp(frame[4], frame[5], frame[6])
            && EndsInZero(r.addr)
            && (r.addr == address <==> address == Surviving(Checksum(WithoutParity(frame), 56)))
  {
    hide Checksum, Join, TableFor, WithoutParity, ParseFrame, RepairableFrame, TypeOf, MovedUp, EndsInZero, Is24,
         Surviving;
    ReplyLost(frame, address, table);
  }

  // ---- which bits become the address ----

  lemma FirstDigitBit(b: bv8, i: nat)
    requires i < 24
    ensures WordBit(FirstDigit(b), i) == (i < 4 && BitAt(b, i + 4))
  {
  }

  lemma MiddleDigitsBit(b: bv8, i: nat)
    requires i < 24
    ensures WordBit(MiddleDigits(b), i) == (4 <= i < 12 && BitAt(b, i - 4))
  {
  }

  lemma LowDigitsBit(b: bv8, i: nat)
    requires i < 24
    ensures WordBit(LowDigits(b), i) == (12 <= i < 20 && BitAt(b, i - 12))
  {
  }

  lemma LastDigitBit(b: bv8, i: nat)
    requires i < 24
    ensures WordBit(LastDigit(b), i) == (20 <= i && BitAt(b, i - 20))
  {
  }

  lemma FourParts(a: bv32, b: bv32, c: bv32, d: bv32, i: nat)
    requires i < 24
    ensures WordBit(((a | b) | c) | d, i) == (WordBit(a, i) || WordBit(b, i) || WordBit(c, i) || WordBit(d, i))
  {
    hide *;
    OrThree(a, b, c, i);
    OrNext((a | b) | c, d, i, WordBit(a, i) || WordBit(b, i) || WordBit(c, i));
  }

  /** Formats 4 and 16 take the 24 bits from bit 36 on. */
  lemma ReplyAddressBit(msg: seq<bv8>, i: nat)
    requires |msg| == LONG_BYTES && i < 24
    ensures WordBit(AltitudeReplyAddress(msg), i) == BitAt(msg[(36 + i) / 8], (36 + i) % 8)
  {
    hide WordBit, BitAt, FirstDigit, MiddleDigits, LowDigits, LastDigit;
    FirstDigitBit(msg[4], i);
    MiddleDigitsBit(msg[5], i);
    LowDigitsBit(msg[6], i);
    LastDigitBit(msg[7], i);
    FourParts(FirstDigit(msg[4]), MiddleDigits(msg[5]), LowDigits(msg[6]), LastDigit(msg[7]), i);
  }

  lemma ReplyAddressBits(msg: seq<bv8>)
    requires |msg| == LONG_BYTES
    ensures WordBits(AltitudeReplyAddress(msg)) == ToBits(msg)[36..60]
  {
    hide WordBit, BitAt, AltitudeReplyAddress;
    forall i | 0 <= i < 24
      ensures WordBits(AltitudeReplyAddress(msg))[i] == ToBits(msg)[36..60][i]
    {
      ReplyAddressBit(msg, i);
    }
  }

  lemma AnnouncedBits(msg: seq<bv8>)
    requires |msg| == LONG_BYTES
    ensures WordBits(Join(msg[1], msg[2], msg[3])) == ToBits(msg)[8..32]
  {
    hide WordBits, BitAt, Join;
    JoinBits(msg[1], msg[2], msg[3]);
  }

  /** Which bits of the repaired message become the address, format by format; formats 0 and 5 take the checksum. */
  lemma AddressBits(bytes: seq<bv8>, msgbits: nat, table: Table)
    requires FrameBits(msgbits) && msgbits / 8 <= |bytes| && RepairableFrame(bytes, msgbits, table)
    ensures var r := ParseFrame(bytes, msgbits, table);
            && |r.msg| == LONG_BYTES
            && WordBits(r.addr) ==
               if r.msgtype == 11 || r.msgtype == 17 || r.msgtype == 18 then ToBits(r.msg)[8..32]
               else if r.msgtype == 4 || r.msgtype == 16 then ToBits(r.msg)[36..60]
               else if r.msgtype == 0 || r.msgtype == 5 then Residue(ToBits(bytes[..msgbits / 8]))
               else Zeros(24)
  {
    hide WordBits, Checksum, Join, ToBits, Residue, Is24, Zeros, Checked, Address, Unchecked;
    var p := Unchecked(bytes, msgbits);
    var checked := Checked(p, msgbits, table);
    OverlaidOrNone(bytes, msgbits, table);
    AddressCase(p.msgtype, checked.msg, checked.addr);
    ZeroBits();
  }

  /** Before the format's own fields are read, the address is the checksum or zero. */
  lemma OverlaidOrNone(bytes: seq<bv8>, msgbits: nat, table: Table)
    requires FrameBits(msgbits) && msgbits / 8 <= |bytes| && RepairableFrame(bytes, msgbits, table)
    ensures var p := Unchecked(bytes, msgbits);
            var checked := Checked(p, msgbits, table);
            && checked.msgtype == p.msgtype
            && (if AddressParity(p.msgtype) then WordBits(checked.addr) == Residue(ToBits(bytes[..msgbits / 8]))
                else checked.addr == 0)
  {
    hide WordBits, Checksum, Corrected, ToBits, Residue, TypeOf, Is24, Diagnosis;
    var p := Unchecked(bytes, msgbits);
    NotDiagnosed(p.msgtype, Checksum(p.msg, msgbits), table);
    ChecksumPrefix(p.msg, msgbits);
    assert p.msg[..msgbits / 8] == bytes[..msgbits / 8];
    FrameChecksum(bytes[..msgbits / 8], msgbits);
  }

  lemma AddressCase(t: bv8, msg: seq<bv8>, addr: bv32)
    requires |msg| == LONG_BYTES
    ensures WordBits(Address(t, msg, addr)) ==
            if t == 11 || t == 17 || t == 18 then ToBits(msg)[8..32]
            else if t == 4 || t == 16 then ToBits(msg)[36..60]
            else WordBits(addr)
  {
    hide WordBits, Join, AltitudeReplyAddress, ToBits;
    AnnouncedBits(msg);
    ReplyAddressBits(msg);
  }

  lemma NotDiagnosed(t: bv8, crc: bv32, table: Table)
    ensures AddressParity(t) ==> Diagnosis(t, crc, table) == None
  {
  }

  /** A frame that announces its address keeps it, though any one bit behind the format is damaged. */
  lemma AnnouncedAddressHealed(valid: seq<bv8>, msgbits: nat, p: nat, table: Table)
    requires IsFrame(valid, msgbits) && TableFor(table, msgbits) && Checksum(valid, msgbits) == 0 && 5 <= p < msgbits
    requires TypeOf(valid[0]) == 11 || TypeOf(valid[0]) == 17 || TypeOf(valid[0]) == 18
    ensures RepairableFrame(Flip(valid, p), msgbits, table)
    ensures ParseFrame(Flip(valid, p), msgbits, table).addr == Join(valid[1], valid[2], valid[3])
  {
    hide Checksum, TableFor, TypeOf, Flip, Checked, Join;
    ParseHeals(valid, msgbits, p, table);
    var r := ParseFrame(Flip(valid, p), msgbits, table);
    assert forall i :: 0 <= i < |valid| ==> r.msg[..|valid|][i] == r.msg[i];
  }

  // ---- two-byte replies ----

  /** A two-byte reply as a parsed message: its bytes with zeros behind them, good and unrepaired. */
  lemma TwoByteReply(a: bv8, b: bv8)
    ensures var r := ParsedAC(a, b);
            && |r.msg| == LONG_BYTES && r.msg == r.verbatim && r.msg[0] == a && r.msg[1] == b
            && (forall i :: 2 <= i < LONG_BYTES ==> r.msg[i] == 0)
            && r.msgtype == a >> 3 && r.crcOk && !r.corrected && r.correctedBits == 0 && r.crc == 0
  {
    TypeIsFormat([a]);
  }

  lemma CodeBits(a: bv8, b: bv8)
    ensures ModeAAddress(a, b) == (0x01000000 | (((a & 7) as bv32) << 4)) | ((b >> 4) as bv32)
  {
  }

  lemma SevenBits(x: bv8, y: bv8, u: bv8, v: bv8)
    requires x <= 7 && u <= 7 && y <= 15 && v <= 15
    ensures (0x01000000 | ((x as bv32) << 4)) | (y as bv32) == (0x01000000 | ((u as bv32) << 4)) | (v as bv32)
            <==> x == u && y == v
  {
  }

  /** Two replies are made out as one aircraft exactly when the last seven bits of their codes agree. */
  lemma SameModeAAddress(a: bv8, b: bv8, c: bv8, d: bv8)
    ensures ModeAAddress(a, b) == ModeAAddress(c, d) <==> a & 7 == c & 7 && b >> 4 == d >> 4
  {
    hide ModeAAddress;
    CodeBits(a, b);
    CodeBits(c, d);
    SevenBits(a & 7, b >> 4, c & 7, d >> 4);
  }

  // ---- the wrong engine ----

  lemma SameSyndrome(p: nat)
    requires p < 56
    ensures Syndrome(56, p) == Syndrome(112, p + 56)
  {
    hide Syndrome, WordBits, PowX, Is24;
    SyndromeBits(56, p);
    SyndromeBits(112, p + 56);
    WordExtensional(Syndrome(56, p), Syndrome(112, p + 56));
  }

  /**
    * The engine of long frames diagnoses a damaged bit of a short frame, flips a bit behind the end of the frame, and
    * leaves the frame damaged and not accepted.
    */
  lemma LongEngineCannotRepairShort(valid: seq<bv8>, p: nat, table: Table)
    requires IsFrame(valid, 56) && TableFor(table, 112) && Checksum(valid, 56) == 0
    requires 5 <= p < 56 && !AddressParity(TypeOf(valid[0]))
    ensures RepairableFrame(Flip(valid, p), 56, table)
    ensures var r := ParseFrame(Flip(valid, p), 56, table);
            !r.crcOk && r.corrected && r.correctedBits == 1 && r.msg[..7] == Flip(valid, p)
  {
    hide Checksum, Corrected, TableFor, Address, AddressParity, TypeOf, Residue, Flip, Syndrome, Is24;
    TableFits(table, 112, Flip(valid, p), 56);
    var bytes := Flip(valid, p);
    var padded := Padded(bytes, 7);
    assert bytes[..7] == bytes && padded[..7] == bytes;
    ChecksumPrefix(padded, 56);
    FlipSyndrome(valid, 56, p);
    SyndromeNotZero(56, p);
    SameSyndrome(p);
    SingleEntry(table, 112, p + 56);
    FlipKeepsType(valid, p);
    assert padded[0] == padded[..7][0];
    var info := table[Key(Checksum(bytes, 56))];
    Corrected1(padded, info);
    FlipBehind(padded, p + 56, 7);
    ChecksumPrefix(Flip(padded, p + 56), 56);
  }

  lemma FlipBehind(a: seq<bv8>, p: nat, n: nat)
    requires n <= |a| && 8 * n <= p < 8 * |a|
    ensures Flip(a, p)[..n] == a[..n]
  {
    hide Mask;
  }
}
