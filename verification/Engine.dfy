/** The bit-serial checksum of a Mode S message. */
module Engine {
  import opened Bits
  import opened Words
  import opened Crc

  function NBytes(bitlen: nat): nat {
    (bitlen + 7) / 8
  }

  /** The checksum as a number: the remainder of the whole message, parity bytes included. */
  function Checksum(msg: seq<bv8>, bitlen: nat): bv32
    requires NBytes(bitlen) >= 3 ==> NBytes(bitlen) <= |msg|
  {
    if NBytes(bitlen) >= 3 then FromBits(Residue(ToBits(msg[..NBytes(bitlen)]))) else 0
  }

  lemma ChecksumBits(msg: seq<bv8>, bitlen: nat)
    requires 3 <= NBytes(bitlen) <= |msg|
    ensures WordBits(Checksum(msg, bitlen)) == Residue(ToBits(msg[..NBytes(bitlen)]))
    ensures Is24(Checksum(msg, bitlen))
  {
    FromBitsBits(Residue(ToBits(msg[..NBytes(bitlen)])));
  }

  /** The register after the data bits `d`: their residue times x^24. */
  function Register(d: seq<bool>): (r: seq<bool>)
    ensures |r| == 24
  {
    MulX(Residue(d), 24)
  }

  lemma {:induction false} PowSmall(n: nat)
    requires n < 24
    ensures PowX(n) == Unit(24, 23 - n)
  {
    if n > 0 {
      PowSmall(n - 1);
    }
  }

  lemma PowTop()
    ensures PowX(24) == Low()
  {
    PowSmall(23);
  }

  lemma RegisterStep(d: seq<bool>, b: bool)
    ensures Register(d + [b]) == Xor(Step(Register(d), false), Scale(b, Low()))
  {
    var r := Residue(d);
    ResidueSnoc(d, b);
    var one := Scale(b, Unit(24, 23));
    assert Step(r, b) == Xor(Step(r, false), one);
    MulXXor(Step(r, false), one, 24);
    MulXAdd(r, 1, 24);
    assert MulX(r, 1) == Step(MulX(r, 0), false);
    assert MulX(r, 25) == Step(MulX(r, 24), false);
    if b { PowTop(); } else { MulXZero(24); }
  }

  lemma TopWordBit(w: bv32)
    ensures w & 0x800000 == if WordBit(w, 0) then 0x800000 else 0
  {
  }

  lemma ShiftBranch(crc: bv32, m: bv8, b: bool)
    requires m == if b then 1 else 0
    ensures ((crc & 0x800000) != ((m as bv32) << 23)) == (WordBit(crc, 0) != b)
  {
    TopWordBit(crc);
  }

  lemma RegisterEmpty()
    ensures WordBits(0) == Register(ToBits([]))
  {
    ZeroBits();
    assert ToBits([]) == [];
    MulXZero(24);
  }

  /** One turn of the loop: x times the register, plus the generator if the new bit asks for it. */
  function Shift(crc: bv32, m: bv8): bv32 {
    if (crc & 0x800000) != ((m as bv32) << 23) then (crc << 1) ^ CRC_POLYNOMIAL else crc << 1
  }

  lemma ShiftCases(crc: bv32, m: bv8, b: bool)
    requires m == if b then 1 else 0
    ensures Shift(crc, m) == if WordBit(crc, 0) != b then (crc << 1) ^ CRC_POLYNOMIAL else crc << 1
  {
    hide WordBit;
    ShiftBranch(crc, m, b);
  }

  lemma StepCases(r: seq<bool>, b: bool)
    requires |r| == 24
    ensures Xor(Step(r, false), Scale(b, Low())) ==
            if r[0] != b then Xor(r[1..] + [false], Low()) else r[1..] + [false]
  {
    hide Low;
  }

  /** The low 24 bits of the register evolve on their own, although the loop never masks it. */
  lemma ShiftBits(crc: bv32, m: bv8, b: bool)
    requires m == if b then 1 else 0
    ensures WordBits(Shift(crc, m)) == Xor(Step(WordBits(crc), false), Scale(b, Low()))
  {
    hide WordBit, WordBits, Shift, Step, Xor, Scale, Is24;
    ShiftCases(crc, m, b);
    StepCases(WordBits(crc), b);
    WordBitsAt(crc, 0);
    ShiftWordBits(crc);
    XorWordBits(crc << 1, CRC_POLYNOMIAL);
  }

  /** The shift register after one more bit of `byte`. */
  lemma FeedBit(crc: bv32, m: bv8, data: seq<bool>, byte: bv8, i: nat)
    requires i < 8 && m == (byte >> (7 - i)) & 1
    requires WordBits(crc) == Register(data + ByteBits(byte)[..i])
    ensures (crc & 0x800000) != ((m as bv32) << 23) ==>
              WordBits((crc << 1) ^ CRC_POLYNOMIAL) == Register(data + ByteBits(byte)[..i + 1])
    ensures (crc & 0x800000) == ((m as bv32) << 23) ==>
              WordBits(crc << 1) == Register(data + ByteBits(byte)[..i + 1])
  {
    hide WordBit, WordBits, ByteBits, Register, Is24;
    var next := FeedShift(crc, m, data, byte, i);
  }

  lemma FeedShift(crc: bv32, m: bv8, data: seq<bool>, byte: bv8, i: nat) returns (next: bv32)
    requires i < 8 && m == (byte >> (7 - i)) & 1
    requires WordBits(crc) == Register(data + ByteBits(byte)[..i])
    ensures next == Shift(crc, m)
    ensures WordBits(next) == Register(data + ByteBits(byte)[..i + 1])
  {
    hide WordBit, WordBits, Shift, Step, Xor, Scale, BitAt, Register, Low, Is24;
    var b := BitAt(byte, i);
    ShiftBit(byte, i);
    ShiftBits(crc, m, b);
    RegisterStep(data + ByteBits(byte)[..i], b);
    assert data + ByteBits(byte)[..i + 1] == data + ByteBits(byte)[..i] + [b];
    next := Shift(crc, m);
  }

  lemma FeedByte(msg: seq<bv8>, k: nat)
    requires k < |msg|
    ensures ToBits(msg[..k]) + ByteBits(msg[k])[..0] == ToBits(msg[..k])
    ensures ToBits(msg[..k]) + ByteBits(msg[k])[..8] == ToBits(msg[..k + 1])
  {
    assert ByteBits(msg[k])[..8] == ByteBits(msg[k]);
    ToBitsByte(msg[k]);
    ToBitsConcat(msg[..k], [msg[k]]);
    assert msg[..k + 1] == msg[..k] + [msg[k]];
  }

  lemma LastThree(msg: seq<bv8>)
    requires |msg| >= 3
    ensures ToBits(msg) ==
            ToBits(msg[..|msg| - 3]) + (ByteBits(msg[|msg| - 3]) + ByteBits(msg[|msg| - 2]) + ByteBits(msg[|msg| - 1]))
  {
    hide ToBits, ByteBits;
    var n := |msg|;
    FeedByte(msg, n - 3);
    FeedByte(msg, n - 2);
    FeedByte(msg, n - 1);
    assert msg[..n] == msg;
    assert ByteBits(msg[n - 3])[..8] == ByteBits(msg[n - 3]);
    assert ByteBits(msg[n - 2])[..8] == ByteBits(msg[n - 2]);
    assert ByteBits(msg[n - 1])[..8] == ByteBits(msg[n - 1]);
  }

  lemma AddParity(d: seq<bool>, p: seq<bool>)
    requires |p| == 24
    ensures Residue(d + p) == Xor(Register(d), p)
  {
    ResidueConcat(d, p);
    ResidueShort(p);
    assert Zeros(0) + p == p;
  }

  lemma ParityWord(d: seq<bool>, p: seq<bool>, crc: bv32, j: bv32)
    requires |p| == 24
    requires WordBits(crc) == Register(d) && WordBits(j) == p
    ensures WordBits(crc ^ j) == Residue(d + p)
  {
    hide *;
    XorWordBits(crc, j);
    AddParity(d, p);
  }

  /** Adding the three parity bytes to the register of the data bytes gives the residue of the whole message. */
  lemma ParityBytes(msg: seq<bv8>, crc: bv32, j: bv32)
    requires |msg| >= 3
    requires WordBits(crc) == Register(ToBits(msg[..|msg| - 3]))
    requires j == Join(msg[|msg| - 3], msg[|msg| - 2], msg[|msg| - 1])
    ensures WordBits(crc ^ j) == Residue(ToBits(msg))
  {
    hide *;
    var n := |msg|;
    var d, p := ToBits(msg[..n - 3]), ByteBits(msg[n - 3]) + ByteBits(msg[n - 2]) + ByteBits(msg[n - 1]);
    LastThree(msg);
    JoinBits(msg[n - 3], msg[n - 2], msg[n - 1]);
    ParityWord(d, p, crc, j);
  }

  lemma ShortMessage(msg: seq<bv8>, bitlen: nat, crc: bv32)
    requires NBytes(bitlen) < 3
    requires crc == 0
    ensures crc & 0x00FFFFFF == Checksum(msg, bitlen)
  {
  }

  lemma Finish(msg: seq<bv8>, bitlen: nat, crc: bv32)
    requires 3 <= NBytes(bitlen) <= |msg|
    requires WordBits(crc) == Residue(ToBits(msg[..NBytes(bitlen)]))
    ensures crc & 0x00FFFFFF == Checksum(msg, bitlen)
  {
    hide *;
    MaskedBits(crc);
    ChecksumBits(msg, bitlen);
    WordExtensional(crc & 0x00FFFFFF, Checksum(msg, bitlen));
  }

  /** The inner loop: the eight bits of one byte enter the register, the first bit first. */
  method ShiftByte(start: bv32, byte: bv8, ghost data: seq<bool>) returns (crc: bv32)
    requires WordBits(start) == Register(data + ByteBits(byte)[..0])
    ensures WordBits(crc) == Register(data + ByteBits(byte)[..8])
  {
    hide *;
    crc := start;
    for bitidx := 0 to 8
      invariant WordBits(crc) == Register(data + ByteBits(byte)[..bitidx])
    {
      var bitpos := 7 - bitidx;
      var msgBit := (byte >> bitpos) & 1;
      FeedBit(crc, msgBit, data, byte, bitidx);
      if (crc & 0x800000) != ((msgBit as bv32) << 23) {
        crc := (crc << 1) ^ CRC_POLYNOMIAL;
      } else {
        crc := crc << 1;
      }
    }
  }

  method ModesChecksum(msg: seq<bv8>, bitlen: nat) returns (crc: bv32)
    requires NBytes(bitlen) >= 3 ==> NBytes(bitlen) <= |msg|
    ensures crc == Checksum(msg, bitlen)
  {
    hide *;
    var nbytes := NBytes(bitlen);
    var databytes := if nbytes >= 3 then nbytes - 3 else 0;

    // process data bytes through the shift register
    crc := 0;
    RegisterEmpty();
    assert msg[..0] == [];
    for k := 0 to databytes
      invariant WordBits(crc) == Register(ToBits(msg[..k]))
      invariant nbytes < 3 ==> crc == 0
    {
      FeedByte(msg, k);
      crc := ShiftByte(crc, msg[k], ToBits(msg[..k]));
    }

    // the last three bytes are the parity field
    if nbytes >= 3 {
      assert msg[..nbytes][..nbytes - 3] == msg[..databytes];
      var parity := Join(msg[nbytes - 3], msg[nbytes - 2], msg[nbytes - 1]);
      ParityBytes(msg[..nbytes], crc, parity);
      crc := crc ^ parity;
      Finish(msg, bitlen, crc);
      return crc & 0x00FFFFFF;
    }
    ShortMessage(msg, bitlen, crc);
    return crc & 0x00FFFFFF;
  }
}
