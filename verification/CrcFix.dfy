/** The error-correction table: syndromes of all one-bit and two-bit errors outside the format field. */
module CrcFix {
  import opened Common
  import opened Bits
  import opened Words
  import opened Crc
  import opened Engine

  /** `bits` lists up to two bit positions; a negative entry ends the list. */
  datatype ErrorInfo = ErrorInfo(syndrome: bv32, errors: nat, bits: seq<int>)

  /** A syndrome as a key of the table. */
  datatype Key = Key(syndrome: bv32)

  type Table = map<Key, ErrorInfo>

  function Lookup(table: Table, syndrome: bv32): Option<ErrorInfo> {
    if Key(syndrome) in table then Some(table[Key(syndrome)]) else None
  }

  // ---- flipping and setting bits of a message ----

  function Flip(msg: seq<bv8>, p: nat): (r: seq<bv8>)
    requires p < 8 * |msg|
    ensures |r| == |msg|
  {
    msg[p / 8 := msg[p / 8] ^ Mask(p % 8)]
  }

  function SetBit(msg: seq<bv8>, p: nat): (r: seq<bv8>)
    requires p < 8 * |msg|
    ensures |r| == |msg|
  {
    msg[p / 8 := msg[p / 8] | Mask(p % 8)]
  }

  function ZeroBytes(n: nat): (z: seq<bv8>)
    ensures |z| == n
  {
    seq(n, _ => 0)
  }

  lemma ZeroBytesBits(n: nat)
    ensures ToBits(ZeroBytes(n)) == Zeros(8 * n)
  {
    forall k | 0 <= k < 8 * n
      ensures ToBits(ZeroBytes(n))[k] == Zeros(8 * n)[k]
    {
      ZeroByteBit(k % 8);
    }
  }

  lemma ZeroByteBit(i: nat)
    requires i < 8
    ensures !BitAt(0, i)
  {
  }

  lemma FlipBitAt(msg: seq<bv8>, p: nat, k: nat)
    requires p < 8 * |msg| && k < 8 * |msg|
    ensures ToBits(Flip(msg, p))[k] == (ToBits(msg)[k] != (k == p))
  {
    hide BitAt, Mask;
    if k / 8 == p / 8 {
      XorBit(msg[p / 8], Mask(p % 8), k % 8);
      MaskBit(p % 8, k % 8);
    }
  }

  lemma FlipBits(msg: seq<bv8>, p: nat)
    requires p < 8 * |msg|
    ensures ToBits(Flip(msg, p)) == Xor(ToBits(msg), Unit(8 * |msg|, p))
  {
    hide Flip, ToBits;
    forall k | 0 <= k < 8 * |msg|
      ensures ToBits(Flip(msg, p))[k] == Xor(ToBits(msg), Unit(8 * |msg|, p))[k]
    {
      FlipBitAt(msg, p, k);
    }
  }

  lemma SetBitAt(msg: seq<bv8>, p: nat, k: nat)
    requires p < 8 * |msg| && k < 8 * |msg|
    ensures ToBits(SetBit(msg, p))[k] == (ToBits(msg)[k] || k == p)
  {
    hide BitAt, Mask;
    if k / 8 == p / 8 {
      OrBit(msg[p / 8], Mask(p % 8), k % 8);
      MaskBit(p % 8, k % 8);
    }
  }

  lemma SetBitBits(msg: seq<bv8>, p: nat)
    requires p < 8 * |msg|
    ensures ToBits(SetBit(msg, p)) == ToBits(msg)[p := true]
  {
    hide SetBit, ToBits;
    forall k | 0 <= k < 8 * |msg|
      ensures ToBits(SetBit(msg, p))[k] == ToBits(msg)[p := true][k]
    {
      SetBitAt(msg, p, k);
    }
  }

  lemma BytesExtensional(a: seq<bv8>, b: seq<bv8>)
    requires |a| == |b| && ToBits(a) == ToBits(b)
    ensures a == b
  {
    forall i | 0 <= i < |a|
      ensures a[i] == b[i]
    {
      ByteSlice(a, i);
      ByteSlice(b, i);
      ByteExtensional(a[i], b[i]);
    }
  }

  lemma ByteSlice(a: seq<bv8>, i: nat)
    requires i < |a|
    ensures ByteBits(a[i]) == ToBits(a)[8 * i..8 * i + 8]
  {
    hide BitAt;
  }

  // ---- syndromes of one-bit and two-bit errors ----

  /** The all-zero message of `bitlen` bits with bit `p` set, as the table builder makes it. */
  function ErrorMessage(bitlen: nat, p: nat): (m: seq<bv8>)
    requires p < bitlen
    ensures |m| == NBytes(bitlen)
  {
    SetBit(ZeroBytes(NBytes(bitlen)), p)
  }

  function ErrorMessage2(bitlen: nat, p: nat, q: nat): (m: seq<bv8>)
    requires p < bitlen && q < bitlen
    ensures |m| == NBytes(bitlen)
  {
    SetBit(ErrorMessage(bitlen, p), q)
  }

  function Syndrome(bitlen: nat, p: nat): bv32
    requires p < bitlen
  {
    Checksum(ErrorMessage(bitlen, p), bitlen)
  }

  function Syndrome2(bitlen: nat, p: nat, q: nat): bv32
    requires p < bitlen && q < bitlen
  {
    Checksum(ErrorMessage2(bitlen, p, q), bitlen)
  }

  lemma ErrorBits(bitlen: nat, p: nat)
    requires p < bitlen
    ensures ToBits(ErrorMessage(bitlen, p)) == Unit(8 * NBytes(bitlen), p)
  {
    hide ToBits;
    ZeroBytesBits(NBytes(bitlen));
    SetBitBits(ZeroBytes(NBytes(bitlen)), p);
  }

  lemma ErrorBits2(bitlen: nat, p: nat, q: nat)
    requires p < bitlen && q < bitlen && p != q
    ensures ToBits(ErrorMessage2(bitlen, p, q)) == Xor(Unit(8 * NBytes(bitlen), p), Unit(8 * NBytes(bitlen), q))
  {
    hide ToBits;
    ErrorBits(bitlen, p);
    SetBitBits(ErrorMessage(bitlen, p), q);
  }

  /** A frame as the receiver knows them: 56 or 112 bits. */
  predicate FrameBits(bitlen: nat) {
    bitlen == 56 || bitlen == 112
  }

  ghost predicate IsFrame(msg: seq<bv8>, bitlen: nat) {
    FrameBits(bitlen) && 8 * |msg| == bitlen
  }

  lemma FrameChecksum(msg: seq<bv8>, bitlen: nat)
    requires IsFrame(msg, bitlen)
    ensures NBytes(bitlen) == |msg|
    ensures WordBits(Checksum(msg, bitlen)) == Residue(ToBits(msg))
    ensures Is24(Checksum(msg, bitlen))
  {
    hide WordBits, Residue, ToBits, Is24;
    ChecksumBits(msg, bitlen);
    assert msg[..|msg|] == msg;
  }

  /** A one at position `p` contributes one power of x. */
  lemma UnitResidue(n: nat, p: nat)
    requires p < n
    ensures Residue(Unit(n, p)) == PowX(n - 1 - p)
  {
    var one := [true];
    assert Unit(n, p) == (Zeros(p) + one) + Zeros(n - 1 - p);
    ResidueZeroSuffix(Zeros(p) + one, n - 1 - p);
    ResidueZeroPrefix(p, one);
    ResidueShort(one);
    assert Residue(one) == Unit(24, 23);
  }

  lemma SyndromeBits(bitlen: nat, p: nat)
    requires FrameBits(bitlen) && p < bitlen
    ensures WordBits(Syndrome(bitlen, p)) == PowX(bitlen - 1 - p)
    ensures Is24(Syndrome(bitlen, p))
  {
    hide WordBits, Residue, ToBits, PowX, Checksum, ErrorMessage, Is24;
    FrameChecksum(ErrorMessage(bitlen, p), bitlen);
    ErrorBits(bitlen, p);
    UnitResidue(bitlen, p);
  }

  lemma SyndromeBits2(bitlen: nat, p: nat, q: nat)
    requires FrameBits(bitlen) && p < bitlen && q < bitlen && p != q
    ensures WordBits(Syndrome2(bitlen, p, q)) == Xor(PowX(bitlen - 1 - p), PowX(bitlen - 1 - q))
    ensures Is24(Syndrome2(bitlen, p, q))
  {
    hide WordBits, Residue, ToBits, PowX, Checksum, ErrorMessage2, Is24;
    FrameChecksum(ErrorMessage2(bitlen, p, q), bitlen);
    ErrorBits2(bitlen, p, q);
    ResidueXor(Unit(bitlen, p), Unit(bitlen, q));
    UnitResidue(bitlen, p);
    UnitResidue(bitlen, q);
  }
}
