/** The low 24 bits of a u32 register as a bit string, most significant bit first. */
module Words {
  import opened Bits

  /** The number fits 24 bits. */
  predicate Is24(w: bv32) {
    w & 0xFFFFFF == w
  }

  function WordMask(i: nat): bv32
    requires i < 24
  {
    0x800000 >> i
  }

  predicate WordBit(w: bv32, i: nat)
    requires i < 24
  {
    Meets(w, WordMask(i))
  }

  /** The two have a set bit in common. */
  predicate Meets(w: bv32, m: bv32) {
    w & m != 0
  }

  function WordBits(w: bv32): (bits: seq<bool>)
    ensures |bits| == 24
  {
    seq(24, i requires 0 <= i < 24 => WordBit(w, i))
  }

  lemma AndWordMask(w: bv32, i: nat)
    requires i < 24
    ensures w & WordMask(i) == 0 || w & WordMask(i) == WordMask(i)
    ensures WordMask(i) != 0
  {
  }

  lemma AndWordXor(a: bv32, b: bv32, m: bv32)
    ensures (a ^ b) & m == (a & m) ^ (b & m)
  {
  }

  lemma AndWordOr(a: bv32, m: bv32, n: bv32)
    ensures a & (m | n) == (a & m) | (a & n)
    ensures (m | n) & a == (m & a) | (n & a)
  {
  }

  lemma WordXorIsZero(a: bv32, b: bv32)
    ensures (a ^ b == 0) == (a == b)
  {
  }

  lemma WordOrIsZero(a: bv32, b: bv32)
    ensures (a | b == 0) == (a == 0 && b == 0)
  {
  }

  lemma XorWordBit(a: bv32, b: bv32, i: nat)
    requires i < 24
    ensures WordBit(a ^ b, i) == (WordBit(a, i) != WordBit(b, i))
  {
    AndWordXor(a, b, WordMask(i));
    AndWordMask(a, i);
    AndWordMask(b, i);
    WordXorIsZero(a & WordMask(i), b & WordMask(i));
  }

  lemma XorWordBits(a: bv32, b: bv32)
    ensures WordBits(a ^ b) == Xor(WordBits(a), WordBits(b))
  {
    forall i | 0 <= i < 24
      ensures WordBits(a ^ b)[i] == Xor(WordBits(a), WordBits(b))[i]
    {
      XorWordBit(a, b, i);
    }
  }

  lemma OrWordBit(a: bv32, b: bv32, i: nat)
    requires i < 24
    ensures WordBit(a | b, i) == (WordBit(a, i) || WordBit(b, i))
  {
    hide Meets, WordMask;
    OrMeets(a, b, WordMask(i));
  }

  lemma OrMeets(a: bv32, b: bv32, m: bv32)
    ensures Meets(a | b, m) == (Meets(a, m) || Meets(b, m))
  {
    AndWordOr(m, a, b);
    WordOrIsZero(a & m, b & m);
  }

  lemma MaskShift(i: nat)
    requires i < 23
    ensures WordMask(i) == WordMask(i + 1) << 1
  {
  }

  lemma ShiftAnd(w: bv32, m: bv32)
    ensures (w << 1) & (m << 1) == (w & m) << 1
    ensures (0 as bv32) << 1 == 0
  {
  }

  lemma ShiftWordBit(w: bv32, i: nat)
    requires i < 23
    ensures WordBit(w << 1, i) == WordBit(w, i + 1)
  {
    MaskShift(i);
    ShiftAnd(w, WordMask(i + 1));
    AndWordMask(w, i + 1);
    AndWordMask(w << 1, i);
  }

  lemma ShiftWordBitLast(w: bv32)
    ensures !WordBit(w << 1, 23)
  {
  }

  lemma ShiftWordBits(w: bv32)
    ensures WordBits(w << 1) == WordBits(w)[1..] + [false]
  {
    ShiftWordBitLast(w);
    forall i | 0 <= i < 23
      ensures WordBits(w << 1)[i] == WordBits(w)[1..][i]
    {
      ShiftWordBit(w, i);
    }
  }

  lemma HighByteBit(b: bv8, i: nat)
    requires i < 24
    ensures WordBit((b as bv32) << 16, i) == (i < 8 && BitAt(b, i))
  {
  }

  lemma MidByteBit(b: bv8, i: nat)
    requires i < 24
    ensures WordBit((b as bv32) << 8, i) == (8 <= i < 16 && BitAt(b, i - 8))
  {
  }

  lemma LowByteBit(b: bv8, i: nat)
    requires i < 24
    ensures WordBit(b as bv32, i) == (16 <= i && BitAt(b, i - 16))
  {
  }

  /** The three parity bytes as one 24-bit number. */
  function Join(a: bv8, b: bv8, c: bv8): bv32 {
    ((a as bv32) << 16) | ((b as bv32) << 8) | (c as bv32)
  }

  lemma OrThree(x: bv32, y: bv32, z: bv32, i: nat)
    requires i < 24
    ensures WordBit((x | y) | z, i) == (WordBit(x, i) || WordBit(y, i) || WordBit(z, i))
  {
    hide *;
    OrWordBit(x, y, i);
    OrNext(x | y, z, i, WordBit(x, i) || WordBit(y, i));
  }

  lemma OrNext(w: bv32, z: bv32, i: nat, b: bool)
    requires i < 24 && WordBit(w, i) == b
    ensures WordBit(w | z, i) == (b || WordBit(z, i))
  {
    hide *;
    OrWordBit(w, z, i);
  }

  lemma JoinBit(a: bv8, b: bv8, c: bv8, i: nat)
    requires i < 24
    ensures WordBit(Join(a, b, c), i) ==
            if i < 8 then BitAt(a, i) else if i < 16 then BitAt(b, i - 8) else BitAt(c, i - 16)
  {
    hide WordBit, BitAt;
    HighByteBit(a, i);
    MidByteBit(b, i);
    LowByteBit(c, i);
    OrThree((a as bv32) << 16, (b as bv32) << 8, c as bv32, i);
  }

  lemma JoinBits(a: bv8, b: bv8, c: bv8)
    ensures WordBits(Join(a, b, c)) == ByteBits(a) + ByteBits(b) + ByteBits(c)
  {
    forall i | 0 <= i < 24
      ensures WordBits(Join(a, b, c))[i] == (ByteBits(a) + ByteBits(b) + ByteBits(c))[i]
    {
      JoinBit(a, b, c, i);
    }
  }

  function PrefixMask(k: nat): bv32
    requires k <= 24
  {
    if k == 0 then 0 else PrefixMask(k - 1) | WordMask(k - 1)
  }

  lemma {:induction false} PrefixZero(d: bv32, k: nat)
    requires k <= 24
    requires forall i: nat :: i < k ==> !WordBit(d, i)
    ensures d & PrefixMask(k) == 0
  {
    if k > 0 {
      PrefixZero(d, k - 1);
      assert !WordBit(d, k - 1);
      AndWordOr(d, PrefixMask(k - 1), WordMask(k - 1));
      WordOrIsZero(d & PrefixMask(k - 1), d & WordMask(k - 1));
    } else {
      assert d & 0 == 0;
    }
  }

  lemma FullMask()
    ensures PrefixMask(24) == 0xFFFFFF
  {
    assert PrefixMask(4) == 0xF00000;
    assert PrefixMask(8) == 0xFF0000;
    assert PrefixMask(12) == 0xFFF000;
    assert PrefixMask(16) == 0xFFFF00;
    assert PrefixMask(20) == 0xFFFFF0;
  }

  /** A 24-bit value is determined by its bits. */
  lemma WordExtensional(a: bv32, b: bv32)
    requires Is24(a) && Is24(b)
    requires WordBits(a) == WordBits(b)
    ensures a == b
  {
    var d := a ^ b;
    forall i: nat | i < 24
      ensures !WordBit(d, i)
    {
      XorWordBit(a, b, i);
      assert WordBits(a)[i] == WordBits(b)[i];
    }
    PrefixZero(d, 24);
    FullMask();
    AndWordXor(a, b, 0xFFFFFF);
    WordXorIsZero(a, b);
  }

  lemma MaskedBit(w: bv32, i: nat)
    requires i < 24
    ensures WordBit(w & 0xFFFFFF, i) == WordBit(w, i)
  {
  }

  lemma MaskedBits(w: bv32)
    ensures WordBits(w & 0xFFFFFF) == WordBits(w)
    ensures Is24(w & 0xFFFFFF)
  {
    forall i | 0 <= i < 24
      ensures WordBits(w & 0xFFFFFF)[i] == WordBits(w)[i]
    {
      MaskedBit(w, i);
    }
  }

  /** The number whose low bits are the given ones. */
  function FromBits(bits: seq<bool>): bv32
    requires |bits| <= 24
  {
    if |bits| == 0 then 0 else ShiftIn(FromBits(bits[..|bits| - 1]), bits[|bits| - 1])
  }

  function ShiftIn(p: bv32, b: bool): bv32 {
    if b then (p << 1) | 1 else p << 1
  }

  lemma OneBit(i: nat)
    requires i < 24
    ensures WordBit(1, i) == (i == 23)
  {
  }

  lemma ShiftInMasked(p: bv32, b: bool)
    requires Is24(p) && !WordBit(p, 0)
    ensures Is24(ShiftIn(p, b))
  {
  }

  lemma SetLast(w: bv32)
    requires !WordBit(w, 23)
    ensures WordBits(w | 1) == WordBits(w)[..23] + [true]
  {
    hide WordBit, WordMask;
    forall i | 0 <= i < 24
      ensures WordBits(w | 1)[i] == (WordBits(w)[..23] + [true])[i]
    {
      OrWordBit(w, 1, i);
      OneBit(i);
    }
  }

  lemma ShiftInOne(p: bv32)
    ensures WordBits((p << 1) | 1) == WordBits(p)[1..] + [true]
  {
    hide *;
    ShiftWordBits(p);
    ShiftWordBitLast(p);
    SetLast(p << 1);
  }

  lemma ShiftInBits(p: bv32, b: bool)
    ensures WordBits(ShiftIn(p, b)) == WordBits(p)[1..] + [b]
  {
    hide WordBit, WordBits;
    if b { ShiftInOne(p); } else { ShiftWordBits(p); }
  }

  lemma AppendBit(r: seq<bool>, bits: seq<bool>, b: bool)
    requires |bits| < 24
    requires r == Zeros(24 - |bits|) + bits
    ensures r[0] == false
    ensures r[1..] + [b] == Zeros(23 - |bits|) + (bits + [b])
  {
  }

  lemma WordBitsAt(w: bv32, i: nat)
    requires i < 24
    ensures WordBits(w)[i] == WordBit(w, i)
  {
  }

  lemma {:induction false} FromBitsBits(bits: seq<bool>)
    requires |bits| <= 24
    ensures WordBits(FromBits(bits)) == Zeros(24 - |bits|) + bits
    ensures Is24(FromBits(bits))
  {
    hide WordBit, WordBits, ShiftIn;
    var n := |bits|;
    if n == 0 {
      ZeroBits();
    } else {
      var w, front := FromBits(bits[..n - 1]), bits[..n - 1];
      FromBitsBits(front);
      AppendBit(WordBits(w), front, bits[n - 1]);
      WordBitsAt(w, 0);
      ShiftInMasked(w, bits[n - 1]);
      ShiftInBits(w, bits[n - 1]);
      assert bits == front + [bits[n - 1]];
    }
  }

  lemma ZeroBits()
    ensures WordBits(0) == Zeros(24)
    ensures Is24(0)
  {
    forall i | 0 <= i < 24
      ensures WordBits(0)[i] == Zeros(24)[i]
    {
      ZeroBit(i);
    }
  }

  lemma ZeroBit(i: nat)
    requires i < 24
    ensures !WordBit(0, i)
  {
  }
}
