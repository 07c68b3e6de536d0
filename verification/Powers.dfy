/** Powers of x modulo the generator: no two of the first 112 are equal. */
module Powers {
  import opened Bits
  import opened Words
  import opened Crc
  import opened Engine

  /** Eight turns of the shift register on zero bits, reduced to 24 bits. */
  function Shift8(w: bv32): bv32 {
    Shift(Shift(Shift(Shift(Shift(Shift(Shift(Shift(w, 0), 0), 0), 0), 0), 0), 0), 0) & 0xFFFFFF
  }

  lemma ShiftZeroBits(w: bv32)
    ensures WordBits(Shift(w, 0)) == Step(WordBits(w), false)
  {
    hide WordBits, Shift, Step, Low, Is24;
    ShiftBits(w, 0, false);
    assert forall v: seq<bool> | |v| == 24 :: Xor(v, Zeros(24)) == v;
  }

  lemma ShiftMulX(w: bv32, r: seq<bool>, n: nat)
    requires |r| == 24 && WordBits(w) == MulX(r, n)
    ensures WordBits(Shift(w, 0)) == MulX(r, n + 1)
  {
    hide WordBits, Shift, Step, Is24;
    ShiftZeroBits(w);
  }

  lemma Shift8MulX(w: bv32, r: seq<bool>)
    requires |r| == 24 && WordBits(w) == r
    ensures WordBits(Shift8(w)) == MulX(r, 8)
  {
    hide WordBits, Shift, Step, MulX, Is24;
    assert WordBits(w) == MulX(r, 0) by { MulXNone(r); }
    ShiftMulX(w, r, 0);
    var w1 := Shift(w, 0);
    ShiftMulX(w1, r, 1);
    var w2 := Shift(w1, 0);
    ShiftMulX(w2, r, 2);
    var w3 := Shift(w2, 0);
    ShiftMulX(w3, r, 3);
    var w4 := Shift(w3, 0);
    ShiftMulX(w4, r, 4);
    var w5 := Shift(w4, 0);
    ShiftMulX(w5, r, 5);
    var w6 := Shift(w5, 0);
    ShiftMulX(w6, r, 6);
    var w7 := Shift(w6, 0);
    ShiftMulX(w7, r, 7);
    MaskedBits(Shift(w7, 0));
  }

  lemma MulXNone(r: seq<bool>)
    requires |r| == 24
    ensures MulX(r, 0) == r
  {
  }

  lemma PowNext(v: bv32, w: bv32, n: nat)
    requires WordBits(v) == PowX(n) && w == Shift8(v)
    ensures WordBits(w) == PowX(n + 8)
  {
    hide WordBits, Shift8, Is24;
    Shift8MulX(v, PowX(n));
    MulXAdd(Unit(24, 23), n, 8);
  }

  lemma ShiftConstants()
    ensures Shift8(0xFFF409) == 0x0E0D80 && Shift8(0x0E0D80) == 0x0DD441 && Shift8(0x0DD441) == 0x2BFD53
    ensures Shift8(0x2BFD53) == 0x030ACE && Shift8(0x030ACE) == 0xF52612 && Shift8(0xF52612) == 0xDC7AF7
    ensures Shift8(0xDC7AF7) == 0x7EDA22 && Shift8(0x7EDA22) == 0xD8D449 && Shift8(0xD8D449) == 0xD05C14
    ensures Shift8(0xD05C14) == 0x587178 && Shift8(0x587178) == 0x726BD4 && Shift8(0x726BD4) == 0x696A13
  {
  }

  /** x^24, x^48, x^72, x^96 and x^120. */
  lemma PowConstants()
    ensures WordBits(0xFFF409) == PowX(24) && WordBits(0x2BFD53) == PowX(48) && WordBits(0xDC7AF7) == PowX(72)
    ensures WordBits(0xD05C14) == PowX(96) && WordBits(0x696A13) == PowX(120)
  {
    hide WordBits, PowX, Shift8, Is24;
    ShiftConstants();
    PowTop();
    assert WordBits(0xFFF409) == PowX(24);
    PowNext(0xFFF409, 0x0E0D80, 24);
    PowNext(0x0E0D80, 0x0DD441, 32);
    PowNext(0x0DD441, 0x2BFD53, 40);
    PowNext(0x2BFD53, 0x030ACE, 48);
    PowNext(0x030ACE, 0xF52612, 56);
    PowNext(0xF52612, 0xDC7AF7, 64);
    PowNext(0xDC7AF7, 0x7EDA22, 72);
    PowNext(0x7EDA22, 0xD8D449, 80);
    PowNext(0xD8D449, 0xD05C14, 88);
    PowNext(0xD05C14, 0x587178, 96);
    PowNext(0x587178, 0x726BD4, 104);
    PowNext(0x726BD4, 0x696A13, 112);
  }

  lemma TwoOnes(w: bv32, i: nat, j: nat, p: nat)
    requires i < j < 24 && p < 24
    requires WordBit(w, i) && WordBit(w, j)
    ensures WordBits(w) != Unit(24, p)
  {
    hide WordBit, WordBits, Is24;
    WordBitsAt(w, i);
    WordBitsAt(w, j);
  }

  lemma ConstantBits()
    ensures WordBit(0xFFF409, 0) && WordBit(0xFFF409, 1)
    ensures WordBit(0x2BFD53, 2) && WordBit(0x2BFD53, 4)
    ensures WordBit(0xDC7AF7, 0) && WordBit(0xDC7AF7, 1)
    ensures WordBit(0xD05C14, 0) && WordBit(0xD05C14, 1)
    ensures WordBit(0x696A13, 1) && WordBit(0x696A13, 2)
  {
  }

  lemma PowNotUnit(a: nat, p: nat)
    requires 1 <= a <= 5 && p < 24
    ensures PowX(24 * a) != Unit(24, p)
  {
    hide WordBits, WordBit, PowX, Unit, Is24;
    PowConstants();
    ConstantBits();
    TwoOnes(0xFFF409, 0, 1, p);
    TwoOnes(0x2BFD53, 2, 4, p);
    TwoOnes(0xDC7AF7, 0, 1, p);
    TwoOnes(0xD05C14, 0, 1, p);
    TwoOnes(0x696A13, 1, 2, p);
  }

  /** x has order more than 111. */
  lemma PowNotOne(k: nat)
    requires 1 <= k <= 111
    ensures PowX(k) != PowX(0)
  {
    if PowX(k) == PowX(0) {
      var a := (k + 23) / 24;
      var b := 24 * a - k;
      MulXAdd(Unit(24, 23), k, b);
      assert MulX(PowX(0), b) == PowX(b);
      PowSmall(b);
      PowNotUnit(a, 23 - b);
    }
  }

  /** Distinct bit positions have distinct powers. */
  lemma PowDistinct(i: nat, j: nat)
    requires i < j <= 111
    ensures PowX(i) != PowX(j)
  {
    if PowX(i) == PowX(j) {
      MulXAdd(Unit(24, 23), j - i, i);
      MulXInjective(PowX(0), PowX(j - i), i);
      PowNotOne(j - i);
    }
  }
}
