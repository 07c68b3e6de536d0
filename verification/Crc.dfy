/** The 24-bit Mode S parity code: the polynomial it is, and the shift register that computes it. */
module Crc {
  import opened Bits
  import opened Words

  // ---- polynomials over GF(2), leading coefficient first ----

  const CRC_POLYNOMIAL: bv32 := 0xFFF409

  /** The low 24 coefficients of the generator x^24 + 0xFFF409. */
  function Low(): (p: seq<bool>)
    ensures |p| == 24
  {
    WordBits(CRC_POLYNOMIAL)
  }

  function Scale(b: bool, v: seq<bool>): (r: seq<bool>)
    ensures |r| == |v|
  {
    if b then v else Zeros(|v|)
  }

  /** The product of the polynomial `q` and the generator, by Horner's rule. */
  function Product(q: seq<bool>): (m: seq<bool>)
    ensures |m| == |q| + 24
  {
    if |q| == 0 then Zeros(24)
    else
      var k := |q| - 1;
      AddLow(Product(q[..k]) + [false], Scale(q[k], [true] + Low()))
  }

  /** The sum of `p` and the shorter polynomial `v`. */
  function AddLow(p: seq<bool>, v: seq<bool>): (r: seq<bool>)
    requires |v| <= |p|
    ensures |r| == |p|
  {
    var k := |p| - |v|;
    seq(|p|, i requires 0 <= i < |p| => if i < k then p[i] else p[i] != v[i - k])
  }

  /** `r` is what is left of `m` after a division by the generator. */
  ghost predicate IsRemainder(m: seq<bool>, r: seq<bool>)
    requires |m| >= 24
  {
    |r| == 24 && exists q: seq<bool> :: |q| == |m| - 24 && m == AddLow(Product(q), r)
  }

  // ---- residues ----

  /** x * r + b modulo the generator. */
  function Step(r: seq<bool>, b: bool): (s: seq<bool>)
    requires |r| == 24
    ensures |s| == 24
  {
    Xor(r[1..] + [b], Scale(r[0], Low()))
  }

  function Residue(bits: seq<bool>): (r: seq<bool>)
    ensures |r| == 24
  {
    if |bits| == 0 then Zeros(24) else Step(Residue(bits[..|bits| - 1]), bits[|bits| - 1])
  }

  function MulX(r: seq<bool>, n: nat): (s: seq<bool>)
    requires |r| == 24
    ensures |s| == 24
  {
    if n == 0 then r else Step(MulX(r, n - 1), false)
  }

  function PowX(n: nat): (r: seq<bool>)
    ensures |r| == 24
  {
    MulX(Unit(24, 23), n)
  }

  // ---- facts about the generator ----

  lemma LowBits()
    ensures Low() == [true, true, true, true, true, true, true, true, true, true, true, true,
                      false, true, false, false, false, false, false, false, true, false, false, true]
  {
    forall i | 0 <= i < 24
      ensures Low()[i] == (i < 12 || i == 13 || i == 20 || i == 23)
    {
      LowBit(i);
    }
  }

  lemma LowBit(i: nat)
    requires i < 24
    ensures WordBit(CRC_POLYNOMIAL, i) == (i < 12 || i == 13 || i == 20 || i == 23)
  {
  }

  lemma LowOdd()
    ensures Odd(Low())
  {
    hide Ones, Low;
    LowBits();
    var t := [true, true, true, true];
    var a, b, c := [false, true, false, false], [false, false, false, false], [true, false, false, true];
    var bc := b + c;
    var abc := a + bc;
    var tabc := t + abc;
    var ttabc := t + tabc;
    assert Low() == t + ttabc;
    OnesConcat(t, ttabc);
    OnesConcat(t, tabc);
    OnesConcat(t, abc);
    OnesConcat(a, bc);
    OnesConcat(b, c);
    OnesFour(true, true, true, true);
    OnesFour(false, true, false, false);
    OnesFour(false, false, false, false);
    OnesFour(true, false, false, true);
  }

  lemma OnesFour(a: bool, b: bool, c: bool, d: bool)
    ensures Ones([a, b, c, d]) ==
            (if a then 1 else 0) + (if b then 1 else 0) + (if c then 1 else 0) + (if d then 1 else 0)
  {
    assert [a, b, c, d][..3] == [a, b, c];
    assert [a, b, c][..2] == [a, b];
    assert [a, b][..1] == [a];
    assert Ones([a]) == if a then 1 else 0 by { OnesOne(a); }
    assert Ones([a, b]) == Ones([a]) + if b then 1 else 0;
    assert Ones([a, b, c]) == Ones([a, b]) + if c then 1 else 0;
  }

  // ---- Step is linear and invertible ----

  lemma StepXor(r: seq<bool>, s: seq<bool>, b: bool, c: bool)
    requires |r| == |s| == 24
    ensures Step(Xor(r, s), b != c) == Xor(Step(r, b), Step(s, c))
  {
  }

  lemma StepKernel(r: seq<bool>)
    requires |r| == 24
    requires Step(r, false) == Zeros(24)
    ensures r == Zeros(24)
  {
    LowBits();
    assert Step(r, false)[23] == r[0];
    forall i | 0 <= i < 23
      ensures r[i + 1] == Step(r, false)[i]
    {
    }
    forall i | 0 <= i < 24
      ensures r[i] == false
    {
      if i > 0 {
        assert r[(i - 1) + 1] == Step(r, false)[i - 1];
      }
    }
  }

  lemma {:induction false} MulXXor(r: seq<bool>, s: seq<bool>, n: nat)
    requires |r| == |s| == 24
    ensures MulX(Xor(r, s), n) == Xor(MulX(r, n), MulX(s, n))
  {
    if n > 0 {
      MulXXor(r, s, n - 1);
      StepXor(MulX(r, n - 1), MulX(s, n - 1), false, false);
    }
  }

  lemma {:induction false} MulXKernel(r: seq<bool>, n: nat)
    requires |r| == 24
    requires MulX(r, n) == Zeros(24)
    ensures r == Zeros(24)
  {
    if n > 0 {
      StepKernel(MulX(r, n - 1));
      MulXKernel(r, n - 1);
    }
  }

  lemma MulXInjective(r: seq<bool>, s: seq<bool>, n: nat)
    requires |r| == |s| == 24
    requires MulX(r, n) == MulX(s, n)
    ensures r == s
  {
    MulXXor(r, s, n);
    XorSelf(MulX(r, n));
    MulXKernel(Xor(r, s), n);
    forall i | 0 <= i < 24
      ensures r[i] == s[i]
    {
      assert Xor(r, s)[i] == false;
    }
  }

  lemma {:induction false} MulXAdd(r: seq<bool>, m: nat, n: nat)
    requires |r| == 24
    ensures MulX(r, m + n) == MulX(MulX(r, m), n)
  {
    if n > 0 {
      MulXAdd(r, m, n - 1);
    }
  }

  lemma {:induction false} MulXZero(n: nat)
    ensures MulX(Zeros(24), n) == Zeros(24)
  {
    if n > 0 {
      MulXZero(n - 1);
    }
  }

  // ---- the residue is linear ----

  lemma ResidueSnoc(bits: seq<bool>, b: bool)
    ensures Residue(bits + [b]) == Step(Residue(bits), b)
  {
    assert (bits + [b])[..|bits|] == bits;
  }

  /** The checksum is linear: the residue of a sum is the sum of the residues. */
  lemma {:induction false} ResidueXor(a: seq<bool>, b: seq<bool>)
    requires |a| == |b|
    ensures Residue(Xor(a, b)) == Xor(Residue(a), Residue(b))
  {
    var n := |a|;
    if n > 0 {
      ResidueXor(a[..n - 1], b[..n - 1]);
      assert Xor(a, b)[..n - 1] == Xor(a[..n - 1], b[..n - 1]);
      StepXor(Residue(a[..n - 1]), Residue(b[..n - 1]), a[n - 1], b[n - 1]);
    }
  }

  lemma {:induction false} ResidueZeros(n: nat)
    ensures Residue(Zeros(n)) == Zeros(24)
  {
    if n > 0 {
      assert Zeros(n)[..n - 1] == Zeros(n - 1);
      ResidueZeros(n - 1);
    }
  }

  lemma {:induction false} ResidueConcat(a: seq<bool>, b: seq<bool>)
    ensures Residue(a + b) == Xor(MulX(Residue(a), |b|), Residue(b))
  {
    var n := |b|;
    if n == 0 {
      assert a + b == a;
    } else {
      var b' := b[..n - 1];
      assert (a + b)[..|a + b| - 1] == a + b';
      ResidueConcat(a, b');
      StepXor(MulX(Residue(a), n - 1), Residue(b'), false, b[n - 1]);
    }
  }

  /** Leading zeros do not change the residue. */
  lemma ResidueZeroPrefix(n: nat, a: seq<bool>)
    ensures Residue(Zeros(n) + a) == Residue(a)
  {
    ResidueConcat(Zeros(n), a);
    ResidueZeros(n);
    MulXZero(|a|);
  }

  /** Trailing zeros multiply by a power of x. */
  lemma ResidueZeroSuffix(a: seq<bool>, n: nat)
    ensures Residue(a + Zeros(n)) == MulX(Residue(a), n)
  {
    ResidueConcat(a, Zeros(n));
    ResidueZeros(n);
  }

  /** A string of at most 24 bits is its own residue. */
  lemma {:induction false} ResidueShort(w: seq<bool>)
    requires |w| <= 24
    ensures Residue(w) == Zeros(24 - |w|) + w
  {
    var n := |w|;
    if n > 0 {
      ResidueShort(w[..n - 1]);
    }
  }

  // ---- the residue is the remainder of the division ----

  function Quotient(m: seq<bool>): (q: seq<bool>)
    requires |m| >= 24
    ensures |q| == |m| - 24
  {
    if |m| == 24 then [] else
      var m' := m[..|m| - 1];
      Quotient(m') + [Residue(m')[0]]
  }

  lemma {:induction false} DivisionExists(m: seq<bool>)
    requires |m| >= 24
    ensures m == AddLow(Product(Quotient(m)), Residue(m))
  {
    hide AddLow, Scale, Step;
    var k := |m| - 1;
    if k == 23 {
      ResidueShort(m);
      assert Zeros(0) + m == m;
      DivisionStart(m);
    } else {
      var q, r := Quotient(m[..k]), Residue(m[..k]);
      DivisionExists(m[..k]);
      DivisionStep(m[..k], Product(q), r, m[k]);
      assert m == m[..k] + [m[k]];
      assert (q + [r[0]])[..|q|] == q;
    }
  }

  lemma DivisionStart(m: seq<bool>)
    requires |m| == 24
    ensures m == AddLow(Product([]), m)
  {
  }

  lemma DivisionStep(m: seq<bool>, p: seq<bool>, r: seq<bool>, b: bool)
    requires |r| == 24 && |m| == |p| >= 24
    requires m == AddLow(p, r)
    ensures m + [b] == AddLow(AddLow(p + [false], Scale(r[0], [true] + Low())), Step(r, b))
  {
  }

  lemma ResidueAddLow(p: seq<bool>, v: seq<bool>)
    requires |v| <= |p|
    ensures Residue(AddLow(p, v)) == Xor(Residue(p), Residue(v))
  {
    hide Residue;
    var k := |p| - |v|;
    assert AddLow(p, v) == Xor(p, Zeros(k) + v);
    ResidueXor(p, Zeros(k) + v);
    ResidueZeroPrefix(k, v);
  }

  lemma {:induction false} ResidueProduct(q: seq<bool>)
    ensures Residue(Product(q)) == Zeros(24)
  {
    if |q| == 0 {
      ResidueZeros(24);
    } else {
      var k := |q| - 1;
      ResidueProduct(q[..k]);
      ResidueSnoc(Product(q[..k]), false);
      ResidueGenerator(q[k]);
      ResidueAddLow(Product(q[..k]) + [false], Scale(q[k], [true] + Low()));
    }
  }

  lemma ResidueGenerator(b: bool)
    ensures Residue(Scale(b, [true] + Low())) == Zeros(24)
  {
    hide Low, Residue;
    if b {
      var g := [true] + Low();
      ResidueShort(g[..24]);
      assert g == g[..24] + [g[24]];
      ResidueSnoc(g[..24], g[24]);
      assert g[..24][0] && g[..24][1..] + [g[24]] == Low();
      assert Step(g[..24], g[24]) == Xor(Low(), Low());
      XorSelf(Low());
    } else {
      ResidueZeros(25);
    }
  }

  lemma RemainderIsResidue(q: seq<bool>, r: seq<bool>)
    requires |r| == 24
    ensures Residue(AddLow(Product(q), r)) == r
  {
    ResidueAddLow(Product(q), r);
    ResidueProduct(q);
    ResidueShort(r);
  }

  /** The residue is the one and only remainder of the message modulo the generator. */
  lemma ResidueIsRemainder(m: seq<bool>, r: seq<bool>)
    requires |m| >= 24
    ensures IsRemainder(m, r) <==> r == Residue(m)
  {
    if r == Residue(m) {
      DivisionExists(m);
      assert |Quotient(m)| == |m| - 24;
    } else if IsRemainder(m, r) {
      var q: seq<bool> :| |q| == |m| - 24 && m == AddLow(Product(q), r);
      RemainderIsResidue(q, r);
    }
  }

  // ---- what errors the code detects ----

  /** Every nonzero error burst of at most 24 bits has a nonzero checksum. */
  lemma BurstDetected(before: nat, burst: seq<bool>, after: nat)
    requires |burst| <= 24
    requires burst != Zeros(|burst|)
    ensures Residue(Zeros(before) + burst + Zeros(after)) != Zeros(24)
  {
    ResidueZeroSuffix(Zeros(before) + burst, after);
    ResidueZeroPrefix(before, burst);
    if MulX(Residue(burst), after) == Zeros(24) {
      MulXKernel(Residue(burst), after);
      ShortKernel(burst);
    }
  }

  lemma ShortKernel(w: seq<bool>)
    requires |w| <= 24
    requires Residue(w) == Zeros(24)
    ensures w == Zeros(|w|)
  {
    ResidueShort(w);
    var z := Zeros(24 - |w|);
    assert w == (z + w)[|z|..];
    assert Zeros(24)[|z|..] == Zeros(|w|);
  }

  lemma StepOdd(r: seq<bool>, b: bool)
    requires |r| == 24
    ensures Odd(Step(r, b)) == (Odd(r) != b)
  {
    hide Ones, Low;
    LowOdd();
    OnesZeros(24);
    OddXor(r[1..] + [b], Scale(r[0], Low()));
    OnesConcat(r[1..], [b]);
    assert r == [r[0]] + r[1..];
    OnesConcat([r[0]], r[1..]);
    OnesOne(b);
    OnesOne(r[0]);
  }

  lemma OnesOne(b: bool)
    ensures Ones([b]) == if b then 1 else 0
  {
    assert [b][..0] == [];
  }

  /** The generator has even weight, so the checksum has the parity of the message. */
  lemma {:induction false} ResidueOdd(bits: seq<bool>)
    ensures Odd(Residue(bits)) == Odd(bits)
  {
    var n := |bits|;
    if n == 0 {
      OnesZeros(24);
    } else {
      ResidueOdd(bits[..n - 1]);
      StepOdd(Residue(bits[..n - 1]), bits[n - 1]);
    }
  }
}
