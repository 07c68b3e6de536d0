/** Bytes as bit strings, most significant bit first, and the vector operations of GF(2) on bit strings. */
module Bits {

  /** The byte with only bit `i` set, counted from the most significant one. */
  function Mask(i: nat): bv8
    requires i < 8
  {
    1 << (7 - i)
  }

  predicate BitAt(b: bv8, i: nat)
    requires i < 8
  {
    b & Mask(i) != 0
  }

  function ByteBits(b: bv8): (bits: seq<bool>)
    ensures |bits| == 8
  {
    seq(8, i requires 0 <= i < 8 => BitAt(b, i))
  }

  function ToBits(bytes: seq<bv8>): (bits: seq<bool>)
    ensures |bits| == 8 * |bytes|
  {
    seq(8 * |bytes|, k requires 0 <= k < 8 * |bytes| => BitAt(bytes[k / 8], k % 8))
  }

  lemma ToBitsConcat(a: seq<bv8>, b: seq<bv8>)
    ensures ToBits(a + b) == ToBits(a) + ToBits(b)
  {
    forall k | 0 <= k < 8 * |a + b|
      ensures ToBits(a + b)[k] == (ToBits(a) + ToBits(b))[k]
    {
      if k >= 8 * |a| {
        assert k / 8 - |a| == (k - 8 * |a|) / 8 && k % 8 == (k - 8 * |a|) % 8;
      }
    }
  }

  lemma ToBitsByte(b: bv8)
    ensures ToBits([b]) == ByteBits(b)
  {
  }

  // ---- single bits under the bytewise operators ----

  lemma ShiftBit(b: bv8, i: nat)
    requires i < 8
    ensures ((b >> (7 - i)) & 1 == 1) == BitAt(b, i)
    ensures (b >> (7 - i)) & 1 == if BitAt(b, i) then 1 else 0
  {
  }

  lemma AndMask(b: bv8, i: nat)
    requires i < 8
    ensures b & Mask(i) == 0 || b & Mask(i) == Mask(i)
    ensures Mask(i) != 0
  {
  }

  lemma AndXor(a: bv8, b: bv8, m: bv8)
    ensures (a ^ b) & m == (a & m) ^ (b & m)
  {
  }

  lemma AndOr(a: bv8, b: bv8, m: bv8)
    ensures (a | b) & m == (a & m) | (b & m)
  {
  }

  lemma XorIsZero(a: bv8, b: bv8)
    ensures (a ^ b == 0) == (a == b)
  {
  }

  lemma OrIsZero(a: bv8, b: bv8)
    ensures (a | b == 0) == (a == 0 && b == 0)
  {
  }

  lemma XorBit(a: bv8, b: bv8, j: nat)
    requires j < 8
    ensures BitAt(a ^ b, j) == (BitAt(a, j) != BitAt(b, j))
  {
    AndXor(a, b, Mask(j));
    AndMask(a, j);
    AndMask(b, j);
    XorIsZero(a & Mask(j), b & Mask(j));
  }

  lemma OrBit(a: bv8, b: bv8, j: nat)
    requires j < 8
    ensures BitAt(a | b, j) == (BitAt(a, j) || BitAt(b, j))
  {
    AndOr(a, b, Mask(j));
    OrIsZero(a & Mask(j), b & Mask(j));
  }

  lemma MaskBit(i: nat, j: nat)
    requires i < 8 && j < 8
    ensures BitAt(Mask(i), j) == (i == j)
  {
  }

  lemma ByteExtensional(a: bv8, b: bv8)
    requires ByteBits(a) == ByteBits(b)
    ensures a == b
  {
    forall i: nat | i < 8
      ensures BitAt(a, i) == BitAt(b, i)
    {
      assert ByteBits(a)[i] == ByteBits(b)[i];
    }
    EightBits(a, b);
  }

  lemma EightBits(a: bv8, b: bv8)
    requires forall i: nat | i < 8 :: BitAt(a, i) == BitAt(b, i)
    ensures a == b
  {
    hide BitAt;
    forall i: nat | i < 8
      ensures (a ^ b) & Mask(i) == 0
    {
      SameBit(a, b, i);
    }
    NoBits(a ^ b);
    NoDifference(a, b);
  }

  lemma SameBit(a: bv8, b: bv8, i: nat)
    requires i < 8 && BitAt(a, i) == BitAt(b, i)
    ensures (a ^ b) & Mask(i) == 0
  {
  }

  lemma NoBits(x: bv8)
    requires forall i: nat | i < 8 :: x & Mask(i) == 0
    ensures x == 0
  {
    assert x & Mask(0) == 0 && x & Mask(1) == 0 && x & Mask(2) == 0 && x & Mask(3) == 0;
    assert x & Mask(4) == 0 && x & Mask(5) == 0 && x & Mask(6) == 0 && x & Mask(7) == 0;
  }

  lemma NoDifference(a: bv8, b: bv8)
    requires a ^ b == 0
    ensures a == b
  {
  }

  // ---- bit strings as vectors over GF(2) ----

  function Zeros(n: nat): (z: seq<bool>)
    ensures |z| == n
  {
    seq(n, _ => false)
  }

  function Xor(a: seq<bool>, b: seq<bool>): (r: seq<bool>)
    requires |a| == |b|
    ensures |r| == |a|
  {
    seq(|a|, i requires 0 <= i < |a| => a[i] != b[i])
  }

  /** The vector of length `n` whose only one is at position `p`. */
  function Unit(n: nat, p: nat): (u: seq<bool>)
    requires p < n
    ensures |u| == n
  {
    seq(n, i => i == p)
  }

  function Ones(bits: seq<bool>): (n: nat)
    ensures n <= |bits|
  {
    if |bits| == 0 then 0 else Ones(bits[..|bits| - 1]) + if bits[|bits| - 1] then 1 else 0
  }

  ghost predicate Odd(bits: seq<bool>) {
    Ones(bits) % 2 == 1
  }

  lemma OnesConcat(a: seq<bool>, b: seq<bool>)
    ensures Ones(a + b) == Ones(a) + Ones(b)
  {
    if |b| == 0 {
      assert a + b == a;
    } else {
      assert (a + b)[..|a + b| - 1] == a + b[..|b| - 1];
      OnesConcat(a, b[..|b| - 1]);
    }
  }

  lemma OnesZeros(n: nat)
    ensures Ones(Zeros(n)) == 0
  {
    if n > 0 {
      assert Zeros(n)[..n - 1] == Zeros(n - 1);
      OnesZeros(n - 1);
    }
  }

  lemma OddXor(a: seq<bool>, b: seq<bool>)
    requires |a| == |b|
    ensures Odd(Xor(a, b)) == (Odd(a) != Odd(b))
  {
    var n := |a|;
    if n > 0 {
      OddXor(a[..n - 1], b[..n - 1]);
      assert Xor(a, b)[..n - 1] == Xor(a[..n - 1], b[..n - 1]);
    }
  }

  lemma OnesUnit(n: nat, p: nat)
    requires p < n
    ensures Ones(Unit(n, p)) == 1
  {
    if p == n - 1 {
      assert Unit(n, p)[..n - 1] == Zeros(n - 1);
      OnesZeros(n - 1);
    } else {
      assert Unit(n, p)[..n - 1] == Unit(n - 1, p);
      OnesUnit(n - 1, p);
    }
  }

  lemma XorSelf(a: seq<bool>)
    ensures Xor(a, a) == Zeros(|a|)
  {
  }
}
