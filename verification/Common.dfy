/** What several components share. */
module Common {

  datatype Option<+T> = None | Some(value: T)

  function Min(a: nat, b: nat): nat {
    if a < b then a else b
  }

  lemma NonNegativeProduct(x: real, y: real)
    requires x >= 0.0 && y >= 0.0
    ensures x * y >= 0.0
  {
  }

  lemma MulAtLeast(b: int, k: int)
    requires b > 0 && k >= 1
    ensures b * k >= b
  {
  }

  lemma SmallMultiple(b: int, k: int, d: int)
    requires b > 0 && b * k == d && -b < d < b
    ensures k == 0
  {
    assert b * -k == -(b * k);
    if k >= 1 {
      MulAtLeast(b, k);
    } else if k <= -1 {
      MulAtLeast(b, -k);
    }
  }

  lemma DivModUnique(a: int, b: int, q: int, r: int)
    requires b > 0 && a == b * q + r && 0 <= r < b
    ensures a / b == q && a % b == r
  {
    var q', r' := a / b, a % b;
    assert a == b * q' + r';
    assert b * (q' - q) == b * q' - b * q;
    SmallMultiple(b, q' - q, r - r');
  }

  lemma DivMul(m: nat, n: nat)
    requires n > 0
    ensures (m * n) / n == m && (m * n) % n == 0
  {
    DivModUnique(m * n, n, m, 0);
  }

  lemma MulMonotone(i: nat, j: nat, n: nat)
    requires i <= j
    ensures i * n <= j * n
  {
  }

  lemma MulDistributes(i: nat, j: nat, n: nat)
    ensures (i + j) * n == i * n + j * n
  {
  }

  lemma SubSlice<T>(s: seq<T>, from: nat, to: nat, i: nat, j: nat)
    requires from <= to <= |s| && i <= j <= to - from
    ensures s[from..to][i..j] == s[from + i..from + j]
  {
    var a, b := s[from..to][i..j], s[from + i..from + j];
    assert |a| == |b|;
    assert forall k :: 0 <= k < |a| ==> a[k] == b[k];
  }
}
