/** Noise floor estimation: percentiles of the buffer from a 256-bin histogram. */
module NoiseFloor {
  import opened Common
  import opened Slicer

  const BUCKETS: nat := 256

  function Clip(x: u16): (c: nat)
    ensures c < BUCKETS
  {
    if x < 255 then x else 255
  }

  function Clipped(mag: seq<u16>): (c: seq<nat>)
    ensures |c| == |mag|
  {
    seq(|mag|, i requires 0 <= i < |mag| => Clip(mag[i]))
  }

  /** How often `v` occurs. */
  function CountOf(s: seq<nat>, v: nat): nat {
    if |s| == 0 then 0 else CountOf(s[..|s| - 1], v) + if s[|s| - 1] == v then 1 else 0
  }

  /** How many elements are below `v`. */
  function CountBelow(s: seq<nat>, v: nat): (n: nat)
    ensures n <= |s|
  {
    if |s| == 0 then 0 else CountBelow(s[..|s| - 1], v) + if s[|s| - 1] < v then 1 else 0
  }

  function Sum(s: seq<nat>): nat {
    if |s| == 0 then 0 else Sum(s[..|s| - 1]) + s[|s| - 1]
  }

  // ---- the histogram ----

  /** One count for every bucket. */
  ghost predicate IsHistogram(h: seq<nat>, s: seq<nat>) {
    |h| == BUCKETS && forall v :: 0 <= v < BUCKETS ==> h[v] == CountOf(s, v)
  }

  method ComputeHistogram(mag: seq<u16>) returns (histogram: seq<nat>, maxVal: nat)
    requires |mag| < 0x1_0000_0000
    ensures IsHistogram(histogram, Clipped(mag))
    ensures forall i :: 0 <= i < |mag| ==> Clip(mag[i]) <= maxVal
    ensures maxVal == 0 || maxVal in Clipped(mag)
  {
    var bins := new nat[BUCKETS](_ => 0);
    maxVal := 0;
    for i := 0 to |mag|
      invariant forall v :: 0 <= v < BUCKETS ==> bins[v] == CountOf(Clipped(mag)[..i], v)
      invariant forall j :: 0 <= j < i ==> Clip(mag[j]) <= maxVal
      invariant maxVal == 0 || maxVal in Clipped(mag)
    {
      var clipped := Clip(mag[i]);
      assert Clipped(mag)[i] == clipped;
      assert Clipped(mag)[..i + 1][..i] == Clipped(mag)[..i];
      bins[clipped] := bins[clipped] + 1;
      if clipped > maxVal {
        maxVal := clipped;
      }
    }
    assert Clipped(mag)[..|mag|] == Clipped(mag);
    histogram := bins[..];
  }

  lemma {:induction false} CountSum(h: seq<nat>, s: seq<nat>, v: nat)
    requires IsHistogram(h, s) && v <= BUCKETS
    ensures Sum(h[..v]) == CountBelow(s, v)
  {
    if v == 0 {
      NoneBelowZero(s);
    } else {
      CountSum(h, s, v - 1);
      assert h[..v][..v - 1] == h[..v - 1];
      CountBelowNext(s, v - 1);
    }
  }

  lemma NoneBelowZero(s: seq<nat>)
    ensures CountBelow(s, 0) == 0
  {
  }

  lemma CountBelowNext(s: seq<nat>, v: nat)
    ensures CountBelow(s, v + 1) == CountBelow(s, v) + CountOf(s, v)
  {
    if |s| > 0 {
      CountBelowNext(s[..|s| - 1], v);
    }
  }

  lemma AllBelow(s: seq<nat>, v: nat)
    requires forall i :: 0 <= i < |s| ==> s[i] < v
    ensures CountBelow(s, v) == |s|
  {
    if |s| > 0 {
      AllBelow(s[..|s| - 1], v);
    }
  }

  // ---- the percentile ----

  /** ceil(total * k / 100), the rank the percentile asks for. */
  function Target(total: nat, k: nat): nat {
    (total * k + 99) / 100
  }

  lemma TargetBounds(total: nat, k: nat)
    requires total > 0 && 1 <= k <= 100
    ensures 1 <= Target(total, k) <= total
  {
    assert total <= total * k <= total * 100;
  }

  method HistogramPercentile(histogram: seq<nat>, k: nat) returns (r: nat)
    requires |histogram| == BUCKETS
    ensures r < BUCKETS
    ensures Sum(histogram) == 0 ==> r == 0
    ensures Sum(histogram) > 0 && 1 <= k <= 100 ==>
              Sum(histogram[..r]) < Target(Sum(histogram), k) <= Sum(histogram[..r + 1])
  {
    hide Target;
    var total := Sum(histogram);
    assert histogram[..BUCKETS] == histogram;
    if total == 0 {
      return 0;
    }
    var target := Target(total, k);
    if 1 <= k <= 100 { TargetBounds(total, k); }
    var cumulative := 0;
    for i := 0 to BUCKETS
      invariant cumulative == Sum(histogram[..i])
      invariant i > 0 ==> cumulative < target
    {
      assert histogram[..i + 1][..i] == histogram[..i];
      cumulative := cumulative + histogram[i];
      if cumulative >= target {
        return i;
      }
    }
    return BUCKETS - 1;
  }

  // ---- the percentile is an element of the sorted buffer ----

  ghost predicate Ascending(s: seq<nat>) {
    forall i, j :: 0 <= i < j < |s| ==> s[i] <= s[j]
  }

  ghost predicate SortedFrom(s: seq<nat>, a: seq<nat>) {
    Ascending(s) && multiset(s) == multiset(a)
  }

  /** Sorting, as the reference the histogram is measured against. */
  function Sorted(a: seq<nat>): seq<nat> {
    if |a| == 0 then [] else Inserted(a[0], Sorted(a[1..]))
  }

  function Inserted(x: nat, s: seq<nat>): seq<nat> {
    if |s| == 0 || x <= s[0] then [x] + s else [s[0]] + Inserted(x, s[1..])
  }

  lemma {:induction false} InsertedElements(x: nat, s: seq<nat>)
    ensures multiset(Inserted(x, s)) == multiset(s) + multiset{x}
  {
    if |s| > 0 && x > s[0] {
      InsertedElements(x, s[1..]);
      assert s == [s[0]] + s[1..];
    }
  }

  lemma {:induction false} InsertedSorted(x: nat, s: seq<nat>)
    requires Ascending(s)
    ensures Ascending(Inserted(x, s))
  {
    if |s| > 0 && x > s[0] {
      var tail := s[1..];
      var rest := Inserted(x, tail);
      InsertedSorted(x, tail);
      InsertedElements(x, tail);
      forall i | 0 <= i < |rest|
        ensures s[0] <= rest[i]
      {
        assert rest[i] in multiset(rest);
        if rest[i] != x {
          assert rest[i] in multiset(tail);
          var j :| 0 <= j < |tail| && tail[j] == rest[i];
          assert s[j + 1] == rest[i];
        }
      }
      Prepended(s[0], rest);
    }
  }

  lemma Prepended(x: nat, s: seq<nat>)
    requires Ascending(s) && forall i :: 0 <= i < |s| ==> x <= s[i]
    ensures Ascending([x] + s)
  {
  }

  lemma {:induction false} SortedIsSorted(a: seq<nat>)
    ensures SortedFrom(Sorted(a), a)
  {
    if |a| > 0 {
      SortedIsSorted(a[1..]);
      InsertedSorted(a[0], Sorted(a[1..]));
      InsertedElements(a[0], Sorted(a[1..]));
      assert a == [a[0]] + a[1..];
    }
  }

  lemma {:induction false} CountBelowConcat(a: seq<nat>, b: seq<nat>, v: nat)
    ensures CountBelow(a + b, v) == CountBelow(a, v) + CountBelow(b, v)
  {
    if |b| == 0 {
      assert a + b == a;
    } else {
      assert (a + b)[..|a + b| - 1] == a + b[..|b| - 1];
      CountBelowConcat(a, b[..|b| - 1], v);
    }
  }

  lemma CountBelowOne(x: nat, v: nat)
    ensures CountBelow([x], v) == if x < v then 1 else 0
  {
    assert [x][..0] == [];
  }

  lemma RemoveOne(a: seq<nat>, x: nat, b: seq<nat>, v: nat)
    ensures CountBelow(a + [x] + b, v) == CountBelow(a + b, v) + if x < v then 1 else 0
    ensures multiset(a + [x] + b) == multiset(a + b) + multiset{x}
  {
    CountBelowConcat(a + [x], b, v);
    CountBelowConcat(a, [x], v);
    CountBelowConcat(a, b, v);
    CountBelowOne(x, v);
  }

  lemma {:induction false} CountOfPermutation(a: seq<nat>, b: seq<nat>, v: nat)
    requires multiset(a) == multiset(b)
    ensures |a| == |b| && CountBelow(a, v) == CountBelow(b, v)
  {
    assert |a| == |multiset(a)| == |multiset(b)| == |b|;
    if |a| > 0 {
      var x := a[|a| - 1];
      var front := a[..|a| - 1];
      assert a == front + [x];
      assert x in multiset(b);
      var j :| 0 <= j < |b| && b[j] == x;
      assert b == b[..j] + [x] + b[j + 1..];
      RemoveFromBoth(front, x, b[..j], b[j + 1..], v);
      CountOfPermutation(front, b[..j] + b[j + 1..], v);
    }
  }

  lemma RemoveFromBoth(front: seq<nat>, x: nat, left: seq<nat>, right: seq<nat>, v: nat)
    requires multiset(front + [x]) == multiset(left + [x] + right)
    ensures multiset(front) == multiset(left + right)
    ensures CountBelow(front + [x], v) - CountBelow(front, v) ==
            CountBelow(left + [x] + right, v) - CountBelow(left + right, v)
  {
    RemoveOne(front, x, [], v);
    RemoveOne(left, x, right, v);
    assert front + [x] + [] == front + [x] && front + [] == front;
    assert multiset(front) == multiset(front + [x]) - multiset{x};
  }

  lemma SameLength(s: seq<nat>, a: seq<nat>)
    requires multiset(s) == multiset(a)
    ensures |s| == |a|
  {
    assert |s| == |multiset(s)| == |multiset(a)| == |a|;
  }

  lemma {:induction false} CountInSorted(s: seq<nat>, v: nat, i: nat)
    requires Ascending(s) && i < |s|
    ensures CountBelow(s, v) > i <==> s[i] < v
  {
    var n := |s| - 1;
    if s[n] < v {
      AllBelow(s, v);
    } else if i < n {
      CountInSorted(s[..n], v, i);
    }
  }

  /** The histogram percentile is the element of that rank in the sorted, clipped buffer. */
  lemma PercentileRefinesSort(mag: seq<u16>, h: seq<nat>, k: nat, r: nat)
    requires IsHistogram(h, Clipped(mag))
    requires |mag| > 0 && 1 <= k <= 100 && r < BUCKETS
    requires Sum(h[..r]) < Target(Sum(h), k) <= Sum(h[..r + 1])
    ensures |Sorted(Clipped(mag))| == |mag| && 1 <= Target(|mag|, k) <= |mag|
    ensures r == Sorted(Clipped(mag))[Target(|mag|, k) - 1]
  {
    hide Sum, CountBelow, Sorted, Clipped, IsHistogram, Ascending, Target;
    TargetBounds(|mag|, k);
    var c := Clipped(mag);
    var sorted := Sorted(c);
    SortedIsSorted(c);
    TotalIsLength(mag, h);
    CountSum(h, c, r);
    CountSum(h, c, r + 1);
    CountOfPermutation(sorted, c, r);
    CountOfPermutation(sorted, c, r + 1);
    var i := Target(|mag|, k) - 1;
    CountInSorted(sorted, r, i);
    CountInSorted(sorted, r + 1, i);
  }

  datatype Estimate = Estimate(floor: nat, median: nat, p75: nat)

  /** The estimate of a nonempty buffer is read off its sorted form. */
  method EstimateNoiseFloor(mag: seq<u16>) returns (e: Estimate)
    requires |mag| < 0x1_0000_0000
    ensures |mag| == 0 ==> e == Estimate(20, 15, 20)
    ensures |mag| > 0 ==> e.floor == e.p75 && e.median <= e.p75 < BUCKETS
    ensures |mag| > 0 ==>
              var sorted := Sorted(Clipped(mag));
              && |sorted| == |mag|
              && e.median == sorted[Target(|mag|, 50) - 1]
              && e.p75 == sorted[Target(|mag|, 75) - 1]
  {
    var histogram, _ := ComputeHistogram(mag);
    TotalIsLength(mag, histogram);
    if |mag| == 0 {
      return Estimate(20, 15, 20);
    }
    var median := HistogramPercentile(histogram, 50);
    var p75 := HistogramPercentile(histogram, 75);
    PercentileRefinesSort(mag, histogram, 50, median);
    PercentileRefinesSort(mag, histogram, 75, p75);
    RanksOrdered(mag, histogram, median, p75);
    return Estimate(p75, median, p75);
  }

  lemma TotalIsLength(mag: seq<u16>, h: seq<nat>)
    requires IsHistogram(h, Clipped(mag))
    ensures Sum(h) == |mag|
  {
    CountSum(h, Clipped(mag), BUCKETS);
    assert h[..BUCKETS] == h;
    AllBelow(Clipped(mag), BUCKETS);
  }

  lemma {:induction false} SumMonotone(h: seq<nat>, a: nat, b: nat)
    requires a <= b <= |h|
    ensures Sum(h[..a]) <= Sum(h[..b])
  {
    if a < b {
      SumMonotone(h, a, b - 1);
      assert h[..b][..b - 1] == h[..b - 1];
    }
  }

  lemma RanksOrdered(mag: seq<u16>, h: seq<nat>, median: nat, p75: nat)
    requires |h| == BUCKETS && median < BUCKETS && p75 < BUCKETS
    requires Sum(h[..median]) < Target(Sum(h), 50) && Target(Sum(h), 75) <= Sum(h[..p75 + 1])
    ensures median <= p75
  {
    if p75 < median {
      SumMonotone(h, p75 + 1, median);
    }
  }

  // ---- without the clipping ----

  function Values(mag: seq<u16>): (v: seq<nat>)
    ensures |v| == |mag|
  {
    seq(|mag|, i requires 0 <= i < |mag| => mag[i])
  }

  lemma {:induction false} ClippedCount(mag: seq<u16>, v: nat)
    requires v <= 255
    ensures CountBelow(Clipped(mag), v) == CountBelow(Values(mag), v)
  {
    if |mag| > 0 {
      var front := mag[..|mag| - 1];
      assert Clipped(mag)[..|mag| - 1] == Clipped(front) && Values(mag)[..|mag| - 1] == Values(front);
      ClippedCount(front, v);
    }
  }

  lemma SortedAt(a: seq<nat>, i: nat, v: nat)
    requires i < |a|
    ensures |Sorted(a)| == |a| && (Sorted(a)[i] < v <==> CountBelow(a, v) > i)
  {
    hide Sorted, CountBelow;
    SortedIsSorted(a);
    SameLength(Sorted(a), a);
    CountOfPermutation(Sorted(a), a, v);
    CountInSorted(Sorted(a), v, i);
  }

  /**
    * The clipping changes no rank: what stands at a rank of the clipped buffer is what stands there without, clipped.
    */
  lemma ClippedRank(mag: seq<u16>, i: nat)
    requires i < |mag|
    ensures |Sorted(Clipped(mag))| == |mag| == |Sorted(Values(mag))|
    ensures Sorted(Clipped(mag))[i] == Min(Sorted(Values(mag))[i], 255)
  {
    hide Sorted, CountBelow, Clipped, Values;
    SortedAt(Clipped(mag), i, 0);
    SortedAt(Values(mag), i, 0);
    var x := Sorted(Values(mag))[i];
    SortedIsSorted(Clipped(mag));
    assert Sorted(Clipped(mag))[i] in multiset(Sorted(Clipped(mag)));
    ClippedSmall(mag, Sorted(Clipped(mag))[i]);
    var v := Min(x, 255);
    ClippedCount(mag, v);
    SortedAt(Clipped(mag), i, v);
    SortedAt(Values(mag), i, v);
    if x < 255 {
      ClippedCount(mag, x + 1);
      SortedAt(Clipped(mag), i, x + 1);
      SortedAt(Values(mag), i, x + 1);
    }
  }

  lemma ClippedSmall(mag: seq<u16>, x: nat)
    requires x in multiset(Clipped(mag))
    ensures x <= 255
  {
  }

  /** The rank of a percentile is the smallest whose share of the buffer is at least the percentile. */
  lemma TargetIsCeiling(total: nat, k: nat)
    ensures 100 * Target(total, k) >= total * k > 100 * (Target(total, k) - 1)
  {
  }

  // ---- the threshold of a pass ----

  function Power(x: real, n: nat): real {
    if n == 0 then 1.0 else Times(x, Power(x, n - 1))
  }

  lemma {:induction false} PowerFalls(x: real, n: nat)
    requires 0.0 <= x <= 1.0
    ensures 0.0 <= Power(x, n + 1) <= Power(x, n) <= 1.0
  {
    if n > 0 {
      PowerFalls(x, n - 1);
    }
    hide Times;
    ProductFalls(x, Power(x, n));
  }

  lemma ProductFalls(x: real, p: real)
    requires 0.0 <= x <= 1.0 && 0.0 <= p
    ensures 0.0 <= Times(x, p) <= p
  {
    NonNegativeProduct(x, p);
    NonNegativeProduct(1.0 - x, p);
    assert (1.0 - x) * p == p - x * p;
  }

  lemma ScaledFalls(base: real, p: real, q: real)
    requires base >= 0.0 && 0.0 <= p <= q <= 1.0
    ensures Times(base, p) <= Times(base, q) <= base
  {
    NonNegativeProduct(base, q - p);
    NonNegativeProduct(base, 1.0 - q);
    assert base * (q - p) == base * q - base * p;
    assert base * (1.0 - q) == base - base * q;
  }

  /** A float converted to u32: truncated, and saturated at both ends. */
  function TruncateU32(x: real): nat {
    if x < 0.0 then 0 else if x >= 4294967295.0 then 0xFFFF_FFFF else x.Floor
  }

  /** Further passes never raise the threshold, and it stays below its base unless the noise floor lifts it. */
  lemma AdaptiveFalls(pass: nat, base: nat, margin: real, noiseFloor: nat)
    requires 0.0 <= margin <= 1.0 && base < 0x1_0000_0000
    ensures AdaptiveThreshold(pass + 1, base, margin, noiseFloor) <= AdaptiveThreshold(pass, base, margin, noiseFloor)
    ensures AdaptiveThreshold(pass + 1, base, margin, noiseFloor) <= base
            <==> TruncateU32(noiseFloor as real * 1.5) <= base
  {
    hide Calculated, TruncateU32;
    CalculatedFalls(pass, base, margin);
  }

  lemma CalculatedFalls(pass: nat, base: nat, margin: real)
    requires 0.0 <= margin <= 1.0 && base < 0x1_0000_0000
    ensures Calculated(pass + 1, base, margin) <= Calculated(pass, base, margin)
    ensures Calculated(pass + 1, base, margin) <= base
  {
    hide Power, TruncateU32, Times;
    var b, p, q := base as real, Power(margin, pass + 1), Power(margin, pass);
    PowerFalls(margin, pass);
    ScaledFalls(b, p, q);
    TruncateMonotone(Times(b, p), Times(b, q));
    TruncateMonotone(Times(b, p), b);
    TruncateWhole(base);
  }

  /** With a margin of one or more the threshold never falls. */
  lemma AdaptiveRises(pass: nat, base: nat, margin: real, noiseFloor: nat)
    requires margin >= 1.0 && base < 0x1_0000_0000
    ensures AdaptiveThreshold(pass + 1, base, margin, noiseFloor) >= AdaptiveThreshold(pass, base, margin, noiseFloor)
    ensures AdaptiveThreshold(pass + 1, base, margin, noiseFloor) >= base
  {
    hide Calculated, TruncateU32;
    CalculatedRises(pass, base, margin);
  }

  lemma CalculatedRises(pass: nat, base: nat, margin: real)
    requires margin >= 1.0 && base < 0x1_0000_0000
    ensures Calculated(pass + 1, base, margin) >= Calculated(pass, base, margin)
    ensures Calculated(pass + 1, base, margin) >= base
  {
    hide Power, TruncateU32, Times;
    var b, p, q := base as real, Power(margin, pass + 1), Power(margin, pass);
    PowerRises(margin, pass);
    ScaledRises(b, p, q);
    TruncateMonotone(Times(b, q), Times(b, p));
    TruncateMonotone(b, Times(b, p));
    TruncateWhole(base);
  }

  lemma {:induction false} PowerRises(x: real, n: nat)
    requires x >= 1.0
    ensures Power(x, n + 1) >= Power(x, n) >= 1.0
  {
    if n > 0 {
      PowerRises(x, n - 1);
    }
    hide Times;
    ProductRises(x, Power(x, n));
  }

  lemma ProductRises(x: real, p: real)
    requires x >= 1.0 && p >= 0.0
    ensures Times(x, p) >= p
  {
    NonNegativeProduct(x - 1.0, p);
    assert (x - 1.0) * p == x * p - p;
  }

  lemma ScaledRises(base: real, p: real, q: real)
    requires base >= 0.0 && p >= q >= 1.0
    ensures Times(base, p) >= Times(base, q) >= base
  {
    NonNegativeProduct(base, p - q);
    NonNegativeProduct(base, q - 1.0);
    assert base * (p - q) == base * p - base * q;
    assert base * (q - 1.0) == base * q - base;
  }

  /** With a negative margin every other pass falls back to the noise floor. */
  lemma AdaptiveAlternates(pass: nat, base: nat, margin: real, noiseFloor: nat)
    requires margin < 0.0 && pass % 2 == 1
    ensures AdaptiveThreshold(pass, base, margin, noiseFloor) == TruncateU32(noiseFloor as real * 1.5)
  {
    hide TruncateU32, Power, Times;
    PowerSign(margin, pass);
    NegativeScaled(base as real, Power(margin, pass));
    TruncateNegative(Times(base as real, Power(margin, pass)));
  }

  lemma {:induction false} PowerSign(x: real, n: nat)
    requires x < 0.0
    ensures if n % 2 == 1 then Power(x, n) < 0.0 else Power(x, n) > 0.0
  {
    if n > 0 {
      PowerSign(x, n - 1);
      hide Times;
      ProductSign(x, Power(x, n - 1));
    }
  }

  lemma ProductSign(x: real, p: real)
    requires x < 0.0
    ensures p > 0.0 ==> Times(x, p) < 0.0
    ensures p < 0.0 ==> Times(x, p) > 0.0
  {
  }

  lemma NegativeScaled(base: real, p: real)
    requires base >= 0.0 && p < 0.0
    ensures Times(base, p) <= 0.0
  {
    NonNegativeProduct(base, -p);
    assert base * -p == -(base * p);
  }

  lemma TruncateNegative(x: real)
    requires x <= 0.0
    ensures TruncateU32(x) == 0
  {
  }

  lemma TruncateMonotone(x: real, y: real)
    requires x <= y
    ensures TruncateU32(x) <= TruncateU32(y)
  {
  }

  lemma TruncateWhole(n: nat)
    requires n < 0x1_0000_0000
    ensures TruncateU32(n as real) == n
  {
  }

  /** The base threshold, reduced by the margin once for every pass. */
  function Calculated(pass: nat, base: nat, margin: real): nat {
    TruncateU32(Times(base as real, Power(margin, pass)))
  }

  function Times(x: real, y: real): real {
    x * y
  }

  function AdaptiveThreshold(pass: nat, base: nat, margin: real, noiseFloor: nat): (t: nat)
    ensures t >= TruncateU32(noiseFloor as real * 1.5)
  {
    var calculated := Calculated(pass, base, margin);
    var minimum := TruncateU32(noiseFloor as real * 1.5);
    if calculated > minimum then calculated else minimum
  }
}
