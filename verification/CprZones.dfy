/**
  * The number of longitude zones as RTCA DO-260B defines it, Appendix A, section A.1.7.2, and the table of latitudes.
  */
module CprZones {
  import opened Common
  import opened Cpr
  import opened CprTable

  // ---- the standard's number of zones ----

  const PI_LOW := 3.14159265358979
  const PI_HIGH := 3.14159265358980

  /**
    * The cosine and pi. Nothing is used of them but that the one falls and is enclosed by its series, and that two
    * decimals enclose the other.
    */
  datatype Circle = Circle(pi: real, cos: real -> real) {

    ghost predicate Enclosed(x: real) {
      CosBelow(Square(x)) <= cos(x) <= CosAbove(Square(x))
    }

    ghost predicate Valid() {
      && PI_LOW <= pi <= PI_HIGH
      && (forall x :: 0.0 <= x <= 2.1 ==> Enclosed(x))
      && (forall x, y :: 0.0 <= x <= y <= 2.1 ==> cos(y) <= cos(x))
    }

    /** At this many degrees from the equator there are `n` zones or more. */
    ghost predicate AtLeast(n: int, lat: real)
      requires n >= 3
    {
      (1.0 - cos(Part(n as real, pi))) * Square(cos(Radians(lat, pi))) >= 1.0 - cos(Part(60.0, pi))
    }

    /** The largest such number up to `n`. At two zones the two sides are equal at 87 degrees. */
    ghost function Zones(n: int, lat: real): (zones: int)
      ensures 1 <= zones && (n >= 2 ==> zones <= n)
      decreases n
    {
      if n < 3 then (if lat <= 87.0 then 2 else 1)
      else if AtLeast(n, lat) then n
      else Zones(n - 1, lat)
    }

    ghost function Nl(lat: real): (n: int)
      ensures 1 <= n <= 59
    {
      Zones(59, Abs(lat))
    }
  }

  // ---- the table against the equation ----

  lemma BandAbove(lat: real)
    ensures CprNl(lat) >= 2 ==> Abs(lat) < Threshold(CprNl(lat))
  {
  }

  lemma BandBelow(lat: real)
    ensures CprNl(lat) < 59 ==> Threshold(CprNl(lat) + 1) <= Abs(lat)
  {
  }

  /** The program's table has these thresholds. */
  lemma Band(lat: real)
    ensures var n, a := CprNl(lat), Abs(lat);
            (n >= 2 ==> a < Threshold(n)) && (n < 59 ==> Threshold(n + 1) <= a)
  {
    hide CprNl, Threshold;
    BandAbove(lat);
    BandBelow(lat);
  }

  // ---- angles ----

  lemma SquareRises(x: real, y: real)
    requires 0.0 <= x <= y
    ensures 0.0 <= Square(x) <= Square(y)
  {
  }

  lemma CosAtMostOne(t: Circle, x: real)
    requires t.Valid() && 0.0 <= x <= 2.1
    ensures t.cos(x) <= 1.0
  {
    hide CosBelow, CosAbove, Square;
    CosAtZero();
    assert t.Enclosed(0.0);
    assert t.cos(x) <= t.cos(0.0);
  }

  lemma RadiansRise(x: real, y: real, p: real, q: real)
    requires 0.0 <= x <= y && 0.0 <= p <= q
    ensures 0.0 <= Radians(x, p) <= Radians(y, q)
  {
    NonNegativeProduct(y - x, p);
    NonNegativeProduct(y, q - p);
    NonNegativeProduct(x, p);
  }

  lemma RightAngle()
    ensures Radians(90.00001, PI_HIGH) <= 2.1
  {
  }

  lemma PartsRise(t: Circle, n: real)
    requires t.Valid() && n >= 3.0
    ensures 0.0 <= Part(n, PI_LOW) <= Part(n, t.pi) <= Part(n, PI_HIGH) <= 2.1
  {
    PartRises(n, PI_LOW, t.pi);
    PartRises(n, t.pi, PI_HIGH);
  }

  lemma PartRises(n: real, p: real, q: real)
    requires n >= 3.0 && 0.0 <= p <= q <= 3.15
    ensures 0.0 <= Part(n, p) <= Part(n, q) <= 2.1
  {
    var x, y := Part(n, p), Part(n, q);
    assert n * x == 2.0 * p && n * y == 2.0 * q;
    if x < 0.0 {
      NonNegativeProduct(n, -x);
    }
    if x > y {
      NonNegativeProduct(n - 3.0, x - y);
    }
    if y > 2.1 {
      NonNegativeProduct(n - 3.0, y);
    }
  }

  lemma ProductRises(a: real, p: real, c: real, q: real)
    requires a <= p && 0.0 <= p && 0.0 <= c <= q
    ensures a * Square(c) <= p * Square(q)
  {
    SquareRises(c, q);
    NonNegativeProduct(p - a, Square(c));
    NonNegativeProduct(p, Square(q) - Square(c));
  }

  lemma SquareOfAbs(x: real)
    ensures Square(x) == Square(Abs(x))
  {
  }

  // ---- the equation on either side of a threshold ----

  lemma RightAngleCos(t: Circle)
    requires t.Valid()
    ensures t.cos(Radians(90.00001, PI_HIGH)) >= -0.000001
  {
    hide CosBelow, CosAbove, Square;
    CosOfRight();
    RightAngle();
    assert t.Enclosed(Radians(90.00001, PI_HIGH));
  }

  /** Just below a threshold the equation holds, with the angles rounded against it. */
  lemma HoldsBelow(t: Circle, n: int)
    requires t.Valid() && 3 <= n <= 59
    ensures var q := t.cos(Radians(Threshold(n) - HALF_DIGIT, PI_HIGH));
            q >= 0.0 && (1.0 - t.cos(Part(n as real, PI_LOW))) * Square(q) >= 1.0 - t.cos(Part(60.0, PI_HIGH))
  {
    hide CosBelow, CosAbove, Square, Radians, Part, Threshold, Gap;
    var N, edge := n as real, Threshold(n) - HALF_DIGIT;
    EdgeAngles(t, n);
    Rows(n);
    assert SurelyAtLeast(N, edge);
    var part, lat, last := Part(N, PI_LOW), Radians(edge, PI_HIGH), Part(60.0, PI_HIGH);
    assert t.Enclosed(part) && t.Enclosed(lat) && t.Enclosed(last);
    CosAtMostOne(t, part);
    ProductRises(1.0 - CosAbove(Square(part)), 1.0 - t.cos(part), CosBelow(Square(lat)), t.cos(lat));
  }

  /** Just above a threshold it fails, with the angles rounded in favour of it. */
  lemma FailsAbove(t: Circle, n: int) returns (c: real)
    requires t.Valid() && 3 <= n <= 59
    ensures t.cos(Radians(Threshold(n) + Gap(n), PI_LOW)) <= c && 0.000001 <= c
    ensures (1.0 - t.cos(Part(n as real, PI_HIGH))) * Square(c) < 1.0 - t.cos(Part(60.0, PI_LOW))
  {
    hide CosBelow, CosAbove, Square, Radians, Part, Threshold, Gap;
    var N, edge := n as real, Threshold(n) + Gap(n);
    EdgeAngles(t, n);
    Rows(n);
    assert SurelyFewer(N, edge);
    var part, lat, last := Part(N, PI_HIGH), Radians(edge, PI_LOW), Part(60.0, PI_LOW);
    assert t.Enclosed(part) && t.Enclosed(lat) && t.Enclosed(last);
    CosAtMostOne(t, part);
    c := CosAbove(Square(lat));
    ProductRises(1.0 - t.cos(part), 1.0 - CosBelow(Square(part)), c, c);
  }

  lemma EdgeAngles(t: Circle, n: int)
    requires t.Valid() && 3 <= n <= 59
    ensures 10.0 < Threshold(n) <= 87.0 && 0.0 < Gap(n) <= HALF_DIGIT
    ensures 0.0 <= Radians(Threshold(n) - HALF_DIGIT, PI_HIGH) <= 2.1
    ensures 0.0 <= Radians(Threshold(n) + Gap(n), PI_LOW) <= 2.1
    ensures 0.0 <= Part(n as real, PI_LOW) <= Part(n as real, t.pi) <= Part(n as real, PI_HIGH) <= 2.1
    ensures 0.0 <= Part(60.0, PI_LOW) <= Part(60.0, t.pi) <= Part(60.0, PI_HIGH) <= 2.1
  {
    hide Threshold, Radians, Part, Circle.Valid;
    ThresholdFalls(2, n);
    PositiveThreshold(n);
    PartsRise(t, n as real);
    PartsRise(t, 60.0);
    RightAngle();
    RadiansRise(Threshold(n) - HALF_DIGIT, 90.00001, PI_HIGH, PI_HIGH);
    RadiansRise(Threshold(n) + Gap(n), 90.00001, PI_LOW, PI_HIGH);
  }

  lemma ThereBelow(t: Circle, n: int, lat: real)
    requires t.Valid() && 3 <= n <= 59 && 0.0 <= lat <= Threshold(n) - HALF_DIGIT
    ensures t.AtLeast(n, lat)
  {
    hide Square, Radians, Part, Threshold, Gap, Circle.Enclosed;
    var N, edge := n as real, Threshold(n) - HALF_DIGIT;
    HoldsBelow(t, n);
    EdgeAngles(t, n);
    RadiansRise(lat, edge, t.pi, PI_HIGH);
    RadiansRise(0.0, lat, t.pi, t.pi);
    CosAtMostOne(t, Part(N, t.pi));
    var a, p := 1.0 - t.cos(Part(N, PI_LOW)), 1.0 - t.cos(Part(N, t.pi));
    var c, q := t.cos(Radians(edge, PI_HIGH)), t.cos(Radians(lat, t.pi));
    assert c <= q && a <= p;
    ProductRises(a, p, c, q);
    assert p * Square(q) >= 1.0 - t.cos(Part(60.0, t.pi));
  }

  lemma NotThereAbove(t: Circle, n: int, lat: real)
    requires t.Valid() && 3 <= n <= 59 && Threshold(n) + Gap(n) <= lat <= 90.00001
    ensures !t.AtLeast(n, lat)
  {
    hide Square, Radians, Part, Threshold, Gap, Circle.Enclosed;
    var N, edge := n as real, Threshold(n) + Gap(n);
    var q := FailsAbove(t, n);
    EdgeAngles(t, n);
    RightAngle();
    RightAngleCos(t);
    RadiansRise(edge, lat, PI_LOW, t.pi);
    RadiansRise(lat, 90.00001, t.pi, PI_HIGH);
    CosAtMostOne(t, Part(N, t.pi));
    var a, p := 1.0 - t.cos(Part(N, t.pi)), 1.0 - t.cos(Part(N, PI_HIGH));
    var c := t.cos(Radians(lat, t.pi));
    assert -0.000001 <= c <= q && a <= p;
    SquareOfAbs(c);
    ProductRises(a, p, Abs(c), q);
    assert a * Square(c) < 1.0 - t.cos(Part(60.0, t.pi));
  }

  lemma PositiveThreshold(n: int)
    ensures Threshold(n) > 10.0
  {
  }

  lemma {:induction false} ZonesReach(t: Circle, m: int, n: int, lat: real)
    requires 3 <= n <= m && t.AtLeast(n, lat)
    ensures t.Zones(m, lat) >= n
    decreases m - n
  {
    hide Circle.AtLeast;
    if !t.AtLeast(m, lat) {
      ZonesReach(t, m - 1, n, lat);
    }
  }

  lemma {:induction false} ZonesEnd(t: Circle, m: int, n: int, lat: real)
    requires 1 <= n <= m && 2 <= m && (n == 1 ==> lat > 87.0)
    requires forall k :: 3 <= k <= m && n < k ==> !t.AtLeast(k, lat)
    ensures t.Zones(m, lat) <= n
    decreases m
  {
    hide Circle.AtLeast;
    if n < m && 3 <= m {
      ZonesEnd(t, m - 1, n, lat);
    }
  }

  /** There are at least as many zones as in the band of the table that ends above the latitude. */
  lemma NlAtLeast(t: Circle, n: int, lat: real)
    requires t.Valid() && 1 <= n <= 59 && 0.0 <= lat && (n >= 2 ==> lat <= Threshold(n) - HALF_DIGIT)
    ensures t.Nl(lat) >= n
  {
    hide Circle.AtLeast, Circle.Valid;
    if n >= 3 {
      ThereBelow(t, n, lat);
      ZonesReach(t, 59, n, lat);
    } else if n == 2 {
      LastThreshold();
      NlAtLeastTwo(t, lat);
    }
  }

  lemma {:induction false} BelowPole(t: Circle, m: int, lat: real)
    requires lat <= 87.0
    ensures m >= 2 ==> t.Zones(m, lat) >= 2
  {
    hide Circle.AtLeast;
    if m >= 3 && !t.AtLeast(m, lat) {
      BelowPole(t, m - 1, lat);
    }
  }

  /** And at most as many as in the band that begins below it. */
  lemma NlAtMost(t: Circle, n: int, lat: real)
    requires t.Valid() && 1 <= n < 59 && 0.0 <= lat <= 90.00001
    requires n == 1 ==> 87.0 < lat
    requires forall k :: 3 <= k <= 59 && n < k ==> Threshold(k) + Gap(k) <= lat
    ensures t.Nl(lat) <= n
  {
    hide Circle.AtLeast, Circle.Valid, Threshold, Gap;
    forall k | 3 <= k <= 59 && n < k
      ensures !t.AtLeast(k, lat)
    {
      NotThereAbove(t, k, lat);
    }
    ZonesEnd(t, 59, n, lat);
  }

  /**
    * The table is the equation to half a unit of its last decimal: its number of zones lies between the standard's at
    * latitudes that much further out and that much further in.
    */
  lemma NlIsStandard(t: Circle, lat: real)
    requires t.Valid() && InRange(lat)
    ensures t.Nl(Abs(lat) + HALF_DIGIT) <= CprNl(lat) <= t.Nl(Abs(lat) - HALF_DIGIT)
  {
    hide Circle.Nl, Circle.Valid, CprNl, Threshold;
    var n, a := CprNl(lat), Abs(lat);
    Band(lat);
    PositiveThreshold(n);
    NlOfAbs(t, a - HALF_DIGIT);
    NlAtLeast(t, n, Abs(a - HALF_DIGIT));
    if n < 59 {
      LastThreshold();
      forall k | 3 <= k <= 59 && n < k
        ensures Threshold(k) + Gap(k) <= a + HALF_DIGIT
      {
        ThresholdFalls(n + 1, k);
      }
      NlAtMost(t, n, a + HALF_DIGIT);
    }
  }

  lemma LastThreshold()
    ensures Threshold(2) == 87.0
  {
  }

  lemma NlOfAbs(t: Circle, lat: real)
    ensures t.Nl(Abs(lat)) == t.Nl(lat)
  {
  }

  /** A latitude that is not within half a unit of the last decimal of an edge. */
  ghost predicate ClearOf(lat: real, n: int) {
    if lat < Threshold(n) then lat <= Threshold(n) - HALF_DIGIT else Threshold(n) + Gap(n) <= lat
  }

  /** Clear of all edges the two agree, but at 87 degrees, where the standard has two zones and the program has one. */
  lemma NlOffEdges(t: Circle, lat: real)
    requires t.Valid() && InRange(lat) && forall n :: 3 <= n <= 59 ==> ClearOf(Abs(lat), n)
    ensures if Abs(lat) == 87.0 then t.Nl(lat) == 2 && CprNl(lat) == 1 else t.Nl(lat) == CprNl(lat)
  {
    hide Circle.Nl, Circle.Valid, CprNl, Threshold, Gap;
    var a := Abs(lat);
    Band(lat);
    LastThreshold();
    NlOfAbs(t, lat);
    var c := CprNl(lat);
    PoleBand(lat);
    var n := if a == 87.0 then 2 else c;
    forall k | 3 <= k <= 59
      ensures n < k ==> Threshold(k) + Gap(k) <= a
      ensures k <= n ==> a <= Threshold(k) - HALF_DIGIT
    {
      assert ClearOf(a, k);
      EdgeBelow(lat, k);
      ThresholdFalls(2, k);
    }
    if n == 2 {
      NlAtLeastTwo(t, a);
    } else {
      NlAtLeast(t, n, a);
    }
    if n < 59 {
      NlAtMost(t, n, a);
    }
  }

  /** The band of the table, seen from any of its edges. */
  lemma EdgeBelow(lat: real, k: int)
    requires 2 <= k <= 59
    ensures Abs(lat) < Threshold(k) <==> k <= CprNl(lat)
  {
    hide CprNl, Threshold;
    var n := CprNl(lat);
    Band(lat);
    if k <= n {
      ThresholdFalls(k, n);
    } else {
      ThresholdFalls(n + 1, k);
    }
  }

  lemma PoleBand(lat: real)
    ensures Abs(lat) == 87.0 ==> CprNl(lat) == 1
    ensures CprNl(lat) == 1 <==> Abs(lat) >= 87.0
  {
    hide CprNl, Threshold;
    LastThreshold();
    EdgeBelow(lat, 2);
  }

  lemma NlAtLeastTwo(t: Circle, lat: real)
    requires 0.0 <= lat <= 87.0
    ensures t.Nl(lat) >= 2
  {
    hide Circle.AtLeast;
    BelowPole(t, 59, lat);
  }
}
