/** Relative decoding picks the one lattice point within half a cell of the reference. */
module CprRelative {
  import opened Common
  import opened Cpr
  import opened CprZones
  import opened CprEncoder
  import opened CprBands
  import opened CprGlobal

  lemma ScaleOut(d: real, u: real, k: real)
    requires d > 0.0
    ensures (d * u - d * k) / d == u - k
    ensures d * u - d * k == d * (u - k)
  {
  }

  /** The always-positive modulo is the fractional part, scaled. */
  lemma ModIsFraction(a: real, b: real)
    requires b > 0.0
    ensures CprModDouble(a, b) / b == a / b - (a / b).Floor as real
  {
    var u := a / b;
    assert a == b * u;
    ModOfProduct(u, b);
  }

  lemma ModOfProduct(u: real, b: real)
    requires b > 0.0
    ensures CprModDouble(b * u, b) / b == u - u.Floor as real
  {
    assert (b * u) / b == u;
    var t := Trunc(u);
    ScaleOut(b, u, t as real);
    if u >= 0.0 {
      NonNegativeProduct(b, u - t as real);
      var r := b * u - b * t as real;
      assert r >= 0.0;
      assert CprModDouble(b * u, b) == r;
    } else {
      NegativeModOfProduct(u, b, t);
    }
  }

  lemma NegativeModOfProduct(u: real, b: real, t: int)
    requires b > 0.0 && u < 0.0 && t == Trunc(u) && (b * u) / b == u
    ensures CprModDouble(b * u, b) / b == u - u.Floor as real
  {
    assert t as real - 1.0 < u <= t as real;
    ScaleOut(b, u, t as real);
    if u < t as real {
      PositiveProduct(b, t as real - u);
      Opposite(b, u, t as real);
      ScaleOut(b, u, t as real - 1.0);
      LessOne(b, t as real);
      var r := b * u - b * t as real;
      assert r < 0.0;
      assert CprModDouble(b * u, b) == r + b;
      assert u.Floor == t - 1;
    }
  }

  lemma Opposite(b: real, u: real, t: real)
    ensures b * (t - u) == -(b * u - b * t)
  {
  }

  lemma LessOne(b: real, t: real)
    ensures b * (t - 1.0) == b * t - b
  {
  }

  lemma PositiveProduct(a: real, b: real)
    requires a > 0.0 && b > 0.0
    ensures a * b > 0.0
  {
  }

  /** The chosen cell is within half a cell of the reference, and no other cell is. */
  lemma CellIsNearest(ref: real, d: real, fraction: real, k: int)
    requires d > 0.0
    ensures var j := CellIndex(ref, d, fraction);
            && -0.5 < j as real + fraction - ref / d <= 0.5
            && (-0.5 < k as real + fraction - ref / d < 0.5 ==> k == j)
  {
    hide CprModDouble;
    ModIsFraction(ref, d);
    var j, x := CellIndex(ref, d, fraction), ref / d;
    var whole := x.Floor;
    assert j == whole + (0.5 + (x - whole as real) - fraction).Floor;
    ShiftedFloor(whole, 0.5 + x - fraction);
    assert 0.5 + (x - whole as real) - fraction == 0.5 + x - fraction - whole as real;
    if -0.5 < k as real + fraction - x < 0.5 {
      SameCell(k, j, x - fraction);
    }
  }

  lemma ShiftedFloor(k: int, x: real)
    ensures k + (x - k as real).Floor == x.Floor
  {
  }

  lemma SameCell(k: int, j: int, x: real)
    requires -0.5 < k as real - x < 0.5 && -0.5 < j as real - x <= 0.5
    ensures k == j
  {
  }

  lemma ScaledBounds(d: real, v: real, ref: real)
    requires d > 0.0 && -0.5 < v - ref / d <= 0.5
    ensures -d / 2.0 < d * v - ref <= d / 2.0
  {
    var u := ref / d;
    assert d * u == ref;
    HalfCell(d, u, v, ref);
  }

  lemma HalfCell(d: real, u: real, v: real, ref: real)
    requires d > 0.0 && ref == d * u && -0.5 < v - u <= 0.5
    ensures -d / 2.0 < d * v - ref <= d / 2.0
  {
    var x, y := v - u + 0.5, 0.5 - (v - u);
    PositiveProduct(d, x);
    NonNegativeProduct(d, y);
    var p, q := d * x, d * y;
    assert p > 0.0 && q >= 0.0;
    assert p == d * v - ref + d / 2.0 && q == d / 2.0 - (d * v - ref);
  }

  /** The lattice point that relative decoding picks, in degrees from the reference. */
  lemma LatticeNearest(ref: real, d: real, field: int)
    requires d > 0.0
    ensures var x := LatticePoint(d, CellIndex(ref, d, field as real / CPR_RES), field);
            -d / 2.0 < x - ref <= d / 2.0
  {
    hide CellIndex;
    CellIsNearest(ref, d, field as real / CPR_RES, 0);
    ScaledBounds(d, CellIndex(ref, d, field as real / CPR_RES) as real + field as real / CPR_RES, ref);
  }

  ghost function NearestLat(refLat: real, cprLat: int, fflag: int, surface: bool): real {
    var d := RelativeDlat(fflag, surface);
    LatticePoint(d, CellIndex(refLat, d, cprLat as real / CPR_RES), cprLat)
  }

  ghost function NearestLon(refLon: real, cprLon: int, dlon: real): real
    requires dlon > 0.0
  {
    LatticePoint(dlon, CellIndex(refLon, dlon, cprLon as real / CPR_RES), cprLon)
  }

  lemma DlatSmall(fflag: int, surface: bool)
    ensures 0.0 < RelativeDlat(fflag, surface) <= 6.2
  {
  }

  /**
    * Exactly when a single frame can be decoded against a reference on the globe: the nearest lattice latitude is on
    * the globe, and the nearest lattice longitude does not lie beyond the antimeridian. The one exception is a cell of
    * the full circle whose lattice point is opposite to the reference.
    */
  lemma RelativeDecodes(refLat: real, refLon: real, cprLat: int, cprLon: int, fflag: int, surface: bool)
    requires fflag == 0 || fflag == 1
    requires InRange(refLat) && -180.0 <= refLon <= 180.0
    ensures var r := DecodeCprRelative(refLat, refLon, cprLat, cprLon, fflag, surface);
            var lat := NearestLat(refLat, cprLat, fflag, surface);
            var dlat, dlon := RelativeDlat(fflag, surface), CprDlon(lat, fflag, surface);
            var lon := NearestLon(refLon, cprLon, dlon);
            && -dlat / 2.0 < lat - refLat <= dlat / 2.0
            && -dlon / 2.0 < lon - refLon <= dlon / 2.0
            && (r.Some? <==> InRange(lat) && (lon <= 180.0 || (dlon == 360.0 && lon == refLon + 180.0)))
            && (r.Some? ==> r.value == Position(lat, if lon > 180.0 then lon - 360.0 else lon))
  {
    hide CellIndex, LatticePoint, CprDlon, RelativeDlat;
    var dlat := RelativeDlat(fflag, surface);
    DlatSmall(fflag, surface);
    LatticeNearest(refLat, dlat, cprLat);
    var lat := NearestLat(refLat, cprLat, fflag, surface);
    LatticeNearest(refLon, CprDlon(lat, fflag, surface), cprLon);
  }

  /** Away from the poles and from the antimeridian, relative decoding always succeeds. */
  lemma RelativeAlwaysDecodes(refLat: real, refLon: real, cprLat: int, cprLon: int, fflag: int, surface: bool)
    requires fflag == 0 || fflag == 1
    requires Abs(refLat) + RelativeDlat(fflag, surface) / 2.0 <= 90.0 && -180.0 <= refLon
    requires refLon + CprDlon(NearestLat(refLat, cprLat, fflag, surface), fflag, surface) / 2.0 <= 180.0
    ensures DecodeCprRelative(refLat, refLon, cprLat, cprLon, fflag, surface).Some?
  {
    hide DecodeCprRelative, NearestLat, NearestLon, CprDlon, RelativeDlat;
    RelativeDecodes(refLat, refLon, cprLat, cprLon, fflag, surface);
  }

  // ---- agreement with the encoder and with global decoding ----

  lemma InsideHalfCell(d: real, u: real, v: real, ref: real)
    requires d > 0.0 && ref == d * u && -d / 2.0 < d * v - ref < d / 2.0
    ensures -0.5 < v - u < 0.5
  {
    var x := v - u;
    assert d * x == d * v - ref;
    assert d * (x - 0.5) == d * x - d / 2.0;
    assert d * (-0.5 - x) == -d / 2.0 - d * x;
    NegativeFactor(d, x - 0.5);
    NegativeFactor(d, -0.5 - x);
  }

  lemma NegativeFactor(d: real, y: real)
    requires d > 0.0 && d * y < 0.0
    ensures y < 0.0
  {
    if y >= 0.0 {
      NonNegativeProduct(d, y);
    }
  }

  /** A lattice point strictly less than half a cell from the reference is the one that is picked. */
  lemma LatticePicked(ref: real, d: real, field: int, k: int)
    requires d > 0.0 && Abs(LatticePoint(d, k, field) - ref) < d / 2.0
    ensures CellIndex(ref, d, field as real / CPR_RES) == k
  {
    hide CellIndex;
    var f := field as real / CPR_RES;
    assert d * (ref / d) == ref;
    InsideHalfCell(d, ref / d, k as real + f, ref);
    CellIsNearest(ref, d, f, k);
  }

  /** Relative decoding returns a position near the reference from its two lattice coordinates. */
  lemma PositionPicked(refLat: real, refLon: real, cprLat: int, cprLon: int, fflag: int, surface: bool, g: Position,
                       j: int, m: int)
    requires fflag == 0 || fflag == 1
    requires InRange(g.lat) && g.lon <= 180.0
    requires var dlat, dlon := RelativeDlat(fflag, surface), CprDlon(g.lat, fflag, surface);
             && g.lat == LatticePoint(dlat, j, cprLat) && Abs(g.lat - refLat) < dlat / 2.0
             && g.lon == LatticePoint(dlon, m, cprLon) && Abs(g.lon - refLon) < dlon / 2.0
    ensures DecodeCprRelative(refLat, refLon, cprLat, cprLon, fflag, surface) == Some(g)
  {
    hide CellIndex, LatticePoint, CprDlon, RelativeDlat, Abs;
    LatticePicked(refLat, RelativeDlat(fflag, surface), cprLat, j);
    LatticePicked(refLon, CprDlon(g.lat, fflag, surface), cprLon, m);
  }

  lemma GlobalLatOnLattice(j: int, field: int, fflag: int) returns (k: int)
    requires fflag == 0 || fflag == 1
    ensures DecodeLat(j, field, 60 - fflag) == LatticePoint(RelativeDlat(fflag, false), k, field)
  {
    var zones := 60 - fflag;
    k := CprModInt(j, zones);
    var rlat := 360.0 / zones as real * (k as real + field as real / CPR_RES);
    if rlat >= 270.0 {
      k := k - zones;
    }
  }

  lemma GlobalLonOnLattice(dlon: real, m: int, ni: int, field: int) returns (k: int)
    requires ni >= 1 && dlon == 360.0 / ni as real
    ensures RenormalizeLon(FrameLon(dlon, m, ni, field)) == LatticePoint(dlon, k, field)
    ensures RenormalizeLon(FrameLon(dlon, m, ni, field)) < 180.0
  {
    hide RenormalizeLon, CprModInt;
    var a, f := CprModInt(m, ni), field as real / CPR_RES;
    var turns := Renormalized(FrameLon(dlon, m, ni, field));
    k := a - ni * turns;
    WholeTurn(dlon, ni);
    TurnedBack(dlon, ni as real, a as real + f, turns as real);
    ProductAsReal(ni, turns);
    assert k as real + f == a as real + f - ni as real * turns as real;
  }

  lemma WholeTurn(dlon: real, ni: int)
    requires ni >= 1 && dlon == 360.0 / ni as real
    ensures dlon * ni as real == 360.0
  {
  }

  lemma ProductAsReal(a: int, b: int)
    ensures (a * b) as real == a as real * b as real
  {
  }

  lemma TurnedBack(d: real, n: real, x: real, turns: real)
    requires d * n == 360.0
    ensures d * (x - n * turns) == d * x - 360.0 * turns
  {
    assert d * (n * turns) == (d * n) * turns;
  }

  /**
    * Decoding one frame against a reference agrees with decoding the pair, whenever the pair's position is strictly
    * less than half a cell from the reference on both axes.
    */
  lemma RelativeAgreesWithGlobal(refLat: real, refLon: real, evenLat: int, evenLon: int, oddLat: int, oddLon: int,
                                 fflag: int)
    requires fflag == 0 || fflag == 1
    requires DecodeCprAirborne(evenLat, evenLon, oddLat, oddLon, fflag).Some?
    requires var g := DecodeCprAirborne(evenLat, evenLon, oddLat, oddLon, fflag).value;
             && Abs(g.lat - refLat) < RelativeDlat(fflag, false) / 2.0
             && Abs(g.lon - refLon) < CprDlon(g.lat, fflag, false) / 2.0
    ensures var lat, lon := if fflag == 0 then evenLat else oddLat, if fflag == 0 then evenLon else oddLon;
            DecodeCprRelative(refLat, refLon, lat, lon, fflag, false)
            == DecodeCprAirborne(evenLat, evenLon, oddLat, oddLon, fflag)
  {
    hide DecodeLat, LatIndex, Index, RenormalizeLon, FrameLon, LatticePoint, RelativeDlat, DecodeCprRelative, CprNl,
         Abs;
    var g := DecodeCprAirborne(evenLat, evenLon, oddLat, oddLon, fflag).value;
    var lat, lon := if fflag == 0 then evenLat else oddLat, if fflag == 0 then evenLon else oddLon;
    var j := GlobalLatOnLattice(LatIndex(evenLat, oddLat), lat, fflag);
    var index, zones := Index(evenLon, oddLon, CprNl(g.lat)), CprN(g.lat, fflag);
    var m := GlobalLonOnLattice(CprDlon(g.lat, fflag, false), index, zones, lon);
    PositionPicked(refLat, refLon, lat, lon, fflag, false, g, j, m);
  }

  // ---- the encoder inverted ----

  lemma LatticeWhole(span: real, m: int, k: int, field: int)
    ensures LatticePoint(span, m, field) == LatticePoint(span, k, field) + Whole(span, m - k)
  {
    var f := field as real / CPR_RES;
    assert span * (m as real + f) == span * (k as real + f) + span * (m as real - k as real);
  }

  lemma FullTurnWhole(surface: bool)
    ensures 360.0 == Whole(Span(surface), if surface then 4 else 1)
  {
  }

  lemma WholePlus(span: real, k: int, j: int)
    ensures Whole(span, k + j) == Whole(span, k) + Whole(span, j)
  {
  }

  lemma DoubleOnLattice(q: int, span: real)
    ensures 2.0 * Coordinate(q, 2, span) == LatticePoint(span, Zone(q), Field(q))
  {
    hide Zone, Field;
    FieldZone(q);
    var x := q as real / CPR_RES;
    assert span / 2.0 * x == span * x / 2.0;
  }

  /** What relative decoding returns at 87 degrees for an even frame lies whole spans from twice the longitude sent. */
  lemma DoubledRelative(refLat: real, refLon: real, y: int, x: int, surface: bool, c: real, k: int)
    requires 2.0 * c == LatticePoint(Span(surface), k, x)
    requires var r := DecodeCprRelative(refLat, refLon, y, x, 0, surface);
             r.Some? && CprN(r.value.lat, 0) == 1 && r.value.lon == c
    ensures IsWhole(c, Span(surface))
  {
    hide CellIndex, LatticePoint, RelativeDlat, CprNl, Abs, InRange, Whole;
    var span := Span(surface);
    var r := DecodeCprRelative(refLat, refLon, y, x, 0, surface).value;
    assert CprDlon(r.lat, 0, surface) == span;
    var m := CellIndex(refLon, span, x as real / CPR_RES);
    var east := LatticePoint(span, m, x);
    LatticeWhole(span, m, k, x);
    FullTurnWhole(surface);
    var full := if surface then 4 else 1;
    WholePlus(span, -(m - k), m - k);
    WholePlus(span, -(m - k), full);
    NothingWhole(span);
    if east > 180.0 {
      assert c == Whole(span, -(m - k) + full);
    } else {
      assert c == Whole(span, -(m - k));
    }
  }

  lemma NothingWhole(span: real)
    ensures Whole(span, 0) == 0.0
  {
  }

  /**
    * Relative decoding inverts the encoder, airborne and on the surface: a frame sent from anywhere on the globe comes
    * back exactly as it was quantized when it was sent less than half a cell away from the reference. The one exception
    * is an even frame at 87 degrees whose longitude is no whole number of spans.
    */
  lemma RelativeDecodeInverts(t: Circle, refLat: real, refLon: real, lat: real, lon: real, fflag: int, surface: bool)
    requires t.Valid() && (fflag == 0 || fflag == 1)
    requires var s := Seen(t, lat, lon, fflag, surface);
             && InRange(s.lat) && s.lon <= 180.0
             && Abs(s.lat - refLat) < RelativeDlat(fflag, surface) / 2.0
             && Abs(s.lon - refLon) < Span(surface) / LonZones(t, lat, fflag, Span(surface)) as real / 2.0
    ensures var s, e := Seen(t, lat, lon, fflag, surface), Encode(t, lat, lon, fflag, surface);
            && (DecodeCprRelative(refLat, refLon, e.lat, e.lon, fflag, surface) == Some(s)
                <==> !(fflag == 0 && At87(lat, surface)) || IsWhole(s.lon, Span(surface)))
            && Abs(s.lat - lat) <= RelativeDlat(fflag, surface) / 262144.0
            && Abs(s.lon - lon) <= Span(surface) / LonZones(t, lat, fflag, Span(surface)) as real / 262144.0
  {
    hide DecodeCprRelative, Quantized, Field, CprNl, Abs, Circle.Valid, Circle.Nl, At87, IsWhole, Coordinate,
         RelativeDlat, LonZones;
    var span := Span(surface);
    var y, x := EncodedLat(lat, fflag, span), EncodedLon(t, lat, lon, fflag, span);
    RelativeErrors(t, lat, lon, fflag, surface);
    SentZones(t, lat, fflag, surface);
    if fflag == 0 && At87(lat, surface) {
      PolarRelative(refLat, refLon, y, x, surface);
    } else {
      OrdinaryRelative(refLat, refLon, y, x, LonZones(t, lat, fflag, span), fflag, surface);
    }
  }

  lemma RelativeErrors(t: Circle, lat: real, lon: real, fflag: int, surface: bool)
    requires fflag == 0 || fflag == 1
    ensures var s, zones := Seen(t, lat, lon, fflag, surface), LonZones(t, lat, fflag, Span(surface));
            && Abs(s.lat - lat) <= RelativeDlat(fflag, surface) / 262144.0
            && Abs(s.lon - lon) <= Span(surface) / zones as real / 262144.0
  {
    hide Abs, Coordinate, LonZones;
    CoordinateError(lat, LatZones(fflag), Span(surface));
    CoordinateError(lon, LonZones(t, lat, fflag, Span(surface)), Span(surface));
  }

  lemma OrdinaryRelative(refLat: real, refLon: real, y: int, x: int, zones: int, fflag: int, surface: bool)
    requires (fflag == 0 || fflag == 1) && zones >= 1
    requires var s := Position(Coordinate(y, LatZones(fflag), Span(surface)), Coordinate(x, zones, Span(surface)));
             && CprN(s.lat, fflag) == zones && InRange(s.lat) && s.lon <= 180.0
             && Abs(s.lat - refLat) < RelativeDlat(fflag, surface) / 2.0
             && Abs(s.lon - refLon) < Span(surface) / zones as real / 2.0
    ensures var s := Position(Coordinate(y, LatZones(fflag), Span(surface)), Coordinate(x, zones, Span(surface)));
            DecodeCprRelative(refLat, refLon, Field(y), Field(x), fflag, surface) == Some(s)
  {
    hide DecodeCprRelative, Field, Zone, CprNl, Abs;
    var s := Position(Coordinate(y, LatZones(fflag), Span(surface)), Coordinate(x, zones, Span(surface)));
    FieldZone(y);
    FieldZone(x);
    PositionPicked(refLat, refLon, Field(y), Field(x), fflag, surface, s, Zone(y), Zone(x));
  }

  lemma PolarRelative(refLat: real, refLon: real, y: int, x: int, surface: bool)
    requires var s := Position(Coordinate(y, 60, Span(surface)), Coordinate(x, 2, Span(surface)));
             && CprN(s.lat, 0) == 1 && InRange(s.lat) && s.lon <= 180.0
             && Abs(s.lat - refLat) < RelativeDlat(0, surface) / 2.0
             && Abs(s.lon - refLon) < Span(surface) / 2.0 / 2.0
    ensures var s := Position(Coordinate(y, 60, Span(surface)), Coordinate(x, 2, Span(surface)));
            DecodeCprRelative(refLat, refLon, Field(y), Field(x), 0, surface) == Some(s)
            <==> IsWhole(s.lon, Span(surface))
  {
    hide DecodeCprRelative, Field, Zone, CprNl, Abs, LatticePoint, Whole;
    var span := Span(surface);
    var s := Position(Coordinate(y, 60, span), Coordinate(x, 2, span));
    DoubleOnLattice(x, span);
    if DecodeCprRelative(refLat, refLon, Field(y), Field(x), 0, surface) == Some(s) {
      DoubledRelative(refLat, refLon, Field(y), Field(x), surface, s.lon, Zone(x));
    }
    if IsWhole(s.lon, span) {
      var k :| s.lon == Whole(span, k);
      LatticeWhole(span, Zone(x) - k, Zone(x), Field(x));
      WholePlus(span, -k, k);
      NothingWhole(span);
      LatOnLattice(y, surface);
      PositionPicked(refLat, refLon, Field(y), Field(x), 0, surface, s, Zone(y), Zone(x) - k);
    }
  }

  lemma LatOnLattice(q: int, surface: bool)
    ensures Coordinate(q, 60, Span(surface)) == LatticePoint(RelativeDlat(0, surface), Zone(q), Field(q))
  {
    hide Zone, Field;
    FieldZone(q);
  }

  lemma PolarQuanta()
    ensures Quantized(87.0, 60, 360.0) == 1900544 && Quantized(100.0, 2, 360.0) == 72818
    ensures Coordinate(1900544, 60, 360.0) == 87.0 && 100.0 < Coordinate(72818, 2, 360.0) < 100.001
  {
  }

  /** A frame that an aircraft sends from 87 degrees north and 100 degrees east, and a reference there: misread. */
  lemma PolarFrameMisread(t: Circle)
    requires t.Valid()
    ensures var s, e := Seen(t, 87.0, 100.0, 0, false), Encode(t, 87.0, 100.0, 0, false);
            && s.lat == 87.0 && 100.0 < s.lon < 100.001
            && DecodeCprRelative(87.0, 100.0, e.lat, e.lon, 0, false) != Some(s)
  {
    hide DecodeCprRelative, Quantized, Circle.Nl, Circle.Valid, CprNl;
    PolarQuanta();
    SentZones(t, 87.0, 0, false);
    RelativeDecodeInverts(t, 87.0, 100.0, 87.0, 100.0, 0, false);
  }

  /** A reference on the antimeridian, and a frame whose nearest position lies 0.6 degrees beyond it: rejected. */
  lemma AntimeridianRejected()
    ensures var lat := NearestLat(0.0, 0, 0, false);
            && InRange(lat) && 180.0 < NearestLon(180.0, 78643, CprDlon(lat, 0, false)) < 181.0
            && DecodeCprRelative(0.0, 180.0, 0, 78643, 0, false) == None
  {
    var d := CprDlon(0.0, 0, false);
    assert NearestLat(0.0, 0, 0, false) == 0.0;
    assert d == 360.0 / 59.0;
    assert CellIndex(180.0, d, 78643.0 / CPR_RES) == 29 by {
      var x := LatticePoint(d, 29, 78643);
      assert 180.0 < x < 181.0;
      LatticePicked(180.0, d, 78643, 29);
    }
    RelativeDecodes(0.0, 180.0, 0, 78643, 0, false);
  }
}
