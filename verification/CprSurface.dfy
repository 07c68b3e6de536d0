/** Surface positions: a quarter of the span, so the reference has to name the quadrant. */
module CprSurface {
  import opened Common
  import opened Cpr
  import opened CprZones
  import opened CprEncoder
  import opened CprBands
  import opened CprGlobal

  lemma QuantizedSurfaceRange(lat: real, zones: int)
    requires -90.0 <= lat <= 90.0 && zones >= 1
    ensures -zones * RES <= Quantized(lat, zones, 90.0) <= zones * RES
  {
    var t, N := lat / 90.0, zones as real;
    assert -1.0 <= t <= 1.0;
    assert -N <= N * t <= N by { assert N * (1.0 - t) >= 0.0; assert N * (1.0 + t) >= 0.0; }
  }

  /** The quadrant nearest to the reference is the one the latitude was sent from. */
  lemma QuadrantPicked(lat: real, rlat: real, refLat: real, k: int)
    requires -90.0 <= lat <= 90.0 && Abs(lat - refLat) < 45.0
    requires 0.0 <= rlat < 90.0 && rlat == lat - 90.0 * k as real
    ensures PickLatQuadrant(rlat, refLat) == lat
  {
    assert -1 <= k <= 1;
  }

  lemma SurfaceLatIs(j: int, q: int, zones: int) returns (turns: int)
    requires zones >= 1 && CprModInt(j, zones) == Zone(q) % zones
    ensures SurfaceLat(j, Field(q), zones) == Coordinate(q, zones, 90.0) - 90.0 * turns as real
    ensures 0.0 <= SurfaceLat(j, Field(q), zones) < 90.0
  {
    hide Field, Zone, Coordinate, CprModInt;
    turns := ZoneLon(q, zones, 90.0);
    FractionOfSpan(Zone(q) % zones, Field(q), zones);
  }

  lemma FractionOfSpan(r: int, field: int, zones: int)
    requires 0 <= r < zones && 0 <= field < RES
    ensures 0.0 <= 90.0 / zones as real * (r as real + field as real / CPR_RES) < 90.0
  {
    var d, v, N := 90.0 / zones as real, r as real + field as real / CPR_RES, zones as real;
    assert 0.0 <= v < N;
    assert d * N == 90.0 && d > 0.0;
    assert d * v >= 0.0;
    assert d * (N - v) > 0.0;
    assert d * (N - v) == d * N - d * v;
  }

  lemma RLatInRangeSurface(lat: real)
    requires -90.0 <= lat <= 90.0
    ensures InRange(RLat(lat, 0, 90.0)) && InRange(RLat(lat, 1, 90.0))
  {
    hide Quantized;
    QuantizedSurfaceRange(lat, 60);
    QuantizedSurfaceRange(lat, 59);
    var q1 := Quantized(lat, 59, 90.0);
    assert -59.0 <= q1 as real / CPR_RES <= 59.0;
  }

  /** Both latitudes come out as the encoder quantized them. */
  lemma SurfaceLatsRestored(refLat: real, lat0: real, lat1: real)
    requires -90.0 <= lat0 <= 90.0 && -90.0 <= lat1 <= 90.0 && LatsClose(lat0, lat1, 90.0)
    requires Abs(RLat(lat0, 0, 90.0) - refLat) < 45.0 && Abs(RLat(lat1, 1, 90.0) - refLat) < 45.0
    ensures var y0, y1 := Field(EncodedLat(lat0, 0, 90.0)), Field(EncodedLat(lat1, 1, 90.0));
            && PickLatQuadrant(SurfaceLat(LatIndex(y0, y1), y0, 60), refLat) == RLat(lat0, 0, 90.0)
            && PickLatQuadrant(SurfaceLat(LatIndex(y0, y1), y1, 59), refLat) == RLat(lat1, 1, 90.0)
  {
    hide Quantized, Field, Zone, LatIndex, SurfaceLat, Coordinate, CprModInt, PickLatQuadrant, LatsClose, Abs;
    var q0, q1 := Quantized(lat0, 60, 90.0), Quantized(lat1, 59, 90.0);
    LatQuantaClose(lat0, lat1, 90.0);
    LatIndexRecovered(q0, q1);
    RLatInRangeSurface(lat0);
    RLatInRangeSurface(lat1);
    var j := LatIndex(Field(q0), Field(q1));
    var k0 := SurfaceLatIs(j, q0, 60);
    var k1 := SurfaceLatIs(j, q1, 59);
    QuadrantPicked(RLat(lat0, 0, 90.0), SurfaceLat(j, Field(q0), 60), refLat, k0);
    QuadrantPicked(RLat(lat1, 1, 90.0), SurfaceLat(j, Field(q1), 59), refLat, k1);
  }

  /** A whole number of quadrants away, the longitude within 45 degrees of the reference is the one that is picked. */
  lemma LonQuadrantPicked(rlon: real, lon: real, refLon: real, k: int, turns: int)
    requires rlon == lon - 90.0 * k as real && Abs(Turned(lon, turns) - refLon) < 45.0
    ensures PickLonQuadrant(rlon, refLon) == Turned(lon, turns)
  {
    assert ((refLon - rlon + 45.0) / 90.0).Floor == k + 4 * turns;
  }

  /** The decoder past its checks. */
  lemma SurfaceUnfolded(refLat: real, refLon: real, e: Fields, o: Fields, fflag: int, f: int, r0: real, r1: real,
                        n: int)
    requires f == (if fflag != 0 then 1 else 0)
    requires var j := LatIndex(e.lat, o.lat);
             && PickLatQuadrant(SurfaceLat(j, e.lat, 60), refLat) == r0
             && PickLatQuadrant(SurfaceLat(j, o.lat, 59), refLat) == r1
    requires InRange(r0) && InRange(r1) && CprNl(r0) == CprNl(r1) == n
    ensures var m, lon := Index(e.lon, o.lon, n), if f == 0 then e.lon else o.lon;
            DecodeCprSurface(refLat, refLon, e.lat, e.lon, o.lat, o.lon, fflag) ==
            Some(Position(if f == 0 then r0 else r1,
                          RenormalizeLon(PickLonQuadrant(IndexedLon(m, lon, ZonesOf(n, f), 90.0), refLon))))
  {
    hide SurfaceLat, LatIndex, Index, RenormalizeLon, CprNl, InRange, FrameLon, PickLatQuadrant, PickLonQuadrant;
    var rlat, zones := if f == 0 then r0 else r1, ZonesOf(n, f);
    assert CprN(rlat, f) == zones;
    assert CprDlon(rlat, f, true) == 90.0 / zones as real;
  }

  /**
    * Whatever the reference is, a picked latitude lies on the globe: the decoder's own check of that rejects nothing.
    */
  lemma PickedOnGlobe(j: int, field: int, zones: int, refLat: real)
    requires zones >= 1 && 0 <= field < RES
    ensures InRange(PickLatQuadrant(SurfaceLat(j, field, zones), refLat))
  {
    hide CprModInt;
    FractionOfSpan(CprModInt(j, zones), field, zones);
  }

  /**
    * Near the reference, surface decoding fails only across a boundary between bands of longitude zones, and with an
    * even frame at 87 degrees only within one. Fields that are all zero are decoded like any others.
    */
  lemma SurfaceDecodes(t: Circle, refLat: real, refLon: real, lat0: real, lon0: real, lat1: real, lon1: real,
                       fflag: int)
    requires t.Valid()
    requires -90.0 <= lat0 <= 90.0 && -90.0 <= lat1 <= 90.0 && LatsClose(lat0, lat1, 90.0)
    requires Abs(RLat(lat0, 0, 90.0) - refLat) < 45.0 && Abs(RLat(lat1, 1, 90.0) - refLat) < 45.0
    ensures var e, o := Encode(t, lat0, lon0, 0, true), Encode(t, lat1, lon1, 1, true);
            DecodeCprSurface(refLat, refLon, e.lat, e.lon, o.lat, o.lon, fflag).Some?
            <==> SameBand(t, lat0, lat1, true) != At87(lat0, true)
  {
    hide Quantized, Field, SurfaceLat, LatIndex, Index, RenormalizeLon, CprNl, Coordinate, LatsClose, InRange, FrameLon,
         PickLatQuadrant, PickLonQuadrant, Abs, Circle.Valid, Circle.Nl, SameBand, At87;
    SurfaceLatsRestored(refLat, lat0, lat1);
    RLatInRangeSurface(lat0);
    RLatInRangeSurface(lat1);
    RLatsNear(lat0, lat1, true);
    ComparedBands(t, lat0, lat1, true);
  }

  /** A longitude that is `lon` up to quadrants gives `lon` back near the reference, and no other does. */
  lemma PickedIff(rlon: real, lon: real, refLon: real, turns: int)
    requires Abs(Turned(lon, turns) - refLon) < 45.0
    ensures RenormalizeLon(PickLonQuadrant(rlon, refLon)) == RenormalizeLon(lon) <==> IsWhole(lon - rlon, 90.0)
  {
    hide RenormalizeLon, Abs;
    var picked := PickLonQuadrant(rlon, refLon);
    var k := ((refLon - rlon + 45.0) / 90.0).Floor;
    var a := Renormalized(picked);
    var b := Renormalized(lon);
    if RenormalizeLon(picked) == RenormalizeLon(lon) {
      assert lon - rlon == Whole(90.0, k - 4 * a + 4 * b);
    }
    if IsWhole(lon - rlon, 90.0) {
      var q :| lon - rlon == Whole(90.0, q);
      LonQuadrantPicked(rlon, lon, refLon, q, turns);
      RenormalizeTurned(lon, turns);
    }
  }

  /** The longitudes that the decoder computes for either frame are those sent, up to quadrants. */
  lemma DecodedSurfaceLons(t: Circle, lat0: real, lon0: real, lat1: real, lon1: real, n: int)
    requires n == if At87(lat0, true) then 1 else LonZones(t, lat0, 0, 90.0)
    requires LonZones(t, lat1, 1, 90.0) == ZonesOf(n, 1) && (At87(lat0, true) ==> LonZones(t, lat0, 0, 90.0) == 2)
    requires n >= 2 ==> LonsClose(lon0, lon1, n, 90.0)
    ensures var p0, p1 := EncodedLon(t, lat0, lon0, 0, 90.0), EncodedLon(t, lat1, lon1, 1, 90.0);
            var sent0, sent1 := Coordinate(p0, LonZones(t, lat0, 0, 90.0), 90.0), Coordinate(p1, ZonesOf(n, 1), 90.0);
            var m := Index(Field(p0), Field(p1), n);
            && IsWhole((if At87(lat0, true) then 2.0 * sent0 else sent0) - IndexedLon(m, Field(p0), n, 90.0), 90.0)
            && IsWhole(sent1 - IndexedLon(m, Field(p1), ZonesOf(n, 1), 90.0), 90.0)
  {
    hide Quantized, Field, Index, IndexedLon, Zone, Coordinate, LonsClose, At87, RLat, LonZones;
    var p0, p1 := EncodedLon(t, lat0, lon0, 0, 90.0), EncodedLon(t, lat1, lon1, 1, 90.0);
    var m := Index(Field(p0), Field(p1), n);
    var sent1 := Coordinate(p1, ZonesOf(n, 1), 90.0);
    if At87(lat0, true) {
      var turns := DoubledLon(p0, m, 90.0);
      assert 2.0 * Coordinate(p0, 2, 90.0) - IndexedLon(m, Field(p0), n, 90.0) == Whole(90.0, turns);
      var back := PolarLonRestored(p1, m, 90.0);
      assert sent1 - IndexedLon(m, Field(p1), ZonesOf(n, 1), 90.0) == Whole(90.0, back);
    } else {
      var back0 := LonRestored(p0, p1, n, 0, lon0, lon1, 90.0);
      assert Coordinate(p0, n, 90.0) - IndexedLon(m, Field(p0), n, 90.0) == Whole(90.0, back0);
      var back1 := LonRestored(p0, p1, n, 1, lon0, lon1, 90.0);
      assert sent1 - IndexedLon(m, Field(p1), ZonesOf(n, 1), 90.0) == Whole(90.0, back1);
    }
  }

  lemma WholeDifference(a: real, b: real, span: real)
    requires IsWhole(2.0 * a - b, span)
    ensures IsWhole(a - b, span) <==> IsWhole(a, span)
  {
    var k :| 2.0 * a - b == Whole(span, k);
    if IsWhole(a - b, span) {
      var j :| a - b == Whole(span, j);
      assert a == Whole(span, k - j) by { WholeMinus(span, k, j); }
    }
    if IsWhole(a, span) {
      var j :| a == Whole(span, j);
      assert a - b == Whole(span, k - j) by { WholeMinus(span, k, j); }
    }
  }

  lemma WholeMinus(span: real, k: int, j: int)
    ensures Whole(span, k - j) == Whole(span, k) - Whole(span, j)
  {
  }

  /**
    * When surface decoding succeeds, it returns the position exactly as it was quantized, when that is within 45
    * degrees of the reference. Only the longitude of an even frame at 87 degrees is lost, unless it is a whole number
    * of quadrants.
    */
  lemma SurfaceDecodeInverts(t: Circle, refLat: real, refLon: real, lat0: real, lon0: real, lat1: real, lon1: real,
                             fflag: int, turns: int)
    requires t.Valid()
    requires -90.0 <= lat0 <= 90.0 && -90.0 <= lat1 <= 90.0 && LatsClose(lat0, lat1, 90.0)
    requires Abs(RLat(lat0, 0, 90.0) - refLat) < 45.0 && Abs(RLat(lat1, 1, 90.0) - refLat) < 45.0
    requires SameBand(t, lat0, lat1, true) != At87(lat0, true)
    requires var n := t.Nl(RLat(lat1, 1, 90.0)); n >= 2 ==> LonsClose(lon0, lon1, n, 90.0)
    requires var s := if fflag != 0 then Seen(t, lat1, lon1, 1, true) else Seen(t, lat0, lon0, 0, true);
             Abs(Turned(s.lon, turns) - refLon) < 45.0
    ensures var e, o := Encode(t, lat0, lon0, 0, true), Encode(t, lat1, lon1, 1, true);
            var s := if fflag != 0 then Seen(t, lat1, lon1, 1, true) else Seen(t, lat0, lon0, 0, true);
            var r := DecodeCprSurface(refLat, refLon, e.lat, e.lon, o.lat, o.lon, fflag);
            && r.Some? && r.value.lat == s.lat
            && (r.value.lon == RenormalizeLon(s.lon) <==> !(fflag == 0 && At87(lat0, true)) || IsWhole(s.lon, 90.0))
  {
    hide Quantized, Field, SurfaceLat, LatIndex, Index, IndexedLon, RenormalizeLon, CprNl, Coordinate, LatsClose,
         LonsClose, InRange, FrameLon, PickLatQuadrant, PickLonQuadrant, Abs, Turned, DecodeCprSurface,
         Circle.Valid, Circle.Nl, SameBand, At87, RLat, LonZones, IsWhole;
    var f := if fflag != 0 then 1 else 0;
    SurfaceLatsRestored(refLat, lat0, lat1);
    RLatInRangeSurface(lat0);
    RLatInRangeSurface(lat1);
    RLatsNear(lat0, lat1, true);
    ComparedBands(t, lat0, lat1, true);
    SentZones(t, lat0, 0, true);
    SentZones(t, lat1, 1, true);
    SentNl(t, lat1, 1, true);
    var r0, r1 := RLat(lat0, 0, 90.0), RLat(lat1, 1, 90.0);
    var n := CprNl(r0);
    assert At87(lat0, true) ==> n == 1;
    assert CprN(r0, 0) == n && CprN(r1, 1) == ZonesOf(n, 1);
    DecodedSurfaceLons(t, lat0, lon0, lat1, lon1, n);
    var e, o := Encode(t, lat0, lon0, 0, true), Encode(t, lat1, lon1, 1, true);
    SurfaceUnfolded(refLat, refLon, e, o, fflag, f, r0, r1, n);
    var s := if fflag != 0 then Seen(t, lat1, lon1, 1, true) else Seen(t, lat0, lon0, 0, true);
    assert ZonesOf(n, 0) == n;
    var rlon := IndexedLon(Index(e.lon, o.lon, n), if f == 0 then e.lon else o.lon, ZonesOf(n, f), 90.0);
    PickedIff(rlon, s.lon, refLon, turns);
    if f == 0 && At87(lat0, true) {
      assert s.lon == Coordinate(EncodedLon(t, lat0, lon0, 0, 90.0), LonZones(t, lat0, 0, 90.0), 90.0);
      WholeDifference(s.lon, rlon, 90.0);
    }
  }
}
