/** Global decoding inverts the encoder, even when the aircraft moves between the two frames. */
module CprGlobal {
  import opened Common
  import opened Cpr
  import opened CprZones
  import opened CprEncoder
  import opened CprBands

  /** The two latitudes, as parts of the span, are close enough for the index to be right. */
  ghost predicate LatsClose(lat0: real, lat1: real, span: real)
    requires span > 0.0
  {
    3540.0 * Abs(lat0 / span - lat1 / span) + 119.0 / 262144.0 < 0.5
  }

  /** The two longitudes are close enough in a latitude band of `n` zones. */
  ghost predicate LonsClose(lon0: real, lon1: real, n: int, span: real)
    requires span > 0.0
  {
    (n * (n - 1)) as real * Abs(lon0 / span - lon1 / span) + (2 * n - 1) as real / 262144.0 < 0.5
  }

  /** In degrees, for airborne positions: a twentieth of a degree is close enough. */
  lemma LatsCloseInDegrees(lat0: real, lat1: real)
    requires Abs(lat0 - lat1) <= 0.05
    ensures LatsClose(lat0, lat1, 360.0)
  {
    assert lat0 / 360.0 - lat1 / 360.0 == (lat0 - lat1) / 360.0;
  }

  lemma LatQuantaClose(lat0: real, lat1: real, span: real)
    requires span > 0.0 && LatsClose(lat0, lat1, span)
    ensures -RES < 2 * (59 * Quantized(lat0, 60, span) - 60 * Quantized(lat1, 59, span)) < RES
  {
    var q0, q1 := Quantized(lat0, 60, span), Quantized(lat1, 59, span);
    var t0, t1 := lat0 / span, lat1 / span;
    QuantizedError(lat0, 60, span);
    QuantizedError(lat1, 59, span);
    assert 2.0 * (59.0 * q0 as real - 60.0 * q1 as real) == (2 * (59 * q0 - 60 * q1)) as real;
  }

  lemma HalfProduct(a: real, e: real)
    requires a >= 0.0 && -0.5 <= e <= 0.5
    ensures -a / 2.0 <= a * e <= a / 2.0
  {
    assert a * (0.5 - e) >= 0.0;
    assert a * (e + 0.5) >= 0.0;
  }

  lemma Distribute(n: real, x: real, e: real, a: real)
    requires a == CPR_RES * x + e
    ensures n * a == CPR_RES * (n * x) + n * e
  {
  }

  lemma Commute(n: real, u0: real, u1: real)
    ensures (n - 1.0) * (n * u0) - n * ((n - 1.0) * u1) == n * (n - 1.0) * (u0 - u1)
  {
    assert (n - 1.0) * (n * u0) == n * (n - 1.0) * u0;
    assert n * ((n - 1.0) * u1) == n * (n - 1.0) * u1;
  }

  lemma AbsProduct(k: real, x: real)
    requires k >= 0.0
    ensures Abs(k * x) == k * Abs(x)
  {
  }

  lemma SpreadBound(s: real, spread: real, n: real, a: real, b: real)
    requires s == CPR_RES * spread + a - b
    requires -(n - 1.0) / 2.0 <= a <= (n - 1.0) / 2.0 && -n / 2.0 <= b <= n / 2.0
    requires Abs(spread) + (2.0 * n - 1.0) / 262144.0 < 0.5
    ensures -CPR_RES < 2.0 * s < CPR_RES
  {
  }

  lemma SpreadOf(lon0: real, lon1: real, n: int, span: real)
    requires span > 0.0 && n >= 2 && LonsClose(lon0, lon1, n, span)
    ensures Abs(n as real * (n as real - 1.0) * (lon0 / span - lon1 / span)) + (2.0 * n as real - 1.0) / 262144.0 < 0.5
  {
    var N := n as real;
    assert (n * (n - 1)) as real == N * (N - 1.0);
    AbsProduct(N * (N - 1.0), lon0 / span - lon1 / span);
  }

  lemma Products(n: real, a0: real, a1: real, u0: real, u1: real, e0: real, e1: real)
    returns (s: real, spread: real, a: real, b: real)
    requires n >= 2.0 && -0.5 <= e0 <= 0.5 && -0.5 <= e1 <= 0.5
    requires a0 == CPR_RES * (n * u0) + e0 && a1 == CPR_RES * ((n - 1.0) * u1) + e1
    ensures s == (n - 1.0) * a0 - n * a1 && spread == n * (n - 1.0) * (u0 - u1)
    ensures s == CPR_RES * spread + a - b
    ensures -(n - 1.0) / 2.0 <= a <= (n - 1.0) / 2.0 && -n / 2.0 <= b <= n / 2.0
  {
    s, spread := (n - 1.0) * a0 - n * a1, n * (n - 1.0) * (u0 - u1);
    a := Half(n - 1.0, e0);
    b := Half(n, e1);
    Distribute(n - 1.0, n * u0, e0, a0);
    Distribute(n, (n - 1.0) * u1, e1, a1);
    Commute(n, u0, u1);
  }

  lemma Half(n: real, e: real) returns (p: real)
    requires n >= 0.0 && -0.5 <= e <= 0.5
    ensures p == n * e && -n / 2.0 <= p <= n / 2.0
  {
    p := n * e;
    HalfProduct(n, e);
  }

  lemma RealQuantaClose(n: real, a0: real, a1: real, u0: real, u1: real, e0: real, e1: real)
    requires n >= 2.0 && -0.5 <= e0 <= 0.5 && -0.5 <= e1 <= 0.5
    requires a0 == CPR_RES * (n * u0) + e0 && a1 == CPR_RES * ((n - 1.0) * u1) + e1
    requires Abs(n * (n - 1.0) * (u0 - u1)) + (2.0 * n - 1.0) / 262144.0 < 0.5
    ensures -CPR_RES < 2.0 * ((n - 1.0) * a0 - n * a1) < CPR_RES
  {
    hide Abs;
    var s, spread, a, b := Products(n, a0, a1, u0, u1, e0, e1);
    SpreadBound(s, spread, n, a, b);
  }

  lemma LonQuantaClose(lon0: real, lon1: real, n: int, span: real)
    requires span > 0.0 && n >= 2 && LonsClose(lon0, lon1, n, span)
    ensures -RES < 2 * ((n - 1) * Quantized(lon0, n, span) - n * Quantized(lon1, n - 1, span)) < RES
  {
    hide Quantized, LonsClose, Abs;
    var p0, p1 := Quantized(lon0, n, span), Quantized(lon1, n - 1, span);
    QuantizedError(lon0, n, span);
    QuantizedError(lon1, n - 1, span);
    SpreadOf(lon0, lon1, n, span);
    var u0, u1, N := lon0 / span, lon1 / span, n as real;
    RealQuantaClose(N, p0 as real, p1 as real, u0, u1,
                    p0 as real - CPR_RES * (N * u0), p1 as real - CPR_RES * ((N - 1.0) * u1));
    SumAsReal(n, p0, p1);
  }

  lemma SumAsReal(n: int, p0: int, p1: int)
    ensures ((n - 1) * p0 - n * p1) as real == (n as real - 1.0) * p0 as real - n as real * p1 as real
  {
    assert ((n - 1) * p0) as real == (n - 1) as real * p0 as real;
    assert (n * p1) as real == n as real * p1 as real;
  }

  // ---- latitude ----

  /** The decoded latitude is the one the encoder quantized, for the even frame. */
  lemma EvenLatRestored(j: int, q: int)
    requires CprModInt(j, 60) == Zone(q) % 60 && -15 * RES <= q <= 15 * RES
    ensures DecodeLat(j, Field(q), 60) == Coordinate(q, 60, 360.0)
  {
    hide CprModInt;
    FieldZone(q);
    assert -15 <= Zone(q) <= 15;
    assert Zone(q) % 60 == if Zone(q) >= 0 then Zone(q) else Zone(q) + 60;
  }

  /** The odd zones are wider: 90 degrees are 14.75 of them. */
  lemma OddLatRestored(j: int, q: int)
    requires CprModInt(j, 59) == Zone(q) % 59 && -59 * RES <= 4 * q <= 59 * RES
    ensures DecodeLat(j, Field(q), 59) == Coordinate(q, 59, 360.0)
  {
    hide CprModInt;
    FieldZone(q);
    assert -1933312 <= q <= 1933312;
    assert -14.75 <= q as real / CPR_RES <= 14.75;
    assert -15 <= Zone(q) <= 14;
    assert Zone(q) % 59 == if Zone(q) >= 0 then Zone(q) else Zone(q) + 59;
  }

  lemma QuantizedLatRange(lat: real)
    requires -90.0 <= lat <= 90.0
    ensures -15 * RES <= Quantized(lat, 60, 360.0) <= 15 * RES
    ensures -59 * RES <= 4 * Quantized(lat, 59, 360.0) <= 59 * RES
  {
    var t := lat / 360.0;
    assert -0.25 <= t <= 0.25;
  }

  lemma HalfStep(d: real, e: real)
    requires d >= 0.0 && -0.5 <= e <= 0.5
    ensures -d / 262144.0 <= d * (e / CPR_RES) <= d / 262144.0
  {
    HalfProduct(d, e);
    assert d * (e / CPR_RES) == (d * e) / CPR_RES;
  }

  /** Quantizing moves a coordinate by at most half a step. */
  lemma CoordinateError(x: real, zones: int, span: real)
    requires span > 0.0 && zones >= 1
    ensures var d := span / zones as real;
            Abs(Coordinate(Quantized(x, zones, span), zones, span) - x) <= d / 262144.0
  {
    hide Quantized;
    var N, q := zones as real, Quantized(x, zones, span);
    var d, t := span / N, x / span;
    QuantizedError(x, zones, span);
    assert d * (N * t) == x by { assert d * N == span; assert span * t == x; }
    var e := q as real - CPR_RES * (N * t);
    HalfStep(d, e);
    assert q as real / CPR_RES == N * t + e / CPR_RES;
    assert d * (q as real / CPR_RES) == d * (N * t) + d * (e / CPR_RES);
    var error := d * (e / CPR_RES);
    assert Coordinate(q, zones, span) - x == error;
    AbsWithin(error, d / 262144.0);
  }

  lemma AbsWithin(x: real, bound: real)
    requires -bound <= x <= bound
    ensures Abs(x) <= bound
  {
  }

  // ---- longitude ----

  /** A zone number modulo the zone count is the zone itself up to whole turns. */
  lemma ZoneLon(q: int, zones: int, span: real) returns (turns: int)
    requires zones >= 1
    ensures span / zones as real * ((Zone(q) % zones) as real + Field(q) as real / CPR_RES)
            == Coordinate(q, zones, span) - span * turns as real
  {
    FieldZone(q);
    turns := Zone(q) / zones;
    var N, f := zones as real, Field(q) as real / CPR_RES;
    var r := Zone(q) % zones;
    assert Zone(q) == zones * turns + r;
    assert Zone(q) as real == N * turns as real + r as real by { assert (zones * turns) as real == N * turns as real; }
    assert q as real / CPR_RES == N * turns as real + (r as real + f);
    var d := span / N;
    assert d * N == span;
    assert d * (N * turns as real + (r as real + f)) == (d * N) * turns as real + d * (r as real + f);
  }

  lemma Renormalized(lon: real) returns (turns: int)
    ensures RenormalizeLon(lon) == lon - 360.0 * turns as real
    ensures -180.0 <= RenormalizeLon(lon) < 180.0
  {
    turns := ((lon + 180.0) / 360.0).Floor;
  }

  /** What the decoder computes from a longitude index, before it renormalizes. */
  ghost function IndexedLon(m: int, field: int, zones: int, span: real): real
    requires zones >= 1
  {
    FrameLon(span / zones as real, m, zones, field)
  }

  lemma IndexedLonIs(m: int, q: int, zones: int, span: real) returns (turns: int)
    requires zones >= 1 && m % zones == Zone(q) % zones
    ensures IndexedLon(m, Field(q), zones, span) == Coordinate(q, zones, span) - span * turns as real
  {
    hide Zone, Field, Coordinate;
    turns := ZoneLon(q, zones, span);
  }

  lemma EvenLonRestored(p0: int, p1: int, n: int, m: int, span: real) returns (turns: int)
    requires n >= 1 && m == n * Zone(p1) - (n - 1) * Zone(p0)
    ensures IndexedLon(m, Field(p0), n, span) == Coordinate(p0, n, span) - span * turns as real
  {
    hide Zone, Field, Coordinate, IndexedLon;
    LonZoneRecovered(p0, p1, n, m);
    turns := IndexedLonIs(m, p0, n, span);
  }

  lemma OddLonRestored(p0: int, p1: int, n: int, m: int, span: real) returns (turns: int)
    requires n >= 2 && m == n * Zone(p1) - (n - 1) * Zone(p0)
    ensures IndexedLon(m, Field(p1), n - 1, span) == Coordinate(p1, n - 1, span) - span * turns as real
  {
    hide Zone, Field, Coordinate, IndexedLon;
    LonZoneRecovered(p0, p1, n, m);
    turns := IndexedLonIs(m, p1, n - 1, span);
  }

  /** Next to a pole there is a single odd zone, and any index will do. */
  lemma PolarLonRestored(p1: int, m: int, span: real) returns (turns: int)
    ensures IndexedLon(m, Field(p1), 1, span) == Coordinate(p1, 1, span) - span * turns as real
  {
    hide Zone, Field, Coordinate, IndexedLon;
    turns := IndexedLonIs(m, p1, 1, span);
  }

  // ---- the theorem ----

  function Turned(lon: real, turns: int): real {
    lon + 360.0 * turns as real
  }

  /** `lon` is within `error` of `x`, up to whole turns. */
  ghost predicate LonNear(lon: real, x: real, error: real) {
    exists turns :: Abs(Turned(lon, turns) - x) <= error
  }

  lemma RenormalizeTurned(lon: real, turns: int)
    ensures RenormalizeLon(Turned(lon, turns)) == RenormalizeLon(lon)
  {
    var x := (lon + 180.0) / 360.0;
    assert (Turned(lon, turns) + 180.0) / 360.0 == x + turns as real;
    FloorShifted(x, turns);
  }

  lemma FloorShifted(x: real, k: int)
    ensures (x + k as real).Floor == x.Floor + k
  {
  }

  /** A longitude as it was quantized is near the true one. */
  lemma RenormalizedNear(x: real, zones: int)
    requires zones >= 1
    ensures var lon := RenormalizeLon(Coordinate(Quantized(x, zones, 360.0), zones, 360.0));
            LonNear(lon, x, 360.0 / zones as real / 262144.0) && -180.0 <= lon < 180.0
  {
    hide Quantized, Coordinate, RenormalizeLon, Abs;
    CoordinateError(x, zones, 360.0);
    var lon := Coordinate(Quantized(x, zones, 360.0), zones, 360.0);
    var turns := Renormalized(lon);
    assert Turned(RenormalizeLon(lon), turns) == lon;
  }

  function Whole(span: real, k: int): real {
    span * k as real
  }

  /** A whole number of spans from the meridian of Greenwich. */
  ghost predicate IsWhole(lon: real, span: real) {
    exists k :: lon == Whole(span, k)
  }

  /** A frame of two zones read as one of a single zone: its longitude doubles, up to whole spans. */
  lemma DoubledLon(p: int, m: int, span: real) returns (turns: int)
    ensures IndexedLon(m, Field(p), 1, span) == 2.0 * Coordinate(p, 2, span) - Whole(span, turns)
  {
    hide Zone, Field, IndexedLon;
    turns := PolarLonRestored(p, m, span);
    var x := p as real / CPR_RES;
    assert span / 2.0 * x == span * x / 2.0;
  }

  lemma DoubledSame(lon: real)
    ensures RenormalizeLon(2.0 * lon) == RenormalizeLon(lon) <==> IsWhole(lon, 360.0)
  {
    hide RenormalizeLon;
    var twice := Renormalized(2.0 * lon);
    var once := Renormalized(lon);
    if RenormalizeLon(2.0 * lon) == RenormalizeLon(lon) {
      assert lon == Whole(360.0, twice - once);
    }
    if IsWhole(lon, 360.0) {
      var k :| lon == Whole(360.0, k);
      RenormalizeTurned(0.0, k);
      RenormalizeTurned(0.0, 2 * k);
      assert lon == Turned(0.0, k) && 2.0 * lon == Turned(0.0, 2 * k);
    }
  }

  lemma RLatInRange(lat: real)
    requires -90.0 <= lat <= 90.0
    ensures InRange(RLat(lat, 0, 360.0)) && InRange(RLat(lat, 1, 360.0))
  {
    hide Quantized;
    QuantizedLatRange(lat);
    var q1 := Quantized(lat, 59, 360.0);
    assert -1933312 <= q1 <= 1933312;
    assert -14.75 <= q1 as real / CPR_RES <= 14.75;
  }

  /** Both latitudes come out as the encoder quantized them. */
  lemma LatsRestored(lat0: real, lat1: real)
    requires -90.0 <= lat0 <= 90.0 && -90.0 <= lat1 <= 90.0 && LatsClose(lat0, lat1, 360.0)
    ensures var y0, y1 := Field(EncodedLat(lat0, 0, 360.0)), Field(EncodedLat(lat1, 1, 360.0));
            && DecodeLat(LatIndex(y0, y1), y0, 60) == RLat(lat0, 0, 360.0)
            && DecodeLat(LatIndex(y0, y1), y1, 59) == RLat(lat1, 1, 360.0)
  {
    hide Quantized, Field, Zone, LatIndex, DecodeLat, Coordinate, CprModInt;
    var q0, q1 := Quantized(lat0, 60, 360.0), Quantized(lat1, 59, 360.0);
    LatQuantaClose(lat0, lat1, 360.0);
    LatIndexRecovered(q0, q1);
    QuantizedLatRange(lat0);
    QuantizedLatRange(lat1);
    EvenLatRestored(LatIndex(Field(q0), Field(q1)), q0);
    OddLatRestored(LatIndex(Field(q0), Field(q1)), q1);
  }

  /** The zone count of the frame chosen by `f`, from the zone count of the even frame. */
  function ZonesOf(n: int, f: int): (zones: int)
    ensures zones >= 1
  {
    if n - f < 1 then 1 else n - f
  }

  /** The longitude before it is brought into range, for the frame chosen by `f`: the one sent, up to whole spans. */
  lemma LonRestored(p0: int, p1: int, n: int, f: int, lon0: real, lon1: real, span: real) returns (turns: int)
    requires span > 0.0 && n >= 1 && (f == 0 || f == 1)
    requires n >= 2 ==> LonsClose(lon0, lon1, n, span)
    requires p0 == Quantized(lon0, n, span) && p1 == Quantized(lon1, ZonesOf(n, 1), span)
    ensures var p := if f == 0 then p0 else p1;
            IndexedLon(Index(Field(p0), Field(p1), n), Field(p), ZonesOf(n, f), span)
            == Coordinate(p, ZonesOf(n, f), span) - span * turns as real
  {
    hide Quantized, Field, Index, IndexedLon, LonsClose, Zone, Coordinate;
    var m := Index(Field(p0), Field(p1), n);
    if n >= 2 {
      LonQuantaClose(lon0, lon1, n, span);
      LonIndexRecovered(p0, p1, n);
    }
    if ZonesOf(n, f) == 1 {
      turns := PolarLonRestored(if f == 0 then p0 else p1, m, span);
    } else if f == 0 {
      turns := EvenLonRestored(p0, p1, n, m, span);
    } else {
      turns := OddLonRestored(p0, p1, n, m, span);
    }
  }

  ghost predicate AllZero(e: Fields, o: Fields) {
    e.lat == 0 && e.lon == 0 && o.lat == 0 && o.lon == 0
  }

  lemma RLatError(lat: real, fflag: int)
    requires fflag == 0 || fflag == 1
    ensures Abs(RLat(lat, fflag, 360.0) - lat) <= 360.0 / LatZones(fflag) as real / 262144.0
  {
    hide Coordinate, Abs;
    CoordinateError(lat, LatZones(fflag), 360.0);
  }

  /** Frames sent from nearby latitudes decode to nearby latitudes. */
  lemma RLatsNear(lat0: real, lat1: real, surface: bool)
    requires LatsClose(lat0, lat1, Span(surface))
    ensures Abs(RLat(lat0, 0, Span(surface)) - RLat(lat1, 1, Span(surface))) < 0.2
  {
    hide Quantized, Coordinate;
    var span := Span(surface);
    CoordinateError(lat0, 60, span);
    CoordinateError(lat1, 59, span);
    assert lat0 / span - lat1 / span == (lat0 - lat1) / span;
  }

  /**
    * Global decoding of two frames sent from nearby latitudes fails in three cases only: the two latitudes fall into
    * different bands of longitude zones, or all four fields are zero, or the even frame lies at 87 degrees. There it is
    * the other way round, and the frames are decoded if they lie in different bands.
    */
  lemma GlobalDecodes(t: Circle, lat0: real, lon0: real, lat1: real, lon1: real, fflag: int)
    requires t.Valid()
    requires -90.0 <= lat0 <= 90.0 && -90.0 <= lat1 <= 90.0 && LatsClose(lat0, lat1, 360.0)
    ensures var e, o := Encode(t, lat0, lon0, 0, false), Encode(t, lat1, lon1, 1, false);
            DecodeCprAirborne(e.lat, e.lon, o.lat, o.lon, fflag).Some?
            <==> SameBand(t, lat0, lat1, false) != At87(lat0, false) && !AllZero(e, o)
  {
    hide Quantized, Field, DecodeLat, LatIndex, Index, RenormalizeLon, CprNl, Coordinate, LatsClose, InRange, FrameLon,
         Circle.Valid, Circle.Nl, SameBand, At87, Abs;
    LatsRestored(lat0, lat1);
    RLatInRange(lat0);
    RLatInRange(lat1);
    RLatsNear(lat0, lat1, false);
    ComparedBands(t, lat0, lat1, false);
  }

  /** The longitudes that the decoder computes for either frame, brought into range. */
  lemma DecodedLons(t: Circle, lat0: real, lon0: real, lat1: real, lon1: real, n: int)
    requires n == if At87(lat0, false) then 1 else LonZones(t, lat0, 0, 360.0)
    requires LonZones(t, lat1, 1, 360.0) == ZonesOf(n, 1) && (At87(lat0, false) ==> LonZones(t, lat0, 0, 360.0) == 2)
    requires n >= 2 ==> LonsClose(lon0, lon1, n, 360.0)
    ensures var p0, p1 := EncodedLon(t, lat0, lon0, 0, 360.0), EncodedLon(t, lat1, lon1, 1, 360.0);
            var sent0, sent1 := Coordinate(p0, LonZones(t, lat0, 0, 360.0), 360.0), Coordinate(p1, ZonesOf(n, 1),
              360.0);
            var m := Index(Field(p0), Field(p1), n);
            && RenormalizeLon(IndexedLon(m, Field(p0), n, 360.0))
               == RenormalizeLon(if At87(lat0, false) then 2.0 * sent0 else sent0)
            && RenormalizeLon(IndexedLon(m, Field(p1), ZonesOf(n, 1), 360.0)) == RenormalizeLon(sent1)
  {
    hide Quantized, Field, Index, IndexedLon, RenormalizeLon, Zone, Coordinate, LonsClose, At87, RLat, LonZones;
    var p0, p1 := EncodedLon(t, lat0, lon0, 0, 360.0), EncodedLon(t, lat1, lon1, 1, 360.0);
    var m := Index(Field(p0), Field(p1), n);
    if At87(lat0, false) {
      var turns := DoubledLon(p0, m, 360.0);
      var twice := 2.0 * Coordinate(p0, 2, 360.0);
      assert IndexedLon(m, Field(p0), n, 360.0) == Turned(twice, -turns);
      RenormalizeTurned(twice, -turns);
      var back := PolarLonRestored(p1, m, 360.0);
      var sent1 := Coordinate(p1, ZonesOf(n, 1), 360.0);
      assert IndexedLon(m, Field(p1), ZonesOf(n, 1), 360.0) == Turned(sent1, -back);
      RenormalizeTurned(sent1, -back);
    } else {
      var back0 := LonRestored(p0, p1, n, 0, lon0, lon1, 360.0);
      assert IndexedLon(m, Field(p0), n, 360.0) == Turned(Coordinate(p0, n, 360.0), -back0);
      RenormalizeTurned(Coordinate(p0, n, 360.0), -back0);
      var back1 := LonRestored(p0, p1, n, 1, lon0, lon1, 360.0);
      var sent1 := Coordinate(p1, ZonesOf(n, 1), 360.0);
      assert IndexedLon(m, Field(p1), ZonesOf(n, 1), 360.0) == Turned(sent1, -back1);
      RenormalizeTurned(sent1, -back1);
    }
  }

  /**
    * When it succeeds, it gives back the position of the frame it is asked for, exactly as it was quantized, if the
    * longitudes are as close as the band of zones demands. Only the longitude of an even frame at 87 degrees is lost,
    * unless it is a whole number of turns: it comes back doubled.
    */
  lemma GlobalDecodeInverts(t: Circle, lat0: real, lon0: real, lat1: real, lon1: real, fflag: int)
    requires t.Valid()
    requires -90.0 <= lat0 <= 90.0 && -90.0 <= lat1 <= 90.0 && LatsClose(lat0, lat1, 360.0)
    requires SameBand(t, lat0, lat1, false) != At87(lat0, false)
    requires var n := t.Nl(RLat(lat1, 1, 360.0)); n >= 2 ==> LonsClose(lon0, lon1, n, 360.0)
    requires !AllZero(Encode(t, lat0, lon0, 0, false), Encode(t, lat1, lon1, 1, false))
    ensures var e, o := Encode(t, lat0, lon0, 0, false), Encode(t, lat1, lon1, 1, false);
            var f := if fflag != 0 then 1 else 0;
            var lat, lon := if fflag != 0 then lat1 else lat0, if fflag != 0 then lon1 else lon0;
            var s := if fflag != 0 then Seen(t, lat1, lon1, 1, false) else Seen(t, lat0, lon0, 0, false);
            var r := DecodeCprAirborne(e.lat, e.lon, o.lat, o.lon, fflag);
            && r.Some?
            && r.value.lat == s.lat && Abs(s.lat - lat) <= 360.0 / LatZones(f) as real / 262144.0
            && r.value.lon == RenormalizeLon(if f == 0 && At87(lat0, false) then 2.0 * s.lon else s.lon)
            && (r.value.lon == RenormalizeLon(s.lon) <==> !(f == 0 && At87(lat0, false)) || IsWhole(s.lon, 360.0))
            && LonNear(RenormalizeLon(s.lon), lon, 360.0 / LonZones(t, lat, f, 360.0) as real / 262144.0)
            && -180.0 <= r.value.lon < 180.0
  {
    hide Quantized, Field, DecodeLat, LatIndex, Index, IndexedLon, RenormalizeLon, Zone, CprNl, Coordinate,
         LatsClose, LonsClose, Abs, InRange, Circle.Valid, Circle.Nl, SameBand, At87, RLat, LonZones, IsWhole;
    var f := if fflag != 0 then 1 else 0;
    LatsRestored(lat0, lat1);
    RLatInRange(lat0);
    RLatInRange(lat1);
    RLatsNear(lat0, lat1, false);
    ComparedBands(t, lat0, lat1, false);
    SentZones(t, lat0, 0, false);
    SentZones(t, lat1, 1, false);
    var r0, r1 := RLat(lat0, 0, 360.0), RLat(lat1, 1, 360.0);
    var n := CprNl(r0);
    var p0, p1 := EncodedLon(t, lat0, lon0, 0, 360.0), EncodedLon(t, lat1, lon1, 1, 360.0);
    var e, o := Encode(t, lat0, lon0, 0, false), Encode(t, lat1, lon1, 1, false);
    DecodeUnfolded(e, o, fflag, f, r0, r1, n);
    var s := if fflag != 0 then Seen(t, lat1, lon1, 1, false) else Seen(t, lat0, lon0, 0, false);
    var lat, lon := if fflag != 0 then lat1 else lat0, if fflag != 0 then lon1 else lon0;
    RLatError(lat, f);
    RenormalizedNear(lon, LonZones(t, lat, f, 360.0));
    SentNl(t, lat1, 1, false);
    assert At87(lat0, false) ==> n == 1;
    assert CprN(r0, 0) == n && CprN(r1, 1) == ZonesOf(n, 1);
    DecodedLons(t, lat0, lon0, lat1, lon1, n);
    DoubledSame(s.lon);
    assert ZonesOf(n, 0) == n;
    assert s.lat == if f == 0 then r0 else r1;
    assert f == 0 ==> s.lon == Coordinate(p0, LonZones(t, lat0, 0, 360.0), 360.0);
    assert f == 1 ==> s.lon == Coordinate(p1, ZonesOf(n, 1), 360.0);
    var r := DecodeCprAirborne(e.lat, e.lon, o.lat, o.lon, fflag).value;
    assert r.lat == s.lat;
    assert r.lon == RenormalizeLon(if f == 0 && At87(lat0, false) then 2.0 * s.lon else s.lon);
    var turns := Renormalized(if f == 0 && At87(lat0, false) then 2.0 * s.lon else s.lon);
  }

  /** The decoder past its checks. */
  lemma DecodeUnfolded(e: Fields, o: Fields, fflag: int, f: int, r0: real, r1: real, n: int)
    requires f == (if fflag != 0 then 1 else 0)
    requires !AllZero(e, o)
    requires DecodeLat(LatIndex(e.lat, o.lat), e.lat, 60) == r0 && DecodeLat(LatIndex(e.lat, o.lat), o.lat, 59) == r1
    requires InRange(r0) && InRange(r1) && CprNl(r0) == CprNl(r1) == n
    ensures var m, lon := Index(e.lon, o.lon, n), if f == 0 then e.lon else o.lon;
            DecodeCprAirborne(e.lat, e.lon, o.lat, o.lon, fflag) ==
            Some(Position(if f == 0 then r0 else r1, RenormalizeLon(IndexedLon(m, lon, ZonesOf(n, f), 360.0))))
  {
    hide DecodeLat, LatIndex, Index, RenormalizeLon, CprNl, InRange, FrameLon;
    var rlat, zones := if f == 0 then r0 else r1, ZonesOf(n, f);
    assert CprN(rlat, f) == zones;
    assert CprDlon(rlat, f, false) == 360.0 / zones as real;
  }
}
