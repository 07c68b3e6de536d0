/** The latitudes that frames carry keep clear of the edges of the bands, so the table counts the standard's zones. */
module CprBands {
  import opened Cpr
  import opened CprTable
  import opened CprZones
  import opened CprEncoder

  // ---- in whole numbers: no latitude of a frame comes within half a unit of the eighth decimal of an edge ----

  lemma EvenClearBelow(q: int, n: int)
    requires 3 <= n <= 59 && 1171875 * q < 1024 * Edge(n)
    ensures 1171875 * q + 512 <= 1024 * Edge(n)
  {
  }

  lemma EvenClearAbove(q: int, n: int)
    requires 3 <= n <= 59 && 1024 * Edge(n) <= 1171875 * q
    ensures 1024 * Edge(n) + 512 <= 1171875 * q
  {
  }

  lemma OddClearBelow(q: int, n: int)
    requires 3 <= n <= 59 && 17578125 * q < 15104 * Edge(n)
    ensures 17578125 * q + 7552 <= 15104 * Edge(n)
  {
  }

  lemma OddClearAbove(q: int, n: int)
    requires 3 <= n <= 59 && 15104 * Edge(n) <= 17578125 * q && n != 42
    ensures 15104 * Edge(n) + 7552 <= 17578125 * q
  {
  }

  /** An odd frame from a latitude 4.7e-9 degrees above the edge of 42 zones is the one that comes that close. */
  lemma OddClearAt42(q: int)
    requires 15104 * Edge(42) <= 17578125 * q
    ensures 15104 * Edge(42) + 6948 <= 17578125 * q
  {
  }

  lemma OddPole(q: int)
    ensures 17578125 * q != 15104 * 8700000000
  {
  }

  // ---- in degrees ----

  lemma EvenUnits(q: int)
    ensures Coordinate(q, 60, 90.0) == (1171875 * q) as real / 1024.0 / 100000000.0
  {
  }

  lemma OddUnits(q: int)
    ensures Coordinate(q, 59, 90.0) == (17578125 * q) as real / 15104.0 / 100000000.0
  {
  }

  lemma Clear(q: int, zones: int, n: int)
    requires (zones == 60 || zones == 59) && 3 <= n <= 59
    ensures ClearOf(Coordinate(q, zones, 90.0), n)
  {
    hide Edge, Coordinate;
    if zones == 60 {
      EvenUnits(q);
      if 1171875 * q < 1024 * Edge(n) {
        EvenClearBelow(q, n);
      } else {
        EvenClearAbove(q, n);
      }
    } else {
      OddUnits(q);
      if 17578125 * q < 15104 * Edge(n) {
        OddClearBelow(q, n);
      } else if n == 42 {
        OddClearAt42(q);
      } else {
        OddClearAbove(q, n);
      }
    }
  }

  lemma OddNotAtPole(q: int)
    ensures Coordinate(q, 59, 90.0) != 87.0
  {
    hide Coordinate;
    OddUnits(q);
    OddPole(q);
  }

  lemma Mirrored(q: int, zones: int)
    requires zones > 0
    ensures Coordinate(-q, zones, 90.0) == -Coordinate(q, zones, 90.0)
  {
    var d, x := 90.0 / zones as real, q as real / CPR_RES;
    assert (-q) as real / CPR_RES == -x;
    assert d * -x == -(d * x);
  }

  lemma NlOfCoordinate(t: Circle, q: int, zones: int)
    requires t.Valid() && (zones == 60 || zones == 59) && InRange(Coordinate(q, zones, 90.0))
    ensures var lat := Coordinate(q, zones, 90.0);
            if Abs(lat) == 87.0 then t.Nl(lat) == 2 && CprNl(lat) == 1 && zones == 60 else t.Nl(lat) == CprNl(lat)
  {
    hide Circle.Nl, Circle.Valid, CprNl, ClearOf, Coordinate;
    var lat := Coordinate(q, zones, 90.0);
    Mirrored(q, zones);
    forall n | 3 <= n <= 59
      ensures ClearOf(Abs(lat), n)
    {
      Clear(q, zones, n);
      Clear(-q, zones, n);
    }
    NlOffEdges(t, lat);
    if zones == 59 {
      OddNotAtPole(q);
      OddNotAtPole(-q);
    }
  }

  lemma AirborneOnLattice(q: int, zones: int)
    requires zones > 0
    ensures Coordinate(q, zones, 360.0) == Coordinate(4 * q, zones, 90.0)
  {
    var d, x := 90.0 / zones as real, q as real / CPR_RES;
    assert 360.0 / zones as real == 4.0 * d;
    assert (4 * q) as real / CPR_RES == 4.0 * x;
    assert (4.0 * d) * x == d * (4.0 * x);
  }

  /**
    * At every latitude that a frame can carry, even or odd, airborne or on the surface, the table has the standard's
    * number of zones, with one exception: an even frame at 87 degrees, where it has one zone and the standard two.
    */
  lemma SentNl(t: Circle, lat: real, fflag: int, surface: bool)
    requires t.Valid() && (fflag == 0 || fflag == 1) && InRange(RLat(lat, fflag, Span(surface)))
    ensures var rlat := RLat(lat, fflag, Span(surface));
            if Abs(rlat) == 87.0 then t.Nl(rlat) == 2 && CprNl(rlat) == 1 && fflag == 0 else t.Nl(rlat) == CprNl(rlat)
  {
    hide Circle.Nl, Circle.Valid, CprNl, Coordinate, Quantized;
    var q := EncodedLat(lat, fflag, Span(surface));
    AirborneOnLattice(q, LatZones(fflag));
    NlOfCoordinate(t, if surface then q else 4 * q, LatZones(fflag));
  }

  /** The even frame is one of those at 87 degrees. */
  ghost predicate At87(lat0: real, surface: bool) {
    Abs(RLat(lat0, 0, Span(surface))) == 87.0
  }

  /** The decoder divides a parallel as the sender did, except in an even frame at 87 degrees. */
  lemma SentZones(t: Circle, lat: real, fflag: int, surface: bool)
    requires t.Valid() && (fflag == 0 || fflag == 1) && InRange(RLat(lat, fflag, Span(surface)))
    ensures var zones, decoded := LonZones(t, lat, fflag, Span(surface)), CprN(RLat(lat, fflag, Span(surface)), fflag);
            if fflag == 0 && At87(lat, surface) then zones == 2 && decoded == 1 else decoded == zones
  {
    hide Circle.Nl, Circle.Valid, CprNl, RLat;
    SentNl(t, lat, fflag, surface);
  }

  /** In the standard's terms the two frames lie in the same band of longitude zones. */
  ghost predicate SameBand(t: Circle, lat0: real, lat1: real, surface: bool) {
    t.Nl(RLat(lat0, 0, Span(surface))) == t.Nl(RLat(lat1, 1, Span(surface)))
  }

  /** What the decoder compares, for an odd frame that is not far away. */
  lemma ComparedBands(t: Circle, lat0: real, lat1: real, surface: bool)
    requires t.Valid()
    requires InRange(RLat(lat0, 0, Span(surface))) && InRange(RLat(lat1, 1, Span(surface)))
    requires Abs(RLat(lat0, 0, Span(surface)) - RLat(lat1, 1, Span(surface))) < 0.2
    ensures var r0, r1 := RLat(lat0, 0, Span(surface)), RLat(lat1, 1, Span(surface));
            CprNl(r0) == CprNl(r1) <==> SameBand(t, lat0, lat1, surface) != At87(lat0, surface)
  {
    hide Circle.Nl, Circle.Valid, CprNl, RLat;
    var r0, r1 := RLat(lat0, 0, Span(surface)), RLat(lat1, 1, Span(surface));
    SentNl(t, lat0, 0, surface);
    SentNl(t, lat1, 1, surface);
    ThirdThreshold();
    EdgeBelow(r1, 3);
  }

  lemma ThirdThreshold()
    ensures Threshold(3) < 86.6
  {
  }
}
