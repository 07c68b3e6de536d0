/** The position encoder of RTCA DO-260B, Appendix A, section A.1.7, and the arithmetic that undoes it. */
module CprEncoder {
  import opened Common
  import opened Cpr
  import opened CprZones

  const RES: int := 131072

  /** A coordinate as a whole number of 2^-17 parts of a zone; `zones` zones make up `span` degrees. */
  ghost function Quantized(x: real, zones: int, span: real): int
    requires span > 0.0
  {
    (CPR_RES * (zones as real * (x / span)) + 0.5).Floor
  }

  /** The 17 bits that are sent, and the zone that is not. */
  ghost function Field(q: int): (f: int)
    ensures 0 <= f < RES
  {
    q % RES
  }

  ghost function Zone(q: int): int {
    q / RES
  }

  /** The coordinate a quantized number stands for. */
  ghost function Coordinate(q: int, zones: int, span: real): real
    requires zones > 0
  {
    span / zones as real * (q as real / CPR_RES)
  }

  ghost function LatZones(fflag: int): int {
    60 - fflag
  }

  ghost function EncodedLat(lat: real, fflag: int, span: real): int
    requires span > 0.0
  {
    Quantized(lat, LatZones(fflag), span)
  }

  /** The latitude as the receiver will see it. */
  ghost function RLat(lat: real, fflag: int, span: real): real
    requires span > 0.0 && (fflag == 0 || fflag == 1)
  {
    Coordinate(EncodedLat(lat, fflag, span), LatZones(fflag), span)
  }

  /**
    * The number of longitude zones of a frame: the standard's at the latitude the receiver will see, one less if odd.
    */
  ghost function LonZones(t: Circle, lat: real, fflag: int, span: real): (zones: int)
    requires span > 0.0 && (fflag == 0 || fflag == 1)
    ensures zones >= 1
  {
    var n := t.Nl(RLat(lat, fflag, span));
    if n <= fflag then 1 else n - fflag
  }

  ghost function EncodedLon(t: Circle, lat: real, lon: real, fflag: int, span: real): int
    requires span > 0.0 && (fflag == 0 || fflag == 1)
  {
    Quantized(lon, LonZones(t, lat, fflag, span), span)
  }

  ghost function Span(surface: bool): real {
    if surface then 90.0 else 360.0
  }

  /** The position the receiver will see, in the form it has in the encoder. */
  ghost function Seen(t: Circle, lat: real, lon: real, fflag: int, surface: bool): Position
    requires fflag == 0 || fflag == 1
  {
    var span := Span(surface);
    var zones := LonZones(t, lat, fflag, span);
    Position(RLat(lat, fflag, span), Coordinate(EncodedLon(t, lat, lon, fflag, span), zones, span))
  }

  /** One frame as the standard has it sent. */
  datatype Fields = Fields(lat: int, lon: int)

  ghost function Encode(t: Circle, lat: real, lon: real, fflag: int, surface: bool): Fields
    requires fflag == 0 || fflag == 1
  {
    var span := Span(surface);
    Fields(Field(EncodedLat(lat, fflag, span)), Field(EncodedLon(t, lat, lon, fflag, span)))
  }

  // ---- quantization ----

  lemma QuantizedError(x: real, zones: int, span: real)
    requires span > 0.0
    ensures var q, v := Quantized(x, zones, span), CPR_RES * (zones as real * (x / span));
            v - 0.5 < q as real <= v + 0.5
  {
  }

  lemma FieldZone(q: int)
    ensures q == RES * Zone(q) + Field(q)
    ensures q as real / CPR_RES == Zone(q) as real + Field(q) as real / CPR_RES
  {
  }

  lemma RoundedIndex(s: int, k: int)
    requires -RES < 2 * s < RES
    ensures (((s + RES * k) as real) / CPR_RES + 0.5).Floor == k
  {
  }

  lemma ModOfShifted(a: int, k: int, n: int)
    requires n > 0
    ensures (a + n * k) % n == a % n
  {
    var q, r := a / n, a % n;
    assert a == n * q + r;
    assert a + n * k == n * (q + k) + r;
    DivModUnique(a + n * k, n, q + k, r);
  }

  /** The latitude index, when the quantized latitudes of the two frames are close. */
  lemma LatIndexValue(q0: int, q1: int)
    requires -RES < 2 * (59 * q0 - 60 * q1) < RES
    ensures LatIndex(Field(q0), Field(q1)) == 60 * Zone(q1) - 59 * Zone(q0)
  {
    hide Field, Zone;
    FieldZone(q0);
    FieldZone(q1);
    var s, k := 59 * q0 - 60 * q1, 60 * Zone(q1) - 59 * Zone(q0);
    assert 59 * Field(q0) - 60 * Field(q1) == s + RES * k;
    assert 59.0 * Field(q0) as real - 60.0 * Field(q1) as real == (s + RES * k) as real;
    RoundedIndex(s, k);
  }

  /** The index names the zone of the even frame modulo 60 and that of the odd frame modulo 59. */
  lemma LatIndexRecovered(q0: int, q1: int)
    requires -RES < 2 * (59 * q0 - 60 * q1) < RES
    ensures CprModInt(LatIndex(Field(q0), Field(q1)), 60) == Zone(q0) % 60
    ensures CprModInt(LatIndex(Field(q0), Field(q1)), 59) == Zone(q1) % 59
  {
    hide LatIndex, Field, Zone, CprModInt;
    LatIndexValue(q0, q1);
    ModOfShifted(Zone(q0), Zone(q1) - Zone(q0), 60);
    ModOfShifted(Zone(q1), Zone(q1) - Zone(q0), 59);
  }

  lemma DistributeLon(x0: int, x1: int, z0: int, z1: int, n: int)
    ensures (n - 1) * (RES * z0 + x0) - n * (RES * z1 + x1) == (n - 1) * x0 - n * x1 - RES * (n * z1 - (n - 1) * z0)
  {
    assert (n - 1) * (RES * z0 + x0) == RES * ((n - 1) * z0) + (n - 1) * x0;
    assert n * (RES * z1 + x1) == RES * (n * z1) + n * x1;
  }

  lemma IndexIsFloor(x0: int, x1: int, n: int)
    ensures Index(x0, x1, n) == (((n - 1) * x0 - n * x1) as real / CPR_RES + 0.5).Floor
  {
    assert x0 as real * (n - 1) as real == ((n - 1) * x0) as real;
    assert x1 as real * n as real == (n * x1) as real;
  }

  /** The longitude index, when the quantized longitudes of the two frames are close. */
  lemma LonIndexRecovered(p0: int, p1: int, n: int)
    requires n >= 1
    requires -RES < 2 * ((n - 1) * p0 - n * p1) < RES
    ensures Index(Field(p0), Field(p1), n) == n * Zone(p1) - (n - 1) * Zone(p0)
  {
    FieldZone(p0);
    FieldZone(p1);
    var s, k := (n - 1) * p0 - n * p1, n * Zone(p1) - (n - 1) * Zone(p0);
    DistributeLon(Field(p0), Field(p1), Zone(p0), Zone(p1), n);
    assert (n - 1) * Field(p0) - n * Field(p1) == s + RES * k;
    IndexIsFloor(Field(p0), Field(p1), n);
    RoundedIndex(s, k);
  }

  /** The index modulo the zone count is the zone of the frame, for the even and for the odd frame. */
  lemma LonZoneRecovered(p0: int, p1: int, n: int, m: int)
    requires n >= 1 && m == n * Zone(p1) - (n - 1) * Zone(p0)
    ensures m % n == Zone(p0) % n
    ensures n >= 2 ==> m % (n - 1) == Zone(p1) % (n - 1)
  {
    hide Zone;
    var z0, z1 := Zone(p0), Zone(p1);
    Blend(z0, z1, n);
    ModOfSum(m, z0, z1 - z0, n);
    if n >= 2 {
      ModOfSum(m, z1, z1 - z0, n - 1);
    }
  }

  lemma ModOfSum(m: int, a: int, k: int, n: int)
    requires n > 0 && m == a + n * k
    ensures m % n == a % n
  {
    ModOfShifted(a, k, n);
  }

  lemma Blend(z0: int, z1: int, n: int)
    ensures n * z1 - (n - 1) * z0 == z0 + n * (z1 - z0)
    ensures n * z1 - (n - 1) * z0 == z1 + (n - 1) * (z1 - z0)
  {
  }
}
