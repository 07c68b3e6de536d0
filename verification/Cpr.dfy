/** Compact position reporting: the decoder of even and odd frames, over the reals. */
module Cpr {
  import opened Common

  datatype Position = Position(lat: real, lon: real)

  const CPR_RES: real := 131072.0

  // ---- the decoder's helpers ----

  /** The remainder of a division that truncates toward zero. */
  function TruncRem(a: int, b: int): int
    requires b > 0
  {
    if a >= 0 then a % b else -((-a) % b)
  }

  /** Always-positive modulo. */
  function CprModInt(a: int, b: int): (r: int)
    requires b > 0
    ensures r == a % b
  {
    var r := TruncRem(a, b);
    NegativeMod(a, b);
    if r < 0 then r + b else r
  }

  lemma NegativeMod(a: int, b: int)
    requires b > 0
    ensures a < 0 ==> a % b == if (-a) % b == 0 then 0 else b - (-a) % b
  {
    if a < 0 {
      var q, r := (-a) / b, (-a) % b;
      assert -a == b * q + r;
      if r == 0 {
        DivModUnique(a, b, -q, 0);
      } else {
        assert a == b * (-q - 1) + (b - r);
        DivModUnique(a, b, -q - 1, b - r);
      }
    }
  }

  function Trunc(x: real): int {
    if x >= 0.0 then x.Floor else -((-x).Floor)
  }

  function CprModDouble(a: real, b: real): real
    requires b > 0.0
  {
    var r := a - b * Trunc(a / b) as real;
    if r < 0.0 then r + b else r
  }

  function Abs(x: real): (a: real)
    ensures a >= 0.0 && (a == x || a == -x)
  {
    if x < 0.0 then -x else x
  }

  /** The number of longitude zones at a latitude. */
  function CprNl(lat: real): (n: int)
    ensures 1 <= n <= 59
  {
    var a := Abs(lat);
    if a < 10.47047130 then 59
    else if a < 14.82817437 then 58
    else if a < 18.18626357 then 57
    else if a < 21.02939493 then 56
    else if a < 23.54504487 then 55
    else if a < 25.82924707 then 54
    else if a < 27.93898710 then 53
    else if a < 29.91135686 then 52
    else if a < 31.77209708 then 51
    else if a < 33.53993436 then 50
    else if a < 35.22899598 then 49
    else if a < 36.85025108 then 48
    else if a < 38.41241892 then 47
    else if a < 39.92256684 then 46
    else if a < 41.38651832 then 45
    else if a < 42.80914012 then 44
    else if a < 44.19454951 then 43
    else if a < 45.54626723 then 42
    else if a < 46.86733252 then 41
    else if a < 48.16039128 then 40
    else if a < 49.42776439 then 39
    else if a < 50.67150166 then 38
    else if a < 51.89342469 then 37
    else if a < 53.09516153 then 36
    else if a < 54.27817472 then 35
    else if a < 55.44378444 then 34
    else if a < 56.59318756 then 33
    else if a < 57.72747354 then 32
    else if a < 58.84763776 then 31
    else if a < 59.95459277 then 30
    else if a < 61.04917774 then 29
    else if a < 62.13216659 then 28
    else if a < 63.20427479 then 27
    else if a < 64.26616523 then 26
    else if a < 65.31845310 then 25
    else if a < 66.36171008 then 24
    else if a < 67.39646774 then 23
    else if a < 68.42322022 then 22
    else if a < 69.44242631 then 21
    else if a < 70.45451075 then 20
    else if a < 71.45986473 then 19
    else if a < 72.45884545 then 18
    else if a < 73.45177442 then 17
    else if a < 74.43893416 then 16
    else if a < 75.42056257 then 15
    else if a < 76.39684391 then 14
    else if a < 77.36789461 then 13
    else if a < 78.33374083 then 12
    else if a < 79.29428225 then 11
    else if a < 80.24923213 then 10
    else if a < 81.19801349 then 9
    else if a < 82.13956981 then 8
    else if a < 83.07199445 then 7
    else if a < 83.99173563 then 6
    else if a < 84.89166191 then 5
    else if a < 85.75541621 then 4
    else if a < 86.53536998 then 3
    else if a < 87.0 then 2
    else 1
  }

  function CprN(lat: real, fflag: int): (n: int)
    requires fflag == 0 || fflag == 1
    ensures 1 <= n <= 59
  {
    var n := CprNl(lat) - fflag;
    if n < 1 then 1 else n
  }

  function CprDlon(lat: real, fflag: int, surface: bool): (d: real)
    requires fflag == 0 || fflag == 1
    ensures 0.0 < d <= 360.0
  {
    (if surface then 90.0 else 360.0) / CprN(lat, fflag) as real
  }

  /** The index both frames agree on: a rounded difference of the two fields. */
  function Index(x0: int, x1: int, n: int): int {
    ((x0 as real * (n - 1) as real - x1 as real * n as real) / CPR_RES + 0.5).Floor
  }

  function LatIndex(even: int, odd: int): int {
    ((59.0 * even as real - 60.0 * odd as real) / CPR_RES + 0.5).Floor
  }

  predicate InRange(lat: real) {
    -90.0 <= lat <= 90.0
  }

  function RenormalizeLon(lon: real): real {
    lon - ((lon + 180.0) / 360.0).Floor as real * 360.0
  }

  /** The longitude of a frame in zones of `dlon` degrees. */
  function FrameLon(dlon: real, m: int, ni: int, field: int): real
    requires ni > 0
  {
    dlon * (CprModInt(m, ni) as real + field as real / CPR_RES)
  }

  // ---- global decoding, airborne ----

  function DecodeLat(j: int, field: int, zones: int): real
    requires zones > 0
  {
    var rlat := 360.0 / zones as real * (CprModInt(j, zones) as real + field as real / CPR_RES);
    if rlat >= 270.0 then rlat - 360.0 else rlat
  }

  function DecodeCprAirborne(evenLat: int, evenLon: int, oddLat: int, oddLon: int, fflag: int): Option<Position> {
    if evenLat == 0 && evenLon == 0 && oddLat == 0 && oddLon == 0 then None
    else
      var j := LatIndex(evenLat, oddLat);
      var rlat0, rlat1 := DecodeLat(j, evenLat, 60), DecodeLat(j, oddLat, 59);
      if !InRange(rlat0) || !InRange(rlat1) then None
      else if CprNl(rlat0) != CprNl(rlat1) then None
      else
        var f := if fflag != 0 then 1 else 0;
        var rlat := if fflag != 0 then rlat1 else rlat0;
        var lon := if fflag != 0 then oddLon else evenLon;
        var m := Index(evenLon, oddLon, CprNl(rlat));
        var rlon := FrameLon(CprDlon(rlat, f, false), m, CprN(rlat, f), lon);
        Some(Position(rlat, RenormalizeLon(rlon)))
  }

  // ---- global decoding, on the surface: the reference picks one of several quadrants ----

  function SurfaceLat(j: int, field: int, zones: int): real
    requires zones > 0
  {
    90.0 / zones as real * (CprModInt(j, zones) as real + field as real / CPR_RES)
  }

  function PickLatQuadrant(rlat: real, refLat: real): real {
    if rlat == 0.0 then
      if refLat < -45.0 then -90.0 else if refLat > 45.0 then 90.0 else rlat
    else if rlat - refLat > 45.0 then rlat - 90.0
    else rlat
  }

  function PickLonQuadrant(rlon: real, refLon: real): real {
    rlon + ((refLon - rlon + 45.0) / 90.0).Floor as real * 90.0
  }

  function DecodeCprSurface(refLat: real, refLon: real, evenLat: int, evenLon: int, oddLat: int, oddLon: int,
                            fflag: int)
    : Option<Position>
  {
    var j := LatIndex(evenLat, oddLat);
    var rlat0 := PickLatQuadrant(SurfaceLat(j, evenLat, 60), refLat);
    var rlat1 := PickLatQuadrant(SurfaceLat(j, oddLat, 59), refLat);
    if !InRange(rlat0) || !InRange(rlat1) then None
    else if CprNl(rlat0) != CprNl(rlat1) then None
    else
      var f := if fflag != 0 then 1 else 0;
      var rlat := if fflag != 0 then rlat1 else rlat0;
      var lon := if fflag != 0 then oddLon else evenLon;
      var m := Index(evenLon, oddLon, CprNl(rlat));
      var rlon := FrameLon(CprDlon(rlat, f, true), m, CprN(rlat, f), lon);
      Some(Position(rlat, RenormalizeLon(PickLonQuadrant(rlon, refLon))))
  }

  // ---- relative decoding: one frame and a reference position ----

  /** The index of the cell, from the reference coordinate. */
  function CellIndex(ref: real, d: real, fraction: real): int
    requires d > 0.0
  {
    (ref / d).Floor + (0.5 + CprModDouble(ref, d) / d - fraction).Floor
  }

  function RelativeDlat(fflag: int, surface: bool): (d: real)
    ensures d > 0.0
  {
    (if surface then 90.0 else 360.0) / if fflag != 0 then 59.0 else 60.0
  }

  /** A point of the lattice of all positions with this field. */
  function LatticePoint(d: real, j: int, field: int): real {
    d * (j as real + field as real / CPR_RES)
  }

  function DecodeCprRelative(refLat: real, refLon: real, cprLat: int, cprLon: int, fflag: int, surface: bool)
    : Option<Position>
    requires fflag == 0 || fflag == 1
  {
    var dlat := RelativeDlat(fflag, surface);
    var j := CellIndex(refLat, dlat, cprLat as real / CPR_RES);
    var unwrapped := LatticePoint(dlat, j, cprLat);
    var rlat := if unwrapped >= 270.0 then unwrapped - 360.0 else unwrapped;
    if !InRange(rlat) then None
    else if Abs(rlat - refLat) > dlat / 2.0 then None
    else
      var dlon := CprDlon(rlat, fflag, surface);
      var m := CellIndex(refLon, dlon, cprLon as real / CPR_RES);
      var east := LatticePoint(dlon, m, cprLon);
      var rlon := if east > 180.0 then east - 360.0 else east;
      if Abs(rlon - refLon) > dlon / 2.0 then None
      else Some(Position(rlat, rlon))
  }
}
