/**
  * The cosine by its series, and the latitudes at which the number of longitude zones changes, against the equation for
  * them. All of it is arithmetic on numerals.
  */
module CprTable {

  /** The series of the cosine up to the power 18, by Horner's rule, where `y` is the squared argument. */
  function CosBelow(y: real): real {
    1.0 - y / 2.0 * (1.0 - y / 12.0 * (1.0 - y / 30.0 * (1.0 - y / 56.0 * (1.0 - y / 90.0 * (1.0 - y / 132.0 * (1.0 -
    y / 182.0 * (1.0 - y / 240.0 * (1.0 - y / 306.0))))))))
  }

  /** The same up to the power 20. */
  function CosAbove(y: real): real {
    1.0 - y / 2.0 * (1.0 - y / 12.0 * (1.0 - y / 30.0 * (1.0 - y / 56.0 * (1.0 - y / 90.0 * (1.0 - y / 132.0 * (1.0 -
    y / 182.0 * (1.0 - y / 240.0 * (1.0 - y / 306.0 * (1.0 - y / 380.0)))))))))
  }

  function Square(x: real): real {
    x * x
  }

  /** Degrees in radians. */
  function Radians(degrees: real, pi: real): real {
    degrees * pi / 180.0
  }

  /** One of `n` equal parts of the circle. */
  function Part(n: real, pi: real): real
    requires n > 0.0
  {
    2.0 * pi / n
  }

  /** The latitude from which on there are fewer than `n` zones, in units of the eighth decimal. */
  function Edge(n: int): int {
    if n >= 59 then 1047047130 else if n == 58 then 1482817437 else if n == 57 then 1818626357
    else if n == 56 then 2102939493 else if n == 55 then 2354504487 else if n == 54 then 2582924707
    else if n == 53 then 2793898710 else if n == 52 then 2991135686 else if n == 51 then 3177209708
    else if n == 50 then 3353993436 else if n == 49 then 3522899598 else if n == 48 then 3685025108
    else if n == 47 then 3841241892 else if n == 46 then 3992256684 else if n == 45 then 4138651832
    else if n == 44 then 4280914012 else if n == 43 then 4419454951 else if n == 42 then 4554626723
    else if n == 41 then 4686733252 else if n == 40 then 4816039128 else if n == 39 then 4942776439
    else if n == 38 then 5067150166 else if n == 37 then 5189342469 else if n == 36 then 5309516153
    else if n == 35 then 5427817472 else if n == 34 then 5544378444 else if n == 33 then 5659318756
    else if n == 32 then 5772747354 else if n == 31 then 5884763776 else if n == 30 then 5995459277
    else if n == 29 then 6104917774 else if n == 28 then 6213216659 else if n == 27 then 6320427479
    else if n == 26 then 6426616523 else if n == 25 then 6531845310 else if n == 24 then 6636171008
    else if n == 23 then 6739646774 else if n == 22 then 6842322022 else if n == 21 then 6944242631
    else if n == 20 then 7045451075 else if n == 19 then 7145986473 else if n == 18 then 7245884545
    else if n == 17 then 7345177442 else if n == 16 then 7443893416 else if n == 15 then 7542056257
    else if n == 14 then 7639684391 else if n == 13 then 7736789461 else if n == 12 then 7833374083
    else if n == 11 then 7929428225 else if n == 10 then 8024923213 else if n == 9 then 8119801349
    else if n == 8 then 8213956981 else if n == 7 then 8307199445 else if n == 6 then 8399173563
    else if n == 5 then 8489166191 else if n == 4 then 8575541621 else if n == 3 then 8653536998
    else 8700000000
  }

  function Threshold(n: int): real {
    Edge(n) as real / 100000000.0
  }

  const HALF_DIGIT := 0.000000005

  /** How far above the threshold the number of zones is known to be smaller. */
  function Gap(n: int): real {
    if n == 42 then 0.0000000046 else HALF_DIGIT
  }

  /** There are surely `n` zones at a latitude, by the enclosures of the cosine and of pi. */
  predicate SurelyAtLeast(n: real, lat: real)
    requires n > 0.0
  {
    && (1.0 - CosAbove(Square(Part(n, 3.14159265358979)))) * Square(CosBelow(Square(Radians(lat, 3.14159265358980))))
       >= 1.0 - CosBelow(Square(Part(60.0, 3.14159265358980)))
    && CosBelow(Square(Radians(lat, 3.14159265358980))) >= 0.0
  }

  predicate SurelyFewer(n: real, lat: real)
    requires n > 0.0
  {
    && (1.0 - CosBelow(Square(Part(n, 3.14159265358980)))) * Square(CosAbove(Square(Radians(lat, 3.14159265358979))))
       < 1.0 - CosAbove(Square(Part(60.0, 3.14159265358979)))
    && CosAbove(Square(Radians(lat, 3.14159265358979))) >= 0.000001
  }

  /** Half a unit of the eighth decimal below the threshold there are `n` zones, and as far above it there are fewer. */
  predicate RowAt(n: real, threshold: real, gap: real)
    requires n > 0.0
  {
    SurelyAtLeast(n, threshold - 0.000000005) && SurelyFewer(n, threshold + gap)
  }

  lemma Rows3To6()
    ensures RowAt(3.0, 86.53536998, 0.000000005) && RowAt(4.0, 85.75541621, 0.000000005) &&
            RowAt(5.0, 84.89166191, 0.000000005) && RowAt(6.0, 83.99173563, 0.000000005)
  {
  }

  lemma Rows7To10()
    ensures RowAt(7.0, 83.07199445, 0.000000005) && RowAt(8.0, 82.13956981, 0.000000005) &&
            RowAt(9.0, 81.19801349, 0.000000005) && RowAt(10.0, 80.24923213, 0.000000005)
  {
  }

  lemma Rows11To14()
    ensures RowAt(11.0, 79.29428225, 0.000000005) && RowAt(12.0, 78.33374083, 0.000000005) &&
            RowAt(13.0, 77.36789461, 0.000000005) && RowAt(14.0, 76.39684391, 0.000000005)
  {
  }

  lemma Rows15To18()
    ensures RowAt(15.0, 75.42056257, 0.000000005) && RowAt(16.0, 74.43893416, 0.000000005) &&
            RowAt(17.0, 73.45177442, 0.000000005) && RowAt(18.0, 72.45884545, 0.000000005)
  {
  }

  lemma Rows19To22()
    ensures RowAt(19.0, 71.45986473, 0.000000005) && RowAt(20.0, 70.45451075, 0.000000005) &&
            RowAt(21.0, 69.44242631, 0.000000005) && RowAt(22.0, 68.42322022, 0.000000005)
  {
  }

  lemma Rows23To26()
    ensures RowAt(23.0, 67.39646774, 0.000000005) && RowAt(24.0, 66.36171008, 0.000000005) &&
            RowAt(25.0, 65.31845310, 0.000000005) && RowAt(26.0, 64.26616523, 0.000000005)
  {
  }

  lemma Rows27To30()
    ensures RowAt(27.0, 63.20427479, 0.000000005) && RowAt(28.0, 62.13216659, 0.000000005) &&
            RowAt(29.0, 61.04917774, 0.000000005) && RowAt(30.0, 59.95459277, 0.000000005)
  {
  }

  lemma Rows31To34()
    ensures RowAt(31.0, 58.84763776, 0.000000005) && RowAt(32.0, 57.72747354, 0.000000005) &&
            RowAt(33.0, 56.59318756, 0.000000005) && RowAt(34.0, 55.44378444, 0.000000005)
  {
  }

  lemma Rows35To38()
    ensures RowAt(35.0, 54.27817472, 0.000000005) && RowAt(36.0, 53.09516153, 0.000000005) &&
            RowAt(37.0, 51.89342469, 0.000000005) && RowAt(38.0, 50.67150166, 0.000000005)
  {
  }

  lemma Rows39To42()
    ensures RowAt(39.0, 49.42776439, 0.000000005) && RowAt(40.0, 48.16039128, 0.000000005) &&
            RowAt(41.0, 46.86733252, 0.000000005) && RowAt(42.0, 45.54626723, 0.0000000046)
  {
  }

  lemma Rows43To46()
    ensures RowAt(43.0, 44.19454951, 0.000000005) && RowAt(44.0, 42.80914012, 0.000000005) &&
            RowAt(45.0, 41.38651832, 0.000000005) && RowAt(46.0, 39.92256684, 0.000000005)
  {
  }

  lemma Rows47To50()
    ensures RowAt(47.0, 38.41241892, 0.000000005) && RowAt(48.0, 36.85025108, 0.000000005) &&
            RowAt(49.0, 35.22899598, 0.000000005) && RowAt(50.0, 33.53993436, 0.000000005)
  {
  }

  lemma Rows51To54()
    ensures RowAt(51.0, 31.77209708, 0.000000005) && RowAt(52.0, 29.91135686, 0.000000005) &&
            RowAt(53.0, 27.93898710, 0.000000005) && RowAt(54.0, 25.82924707, 0.000000005)
  {
  }

  lemma Rows55To58()
    ensures RowAt(55.0, 23.54504487, 0.000000005) && RowAt(56.0, 21.02939493, 0.000000005) &&
            RowAt(57.0, 18.18626357, 0.000000005) && RowAt(58.0, 14.82817437, 0.000000005)
  {
  }

  lemma Row59()
    ensures RowAt(59.0, 10.47047130, 0.000000005)
  {
  }

  lemma Rows(n: int)
    requires 3 <= n <= 59
    ensures RowAt(n as real, Threshold(n), Gap(n))
  {
    hide RowAt;
    Rows3To6();
    Rows7To10();
    Rows11To14();
    Rows15To18();
    Rows19To22();
    Rows23To26();
    Rows27To30();
    Rows31To34();
    Rows35To38();
    Rows39To42();
    Rows43To46();
    Rows47To50();
    Rows51To54();
    Rows55To58();
    Row59();
  }

  lemma {:induction false} ThresholdFalls(n: int, m: int)
    requires 2 <= n <= m <= 59
    ensures Threshold(m) <= Threshold(n) <= 87.0
    decreases m - n
  {
    if n < m {
      ThresholdFalls(n, m - 1);
      NextThreshold(m - 1);
    }
  }

  lemma NextThreshold(n: int)
    requires 2 <= n < 59
    ensures 10.0 < Threshold(n + 1) <= Threshold(n) <= 87.0
  {
  }

  /** The cosine of a right angle, and a little beyond. */
  lemma CosOfRight()
    ensures CosBelow(Square(90.00001 * 3.14159265358980 / 180.0)) >= -0.000001
  {
  }

  lemma CosAtZero()
    ensures CosAbove(Square(0.0)) == 1.0
  {
  }
}
