/** How far the 32-bit pressure compensation is from the rational formula of section 8.1 of the
    BMP280 datasheet, revision 1.19, and one whole measurement. */
module Bmp280Accuracy {
  import opened Arithmetic
  import opened Bmp280
  import opened Bmp280Pressure
  import opened Bmp280Limits

  // ----- the formula over the reals

  function ExactV1(tFine: int): real { tFine as real / 2.0 - 64000.0 }

  /** The offset from `x` and its square `y`. */
  function ExactOffset(c: Calib, x: real, y: real): real {
    (y * c.p6 as real / 32768.0 + x * c.p5 as real * 2.0) / 4.0 + c.p4 as real * 65536.0
  }

  function ExactDivisor(c: Calib, x: real, y: real): real {
    (1.0 + (c.p3 as real * y / 524288.0 + c.p2 as real * x) / 524288.0 / 32768.0) * c.p1 as real
  }

  function ExactQuotient(span: real, v: real): real {
    if v == 0.0 then 0.0 else span * 6250.0 / v
  }

  function ExactCorrected(c: Calib, q: real): real {
    q + (c.p9 as real * (q * q) / 2147483648.0 + q * c.p8 as real / 32768.0 + c.p7 as real) / 16.0
  }

  function ExactSpan(c: Calib, adc: int, x: real, y: real): real {
    1048576.0 - adc as real - ExactOffset(c, x, y) / 4096.0
  }

  function ExactFrom(c: Calib, adc: int, x: real, y: real): real {
    ExactCorrected(c, ExactQuotient(ExactSpan(c, adc, x, y), ExactDivisor(c, x, y)))
  }

  /** Pressure in pascals. */
  function ExactPress(c: Calib, adc: int, tFine: int): real {
    ExactFrom(c, adc, ExactV1(tFine), ExactV1(tFine) * ExactV1(tFine))
  }

  // ----- errors and how they travel

  predicate Near(a: real, b: real, e: real) { -e <= a - b <= e }

  lemma ProductBound(d: real, k: real, e: real, m: real)
    requires -e <= d <= e && -m <= k <= m
    ensures -(e * m) <= d * k <= e * m
  {
    TimesNonNegative(e - d, m + k);
    TimesNonNegative(e + d, m - k);
    TimesNonNegative(e - d, m - k);
    TimesNonNegative(e + d, m + k);
  }

  lemma NearTimes(a: real, b: real, e: real, k: real, m: real)
    requires Near(a, b, e) && -m <= k <= m
    ensures Near(a * k, b * k, e * m)
  {
    ProductBound(a - b, k, e, m);
    assert (a - b) * k == a * k - b * k;
  }

  lemma NearProduct(n: int, k: int, x: real, e: real, m: real)
    requires Near(n as real, x, e) && -m <= k as real <= m
    ensures Near((n * k) as real, x * k as real, e * m)
  {
    RealProduct(n, k);
    NearTimes(n as real, x, e, k as real, m);
  }

  lemma NearSquare(a: real, b: real, e: real, m: real)
    requires Near(a, b, e) && -m <= a + b <= m
    ensures Near(a * a, b * b, e * m)
  {
    ProductBound(a - b, a + b, e, m);
    assert (a - b) * (a + b) == a * a - b * b;
  }

  // ----- the offset and the divisor

  /** `x` and `y` stand for the exact `var1` and its square: the code's halving is off by at most
      one half, its squared quarter by at most 72801. */
  predicate Halved(tFine: int, x: real, y: real) {
    Near(V1(tFine) as real, x, 0.5) && Near(Sq(tFine) as real, y / 16.0, 72801.0)
  }

  lemma V1Error(tFine: int)
    requires -204800 <= tFine <= 435200
    ensures Halved(tFine, ExactV1(tFine), ExactV1(tFine) * ExactV1(tFine))
  {
    var x, v := ExactV1(tFine), V1(tFine);
    var h := v / 4;
    assert 0.0 <= x - v as real <= 0.5;
    assert 0.0 <= v as real / 4.0 - h as real <= 0.75;
    NearSquare(h as real, x / 4.0, 0.875, 83201.0);
    RealProduct(h, h);
    assert (x / 4.0) * (x / 4.0) == x * x / 16.0;
  }

  /** `var2`, from the square `y` and `x` of the exact formula. */
  lemma OffsetTerms(sq: int, v: int, p4: int, p5: int, p6: int, x: real, y: real)
    requires Near(sq as real, y / 16.0, 72801.0) && Near(v as real, x, 0.5)
    requires -1200 <= p6 <= 1200 && -3300 <= p5 <= 3300
    ensures Near(((sq / 2048 * p6 + v * p5 * 2) / 4 + p4 * 65536) as real,
      (y * p6 as real / 32768.0 + x * p5 as real * 2.0) / 4.0 + p4 as real * 65536.0, 11800.0)
  {
    assert Near((sq / 2048) as real, y / 32768.0, 36.55);
    NearProduct(sq / 2048, p6, y / 32768.0, 36.55, 1200.0);
    NearProduct(v, p5, x, 0.5, 3300.0);
    assert y / 32768.0 * p6 as real == y * p6 as real / 32768.0;
    OffsetSum(sq / 2048 * p6, v * p5, p4, y * p6 as real / 32768.0, x * p5 as real);
  }

  lemma OffsetSum(a: int, b: int, p4: int, ar: real, br: real)
    requires Near(a as real, ar, 43860.0) && Near(b as real, br, 1650.0)
    ensures Near(((a + b * 2) / 4 + p4 * 65536) as real, (ar + br * 2.0) / 4.0 + p4 as real * 65536.0, 11800.0)
  {
    var n := a + b * 2;
    assert 0.0 <= n as real / 4.0 - (n / 4) as real <= 1.0;
  }

  lemma GainTerms(sq: int, v: int, p2: int, p3: int, x: real, y: real)
    requires Near(sq as real, y / 16.0, 72801.0) && Near(v as real, x, 0.5)
    requires -10000 <= p3 <= 10000 && -12900 <= p2 <= 12900
    ensures Near(((p3 * (sq / 8192) / 8 + p2 * v / 2) / 262144) as real,
      (p3 as real * y / 524288.0 + p2 as real * x) / 524288.0, 1.06)
  {
    assert Near((sq / 8192) as real, y / 131072.0, 9.89);
    NearProduct(sq / 8192, p3, y / 131072.0, 9.89, 10000.0);
    NearProduct(v, p2, x, 0.5, 12900.0);
    Rescaled(y, p3 as real);
    GainSum(p3 * (sq / 8192), p2 * v, p3 as real * y / 131072.0, p2 as real * x);
  }

  lemma Rescaled(y: real, p: real)
    ensures y / 131072.0 * p == p * y / 131072.0
  {
  }

  lemma GainSum(a: int, b: int, ar: real, br: real)
    requires Near(a as real, ar, 98900.0) && Near(b as real, br, 6450.0)
    ensures Near(((a / 8 + b / 2) / 262144) as real, (ar / 4.0 + br) / 524288.0, 1.06)
  {
    var n := a / 8 + b / 2;
    assert Near(n as real, ar / 8.0 + br / 2.0, 15590.0);
    assert 0.0 <= n as real / 262144.0 - (n / 262144) as real <= 1.0;
  }

  lemma DivisorTerms(g: int, p1: int, gr: real)
    requires Near(g as real, gr, 1.06) && 0 <= p1 <= 56000
    ensures Near(((32768 + g) * p1 / 32768) as real, (1.0 + gr / 32768.0) * p1 as real, 2.82)
  {
    NearProduct(32768 + g, p1, 32768.0 + gr, 1.06, 56000.0);
    var n := (32768 + g) * p1;
    assert 0.0 <= n as real / 32768.0 - (n / 32768) as real <= 1.0;
    Unscaled(gr, p1 as real);
  }

  lemma Unscaled(g: real, p: real)
    ensures (32768.0 + g) * p == 32768.0 * ((1.0 + g / 32768.0) * p)
  {
    var h := g / 32768.0;
    assert 32768.0 + g == 32768.0 * (1.0 + h);
  }

  lemma OffsetError(c: Calib, tFine: int, x: real, y: real)
    requires PressCalib(c, tFine) && Halved(tFine, x, y)
    ensures Near(Offset(c, tFine) as real, ExactOffset(c, x, y), 11800.0)
  {
    OffsetTerms(Sq(tFine), V1(tFine), c.p4, c.p5, c.p6, x, y);
  }

  lemma DivisorError(c: Calib, tFine: int, x: real, y: real)
    requires PressCalib(c, tFine) && Halved(tFine, x, y)
    ensures Near(Divisor(c, tFine) as real, ExactDivisor(c, x, y), 2.82)
  {
    GainTerms(Sq(tFine), V1(tFine), c.p2, c.p3, x, y);
    DivisorTerms(Gain(c, tFine), c.p1, (c.p3 as real * y / 524288.0 + c.p2 as real * x) / 524288.0);
  }

  // ----- the quotient

  /** Numerator and denominator both off a little. */
  lemma RatioError(s: real, s': real, v: real, v': real)
    requires 0.0 <= s <= 1374389.0 && Near(s, s', 3.89)
    requires v >= 27600.0 && Near(v, v', 2.82)
    requires s * 6250.0 / v <= 311242.0
    ensures v' > 0.0 && Near(s * 6250.0 / v, s' * 6250.0 / v', 32.8)
  {
    var r, r' := s * 6250.0 / v, s' * 6250.0 / v';
    assert r * v == s * 6250.0 && r' * v' == s' * 6250.0;
    RatioPositive(s * 6250.0, v);
    ProductBound(r, v - v', 311242.0, 2.82);
    RatioGap(r, r', v, v', s, s');
    Divided(r - r', v', 902100.0, 32.8);
  }

  lemma RatioPositive(x: real, y: real)
    requires x >= 0.0 && y > 0.0
    ensures x / y >= 0.0
  {
  }

  lemma RatioGap(r: real, r': real, v: real, v': real, s: real, s': real)
    requires r * v == s * 6250.0 && r' * v' == s' * 6250.0
    ensures (r - r') * v' == (s - s') * 6250.0 - r * (v - v')
  {
    assert r * (v - v') == r * v - r * v';
    assert (r - r') * v' == r * v' - r' * v';
  }

  lemma Divided(d: real, v: real, b: real, e: real)
    requires v >= 27597.0 && -b <= d * v <= b && b <= e * 27597.0 && e >= 0.0
    ensures -e <= d <= e
  {
    if d > e {
      TimesNonNegative(d, v - 27597.0);
    } else if d < -e {
      TimesNonNegative(-d, v - 27597.0);
    }
  }

  lemma QuotientFloor(p: int, v: int)
    requires 0 <= p < TWO32 && v >= 27600
    ensures Near(Quotient(p, v) as real, (p * 2) as real / v as real, 2.0)
    ensures 0.0 <= (p * 2) as real / v as real <= 311242.0
  {
    QuotientRange(p, v);
    QuotientIsHalfUnitExact(p, v);
    FloorRatio(p * 2, v);
  }

  lemma FloorRatio(n: int, d: int)
    requires d > 0 && n >= 0
    ensures 0.0 <= n as real / d as real
    ensures (n / d) as real <= n as real / d as real <= (n / d) as real + 1.0
  {
    var q, r := n / d, n % d;
    RealProduct(q, d);
    var x, y := n as real, d as real;
    assert x == q as real * y + r as real && 0.0 <= r as real < y;
    RatioBetween(x, y, q as real, r as real);
    RatioBetween(x, y, 0.0, x);
  }

  lemma RatioBetween(x: real, y: real, q: real, r: real)
    requires y > 0.0 && x == q * y + r && r >= 0.0
    ensures q <= x / y && (r < y ==> x / y <= q + 1.0)
  {
    var z := x / y - q;
    assert z * y == r;
    if z < 0.0 {
      TimesBelow(y, y, -z);
    } else if z > 1.0 {
      TimesNonNegative(z - 1.0, y);
    }
  }

  lemma QuotientError(c: Calib, adc: int, tFine: int, x: real, y: real)
    requires PressEnvelope(c, adc, tFine) && Halved(tFine, x, y)
    ensures Near(PressQuotient(c, adc, tFine) as real,
      ExactQuotient(ExactSpan(c, adc, x, y), ExactDivisor(c, x, y)), 34.8)
  {
    var s, v := Span(c, tFine, adc), Divisor(c, tFine);
    DivisorInEnvelope(c, tFine);
    OffsetError(c, tFine, x, y);
    DivisorError(c, tFine, x, y);
    SpanError(Offset(c, tFine), adc, ExactOffset(c, x, y));
    QuotientFloor(s * 3125, v);
    assert (s * 3125 * 2) as real == s as real * 6250.0;
    RatioError(s as real, ExactSpan(c, adc, x, y), v as real, ExactDivisor(c, x, y));
  }

  lemma SpanError(offset: int, adc: int, exact: real)
    requires Near(offset as real, exact, 11800.0)
    ensures Near((0x10_0000 - adc - offset / 4096) as real, 1048576.0 - adc as real - exact / 4096.0, 3.89)
  {
    assert 0.0 <= offset as real / 4096.0 - (offset / 4096) as real <= 1.0;
  }

  // ----- the final correction

  lemma Term9Error(p9: int, q: int, x: real, y: real)
    requires -11000 <= p9 <= 11000 && 0 <= q <= 311240 && x == q as real && y == x * x
    ensures Near((Term9(p9, q) / 4096) as real, p9 as real * y / 2147483648.0, 26.04)
  {
    var k := q / 8;
    assert 0.0 <= x / 8.0 - k as real <= 0.875;
    NearSquare(k as real, x / 8.0, 0.875, 77810.0);
    RealProduct(k, k);
    assert (x / 8.0) * (x / 8.0) == y / 64.0;
    Term9Terms(Square(k), p9, y);
  }

  lemma Term9Terms(sq: int, p9: int, y: real)
    requires Near(sq as real, y / 64.0, 68084.0) && -11000 <= p9 <= 11000
    ensures Near((p9 * (sq / 8192) / 4096) as real, p9 as real * y / 2147483648.0, 26.04)
  {
    assert Near((sq / 8192) as real, y / 524288.0, 9.32);
    NearProduct(sq / 8192, p9, y / 524288.0, 9.32, 11000.0);
    assert y / 524288.0 * p9 as real == p9 as real * y / 524288.0;
    var n := p9 * (sq / 8192);
    assert 0.0 <= n as real / 4096.0 - (n / 4096) as real <= 1.0;
  }

  lemma Term8Error(p8: int, q: int, x: real)
    requires -27000 <= p8 <= 27000 && x == q as real
    ensures Near((Term8(p8, q) / 8192) as real, x * p8 as real / 32768.0, 3.48)
  {
    assert 0.0 <= x / 4.0 - (q / 4) as real <= 0.75;
    NearProduct(q / 4, p8, x / 4.0, 0.75, 27000.0);
    assert x / 4.0 * p8 as real == x * p8 as real / 4.0;
    var n := q / 4 * p8;
    assert 0.0 <= n as real / 8192.0 - (n / 8192) as real <= 1.0;
  }

  lemma FinalError(c: Calib, q: int, x: real, y: real)
    requires FinalCalib(c) && 0 <= q <= 311240 && x == q as real && y == x * x
    ensures Near(Corrected(c, q) as real, ExactCorrected(c, x), 2.85)
  {
    Term9Error(c.p9, q, x, y);
    Term8Error(c.p8, q, x);
    FinalParts(c, q, x, y);
  }

  lemma FinalErrorAt(c: Calib, q: int)
    requires FinalCalib(c) && 0 <= q <= 311240
    ensures Near(Corrected(c, q) as real, ExactCorrected(c, q as real), 2.85)
  {
    FinalError(c, q, q as real, q as real * q as real);
  }

  lemma FinalParts(c: Calib, q: int, x: real, y: real)
    requires x == q as real && y == x * x
    requires Near((Term9(c.p9, q) / 4096) as real, c.p9 as real * y / 2147483648.0, 26.04)
    requires Near((Term8(c.p8, q) / 8192) as real, x * c.p8 as real / 32768.0, 3.48)
    ensures Near(Corrected(c, q) as real, ExactCorrected(c, x), 2.85)
  {
    FinalSum(Term9(c.p9, q) / 4096, Term8(c.p8, q) / 8192, c.p7, q,
      c.p9 as real * y / 2147483648.0, x * c.p8 as real / 32768.0);
  }

  lemma FinalSum(a: int, b: int, p7: int, q: int, ar: real, br: real)
    requires Near(a as real, ar, 26.04) && Near(b as real, br, 3.48)
    ensures Near((q + (a + b + p7) / 16) as real, q as real + (ar + br + p7 as real) / 16.0, 2.85)
  {
    var n := a + b + p7;
    assert 0.0 <= n as real / 16.0 - (n / 16) as real <= 1.0;
  }

  /** An error of the quotient is magnified by at most a quarter. */
  lemma CorrectedSlope(c: Calib, q: real, q': real)
    requires FinalCalib(c) && 0.0 <= q <= 311240.0 && Near(q, q', 34.8)
    ensures Near(ExactCorrected(c, q), ExactCorrected(c, q'), 43.6)
  {
    NearSquare(q, q', 34.8, 622515.0);
    NearTimes(q * q, q' * q', 34.8 * 622515.0, c.p9 as real, 11000.0);
    NearTimes(q, q', 34.8, c.p8 as real, 27000.0);
    SlopeSum(c, q, q', q * q * c.p9 as real, q' * q' * c.p9 as real);
  }

  lemma SlopeSum(c: Calib, q: real, q': real, a: real, a': real)
    requires a == c.p9 as real * (q * q) && a' == c.p9 as real * (q' * q')
    requires Near(q, q', 34.8) && Near(a, a', 238299000000.0)
    requires Near(q * c.p8 as real, q' * c.p8 as real, 939600.0)
    ensures Near(ExactCorrected(c, q), ExactCorrected(c, q'), 43.6)
  {
    var b, b' := q * c.p8 as real, q' * c.p8 as real;
    assert ExactCorrected(c, q) == q + (a / 2147483648.0 + b / 32768.0 + c.p7 as real) / 16.0;
    assert ExactCorrected(c, q') == q' + (a' / 2147483648.0 + b' / 32768.0 + c.p7 as real) / 16.0;
  }

  lemma PressNear(c: Calib, adc: int, tFine: int, x: real, y: real)
    requires PressEnvelope(c, adc, tFine) && Halved(tFine, x, y)
    ensures -46.5 < Press(c, adc, tFine) as real - ExactFrom(c, adc, x, y) < 46.5
  {
    PressInEnvelope(c, adc, tFine);
    QuotientError(c, adc, tFine, x, y);
    var q := PressQuotient(c, adc, tFine);
    FinalErrorAt(c, q);
    CorrectedSlope(c, q as real, ExactQuotient(ExactSpan(c, adc, x, y), ExactDivisor(c, x, y)));
  }

  /** All the shifts of the C function together cost less than 46.5 pascals, less than half of the
      sensor's absolute accuracy of one hectopascal. */
  lemma PressAccuracy(c: Calib, adc: int, tFine: int)
    requires PressEnvelope(c, adc, tFine)
    ensures -46.5 < Press(c, adc, tFine) as real - ExactPress(c, adc, tFine) < 46.5
  {
    V1Error(tFine);
    PressNear(c, adc, tFine, ExactV1(tFine), ExactV1(tFine) * ExactV1(tFine));
  }

  // ----- one measurement

  /** The six data registers, pressure first. */
  predicate IsBurst(buf: seq<nat>) {
    |buf| == 6 && forall i :: 0 <= i < 6 ==> buf[i] < 256
  }

  function AdcP(buf: seq<nat>): int
    requires IsBurst(buf)
  {
    RawWord(buf[0], buf[1], buf[2])
  }

  function AdcT(buf: seq<nat>): int
    requires IsBurst(buf)
  {
    RawWord(buf[3], buf[4], buf[5])
  }

  /** `bmp280_measure` once the read succeeded: temperature and pressure. */
  function Measure(c: Calib, buf: seq<nat>): (int, int)
    requires IsBurst(buf)
  {
    var t := CompensateTemp(c, AdcT(buf));
    (t.0, CompensatePress(c, AdcP(buf), t.1))
  }

  /** Both results of a measurement: the temperature is within a hundredth of a degree; the
      pressure is within 46.5 pascals exactly when it does not wrap, that is when the reading is
      far enough above the offset, and otherwise it is a value above two thousand million. */
  lemma MeasureCorrect(c: Calib, buf: seq<nat>)
    requires IsBurst(buf) && TempEnvelope(c, AdcT(buf))
    requires PressEnvelope(c, AdcP(buf), TFine(c, AdcT(buf)))
    ensures var r, tFine := Measure(c, buf), TFine(c, AdcT(buf));
      && -0.97 < r.0 as real - ExactTemp(c, AdcT(buf)) < 0.94
      && (-46.5 < r.1 as real - ExactPress(c, AdcP(buf), tFine) < 46.5 <==>
          Span(c, tFine, AdcP(buf)) * 6250 >= Threshold(c) * Divisor(c, tFine))
      && (r.1 > 2_000_000_000 <==> Span(c, tFine, AdcP(buf)) * 6250 < Threshold(c) * Divisor(c, tFine))
  {
    var adc, tFine := AdcP(buf), TFine(c, AdcT(buf));
    TempInEnvelope(c, AdcT(buf));
    TempAccuracy(c, AdcT(buf));
    PressInEnvelope(c, adc, tFine);
    PressExactIff(c, adc, tFine);
    PressAccuracy(c, adc, tFine);
    CorrectedRange(c, PressQuotient(c, adc, tFine));
    WrapFar(Press(c, adc, tFine));
  }

  lemma CorrectedRange(c: Calib, q: int)
    requires FinalCalib(c) && 0 <= q <= 311240
    ensures -60_000 <= Corrected(c, q) <= 400_000
  {
    FinalInEnvelope(c, q);
  }

  lemma WrapFar(x: int)
    requires -1_000_000 <= x <= 1_000_000
    ensures if x >= 0 then ToU32(x) == x else ToU32(x) == TWO32 + x > 2_000_000_000
  {
  }
}
