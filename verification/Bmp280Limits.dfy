/** Limits of the pressure compensation inside its envelope: when the last conversion wraps, how
    far the result can go against the reading, and one whole measurement. */
module Bmp280Limits {
  import opened Arithmetic
  import opened Bmp280
  import opened Bmp280Pressure

  /** The words the final correction depends on, in their envelope. */
  predicate FinalCalib(c: Calib) {
    IsCalib(c) && -27000 <= c.p8 <= 27000 && -11000 <= c.p9 <= 11000
  }

  // ----- the sign of the corrected quotient

  /** A quotient of at least 2500, less than a tenth of the sensor's lowest pressure, stays
      non-negative after its correction. */
  lemma CorrectionBounded(c: Calib, q: int)
    requires FinalCalib(c) && 2500 <= q <= 311240
    ensures Corrected(c, q) >= 0
  {
    var k, m := q / 8, q / 4;
    ProductRange(k, k, 0, k, 0, 38905);
    var s := Square(k) / 8192;
    ProductRange(c.p9 + 11000, s, 0, c.p9 + 11000, 0, s);
    ProductRange(m, c.p8 + 27000, 0, m, 0, c.p8 + 27000);
    CorrectionSums(q, k, m, s, Term9(c.p9, q), Term8(c.p8, q), c.p7);
  }

  lemma CorrectionSums(q: int, k: int, m: int, s: int, a: int, b: int, p7: int)
    requires 2500 <= q && 8 * k <= q && 4 * m <= q && 8192 * s <= 38905 * k
    requires a >= -11000 * s && b >= -27000 * m && p7 >= -32768
    ensures q + (a / 4096 + b / 8192 + p7) / 16 >= 0
  {
  }

  lemma SmallSquareStep(k: int)
    requires 0 <= k <= 312
    ensures 0 <= Square(k + 1) / 8192 - Square(k) / 8192 <= 1
  {
    assert Square(k + 1) == Square(k) + 2 * k + 1;
  }

  lemma Term9Step(p9: int, q: int)
    requires -11000 <= p9 <= 11000 && 0 <= q < 2500
    ensures Term9(p9, q + 1) >= Term9(p9, q) - 11000
  {
    var k, k' := q / 8, (q + 1) / 8;
    SmallSquareStep(k);
    var s, s' := Square(k) / 8192, Square(k') / 8192;
    assert k' == k || k' == k + 1;
    assert s' == s || s' == s + 1;
    assert p9 * (s + 1) == p9 * s + p9;
  }

  lemma Term8Step(p8: int, q: int)
    requires -27000 <= p8 <= 27000 && 0 <= q
    ensures Term8(p8, q + 1) >= Term8(p8, q) - 27000
  {
    var m, m' := q / 4, (q + 1) / 4;
    assert m' == m || m' == m + 1;
    assert (m + 1) * p8 == m * p8 + p8;
  }

  /** Below 2500 the corrected value never falls as the quotient rises. */
  lemma CorrectedStep(c: Calib, q: int)
    requires FinalCalib(c) && 0 <= q < 2500
    ensures Corrected(c, q) <= Corrected(c, q + 1)
  {
    Term9Step(c.p9, q);
    Term8Step(c.p8, q);
    StepSums(Term9(c.p9, q), Term9(c.p9, q + 1), Term8(c.p8, q), Term8(c.p8, q + 1), c.p7);
  }

  lemma StepSums(a: int, a': int, b: int, b': int, p7: int)
    requires a' >= a - 11000 && b' >= b - 27000
    ensures (a' / 4096 + b' / 8192 + p7) / 16 + 1 >= (a / 4096 + b / 8192 + p7) / 16
  {
  }

  /** The least quotient from `q` on whose corrected value is not negative. */
  function ThresholdFrom(c: Calib, q: nat): nat
    requires q <= 2500
    decreases 2500 - q
  {
    if q == 2500 || Corrected(c, q) >= 0 then q else ThresholdFrom(c, q + 1)
  }

  /** The quotient below which the result wraps. It depends on the calibration alone. */
  function Threshold(c: Calib): nat {
    ThresholdFrom(c, 0)
  }

  lemma {:induction false} ThresholdFromIs(c: Calib, k: nat)
    requires FinalCalib(c) && k <= 2500
    ensures k <= ThresholdFrom(c, k) <= 2500 && Corrected(c, ThresholdFrom(c, k)) >= 0
    ensures forall q :: k <= q < ThresholdFrom(c, k) ==> Corrected(c, q) < 0
    decreases 2500 - k
  {
    if k == 2500 {
      CorrectionBounded(c, 2500);
    } else if Corrected(c, k) < 0 {
      ThresholdFromIs(c, k + 1);
    }
  }

  lemma {:induction false} CorrectedMonotone(c: Calib, q: int, q': int)
    requires FinalCalib(c) && 0 <= q <= q' <= 2500
    ensures Corrected(c, q) <= Corrected(c, q')
    decreases q' - q
  {
    if q < q' {
      CorrectedStep(c, q);
      CorrectedMonotone(c, q + 1, q');
    }
  }

  lemma NonNegativeIff(c: Calib, q: int)
    requires FinalCalib(c) && 0 <= q <= 311240
    ensures Corrected(c, q) >= 0 <==> q >= Threshold(c)
  {
    ThresholdFromIs(c, 0);
    if q >= 2500 {
      CorrectionBounded(c, q);
    } else if q >= Threshold(c) {
      CorrectedMonotone(c, Threshold(c), q);
    }
  }

  /** No quotient wraps exactly when dig_p7 is not negative. */
  lemma ThresholdZeroIff(c: Calib)
    requires FinalCalib(c)
    ensures Threshold(c) <= 2500 && (Threshold(c) == 0 <==> c.p7 >= 0)
  {
    ThresholdFromIs(c, 0);
    ZeroCorrected(c);
  }

  lemma ZeroCorrected(c: Calib)
    ensures Corrected(c, 0) == c.p7 / 16
  {
    assert Square(0) == 0;
    assert Term9(c.p9, 0) == 0 && Term8(c.p8, 0) == 0;
  }

  // ----- the exact condition

  lemma FloorAtLeast(n: int, v: int, t: int)
    requires v > 0
    ensures n / v >= t <==> n >= t * v
  {
    var q := n / v;
    MulOrder(t, q, v);
    MulOrder(q + 1, t, v);
    assert (q + 1) * v == q * v + v;
  }

  lemma QuotientAtLeastIff(p: int, v: int, t: int)
    requires 0 <= p < TWO32 && 27600 <= v <= 65000 && 0 <= t <= 2500
    ensures Quotient(p, v) >= t <==> p * 2 >= t * v
  {
    FloorAtLeast(p * 2, v, t);
    if p >= 0x8000_0000 {
      ProductRange(t, v, 0, 2500, 0, 65000);
      FloorAtLeast(p, v, 1250);
    }
  }

  /** The last conversion is harmless exactly when the reading stays far enough above the offset:
      6250 times the span reaches the calibration's threshold times the divisor. */
  lemma PressExactIff(c: Calib, adc: int, tFine: int)
    requires PressEnvelope(c, adc, tFine)
    ensures CompensatePress(c, adc, tFine) == Press(c, adc, tFine) <==>
      Span(c, tFine, adc) * 6250 >= Threshold(c) * Divisor(c, tFine)
  {
    PressInEnvelope(c, adc, tFine);
    WrapIff(Press(c, adc, tFine));
    ThresholdZeroIff(c);
    NonNegativeIff(c, PressQuotient(c, adc, tFine));
    QuotientAtLeastIff(Span(c, tFine, adc) * 3125, Divisor(c, tFine), Threshold(c));
    assert S32(Press(c, adc, tFine));
  }

  /** Every reading is converted exactly at this temperature. */
  ghost predicate AlwaysExact(c: Calib, tFine: int) {
    forall adc :: PressEnvelope(c, adc, tFine) ==> CompensatePress(c, adc, tFine) == Press(c, adc, tFine)
  }

  /** Where a reading level with the offset is possible, no reading wraps exactly when dig_p7 is not
      negative; and without that proviso a non-negative dig_p7 is enough. */
  lemma AlwaysExactIff(c: Calib, tFine: int)
    requires PressCalib(c, tFine)
    ensures c.p7 >= 0 ==> AlwaysExact(c, tFine)
    ensures (exists adc :: PressEnvelope(c, adc, tFine) && Span(c, tFine, adc) == 0) ==>
      (AlwaysExact(c, tFine) <==> c.p7 >= 0)
  {
    forall adc | PressEnvelope(c, adc, tFine)
      ensures c.p7 >= 0 ==> CompensatePress(c, adc, tFine) == Press(c, adc, tFine)
      ensures c.p7 < 0 && Span(c, tFine, adc) == 0 ==> CompensatePress(c, adc, tFine) != Press(c, adc, tFine)
    {
      SignDecides(c, adc, tFine);
    }
  }

  lemma SignDecides(c: Calib, adc: int, tFine: int)
    requires PressEnvelope(c, adc, tFine)
    ensures c.p7 >= 0 ==> CompensatePress(c, adc, tFine) == Press(c, adc, tFine)
    ensures c.p7 < 0 && Span(c, tFine, adc) == 0 ==> CompensatePress(c, adc, tFine) != Press(c, adc, tFine)
  {
    ThresholdZeroIff(c);
    PressExactIff(c, adc, tFine);
    DivisorInEnvelope(c, tFine);
    if c.p7 < 0 {
      MulGap(Threshold(c), Divisor(c, tFine));
    }
  }

  /** Inside the envelope the last conversion can wrap: a reading level with the offset and a
      negative dig_p7 give a slightly negative value, reported as nearly 2^32 pascals. */
  lemma PressCanWrap(c: Calib, adc: int, tFine: int)
    requires PressEnvelope(c, adc, tFine) && Span(c, tFine, adc) == 0 && c.p7 < 0
    ensures Press(c, adc, tFine) < 0
    ensures CompensatePress(c, adc, tFine) == TWO32 + c.p7 / 16
  {
    PressInEnvelope(c, adc, tFine);
    ZeroQuotient(c, adc, tFine);
    WrapDown(c.p7 / 16);
  }

  lemma WrapDown(x: int)
    requires -0x1_0000_0000 <= x < 0
    ensures ToU32(x) == TWO32 + x
  {
  }

  /** Such a measurement exists. */
  lemma WrapExample(c: Calib, adc: int, tFine: int)
    requires c == Calib(0, 0, 0, 32768, 0, 0, 1, 0, 0, -32768, 0, 0)
    requires adc == 1048560 && tFine == 128000
    ensures PressEnvelope(c, adc, tFine) && Span(c, tFine, adc) == 0 && c.p7 < 0
  {
    assert V1(tFine) == 0;
    OffsetAtRest(c, tFine);
  }

  /** At the temperature where `var1` is zero only dig_p4 contributes to the offset. */
  lemma OffsetAtRest(c: Calib, tFine: int)
    requires V1(tFine) == 0
    ensures Offset(c, tFine) == c.p4 * 65536
  {
    var z := V1(tFine);
    assert z / 4 == 0 && Square(0) == 0;
    assert Sq(tFine) == 0;
    assert 0 / 2048 * c.p6 == 0 && 0 * c.p5 * 2 == 0;
  }

  lemma ZeroQuotient(c: Calib, adc: int, tFine: int)
    requires PressEnvelope(c, adc, tFine) && Span(c, tFine, adc) == 0
    ensures Press(c, adc, tFine) == c.p7 / 16
  {
    DivisorInEnvelope(c, tFine);
    assert 0 / Divisor(c, tFine) == 0;
    assert PressQuotient(c, adc, tFine) == 0;
    ZeroCorrected(c);
  }

  // ----- how far the result can go against the reading

  /** For a fixed temperature a higher reading, which means a lower pressure, raises the quotient
      by at most one. */
  lemma ReadingAlmostMonotone(c: Calib, adc: int, adc': int, tFine: int)
    requires PressEnvelope(c, adc, tFine) && PressEnvelope(c, adc', tFine) && adc <= adc'
    ensures PressQuotient(c, adc', tFine) <= PressQuotient(c, adc, tFine) + 1
  {
    DivisorInEnvelope(c, tFine);
    QuotientAlmostMonotone(Span(c, tFine, adc) * 3125, Span(c, tFine, adc') * 3125, Divisor(c, tFine));
  }

  lemma SquareGap(k: int, k': int)
    requires 0 <= k' <= k <= 38905
    ensures Square(k') / 8192 <= Square(k) / 8192
    ensures 8192 * (Square(k) / 8192 - Square(k') / 8192) <= 77810 * (k - k') + 8191
  {
    assert Square(k) - Square(k') == (k - k') * (k + k');
    ProductRange(k - k', k + k', 0, k - k', 0, 77810);
    assert 0 <= (k - k') * (k + k');
  }

  lemma Term9Fall(p9: int, q: int, q': int)
    requires -11000 <= p9 <= 11000 && 0 <= q' <= q <= 311240
    ensures 8192 * (Term9(p9, q') - Term9(p9, q)) <= 11000 * (77810 * (q / 8 - q' / 8) + 8191)
  {
    var k, k' := q / 8, q' / 8;
    SquareGap(k, k');
    var d := Square(k) / 8192 - Square(k') / 8192;
    ProductRange(11000 + p9, d, 0, 11000 + p9, 0, d);
    assert Term9(p9, q) - Term9(p9, q') == p9 * d;
  }

  lemma Term8Fall(p8: int, q: int, q': int)
    requires -27000 <= p8 <= 27000 && 0 <= q' <= q
    ensures Term8(p8, q') - Term8(p8, q) <= 27000 * (q / 4 - q' / 4)
  {
    var d := q / 4 - q' / 4;
    ProductRange(27000 + p8, d, 0, 27000 + p8, 0, d);
    assert Term8(p8, q) - Term8(p8, q') == p8 * d;
  }

  lemma FallSums(q: int, q': int, a: int, a': int, b: int, b': int, p7: int)
    requires 0 <= q' <= q
    requires 8192 * (a' - a) <= 11000 * (77810 * (q / 8 - q' / 8) + 8191)
    requires b' - b <= 27000 * (q / 4 - q' / 4)
    ensures q' + (a' / 4096 + b' / 8192 + p7) / 16 <= q + (a / 4096 + b / 8192 + p7) / 16 + 2
  {
    var x, x', y, y' := a / 4096, a' / 4096, b / 8192, b' / 8192;
    var d := q - q';
    assert 8 * (q / 8 - q' / 8) <= d + 7 && 4 * (q / 4 - q' / 4) <= d + 3;
  }

  /** A smaller quotient never gives a value more than 2 above. */
  lemma CorrectedFall(c: Calib, q: int, q': int)
    requires FinalCalib(c) && 0 <= q' <= q <= 311240
    ensures Corrected(c, q') <= Corrected(c, q) + 2
  {
    Term9Fall(c.p9, q, q');
    Term8Fall(c.p8, q, q');
    FallSums(q, q', Term9(c.p9, q), Term9(c.p9, q'), Term8(c.p8, q), Term8(c.p8, q'), c.p7);
  }

  lemma Term9Rise(p9: int, q: int)
    requires -11000 <= p9 <= 11000 && 0 <= q < 311240
    ensures Term9(p9, q + 1) <= Term9(p9, q) + 110000
  {
    var k, k' := q / 8, (q + 1) / 8;
    assert k' == k || k' == k + 1;
    SquareGap(k', k);
    var d := Square(k') / 8192 - Square(k) / 8192;
    assert 0 <= d <= 10;
    MulBound(p9, d, 11000, 10);
    assert Term9(p9, q + 1) - Term9(p9, q) == p9 * d;
  }

  lemma Term8Rise(p8: int, q: int)
    requires -27000 <= p8 <= 27000 && 0 <= q
    ensures Term8(p8, q + 1) <= Term8(p8, q) + 27000
  {
    var m, m' := q / 4, (q + 1) / 4;
    assert m' == m || m' == m + 1;
    assert (m + 1) * p8 == m * p8 + p8;
  }

  lemma RiseSums(a: int, a': int, b: int, b': int, p7: int)
    requires a' <= a + 110000 && b' <= b + 27000
    ensures (a' / 4096 + b' / 8192 + p7) / 16 <= (a / 4096 + b / 8192 + p7) / 16 + 2
  {
  }

  lemma CorrectedRise(c: Calib, q: int)
    requires FinalCalib(c) && 0 <= q < 311240
    ensures Corrected(c, q + 1) <= Corrected(c, q) + 3
  {
    Term9Rise(c.p9, q);
    Term8Rise(c.p8, q);
    RiseSums(Term9(c.p9, q), Term9(c.p9, q + 1), Term8(c.p8, q), Term8(c.p8, q + 1), c.p7);
  }

  /** A higher reading never raises the pressure by more than 3 pascals. */
  lemma PressAlmostMonotone(c: Calib, adc: int, adc': int, tFine: int)
    requires PressEnvelope(c, adc, tFine) && PressEnvelope(c, adc', tFine) && adc <= adc'
    ensures Press(c, adc', tFine) <= Press(c, adc, tFine) + 3
  {
    PressInEnvelope(c, adc, tFine);
    PressInEnvelope(c, adc', tFine);
    ReadingAlmostMonotone(c, adc, adc', tFine);
    var q, q' := PressQuotient(c, adc, tFine), PressQuotient(c, adc', tFine);
    if q' <= q {
      CorrectedFall(c, q, q');
    } else {
      CorrectedRise(c, q);
    }
  }
}
