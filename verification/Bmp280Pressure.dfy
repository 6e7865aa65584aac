/** The 32-bit pressure compensation of the BMP280, in the stages of the C function: the offset
    term, the divisor, the two-branch quotient and the final correction. */
module Bmp280Pressure {
  import opened Arithmetic
  import opened Bmp280

  // ----- the formula over unbounded integers

  function V1(tFine: int): int { tFine / 2 - 64000 }
  function Sq(tFine: int): int { Square(V1(tFine) / 4) }

  function Offset0(c: Calib, tFine: int): int {
    Sq(tFine) / 2048 * c.p6 + V1(tFine) * c.p5 * 2
  }

  /** `var2` before the division. */
  function Offset(c: Calib, tFine: int): int {
    Offset0(c, tFine) / 4 + c.p4 * 65536
  }

  function Gain(c: Calib, tFine: int): int {
    (c.p3 * (Sq(tFine) / 8192) / 8 + c.p2 * V1(tFine) / 2) / 262144
  }

  /** `var1`, the divisor. */
  function Divisor(c: Calib, tFine: int): int {
    (32768 + Gain(c, tFine)) * c.p1 / 32768
  }

  /** The reading above the offset, before it is scaled by 3125. */
  function Span(c: Calib, tFine: int, adc: int): int {
    0x10_0000 - adc - Offset(c, tFine) / 4096
  }

  /** Half of the 32-bit range is doubled before the division, the other half after it. */
  function Quotient(p: int, v: int): int
    requires v > 0
  {
    if p < 0x8000_0000 then p * 2 / v else p / v * 2
  }

  function Term9(p9: int, q: int): int { p9 * (Square(q / 8) / 8192) }
  function Term8(p8: int, q: int): int { q / 4 * p8 }

  function Correction(c: Calib, q: int): int {
    (Term9(c.p9, q) / 4096 + Term8(c.p8, q) / 8192 + c.p7) / 16
  }

  // ----- the C function, every operation wrapped

  function MachineOffset(c: Calib, v1: int): int {
    var h := v1 / 4;
    var a := ToS32(ToS32(h * h) / 2048 * c.p6);
    var b := ToS32(a + ToS32(ToS32(v1 * c.p5) * 2));
    ToS32(b / 4 + ToS32(c.p4 * 65536))
  }

  function MachineDivisor(c: Calib, v1: int): int {
    var h := v1 / 4;
    var a := ToS32(c.p3 * (ToS32(h * h) / 8192)) / 8;
    var g := ToS32(a + ToS32(c.p2 * v1) / 2) / 262144;
    ToS32(ToS32(32768 + g) * c.p1) / 32768
  }

  function MachineQuotient(span: int, v: int): int
    requires ToU32(v) != 0
  {
    var p := ToU32(span * 3125);
    if p < 0x8000_0000 then ToU32(p * 2) / ToU32(v) else ToU32(p / ToU32(v) * 2)
  }

  function MachineTerm9(p9: int, q: int): int { ToS32(p9 * ToS32(ToU32(Square(q / 8)) / 8192)) }
  function MachineTerm8(p8: int, q: int): int { ToS32(ToS32(q / 4) * p8) }

  function MachineSum(q: int, var1: int, var2: int, p7: int): int {
    ToU32(ToS32(ToS32(q) + ToS32(ToS32(var1 + var2) + p7) / 16))
  }

  function MachineFinal(c: Calib, q: int): int {
    MachineSum(q, MachineTerm9(c.p9, q) / 4096, MachineTerm8(c.p8, q) / 8192, c.p7)
  }

  lemma NonZeroKept(v: int)
    requires S32(v) && v != 0
    ensures ToU32(v) != 0
  {
  }

  /** `bmp280_compensate_press`, with its guard against a zero divisor. */
  function CompensatePress(c: Calib, adc: int, tFine: int): int {
    var v1 := ToS32(tFine / 2 - 64000);
    var var2 := MachineOffset(c, v1);
    var v := MachineDivisor(c, v1);
    if v == 0 then 0
    else
      NonZeroKept(v);
      var span := ToU32(ToU32(ToS32(0x10_0000 - adc)) - var2 / 4096);
      MachineFinal(c, MachineQuotient(span, v))
  }

  // ----- the envelope

  /** -40 to 85 degrees, and the range of calibration words for which the 32-bit form works. */
  predicate PressCalib(c: Calib, tFine: int) {
    && IsCalib(c) && -204800 <= tFine <= 435200
    && 32768 <= c.p1 <= 56000
    && -12900 <= c.p2 <= 12900 && -10000 <= c.p3 <= 10000 && -24000 <= c.p4 <= 24000
    && -3300 <= c.p5 <= 3300 && -1200 <= c.p6 <= 1200
    && -27000 <= c.p8 <= 27000 && -11000 <= c.p9 <= 11000
  }

  predicate PressEnvelope(c: Calib, adc: int, tFine: int) {
    PressCalib(c, tFine) && Adc20(adc) && 0 <= Span(c, tFine, adc) <= 1374389
  }

  predicate OffsetFits(c: Calib, tFine: int) {
    && S32(V1(tFine)) && S32(Sq(tFine)) && S32(Sq(tFine) / 2048 * c.p6)
    && S32(V1(tFine) * c.p5) && S32(V1(tFine) * c.p5 * 2) && S32(Offset0(c, tFine))
    && S32(c.p4 * 65536) && S32(Offset(c, tFine))
  }

  predicate DivisorFits(c: Calib, tFine: int) {
    && S32(Sq(tFine)) && S32(c.p3 * (Sq(tFine) / 8192)) && S32(c.p2 * V1(tFine))
    && S32(c.p3 * (Sq(tFine) / 8192) / 8 + c.p2 * V1(tFine) / 2)
    && S32(32768 + Gain(c, tFine)) && S32((32768 + Gain(c, tFine)) * c.p1)
  }

  lemma V1Range(tFine: int)
    requires -204800 <= tFine <= 435200
    ensures -166400 <= V1(tFine) <= 153600
    ensures 0 <= Sq(tFine) <= 1730560000
  {
    MulBound(V1(tFine) / 4, V1(tFine) / 4, 41600, 41600);
    assert Sq(tFine) >= 0;
  }

  lemma OffsetInEnvelope(c: Calib, tFine: int)
    requires PressCalib(c, tFine)
    ensures OffsetFits(c, tFine)
  {
    V1Range(tFine);
    MulBound(Sq(tFine) / 2048, c.p6, 845000, 1200);
    MulBound(V1(tFine), c.p5, 166400, 3300);
  }

  lemma DivisorInEnvelope(c: Calib, tFine: int)
    requires PressCalib(c, tFine)
    ensures DivisorFits(c, tFine)
    ensures 27600 <= Divisor(c, tFine) <= 65000
  {
    V1Range(tFine);
    MulBound(c.p3, Sq(tFine) / 8192, 10000, 211250);
    MulBound(c.p2, V1(tFine), 12900, 166400);
    var g := 32768 + Gain(c, tFine);
    assert 27660 <= g <= 37870;
    ProductRange(g, c.p1, 27660, 37870, 32768, 56000);
  }

  lemma MachineOffsetExact(c: Calib, tFine: int)
    requires OffsetFits(c, tFine)
    ensures MachineOffset(c, V1(tFine)) == Offset(c, tFine)
  {
    var v1 := V1(tFine);
    var h := v1 / 4;
    assert ToS32(h * h) == Sq(tFine) by { WrapIff(Sq(tFine)); }
    var a := Sq(tFine) / 2048 * c.p6;
    assert ToS32(a) == a by { WrapIff(a); }
    assert ToS32(ToS32(v1 * c.p5) * 2) == v1 * c.p5 * 2 by { WrapIff(v1 * c.p5); WrapIff(v1 * c.p5 * 2); }
    WrapIff(Offset0(c, tFine));
    WrapIff(c.p4 * 65536);
    WrapIff(Offset(c, tFine));
  }

  lemma MachineDivisorExact(c: Calib, tFine: int)
    requires DivisorFits(c, tFine)
    ensures MachineDivisor(c, V1(tFine)) == Divisor(c, tFine)
  {
    var v1 := V1(tFine);
    var h := v1 / 4;
    assert ToS32(h * h) == Sq(tFine) by { WrapIff(Sq(tFine)); }
    var a := c.p3 * (Sq(tFine) / 8192);
    assert ToS32(a) == a by { WrapIff(a); }
    assert ToS32(c.p2 * v1) == c.p2 * v1 by { WrapIff(c.p2 * v1); }
    WrapIff(a / 8 + c.p2 * v1 / 2);
    WrapIff(32768 + Gain(c, tFine));
    WrapIff((32768 + Gain(c, tFine)) * c.p1);
  }

  // ----- the quotient

  /** The quotient is floor(2p / v) or one less, and one less exactly when the upper branch
      throws away half a unit or more. */
  lemma QuotientIsHalfUnitExact(p: int, v: int)
    requires v > 0 && p >= 0
    ensures p * 2 / v - 1 <= Quotient(p, v) <= p * 2 / v
    ensures Quotient(p, v) == p * 2 / v <==> p < 0x8000_0000 || 2 * (p % v) < v
  {
    var q, r := p / v, p % v;
    assert p * 2 == 2 * q * v + 2 * r;
    if 2 * r < v {
      DivModUnique(p * 2, v, 2 * q, 2 * r);
    } else {
      assert 2 * q * v + v == (2 * q + 1) * v;
      DivModUnique(p * 2, v, 2 * q + 1, 2 * r - v);
    }
  }

  /** A higher pressure reading, that is a smaller p, raises the quotient by at most one. */
  lemma QuotientAlmostMonotone(p: int, p': int, v: int)
    requires v > 0 && 0 <= p' <= p
    ensures Quotient(p', v) <= Quotient(p, v) + 1
  {
    QuotientIsHalfUnitExact(p, v);
    QuotientIsHalfUnitExact(p', v);
    QuotientOrder(p' * 2, p * 2, v);
  }

  lemma QuotientAtMost(p: int, v: int, m: int)
    requires v >= 27600 && 0 <= p < (m + 1) * 27600
    ensures 0 <= p / v <= m
  {
    MulOrder(27600, v, m + 1);
    QuotientBelow(p, v, m + 1);
  }

  lemma QuotientRange(p: int, v: int)
    requires v >= 27600 && 0 <= p < TWO32
    ensures 0 <= Quotient(p, v) <= 311240
    ensures p < 0x8000_0000 ==> U32(p * 2)
    ensures U32(p / v * 2)
  {
    QuotientAtMost(p, v, 155620);
    if p < 0x8000_0000 {
      QuotientAtMost(p * 2, v, 155620);
    }
  }

  lemma MachineQuotientExact(span: int, v: int)
    requires 0 < v < TWO32 && U32(span * 3125) && U32(Quotient(span * 3125, v))
    ensures ToU32(v) == v
    ensures MachineQuotient(span, v) == Quotient(span * 3125, v)
  {
    WrapIff(v);
    WrapIff(span * 3125);
    var p := span * 3125;
    if p < 0x8000_0000 {
      WrapIff(p * 2);
    } else {
      WrapIff(p / v * 2);
    }
  }

  // ----- the final correction

  predicate FinalFits(c: Calib, q: int) {
    && U32(Square(q / 8)) && S32(Square(q / 8) / 8192) && S32(Term9(c.p9, q))
    && S32(q / 4) && S32(Term8(c.p8, q))
    && S32(Term9(c.p9, q) / 4096 + Term8(c.p8, q) / 8192)
    && S32(Term9(c.p9, q) / 4096 + Term8(c.p8, q) / 8192 + c.p7)
    && S32(q) && S32(q + Correction(c, q))
  }

  lemma FinalInEnvelope(c: Calib, q: int)
    requires IsCalib(c) && -27000 <= c.p8 <= 27000 && -11000 <= c.p9 <= 11000 && 0 <= q <= 311240
    ensures FinalFits(c, q)
  {
    var k := q / 8;
    ProductRange(k, k, 0, 38905, 0, 38905);
    var s := Square(k) / 8192;
    assert 0 <= s <= 184765;
    MulBound(c.p9, s, 11000, 184765);
    MulBound(q / 4, c.p8, 77810, 27000);
    FinalSums(Term9(c.p9, q), Term8(c.p8, q), c.p7, q);
  }

  lemma FinalSums(a: int, b: int, p7: int, q: int)
    requires S32(a) && S32(b) && S16(p7) && 0 <= q <= 524287
    ensures S32(a / 4096 + b / 8192) && S32(a / 4096 + b / 8192 + p7)
    ensures S32(q + (a / 4096 + b / 8192 + p7) / 16)
  {
  }

  lemma Term9Exact(p9: int, q: int)
    requires U32(Square(q / 8)) && S32(Square(q / 8) / 8192) && S32(Term9(p9, q))
    ensures MachineTerm9(p9, q) == Term9(p9, q)
  {
    WrapIff(Square(q / 8));
    WrapIff(Square(q / 8) / 8192);
    WrapIff(Term9(p9, q));
  }

  lemma Term8Exact(p8: int, q: int)
    requires S32(q / 4) && S32(Term8(p8, q))
    ensures MachineTerm8(p8, q) == Term8(p8, q)
  {
    WrapIff(q / 4);
    WrapIff(Term8(p8, q));
  }

  lemma MachineFinalExact(c: Calib, q: int)
    requires FinalFits(c, q)
    ensures MachineFinal(c, q) == ToU32(q + Correction(c, q))
  {
    Term9Exact(c.p9, q);
    Term8Exact(c.p8, q);
    SumExact(Term9(c.p9, q) / 4096, Term8(c.p8, q) / 8192, c.p7, q);
  }

  lemma SumExact(x: int, y: int, p7: int, q: int)
    requires S32(x + y) && S32(x + y + p7) && S32(q) && S32(q + (x + y + p7) / 16)
    ensures MachineSum(q, x, y, p7) == ToU32(q + (x + y + p7) / 16)
  {
    WrapIff(x + y);
    WrapIff(x + y + p7);
    WrapIff(q);
    WrapIff(q + (x + y + p7) / 16);
  }

  // ----- the whole function

  /** The quotient by the formula; 0 stands for the cases in which the divisor is not positive. */
  function PressQuotient(c: Calib, adc: int, tFine: int): int {
    if Divisor(c, tFine) > 0 then Quotient(Span(c, tFine, adc) * 3125, Divisor(c, tFine)) else 0
  }

  /** The quotient with its correction. */
  function Corrected(c: Calib, q: int): int {
    q + Correction(c, q)
  }

  /** Pressure in pascals by the formula. */
  function Press(c: Calib, adc: int, tFine: int): int {
    Corrected(c, PressQuotient(c, adc, tFine))
  }

  lemma SpanExact(adc: int, offset: int)
    requires Adc20(adc) && U32(0x10_0000 - adc - offset / 4096)
    ensures ToU32(ToU32(ToS32(0x10_0000 - adc)) - offset / 4096) == 0x10_0000 - adc - offset / 4096
  {
  }

  /** Every intermediate result, up to the last conversion, fits its 32-bit type. */
  predicate PressFits(c: Calib, adc: int, tFine: int) {
    && OffsetFits(c, tFine) && DivisorFits(c, tFine) && Divisor(c, tFine) > 0
    && U32(Span(c, tFine, adc)) && U32(Span(c, tFine, adc) * 3125)
    && FinalFits(c, PressQuotient(c, adc, tFine))
  }

  lemma DivisorSmall(c: Calib, tFine: int)
    requires DivisorFits(c, tFine)
    ensures -65536 <= Divisor(c, tFine) <= 65535
  {
  }

  lemma QuotientNatural(p: int, v: int)
    requires p >= 0 && v > 0
    ensures Quotient(p, v) >= 0
  {
    QuotientOrder(0, p, v);
    QuotientOrder(0, p * 2, v);
  }

  /** If nothing overflows the C function computes the formula, reduced by the last conversion. */
  lemma PressNoWrap(c: Calib, adc: int, tFine: int)
    requires Adc20(adc) && PressFits(c, adc, tFine)
    ensures CompensatePress(c, adc, tFine) == ToU32(Press(c, adc, tFine))
  {
    var v, span, q := Divisor(c, tFine), Span(c, tFine, adc), PressQuotient(c, adc, tFine);
    DivisorSmall(c, tFine);
    QuotientNatural(span * 3125, v);
    MachineQuotientExact(span, v);
    PressStages(c, adc, tFine, v, span, q);
    MachineFinalExact(c, q);
  }

  lemma PressStages(c: Calib, adc: int, tFine: int, v: int, span: int, q: int)
    requires OffsetFits(c, tFine) && DivisorFits(c, tFine)
    requires Adc20(adc) && v == Divisor(c, tFine) > 0 && span == Span(c, tFine, adc)
    requires U32(span) && ToU32(v) != 0 && MachineQuotient(span, v) == q
    ensures CompensatePress(c, adc, tFine) == MachineFinal(c, q)
  {
    WrapIff(V1(tFine));
    MachineOffsetExact(c, tFine);
    MachineDivisorExact(c, tFine);
    SpanExact(adc, Offset(c, tFine));
    MachineStages(c, adc, tFine, V1(tFine), Offset(c, tFine), v, span, q);
  }

  /** The C function from its intermediate values. */
  lemma MachineStages(c: Calib, adc: int, tFine: int, v1: int, offset: int, v: int, span: int, q: int)
    requires v1 == ToS32(tFine / 2 - 64000) && offset == MachineOffset(c, v1)
    requires v == MachineDivisor(c, v1) && v != 0 && ToU32(v) != 0
    requires span == ToU32(ToU32(ToS32(0x10_0000 - adc)) - offset / 4096)
    requires q == MachineQuotient(span, v)
    ensures CompensatePress(c, adc, tFine) == MachineFinal(c, q)
  {
  }

  // ----- which intermediates can overflow at all

  lemma OffsetFitsIff(c: Calib, tFine: int)
    requires IsCalib(c) && S32(tFine)
    ensures OffsetFits(c, tFine) <==>
      && -46340 <= V1(tFine) / 4 <= 46340 && S32(Sq(tFine) / 2048 * c.p6)
      && S32(V1(tFine) * c.p5 * 2) && S32(Offset0(c, tFine)) && S32(Offset(c, tFine))
  {
    SquareFitsIff(V1(tFine) / 4);
  }

  lemma DivisorFitsIff(c: Calib, tFine: int)
    requires IsCalib(c) && S32(tFine)
    ensures DivisorFits(c, tFine) <==>
      && -46340 <= V1(tFine) / 4 <= 46340 && S32(c.p3 * (Sq(tFine) / 8192))
      && S32(c.p2 * V1(tFine)) && S32((32768 + Gain(c, tFine)) * c.p1)
  {
    SquareFitsIff(V1(tFine) / 4);
    GainFits(c.p3 * (Sq(tFine) / 8192), c.p2 * V1(tFine));
  }

  lemma GainFits(a: int, b: int)
    ensures S32(a) && S32(b) ==> S32(a / 8 + b / 2) && S32(32768 + (a / 8 + b / 2) / 262144)
  {
  }

  lemma UnsignedSquareIff(k: int)
    requires k >= 0
    ensures U32(Square(k)) <==> k <= 65535
  {
    if k <= 65535 {
      ProductRange(k, k, 0, 65535, 0, 65535);
    } else {
      ProductRange(k, k, 65536, k, 65536, k);
    }
  }

  lemma FinalFitsIff(c: Calib, q: int)
    requires IsCalib(c) && q >= 0
    ensures FinalFits(c, q) <==> q / 8 <= 65535 && S32(Term9(c.p9, q)) && S32(Term8(c.p8, q))
  {
    UnsignedSquareIff(q / 8);
    if q / 8 <= 65535 && S32(Term9(c.p9, q)) && S32(Term8(c.p8, q)) {
      FinalSums(Term9(c.p9, q), Term8(c.p8, q), c.p7, q);
    }
  }

  /** Of the two dozen intermediates of the C function, for any calibration words, only these can
      leave 32 bits. */
  lemma PressFitsIff(c: Calib, adc: int, tFine: int)
    requires IsCalib(c) && Adc20(adc) && S32(tFine)
    ensures PressFits(c, adc, tFine) <==>
      && -46340 <= V1(tFine) / 4 <= 46340
      && S32(Sq(tFine) / 2048 * c.p6) && S32(V1(tFine) * c.p5 * 2)
      && S32(Offset0(c, tFine)) && S32(Offset(c, tFine))
      && S32(c.p3 * (Sq(tFine) / 8192)) && S32(c.p2 * V1(tFine)) && S32((32768 + Gain(c, tFine)) * c.p1)
      && Divisor(c, tFine) > 0 && 0 <= Span(c, tFine, adc) <= 1374389
      && PressQuotient(c, adc, tFine) / 8 <= 65535
      && S32(Term9(c.p9, PressQuotient(c, adc, tFine))) && S32(Term8(c.p8, PressQuotient(c, adc, tFine)))
  {
    OffsetFitsIff(c, tFine);
    DivisorFitsIff(c, tFine);
    if Divisor(c, tFine) > 0 && Span(c, tFine, adc) >= 0 {
      QuotientNatural(Span(c, tFine, adc) * 3125, Divisor(c, tFine));
      FinalFitsIff(c, PressQuotient(c, adc, tFine));
    }
  }

  /** Inside the envelope nothing overflows up to the last conversion, the divisor is far from
      zero, and the result is the formula's, reduced to 32 bits by that conversion. */
  lemma PressInEnvelope(c: Calib, adc: int, tFine: int)
    requires PressEnvelope(c, adc, tFine)
    ensures PressFits(c, adc, tFine) && 27600 <= Divisor(c, tFine) <= 65000
    ensures 0 <= PressQuotient(c, adc, tFine) <= 311240
    ensures CompensatePress(c, adc, tFine) == ToU32(Press(c, adc, tFine))
  {
    OffsetInEnvelope(c, tFine);
    DivisorInEnvelope(c, tFine);
    QuotientRange(Span(c, tFine, adc) * 3125, Divisor(c, tFine));
    FinalInEnvelope(c, PressQuotient(c, adc, tFine));
    PressNoWrap(c, adc, tFine);
  }

  // ----- outside the envelope

  /** Without a gain the divisor is zero, and every reading is reported as 0. */
  lemma ZeroGain(c: Calib, adc: int, tFine: int)
    requires c.p1 == 0
    ensures CompensatePress(c, adc, tFine) == 0
  {
    var v1 := ToS32(tFine / 2 - 64000);
    ZeroDivisor(c, v1);
  }

  lemma ZeroDivisor(c: Calib, v1: int)
    requires c.p1 == 0
    ensures MachineDivisor(c, v1) == 0
  {
    var h := v1 / 4;
    var g := ToS32(ToS32(c.p3 * (ToS32(h * h) / 8192)) / 8 + ToS32(c.p2 * v1) / 2) / 262144;
    assert ToS32(32768 + g) * c.p1 == 0;
  }

  /** A calibration with an ordinary divisor for which the offset overflows and the wrong pressure
      is returned: 13445 instead of 75589 pascals. */
  lemma OffsetCanWrap(c: Calib, tFine: int)
    requires c == Calib(0, 0, 0, 32768, 0, 0, 32767, 32767, 0, 0, 0, 0) && tFine == 192000
    ensures IsCalib(c) && Divisor(c, tFine) == 32768 && !S32(Offset(c, tFine))
    ensures CompensatePress(c, 0, tFine) == 13445 && Press(c, 0, tFine) == 75589
  {
    ExactStages(c, tFine);
    ExampleQuotients();
    NoCorrection(c, 75589);
    WrappedOffset(c);
    WrappedDivisor(c);
    WrappedStages(c, tFine);
  }

  lemma ExactStages(c: Calib, tFine: int)
    requires c.p1 == 32768 && c.p2 == 0 && c.p3 == 0 && c.p4 == 32767 && c.p5 == 32767 && c.p6 == 0
    requires tFine == 192000
    ensures Divisor(c, tFine) == 32768 && Offset(c, tFine) == 2671690112 && Span(c, tFine, 0) == 396308
  {
    var v := V1(tFine);
    assert v == 32000;
    assert Sq(tFine) / 2048 * c.p6 == 0 && v * c.p5 * 2 == 2097088000;
    assert c.p3 * (Sq(tFine) / 8192) == 0 && c.p2 * v == 0;
    assert Gain(c, tFine) == 0;
  }

  lemma ExampleQuotients()
    ensures Quotient(396308 * 3125, 32768) == 75589
    ensures ToU32(32768) != 0 && MachineQuotient(1444884, 32768) == 13445
  {
  }

  lemma WrappedStages(c: Calib, tFine: int)
    requires c.p7 == 0 && c.p8 == 0 && c.p9 == 0 && IsCalib(c) && tFine == 192000
    requires MachineOffset(c, 32000) == -1623277184 && MachineDivisor(c, 32000) == 32768
    ensures CompensatePress(c, 0, tFine) == 13445
  {
    ExampleQuotients();
    ExampleSpan(-1623277184, tFine);
    UncorrectedFinal(c, 13445);
    MachineStages(c, 0, tFine, 32000, -1623277184, 32768, 1444884, 13445);
  }

  lemma ExampleSpan(offset: int, tFine: int)
    requires offset == -1623277184 && tFine == 192000
    ensures ToU32(ToU32(ToS32(0x10_0000 - 0)) - offset / 4096) == 1444884
    ensures ToS32(tFine / 2 - 64000) == 32000
  {
  }

  lemma UncorrectedFinal(c: Calib, q: int)
    requires c.p7 == 0 && c.p8 == 0 && c.p9 == 0 && 0 <= q <= 311240 && IsCalib(c)
    ensures MachineFinal(c, q) == q
  {
    NoCorrection(c, q);
    MachineFinalExact(c, q);
    WrapIff(q);
  }

  lemma NoCorrection(c: Calib, q: int)
    requires c.p7 == 0 && c.p8 == 0 && c.p9 == 0 && 0 <= q <= 311240 && IsCalib(c)
    ensures Correction(c, q) == 0 && FinalFits(c, q)
  {
    FinalInEnvelope(c, q);
    assert Term9(0, q) == 0 && Term8(0, q) == 0;
  }

  lemma WrappedOffset(c: Calib)
    requires c.p4 == 32767 && c.p5 == 32767 && c.p6 == 0
    ensures MachineOffset(c, 32000) == -1623277184
  {
    assert ToS32(32000 * c.p5) == 1048544000;
    assert ToS32(1048544000 * 2) == 2097088000;
    assert ToS32(8000 * 8000) == 64000000;
    assert ToS32(c.p4 * 65536) == 2147418112;
  }

  lemma WrappedDivisor(c: Calib)
    requires c.p1 == 32768 && c.p2 == 0 && c.p3 == 0
    ensures MachineDivisor(c, 32000) == 32768
  {
    assert c.p3 * (ToS32(8000 * 8000) / 8192) == 0 && c.p2 * 32000 == 0;
  }
}
