/** The 32-bit fixed-point compensation of the BMP280, sections 3.11.3 and 8.2 of the BMP280
    datasheet, revision 1.19.

    C's `>>` on a negative value is taken as the arithmetic shift the kernel relies on, that is,
    division rounding down, which is Dafny's `/` for a positive divisor. Functions named after a
    C function wrap after every operation; the others compute with unbounded integers.
 */
module Bmp280 {
  import opened Arithmetic

  predicate S32(x: int) { -0x8000_0000 <= x <= 0x7fff_ffff }
  predicate U32(x: int) { 0 <= x < TWO32 }

  function ToU32(x: int): int { x % TWO32 }

  function ToS32(x: int): int {
    var u := x % TWO32;
    if u < 0x8000_0000 then u else u - TWO32
  }

  /** Wrapping is invisible exactly on the values that fit. */
  lemma WrapIff(x: int)
    ensures S32(ToS32(x)) && (ToS32(x) == x <==> S32(x))
    ensures U32(ToU32(x)) && (ToU32(x) == x <==> U32(x))
  {
  }

  datatype Calib = Calib(t1: int, t2: int, t3: int, p1: int, p2: int, p3: int, p4: int,
                         p5: int, p6: int, p7: int, p8: int, p9: int)

  predicate U16(x: int) { 0 <= x <= 0xffff }
  predicate S16(x: int) { -0x8000 <= x <= 0x7fff }

  /** What 24 bytes of calibration registers can hold. */
  predicate IsCalib(c: Calib) {
    && U16(c.t1) && S16(c.t2) && S16(c.t3) && U16(c.p1) && S16(c.p2) && S16(c.p3) && S16(c.p4)
    && S16(c.p5) && S16(c.p6) && S16(c.p7) && S16(c.p8) && S16(c.p9)
  }

  predicate Adc20(adc: int) { 0 <= adc < 0x10_0000 }

  /** One 20-bit ADC word from three registers; the shifted parts do not overlap. */
  function RawWord(msb: nat, lsb: nat, xlsb: nat): (adc: int)
    requires msb < 256 && lsb < 256 && xlsb < 256
    ensures Adc20(adc)
  {
    msb * 4096 + lsb * 16 + xlsb / 16
  }

  lemma RawWordParts(msb: nat, lsb: nat, xlsb: nat)
    requires msb < 256 && lsb < 256 && xlsb < 256
    ensures var adc := RawWord(msb, lsb, xlsb);
      adc % 16 == xlsb / 16 && adc / 16 % 256 == lsb && adc / 16 / 256 == msb
  {
    var adc := RawWord(msb, lsb, xlsb);
    DivModUnique(adc, 16, msb * 256 + lsb, xlsb / 16);
    DivModUnique(msb * 256 + lsb, 256, msb, lsb);
  }

  // ===== temperature

  function TempA(c: Calib, adc: int): int { adc / 8 - 2 * c.t1 }
  function TempB(c: Calib, adc: int): int { adc / 16 - c.t1 }
  function Square(x: int): int { x * x }
  function Linear(c: Calib, adc: int): int { TempA(c, adc) * c.t2 }
  function Quadratic(c: Calib, adc: int): int { Square(TempB(c, adc)) / 4096 * c.t3 }

  function TFine(c: Calib, adc: int): int { Linear(c, adc) / 2048 + Quadratic(c, adc) / 16384 }

  function Centi(tFine: int): int { (tFine * 5 + 128) / 256 }

  /** Temperature in hundredths of a degree. */
  function Temp(c: Calib, adc: int): int { Centi(TFine(c, adc)) }

  /** The C function: temperature and t_fine, every operation wrapped to 32 bits. */
  function CompensateTemp(c: Calib, adc: int): (int, int) {
    var var1 := ToS32(ToS32(adc / 8 - ToS32(c.t1 * 2)) * c.t2) / 2048;
    var b := ToS32(adc / 16 - c.t1);
    var var2 := ToS32(ToS32(b * b) / 4096 * c.t3) / 16384;
    var tFine := ToS32(var1 + var2);
    (ToS32(ToS32(tFine * 5) + 128) / 256, tFine)
  }

  /** Every intermediate result of the temperature formula fits 32 bits. */
  predicate TempFits(c: Calib, adc: int) {
    && S32(c.t1 * 2) && S32(TempA(c, adc)) && S32(Linear(c, adc))
    && S32(TempB(c, adc)) && S32(Square(TempB(c, adc))) && S32(Quadratic(c, adc))
    && S32(TFine(c, adc)) && S32(TFine(c, adc) * 5) && S32(TFine(c, adc) * 5 + 128)
  }

  /** If nothing overflows the C function computes the formula. */
  lemma TempNoWrap(c: Calib, adc: int)
    requires TempFits(c, adc)
    ensures CompensateTemp(c, adc) == (Temp(c, adc), TFine(c, adc))
  {
    var a, b := TempA(c, adc), TempB(c, adc);
    assert ToS32(adc / 8 - ToS32(c.t1 * 2)) == a by { WrapIff(c.t1 * 2); WrapIff(a); }
    assert ToS32(a * c.t2) == Linear(c, adc) by { WrapIff(Linear(c, adc)); }
    assert ToS32(adc / 16 - c.t1) == b by { WrapIff(b); }
    assert ToS32(b * b) == Square(b) by { WrapIff(Square(b)); }
    assert ToS32(Square(b) / 4096 * c.t3) == Quadratic(c, adc) by { WrapIff(Quadratic(c, adc)); }
    WrapIff(TFine(c, adc));
    WrapIff(TFine(c, adc) * 5);
    WrapIff(TFine(c, adc) * 5 + 128);
  }

  /** Of the nine intermediates only three products can overflow. */
  lemma TempFitsIff(c: Calib, adc: int)
    requires IsCalib(c) && Adc20(adc)
    ensures TempFits(c, adc) <==>
      S32(Linear(c, adc)) && -46340 <= TempB(c, adc) <= 46340 && S32(Quadratic(c, adc))
  {
    SquareFitsIff(TempB(c, adc));
  }

  lemma SquareFitsIff(b: int)
    ensures S32(Square(b)) <==> -46340 <= b <= 46340
  {
    if -46340 <= b <= 46340 {
      MulBound(b, b, 46340, 46340);
    } else if b > 46340 {
      assert (b - 46341) * b >= 0;
    } else {
      assert (b + 46341) * b >= 0;
    }
  }

  /** Calibration and reading for which the formula is meant: at most 65535 linear steps from the
      reference point and a quadratic coefficient below 2^13. */
  predicate TempEnvelope(c: Calib, adc: int) {
    IsCalib(c) && Adc20(adc) && -65535 <= TempA(c, adc) <= 65535 && -8191 <= c.t3 <= 8191
  }

  lemma TempBRange(c: Calib, adc: int)
    requires -65535 <= TempA(c, adc) <= 65535
    ensures -32768 <= TempB(c, adc) <= 32767
  {
  }

  lemma SquareBound(b: int)
    requires -32768 <= b <= 32768
    ensures 0 <= Square(b) <= 0x4000_0000
  {
    MulBound(b, b, 32768, 32768);
    assert b * b >= 0;
  }

  lemma QuadraticBound(c: Calib, adc: int)
    requires TempEnvelope(c, adc)
    ensures S32(Quadratic(c, adc))
  {
    TempBRange(c, adc);
    SquareBound(TempB(c, adc));
    MulBound(Square(TempB(c, adc)) / 4096, c.t3, 262144, 8191);
  }

  /** Inside the envelope no 32-bit operation overflows. */
  lemma TempInEnvelope(c: Calib, adc: int)
    requires TempEnvelope(c, adc)
    ensures TempFits(c, adc)
    ensures CompensateTemp(c, adc) == (Temp(c, adc), TFine(c, adc))
  {
    MulBound(TempA(c, adc), c.t2, 65535, 32768);
    TempBRange(c, adc);
    QuadraticBound(c, adc);
    TempFitsIff(c, adc);
    TempNoWrap(c, adc);
  }

  /** Outside it the result can be wrong: a calibration word the registers can hold. */
  lemma TempCanWrap()
    ensures exists c, adc :: IsCalib(c) && Adc20(adc) && CompensateTemp(c, adc).0 != Temp(c, adc)
  {
    var c, adc := Calib(0, 32767, 0, 0, 0, 0, 0, 0, 0, 0, 0, 0), 0xf_ffff;
    assert TempA(c, adc) == 131071 && TempB(c, adc) == 65535;
    assert Linear(c, adc) == 4294803457 && ToS32(4294803457) == -163839;
    assert Quadratic(c, adc) == 0;
    assert TFine(c, adc) == 2097072;
    assert CompensateTemp(c, adc).1 == -80;
  }

  // ----- accuracy

  /** The datasheet's formula over the reals, in hundredths of a degree. */
  function ExactTemp(c: Calib, adc: int): real {
    var u := adc as real / 16384.0 - c.t1 as real / 1024.0;
    var v := adc as real / 131072.0 - c.t1 as real / 8192.0;
    (u * c.t2 as real + v * v * c.t3 as real) * 5.0 / 256.0
  }

  /** ADC counts above the reference point; the formula depends on the reading only through it. */
  function Counts(c: Calib, adc: int): int { adc - 16 * c.t1 }

  /** 2^34 times the exact t_fine. */
  function Fine34(c: Calib, adc: int): int {
    0x10_0000 * (Counts(c, adc) * c.t2) + Square(Counts(c, adc)) * c.t3
  }

  lemma {:induction false} RealProductNat(a: int, b: nat)
    ensures (a * b) as real == a as real * b as real
    decreases b
  {
    if b == 0 {
    } else {
      RealProductNat(a, b - 1);
      assert a * b == a * (b - 1) + a;
      assert a as real * b as real == a as real * (b - 1) as real + a as real;
    }
  }

  lemma RealProduct(a: int, b: int)
    ensures (a * b) as real == a as real * b as real
  {
    if b >= 0 {
      RealProductNat(a, b);
    } else {
      RealProductNat(a, -b);
      assert a * b == -(a * -b);
      assert a as real * b as real == -(a as real * (-b) as real);
    }
  }

  lemma ExactIsFine34(c: Calib, adc: int)
    ensures ExactTemp(c, adc) == Fine34(c, adc) as real * 5.0 / 256.0 / 17179869184.0
  {
    var n := Counts(c, adc);
    var nr, t2, t3 := n as real, c.t2 as real, c.t3 as real;
    assert adc as real / 16384.0 - c.t1 as real / 1024.0 == nr / 16384.0;
    assert adc as real / 131072.0 - c.t1 as real / 8192.0 == nr / 131072.0;
    RealProduct(n, c.t2);
    RealProduct(n, n);
    RealProduct(n * n, c.t3);
    assert Fine34(c, adc) as real == 1048576.0 * (nr * t2) + nr * nr * t3;
    ScaledTerms(nr, t2, t3);
  }

  lemma ScaledTerms(n: real, t2: real, t3: real)
    ensures n / 16384.0 * t2 == n * t2 / 16384.0
    ensures (n / 131072.0) * (n / 131072.0) * t3 == n * n * t3 / 17179869184.0
  {
    assert (n / 131072.0) * (n / 131072.0) == n * n / 17179869184.0;
    assert n * n / 17179869184.0 * t3 == n * n * t3 / 17179869184.0;
  }

  /** Error of the linear term, in 2^-14 units of t_fine. */
  lemma LinearError(c: Calib, adc: int)
    requires S16(c.t2)
    ensures var e := Counts(c, adc) * c.t2 - 16384 * (Linear(c, adc) / 2048);
      -14 * 16384 <= e < 15 * 16384
  {
    var n, a := Counts(c, adc), TempA(c, adc);
    var e1 := n - 8 * a;
    assert 0 <= e1 <= 7;
    MulBound(e1, c.t2, 7, 32768);
    assert n * c.t2 == 8 * (a * c.t2) + e1 * c.t2 by {
      assert n == 8 * a + e1;
    }
    assert e1 * c.t2 <= 7 * 32767 by {
      assert e1 * (32767 - c.t2) >= 0;
    }
  }

  /** Error of the quadratic term, in 2^-34 units of t_fine. */
  lemma QuadraticError(c: Calib, adc: int)
    requires TempEnvelope(c, adc)
    ensures var e := Square(Counts(c, adc)) * c.t3 - 17179869184 * (Quadratic(c, adc) / 16384);
      -8 * 17179869184 < e < 9 * 17179869184
  {
    var n, b := Counts(c, adc), TempB(c, adc);
    TempBRange(c, adc);
    SquareBound(b);
    var e2 := n - 16 * b;
    assert 0 <= e2 <= 15;
    var r := Square(b) / 4096;
    var g := Square(b) - 4096 * r;
    var h := 32 * (b * e2) + e2 * e2;
    MulBound(b, e2, 32768, 15);
    MulBound(e2, e2, 15, 15);
    assert Square(n) == 256 * Square(b) + h by {
      SquareOfSum(b, e2);
    }
    var k := 256 * g + h;
    assert Square(n) == 0x10_0000 * r + k;
    MulBound(k, c.t3, 16777216, 8191);
    assert Square(n) * c.t3 == 0x10_0000 * (r * c.t3) + k * c.t3 by {
      Distribute(r, k, c.t3);
    }
    assert 0 <= r * c.t3 - 16384 * (r * c.t3 / 16384) <= 16383;
  }

  lemma SquareOfSum(b: int, e: int)
    ensures Square(16 * b + e) == 256 * Square(b) + (32 * (b * e) + e * e)
  {
  }

  lemma Distribute(r: int, k: int, t: int)
    ensures (0x10_0000 * r + k) * t == 0x10_0000 * (r * t) + k * t
  {
  }

  lemma FineError(c: Calib, adc: int)
    requires TempEnvelope(c, adc)
    ensures -22 * 17179869184 < Fine34(c, adc) - 17179869184 * TFine(c, adc) < 24 * 17179869184
  {
    LinearError(c, adc);
    QuadraticError(c, adc);
    ErrorSum(Counts(c, adc) * c.t2, Square(Counts(c, adc)) * c.t3, Linear(c, adc) / 2048, Quadratic(c, adc) / 16384);
  }

  lemma ErrorSum(l: int, q: int, var1: int, var2: int)
    requires -14 * 16384 <= l - 16384 * var1 < 15 * 16384
    requires -8 * 17179869184 < q - 17179869184 * var2 < 9 * 17179869184
    ensures -22 * 17179869184 < 0x10_0000 * l + q - 17179869184 * (var1 + var2) < 24 * 17179869184
  {
  }

  /** All shifts together cost less than one hundredth of a degree. */
  lemma TempAccuracy(c: Calib, adc: int)
    requires TempEnvelope(c, adc)
    ensures -0.97 < CompensateTemp(c, adc).0 as real - ExactTemp(c, adc) < 0.94
  {
    TempInEnvelope(c, adc);
    FineError(c, adc);
    ExactIsFine34(c, adc);
    var tf, f := TFine(c, adc), Fine34(c, adc);
    var t := Centi(tf);
    assert 5 * tf - 127 <= 256 * t <= 5 * tf + 128;
    var scaled := 4398046511104 * t - 5 * f;
    assert -0.97 * 4398046511104.0 < scaled as real < 0.94 * 4398046511104.0;
    assert t as real - ExactTemp(c, adc) == scaled as real / 4398046511104.0;
  }

  // ----- monotonicity

  lemma LinearStep(c: Calib, adc: int)
    requires c.t2 >= 16384
    ensures TempA(c, adc + 1) == TempA(c, adc) ==>
      Linear(c, adc + 1) / 2048 == Linear(c, adc) / 2048
    ensures TempA(c, adc + 1) == TempA(c, adc) + 1 ==>
      Linear(c, adc + 1) / 2048 >= Linear(c, adc) / 2048 + 8
  {
    var a := TempA(c, adc);
    assert (a + 1) * c.t2 == a * c.t2 + c.t2;
  }

  lemma QuadraticStep(c: Calib, adc: int)
    requires -32768 <= TempB(c, adc) && TempB(c, adc) + 1 <= 32767 && -8191 <= c.t3 <= 8191
    requires TempB(c, adc + 1) == TempB(c, adc) + 1
    ensures Quadratic(c, adc + 1) / 16384 >= Quadratic(c, adc) / 16384 - 8
  {
    var b := TempB(c, adc);
    assert Square(b + 1) == Square(b) + 2 * b + 1;
    var r, r' := Square(b) / 4096, Square(b + 1) / 4096;
    assert -16 <= r' - r <= 16;
    MulBound(r' - r, c.t3, 16, 8191);
    assert r' * c.t3 == r * c.t3 + (r' - r) * c.t3;
  }

  /** One count more is one linear step more, one of each more, or neither. */
  lemma CountStep(adc: int)
    ensures (adc + 1) / 16 == adc / 16 || ((adc + 1) / 16 == adc / 16 + 1 && (adc + 1) / 8 == adc / 8 + 1)
    ensures (adc + 1) / 8 == adc / 8 || (adc + 1) / 8 == adc / 8 + 1
  {
    assert adc / 16 == adc / 8 / 2;
  }

  lemma FineStep(c: Calib, adc: int)
    requires TempEnvelope(c, adc) && TempEnvelope(c, adc + 1) && c.t2 >= 16384
    ensures TFine(c, adc) <= TFine(c, adc + 1)
  {
    CountStep(adc);
    LinearStep(c, adc);
    TempBRange(c, adc);
    TempBRange(c, adc + 1);
    if TempB(c, adc + 1) == TempB(c, adc) + 1 {
      QuadraticStep(c, adc);
    } else {
      assert Quadratic(c, adc + 1) == Quadratic(c, adc);
    }
  }

  /** A higher reading never gives a lower temperature, for a linear coefficient of at least
      2^14: where the floored quadratic term can fall by 8, the linear one rises by 8. */
  lemma {:induction false} TempMonotone(c: Calib, low: int, high: int)
    requires TempEnvelope(c, low) && TempEnvelope(c, high) && low <= high && c.t2 >= 16384
    ensures CompensateTemp(c, low).0 <= CompensateTemp(c, high).0
    ensures CompensateTemp(c, low).1 <= CompensateTemp(c, high).1
    decreases high - low
  {
    TempInEnvelope(c, low);
    TempInEnvelope(c, high);
    if low < high {
      TempMonotone(c, low + 1, high);
      TempInEnvelope(c, low + 1);
      FineStep(c, low);
    }
  }
}
