/** Products and quotients of integers, where the solver needs a hand. */
module Arithmetic {

  const TWO32: nat := 0x1_0000_0000

  lemma FloorBounds(x: real)
    ensures x.Floor as real <= x < x.Floor as real + 1.0
  {
  }

  lemma MulGap(k: int, n: int)
    requires k >= 1 && n > 0
    ensures k * n >= n
  {
  }

  lemma MulOrder(k: int, m: int, n: int)
    requires n > 0
    ensures k <= m ==> k * n <= m * n
  {
    if k <= m {
      assert (m - k) * n >= 0;
    }
  }

  /** Quotient and remainder are determined by their defining equation. */
  lemma SplitUnique(n: int, q: int, r: int, q': int, r': int)
    requires q * n + r == q' * n + r' && 0 <= r < n && 0 <= r' < n
    ensures q == q' && r == r'
  {
    assert (q - q') * n == r' - r;
    if q > q' {
      MulGap(q - q', n);
    } else if q < q' {
      MulGap(q' - q, n);
    }
  }

  lemma DivModUnique(a: int, n: int, q: int, r: int)
    requires n > 0 && a == q * n + r && 0 <= r < n
    ensures a / n == q && a % n == r
  {
    SplitUnique(n, q, r, a / n, a % n);
  }

  /** Reducing a summand first does not change the remainder of a sum. */
  lemma ModuloOfSum(a: int, m: int, n: int)
    requires n > 0
    ensures (a % n + m) % n == (a + m) % n
  {
    var x := a % n + m;
    var q, q' := a / n, x / n;
    assert a + m == (q + q') * n + x % n by {
      assert (q + q') * n == q * n + q' * n;
    }
    DivModUnique(a + m, n, q + q', x % n);
  }

  lemma QuotientBelow(a: int, n: int, k: int)
    requires n > 0 && 0 <= a < k * n
    ensures 0 <= a / n < k
  {
    MulOrder(k, a / n, n);
  }

  lemma QuotientOrder(a: int, b: int, n: int)
    requires n > 0 && a <= b
    ensures a / n <= b / n
  {
    var x, y := a / n, b / n;
    MulOrder(y + 1, x, n);
    assert (y + 1) * n == y * n + n;
  }

  lemma ProductRange(a: int, b: int, a0: int, a1: int, b0: int, b1: int)
    requires 0 <= a0 <= a <= a1 && 0 <= b0 <= b <= b1
    ensures a0 * b0 <= a * b <= a1 * b1
  {
    assert (a - a0) * b >= 0 && a0 * (b - b0) >= 0;
    assert (a1 - a) * b >= 0 && a1 * (b1 - b) >= 0;
  }

  lemma MulBound(a: int, b: int, m: int, n: int)
    requires -m <= a <= m && -n <= b <= n
    ensures -(m * n) <= a * b <= m * n
  {
    var x, y := if a < 0 then -a else a, if b < 0 then -b else b;
    ProductRange(x, y, 0, m, 0, n);
    assert a * b == x * y || a * b == -(x * y);
  }

  // ----- reals

  lemma TimesNonNegative(a: real, b: real)
    requires a >= 0.0 && b >= 0.0
    ensures a * b >= 0.0
  {
  }

  lemma TimesBelow(s: real, r: real, g: real)
    requires s <= r && g >= 0.0
    ensures s * g <= r * g
  {
    TimesNonNegative(r - s, g);
  }

  lemma TimesPositive(a: real, b: real)
    requires a > 0.0 && b > 0.0
    ensures a * b > 0.0
  {
  }

  lemma DifferenceOfSquares(s: real, r: real)
    ensures (s - r) * (s + r) == s * s - r * r
  {
  }

  lemma SquareMonotone(a: real, b: real)
    requires 0.0 <= a <= b
    ensures a * a <= b * b
  {
    TimesNonNegative(b - a, b + a);
    DifferenceOfSquares(b, a);
  }

  lemma SquareOrder(s: real, r: real)
    requires r >= 0.0
    ensures s * s <= r * r ==> s <= r
  {
    if s > r {
      TimesPositive(s - r, s + r);
      DifferenceOfSquares(s, r);
    }
  }
}
