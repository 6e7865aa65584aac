/** The drive cycle of the transmitter and its odometer: at which tick rates it moves at all. */
module DriveCycle {
  import opened Arithmetic
  import opened CanTelemetry

  // ----- the two sines together

  /** sin 6x from s = sin x and c = cos x. */
  function SixFold(s: real, c: real): real {
    2.0 * (3.0 * s - 4.0 * (s * s * s)) * (4.0 * (c * c * c) - 3.0 * c)
  }

  ghost predicate OnCycle(s: real, c: real, f: real) {
    s * s + c * c == 1.0 && f == SixFold(s, c)
  }

  /** The two sines of the drive cycle belong together: the fast one has six times the phase. */
  ghost predicate Linked(w: Wave) {
    exists c :: OnCycle(w.slow, c, w.fast)
  }

  lemma SixFoldNearPeak(s: real, c: real)
    requires s * s + c * c == 1.0
    ensures SixFold(s, c) == 2.0 * (s * c) * ((1.0 - 4.0 * (c * c)) * (3.0 - 4.0 * (c * c)))
  {
    var y := c * c;
    assert s * s * s == s * (1.0 - y) && c * c * c == c * y;
    assert 3.0 * s - 4.0 * (s * s * s) == s * (4.0 * y - 1.0);
    assert 4.0 * (c * c * c) - 3.0 * c == c * (4.0 * y - 3.0);
    ProductOfFour(s, c, 4.0 * y - 1.0, 4.0 * y - 3.0);
  }

  lemma ProductOfFour(s: real, c: real, m: real, n: real)
    ensures 2.0 * (s * m) * (c * n) == 2.0 * (s * c) * (-m * -n)
  {
  }

  lemma CosineBelow(s: real, c: real)
    requires s * s + c * c == 1.0 && s >= 0.0
    ensures s <= 1.0 - c * c * 0.5
  {
    var y, r := c * c, 1.0 - c * c * 0.5;
    assert y <= 1.0 && y >= 0.0 by { assert s * s >= 0.0 && c * c >= 0.0; }
    assert r * r == 1.0 - y + y * y * 0.25;
    TimesNonNegative(y, y);
    SquareOrder(s, r);
  }

  /** A cubic that stays below 31.3: its graph touches that height near c = 0.234 only. */
  lemma CubicBelow(c: real, c2: real, c3: real)
    requires c >= 0.0 && c2 == c * c && c3 == c * c2 && c <= 1.0
    ensures 24.0 + 48.0 * c - 12.0 * c2 - 257.92 * c3 <= 31.3
  {
    var d := c - 0.234;
    assert d * d >= 0.0;
    TimesNonNegative(d * d, 257.92 * c + 132.7);
    assert d * d == c2 - 0.468 * c + 0.054756;
    assert d * d * c == c3 - 0.468 * c2 + 0.054756 * c;
  }

  /** The second factor of the height, multiplied out. */
  lemma PeakFactor(c: real, c2: real, c3: real, c5: real)
    requires c3 == c * c2 && c5 == c3 * c2
    ensures c * ((1.0 - 4.0 * c2) * (3.0 - 4.0 * c2)) == 3.0 * c - 16.0 * c3 + 16.0 * c5
  {
    var c4 := c2 * c2;
    assert (1.0 - 4.0 * c2) * (3.0 - 4.0 * c2) == 3.0 - 16.0 * c2 + 16.0 * c4;
    assert c * c4 == c5;
  }

  lemma PeakProduct(c: real, c2: real, c3: real, c5: real, c7: real, g: real)
    requires c3 == c2 * c && c5 == c2 * c3 && c7 == c2 * c5
    requires g == 24.0 + 48.0 * c - 256.0 * c3 + 256.0 * c5
    ensures (1.0 - c2 * 0.5) * g == 24.0 + 48.0 * c - 12.0 * c2 - 280.0 * c3 + 384.0 * c5 - 128.0 * c7
  {
    assert c2 * g == 24.0 * c2 + 48.0 * (c2 * c) - 256.0 * (c2 * c3) + 256.0 * (c2 * c5);
  }

  lemma OddPowers(c: real, c2: real, c3: real, c5: real, c7: real)
    requires c >= 0.0 && 0.0 <= c2 <= 0.0575 && c3 == c * c2 && c5 == c3 * c2 && c7 == c5 * c2
    ensures c7 >= 0.0 && c5 <= 0.0575 * c3
  {
    TimesNonNegative(c, c2);
    TimesNonNegative(c3, c2);
    TimesNonNegative(c5, c2);
    TimesNonNegative(c3, 0.0575 - c2);
  }

  lemma QuinticSum(c: real, c2: real, c3: real, c5: real, c7: real)
    requires c7 >= 0.0 && c5 <= 0.0575 * c3 && 24.0 + 48.0 * c - 12.0 * c2 - 257.92 * c3 <= 31.3
    ensures 24.0 + 48.0 * c - 12.0 * c2 - 280.0 * c3 + 384.0 * c5 - 128.0 * c7 <= 31.3
  {
  }

  lemma QuinticBelow(c: real, c2: real, c3: real, c5: real, g: real)
    requires 0.0 <= c <= 1.0 && c2 == c * c && 0.0 <= c2 <= 0.0575 && c3 == c * c2 && c5 == c3 * c2
    requires g == 24.0 + 48.0 * c - 256.0 * c3 + 256.0 * c5
    ensures (1.0 - c2 * 0.5) * g <= 31.3
  {
    var c7 := c5 * c2;
    PeakProduct(c, c2, c3, c5, c7, g);
    OddPowers(c, c2, c3, c5, c7);
    CubicBelow(c, c2, c3);
    QuinticSum(c, c2, c3, c5, c7);
  }

  /** On the cycle the two sines never peak together. */
  lemma CyclePeak(s: real, c: real, f: real)
    requires OnCycle(s, c, f) && f <= 1.0
    ensures 24.0 * s + 8.0 * f <= 31.3
  {
    if s * 24.0 > 23.3 {
      var c2 := c * c;
      assert c2 <= 0.0575 by { assert (s - 23.3 / 24.0) * (s + 23.3 / 24.0) >= 0.0; }
      assert c2 >= 0.0;
      SquareOrder(s, 1.0);
      SquareOrder(c, 1.0);
      SixFoldNearPeak(s, c);
      var m := (1.0 - 4.0 * c2) * (3.0 - 4.0 * c2);
      TimesNonNegative(1.0 - 4.0 * c2, 3.0 - 4.0 * c2);
      if c <= 0.0 {
        TimesNonNegative(s, -c);
        TimesNonNegative(s * -c, m);
      } else {
        PeakRight(s, c, c2, m);
      }
    }
  }

  lemma PeakRight(s: real, c: real, c2: real, m: real)
    requires 0.0 <= s <= 1.0 && 0.0 <= c <= 1.0 && s * s + c * c == 1.0
    requires c2 == c * c <= 0.0575 && m == (1.0 - 4.0 * c2) * (3.0 - 4.0 * c2) >= 0.0
    ensures 24.0 * s + 8.0 * (2.0 * (s * c) * m) <= 31.3
  {
    CosineBelow(s, c);
    TimesNonNegative(c, c);
    PeakBelow(s, c, c2, c * c2, c * c2 * c2, m);
    PeakTerms(s, c, m);
  }

  lemma PeakBelow(s: real, c: real, c2: real, c3: real, c5: real, m: real)
    requires s <= 1.0 - c2 * 0.5 && 0.0 <= c <= 1.0 && c2 == c * c && 0.0 <= c2 <= 0.0575
    requires c3 == c * c2 && c5 == c3 * c2 && m == (1.0 - 4.0 * c2) * (3.0 - 4.0 * c2) >= 0.0
    ensures s * (24.0 + 16.0 * (c * m)) <= 31.3
  {
    TimesNonNegative(c, m);
    PeakFactor(c, c2, c3, c5);
    var g := 24.0 + 16.0 * (c * m);
    TimesBelow(s, 1.0 - c2 * 0.5, g);
    QuinticBelow(c, c2, c3, c5, g);
  }

  lemma PeakTerms(s: real, c: real, m: real)
    ensures s * (24.0 + 16.0 * (c * m)) == 24.0 * s + 8.0 * (2.0 * (s * c) * m)
  {
  }

  /** So the speed stays below the 54 km/h its two amplitudes would allow. */
  lemma CycleSpeed(w: Wave)
    requires IsWave(w) && Linked(w)
    ensures 0.0 <= Speed(w) <= 53.3
  {
    var c :| OnCycle(w.slow, c, w.fast);
    CyclePeak(w.slow, c, w.fast);
  }

  // ----- fast ticks

  /** From 14.81 ticks a second on, no tick moves the odometer ... */
  lemma TickFrozen(w: Wave, hz: real)
    requires IsWave(w) && Linked(w) && Rate(hz) >= 14.81
    ensures WholeMetres(w, hz) == 0
  {
    CycleSpeed(w);
    var r := Rate(hz);
    DivideRange(Speed(w) / 3.6, 14.809, r);
    assert 14.809 / r * r == 14.809;
    assert 14.809 / r < 1.0;
  }

  /** ... so it reads 0 for the whole run. */
  lemma {:induction false} OdometerFrozen(ticks: seq<Wave>, hz: real, n: nat)
    requires n <= |ticks| && Rate(hz) >= 14.81
    requires forall i :: 0 <= i < |ticks| ==> IsWave(ticks[i]) && Linked(ticks[i])
    ensures Odometer(ticks, hz, n) == 0
  {
    if n == 0 {
    } else {
      OdometerFrozen(ticks, hz, n - 1);
      TickFrozen(ticks[n - 1], hz);
    }
  }

  // ----- slower ticks

  /** One tick turns the phase (sine and cosine) by a fixed angle. */
  function Turn(p: (real, real), st: real, ct: real): (real, real) {
    (p.0 * ct + p.1 * st, p.1 * ct - p.0 * st)
  }

  /** Sine and cosine of the slow phase at tick `k`, from 0. */
  function Phase(st: real, ct: real, k: nat): (real, real) {
    if k == 0 then (0.0, 1.0) else Turn(Phase(st, ct, k - 1), st, ct)
  }

  /** Sine and cosine of a positive angle of at most 0.15 / rate, below a quarter turn. */
  ghost predicate IsStep(st: real, ct: real, hz: real) {
    st * st + ct * ct == 1.0 && 0.0 < st <= 0.15 / Rate(hz) && ct > 0.0
  }

  /** The two sines at a phase. */
  ghost predicate At(w: Wave, p: (real, real)) {
    w.slow == p.0 && w.fast == SixFold(p.0, p.1)
  }

  ghost predicate OnUnit(p: (real, real)) {
    p.0 * p.0 + p.1 * p.1 == 1.0
  }

  /** The ticks of a run: the phase advances by the same angle every time. */
  ghost predicate Driven(ticks: seq<Wave>, st: real, ct: real) {
    forall k :: 0 <= k < |ticks| ==> IsWave(ticks[k]) && At(ticks[k], Phase(st, ct, k))
  }

  lemma TurnKeepsCircle(s: real, c: real, st: real, ct: real)
    requires s * s + c * c == 1.0 && st * st + ct * ct == 1.0
    ensures var (s', c') := Turn((s, c), st, ct); s' * s' + c' * c' == 1.0
  {
    var s', c' := s * ct + c * st, c * ct - s * st;
    assert s' * s' + c' * c' == (s * s + c * c) * (st * st + ct * ct);
  }

  lemma {:induction false} PhaseOnCircle(st: real, ct: real, k: nat)
    requires st * st + ct * ct == 1.0
    ensures OnUnit(Phase(st, ct, k))
  {
    if k > 0 {
      PhaseOnCircle(st, ct, k - 1);
      var (s, c) := Phase(st, ct, k - 1);
      TurnKeepsCircle(s, c, st, ct);
    }
  }

  // ----- the height of the cycle near its peak

  /** The window of cosines around the peak that no step can jump over. */
  predicate InWindow(c: real) { 0.225 <= c <= 0.2505 }

  lemma WindowProduct(c: real)
    requires InWindow(c)
    ensures c * c <= 0.4755 * c - 0.0563625
  {
    TimesNonNegative(c - 0.225, 0.2505 - c);
  }

  /** On the window the sine stays above a chord of the circle ... */
  lemma SineAbove(s: real, c: real)
    requires s >= 0.0 && s * s + c * c == 1.0 && InWindow(c)
    ensures s >= 1.02938 - 0.2448 * c
  {
    var l := 1.02938 - 0.2448 * c;
    WindowProduct(c);
    assert l * l == 1.0596231844 - 0.503984448 * c + 0.05992704 * (c * c);
    SquareOrder(l, s);
  }

  /** ... and the other factor of the height above a chord of its own. */
  lemma FactorAbove(c: real, c2: real, c3: real, c5: real)
    requires InWindow(c) && c2 == c * c && c3 == c * c2 && c5 == c3 * c2
    ensures 24.0 + 48.0 * c - 256.0 * c3 + 256.0 * c5 >= 30.083 + 8.66 * c
  {
    WindowProduct(c);
    SmallPowers(c, c2, c3);
    var r := 107.927057568 + 212.547136 * c - 121.728 * c2 - 256.0 * c3;
    TimesNonNegative((c - 0.225) * (0.2505 - c), r);
    FactorDivided(c, c2, c3, c5, r);
  }

  lemma SmallPowers(c: real, c2: real, c3: real)
    requires InWindow(c) && c2 == c * c && c3 == c * c2
    ensures (c - 0.225) * (0.2505 - c) >= 0.0
    ensures 107.927057568 + 212.547136 * c - 121.728 * c2 - 256.0 * c3 >= 0.0
  {
    TimesNonNegative(c - 0.225, 0.2505 - c);
    TimesBelow(c, 0.2505, c);
    TimesNonNegative(c, c);
    TimesBelow(c, 0.2505, c2);
  }

  /** Division with remainder by the product that vanishes at the ends of the window. */
  lemma FactorDivided(c: real, c2: real, c3: real, c5: real, r: real)
    requires c2 == c * c && c3 == c * c2 && c5 == c3 * c2
    requires r == 107.927057568 + 212.547136 * c - 121.728 * c2 - 256.0 * c3
    ensures 24.0 + 48.0 * c - 256.0 * c3 + 256.0 * c5 - (c - 0.225) * (0.2505 - c) * r
         == 30.0830387821764 + 8.660372079216 * c
  {
    var c4 := c * c3;
    assert c * r == 107.927057568 * c + 212.547136 * c2 - 121.728 * c3 - 256.0 * c4;
    assert c2 * r == 107.927057568 * c2 + 212.547136 * c3 - 121.728 * c4 - 256.0 * c5;
    assert (c - 0.225) * (0.2505 - c) == 0.4755 * c - c2 - 0.0563625;
    Spread(c, c2, r);
  }

  lemma Spread(c: real, c2: real, r: real)
    ensures (0.4755 * c - c2 - 0.0563625) * r == 0.4755 * (c * r) - c2 * r - 0.0563625 * r
  {
  }

  /** So on the window the height is at least 31.172. */
  lemma WindowHeight(s: real, c: real)
    requires s >= 0.0 && s * s + c * c == 1.0 && InWindow(c)
    ensures 24.0 * s + 8.0 * SixFold(s, c) >= 31.172
  {
    SineAbove(s, c);
    var m := FastFactor(c);
    HeightOf(s, c, m);
    FastProduct(s, c, m);
  }

  lemma FastFactor(c: real) returns (m: real)
    requires InWindow(c)
    ensures m == (1.0 - 4.0 * (c * c)) * (3.0 - 4.0 * (c * c))
    ensures 24.0 + 16.0 * (c * m) >= 30.083 + 8.66 * c
  {
    var c2 := c * c;
    m := (1.0 - 4.0 * c2) * (3.0 - 4.0 * c2);
    WindowFactor(c, c2, c * c2, c * c2 * c2, m);
  }

  lemma FastProduct(s: real, c: real, m: real)
    requires s * s + c * c == 1.0 && m == (1.0 - 4.0 * (c * c)) * (3.0 - 4.0 * (c * c))
    ensures SixFold(s, c) == 2.0 * (s * c) * m
  {
    SixFoldNearPeak(s, c);
  }

  lemma HeightOf(s: real, c: real, m: real)
    requires InWindow(c) && s >= 1.02938 - 0.2448 * c && 24.0 + 16.0 * (c * m) >= 30.083 + 8.66 * c
    ensures 24.0 * s + 8.0 * (2.0 * (s * c) * m) >= 31.172
  {
    PeakTerms(s, c, m);
    HeightAbove(s, c, 24.0 + 16.0 * (c * m));
  }

  lemma WindowFactor(c: real, c2: real, c3: real, c5: real, m: real)
    requires InWindow(c) && c2 == c * c && c3 == c * c2 && c5 == c3 * c2
    requires m == (1.0 - 4.0 * c2) * (3.0 - 4.0 * c2)
    ensures 24.0 + 16.0 * (c * m) >= 30.083 + 8.66 * c
  {
    FactorAbove(c, c2, c3, c5);
    PeakFactor(c, c2, c3, c5);
  }

  lemma HeightAbove(s: real, c: real, g: real)
    requires InWindow(c) && s >= 1.02938 - 0.2448 * c && g >= 30.083 + 8.66 * c
    ensures s * g >= 31.172
  {
    var l, q := 1.02938 - 0.2448 * c, 30.083 + 8.66 * c;
    WindowProduct(c);
    TimesBelow(l, s, g);
    TimesBelow(q, g, l);
    assert l * q == 30.96683854 + 1.5501124 * c - 2.119968 * (c * c);
    assert l * g == g * l && q * l == l * q;
  }

  // ----- every run comes by

  /** A step small enough not to jump over the window. */
  ghost predicate SmallStep(st: real, ct: real) {
    st * st + ct * ct == 1.0 && 0.0 < st <= 0.02455 && ct > 0.0
  }

  lemma CosineNearOne(st: real, ct: real)
    requires SmallStep(st, ct)
    ensures 0.9993 <= ct <= 1.0
  {
    SquareMonotone(st, 0.02455);
    SquareOrder(ct, 1.0);
    SquareOrder(0.9993, ct);
  }

  lemma CosineStep(s: real, c: real, st: real, ct: real, q: real)
    requires st <= s <= 1.0 && c > 0.2505 && 0.0 < st <= 0.02455 && 0.9993 <= ct <= 1.0 && q == st * st
    ensures 0.225 <= c * ct - s * st <= c - q
  {
    var a := Between(ct, 0.9993, 1.0, c);
    var b := Between(s, st, 1.0, st);
    assert c * ct == a && s * st == b;
  }

  lemma Between(x: real, low: real, high: real, g: real) returns (p: real)
    requires low <= x <= high && g >= 0.0
    ensures p == x * g && low * g <= p <= high * g
  {
    TimesBelow(low, x, g);
    TimesBelow(x, high, g);
    p := x * g;
  }

  /** The square as a value of its own. */
  lemma SquareOf(st: real) returns (q: real)
    requires st > 0.0
    ensures q == st * st && q > 0.0
  {
    q := PositiveProduct(st, st);
  }

  lemma PositiveProduct(a: real, b: real) returns (p: real)
    requires a > 0.0 && b > 0.0
    ensures p == a * b && p > 0.0
  {
    p := a * b;
  }

  lemma SineStep(s: real, c: real, st: real, ct: real)
    requires s >= 0.0 && c >= 0.0 && st >= 0.0 && ct >= 0.0
    ensures s * ct + c * st >= 0.0
  {
    TimesNonNegative(s, ct);
    TimesNonNegative(c, st);
  }

  lemma SineAtMostOne(s: real, c: real)
    requires s * s + c * c == 1.0
    ensures s <= 1.0
  {
    assert c * c >= 0.0;
    SquareOrder(s, 1.0);
  }

  /** Left of the window a step brings the phase closer by at least the square of the sine, without
      passing the window. */
  lemma StepTowards(s: real, c: real, st: real, ct: real, q: real)
    requires SmallStep(st, ct) && s * s + c * c == 1.0 && s >= st && c > 0.2505 && q == st * st && q > 0.0
    ensures var (s', c') := Turn((s, c), st, ct); 0.225 <= c' <= c - q && s' >= s
  {
    CosineNearOne(st, ct);
    SineAtMostOne(s, c);
    CosineStep(s, c, st, ct, q);
    SineStep(s, c, st, ct);
    TurnKeepsCircle(s, c, st, ct);
    CosineFalls(s, c, s * ct + c * st, c * ct - s * st);
  }

  lemma CosineFalls(s: real, c: real, s': real, c': real)
    requires s * s + c * c == 1.0 && s' * s' + c' * c' == 1.0 && 0.0 <= c' <= c && s' >= 0.0
    ensures s' >= s
  {
    SquareMonotone(c', c);
    SquareOrder(s, s');
  }

  lemma PhaseTowards(st: real, ct: real, q: real, k: nat)
    requires SmallStep(st, ct) && q == st * st && q > 0.0
    requires Phase(st, ct, k).0 >= st && 0.2505 < Phase(st, ct, k).1
    ensures 0.225 <= Phase(st, ct, k + 1).1 <= Phase(st, ct, k).1 - q
    ensures Phase(st, ct, k + 1).0 >= st
  {
    var (s, c) := Phase(st, ct, k);
    PhaseOnCircle(st, ct, k);
    StepTowards(s, c, st, ct, q);
  }

  lemma {:induction false} ReachWindow(st: real, ct: real, q: real, k: nat, steps: nat) returns (n: nat)
    requires SmallStep(st, ct) && q == st * st && q > 0.0
    requires Phase(st, ct, k).0 >= st && 0.2505 < Phase(st, ct, k).1 <= steps as real * q
    ensures Phase(st, ct, n).0 >= 0.0 && InWindow(Phase(st, ct, n).1)
    decreases steps
  {
    PhaseTowards(st, ct, q, k);
    if Phase(st, ct, k + 1).1 <= 0.2505 {
      n := k + 1;
    } else {
      OneLess(steps, q, Phase(st, ct, k).1);
      n := ReachWindow(st, ct, q, k + 1, steps - 1);
    }
  }

  lemma OneLess(steps: nat, q: real, c: real)
    requires q > 0.0 && 0.0 < c <= steps as real * q
    ensures steps >= 1 && c - q <= (steps - 1) as real * q
  {
    assert steps == 0 ==> steps as real * q == 0.0;
  }

  lemma StepsEnough(q: real) returns (n: nat)
    requires q > 0.0
    ensures n as real * q >= 1.0
  {
    var x := 1.0 / q;
    assert x * q == 1.0;
    assert x > 0.0;
    FloorBounds(x);
    n := x.Floor + 1;
    TimesBelow(x, n as real, q);
  }

  /** Some tick of every such run falls into the window. */
  lemma WindowTick(st: real, ct: real) returns (n: nat)
    requires SmallStep(st, ct)
    ensures Phase(st, ct, n).0 >= 0.0 && InWindow(Phase(st, ct, n).1)
  {
    CosineNearOne(st, ct);
    var q := SquareOf(st);
    var steps := StepsEnough(q);
    assert Phase(st, ct, 0) == (0.0, 1.0);
    assert Phase(st, ct, 1) == (st, ct);
    n := ReachWindow(st, ct, q, 1, steps);
  }

  // ----- so the odometer moves

  /** The odometer has shown more than 0 by the end of this run. */
  ghost predicate Moved(ticks: seq<Wave>, hz: real) {
    exists m :: 0 <= m <= |ticks| && Odometer(ticks, hz, m) >= 1
  }

  /** A tick that covers a metre moves it, unless the metres of one tick overflow it. */
  lemma TickMoves(ticks: seq<Wave>, hz: real, k: nat)
    requires k < |ticks| && IsWave(ticks[k]) && Speed(ticks[k]) / 3.6 >= Rate(hz)
    requires TWO32 as real * Rate(hz) > 15.0
    ensures Moved(ticks, hz)
  {
    var w, r := ticks[k], Rate(hz);
    MetresRange(w, hz);
    DivideRange(r, Speed(w) / 3.6, r);
    assert r / r == 1.0;
    assert 1 <= WholeMetres(w, hz);
    RatioBelow(15.0, r, TWO32 as real);
    assert WholeMetres(w, hz) < TWO32;
    if Odometer(ticks, hz, k) == 0 {
      assert Odometer(ticks, hz, k + 1) == WholeMetres(w, hz);
    }
  }

  lemma RatioBelow(x: real, r: real, b: real)
    requires r > 0.0 && x < b * r
    ensures x / r < b
  {
    var z := b - x / r;
    assert z * r == b * r - x;
    if z <= 0.0 {
      TimesNonNegative(-z, r);
    }
  }

  lemma QuickStep(st: real, ct: real, hz: real)
    requires IsStep(st, ct, hz) && Rate(hz) > 6.11
    ensures SmallStep(st, ct)
  {
    RatioBelow(0.15, Rate(hz), 0.02455);
  }

  /** Up to 14.77 ticks a second every long enough run moves the odometer: the slow ones with the
      first tick, at 22 km/h, the others when they come by the peak of the cycle. */
  lemma OdometerMoves(hz: real, st: real, ct: real) returns (n: nat)
    requires (Rate(hz) > 6.11 ==> IsStep(st, ct, hz)) && Rate(hz) <= 14.77 && TWO32 as real * Rate(hz) > 15.0
    ensures forall ticks :: Driven(ticks, st, ct) && |ticks| >= n ==> Moved(ticks, hz)
  {
    var k := 0;
    if Rate(hz) > 6.11 {
      QuickStep(st, ct, hz);
      k := WindowTick(st, ct);
      PhaseOnCircle(st, ct, k);
      WindowHeight(Phase(st, ct, k).0, Phase(st, ct, k).1);
    } else {
      assert SixFold(0.0, 1.0) == 0.0;
    }
    n := k + 1;
    forall ticks | Driven(ticks, st, ct) && |ticks| >= n ensures Moved(ticks, hz) {
      assert IsWave(ticks[k]);
      TickMoves(ticks, hz, k);
    }
  }

  lemma DrivenLinked(ticks: seq<Wave>, st: real, ct: real)
    requires Driven(ticks, st, ct) && st * st + ct * ct == 1.0
    ensures forall i :: 0 <= i < |ticks| ==> IsWave(ticks[i]) && Linked(ticks[i])
  {
    forall i | 0 <= i < |ticks| ensures IsWave(ticks[i]) && Linked(ticks[i]) {
      PhaseLinked(ticks[i], st, ct, i);
    }
  }

  lemma PhaseLinked(w: Wave, st: real, ct: real, k: nat)
    requires st * st + ct * ct == 1.0 && At(w, Phase(st, ct, k))
    ensures Linked(w)
  {
    PhaseOnCircle(st, ct, k);
    LinkedAt(w, Phase(st, ct, k));
  }

  lemma LinkedAt(w: Wave, p: (real, real))
    requires OnUnit(p) && At(w, p)
    ensures Linked(w)
  {
    assert OnCycle(w.slow, p.1, w.fast);
  }

  lemma NeverMoved(ticks: seq<Wave>, hz: real)
    requires Rate(hz) >= 14.81 && forall i :: 0 <= i < |ticks| ==> IsWave(ticks[i]) && Linked(ticks[i])
    ensures !Moved(ticks, hz)
  {
    forall m | 0 <= m <= |ticks| ensures Odometer(ticks, hz, m) == 0 {
      OdometerFrozen(ticks, hz, m);
    }
  }

  /** For a whole number of ticks a second the line is between 14 and 15: every long enough run
      moves the odometer, or none does. */
  lemma OdometerMovesIff(hz: nat, st: real, ct: real) returns (n: nat)
    requires hz >= 1 && IsStep(st, ct, hz as real)
    ensures forall ticks :: Driven(ticks, st, ct) && |ticks| >= n ==> (Moved(ticks, hz as real) <==> hz <= 14)
  {
    n := 0;
    if hz <= 14 {
      n := OdometerMoves(hz as real, st, ct);
    } else {
      forall ticks | Driven(ticks, st, ct) ensures !Moved(ticks, hz as real) {
        DrivenLinked(ticks, st, ct);
        NeverMoved(ticks, hz as real);
      }
    }
  }
}
