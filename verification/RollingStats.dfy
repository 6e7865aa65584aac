/** Rolling statistics over a fixed window: the ring buffer shared by `LatencyTracker` and
    `RollingStats`, and their snapshots. Doubles are modelled as reals. */
module RollingStats {
  import opened Arithmetic
  import opened Sequences

  function Sum(s: seq<real>): real {
    if s == [] then 0.0 else Sum(s[..|s| - 1]) + s[|s| - 1]
  }

  /** The last `w` samples of a history, or all of them. */
  function Recent(history: seq<real>, w: nat): seq<real> {
    history[|history| - Min(|history|, w)..]
  }

  // ----- order statistics

  ghost predicate Ascending(s: seq<real>) {
    forall i, j :: 0 <= i < j < |s| ==> s[i] <= s[j]
  }

  /** What an ascending sort leaves; for reals there is only one such sequence. */
  ghost predicate IsSortOf(sorted: seq<real>, s: seq<real>) {
    multiset(sorted) == multiset(s) && Ascending(sorted)
  }

  function Insert(v: real, s: seq<real>): seq<real> {
    if s == [] || v <= s[0] then [v] + s else [s[0]] + Insert(v, s[1..])
  }

  lemma ConsAscending(x: real, t: seq<real>)
    requires Ascending(t) && (t == [] || x <= t[0])
    ensures Ascending([x] + t)
  {
  }

  lemma {:induction false} InsertMultiset(v: real, s: seq<real>)
    ensures multiset(Insert(v, s)) == multiset(s) + multiset{v}
    ensures |Insert(v, s)| == |s| + 1
  {
    if s == [] || v <= s[0] {
    } else {
      InsertMultiset(v, s[1..]);
      assert s == [s[0]] + s[1..];
    }
  }

  lemma {:induction false} InsertAscending(v: real, s: seq<real>)
    requires Ascending(s)
    ensures |Insert(v, s)| == |s| + 1 && Ascending(Insert(v, s))
    ensures Insert(v, s)[0] == v || (s != [] && Insert(v, s)[0] == s[0])
  {
    if s == [] || v <= s[0] {
      ConsAscending(v, s);
    } else {
      InsertAscending(v, s[1..]);
      ConsAscending(s[0], Insert(v, s[1..]));
    }
  }

  function Sort(s: seq<real>): (r: seq<real>)
    ensures IsSortOf(r, s) && |r| == |s|
  {
    if s == [] then []
    else
      var last, sorted := s[|s| - 1], Sort(s[..|s| - 1]);
      LastMultiset(s);
      InsertMultiset(last, sorted);
      InsertAscending(last, sorted);
      Insert(last, sorted)
  }

  lemma HeadsEqual(a: seq<real>, b: seq<real>)
    requires Ascending(a) && Ascending(b) && |a| == |b| > 0 && (forall x :: x in a <==> x in b)
    ensures a[0] == b[0]
  {
    assert a[0] in b && b[0] in a;
    var i :| 0 <= i < |b| && b[i] == a[0];
    var j :| 0 <= j < |a| && a[j] == b[0];
    assert a[0] <= a[j] && b[0] <= b[i];
  }

  lemma SameHead(a: seq<real>, b: seq<real>)
    requires Ascending(a) && Ascending(b) && multiset(a) == multiset(b) && a != []
    ensures b != [] && a[0] == b[0] && multiset(a[1..]) == multiset(b[1..])
  {
    SameMultisetSameElements(a, b);
    HeadsEqual(a, b);
    TailMultiset(a);
    TailMultiset(b);
  }

  /** Any sort gives the same sequence, so snapshots depend only on the multiset of samples. */
  lemma {:induction false} SortUnique(a: seq<real>, b: seq<real>)
    requires Ascending(a) && Ascending(b) && multiset(a) == multiset(b)
    ensures a == b
    decreases |a|
  {
    if a == [] {
      SameMultisetSameElements(a, b);
    } else {
      SameHead(a, b);
      SortUnique(a[1..], b[1..]);
      assert a == [a[0]] + a[1..] && b == [b[0]] + b[1..];
    }
  }

  ghost function CountAtMost(s: seq<real>, v: real): nat {
    if s == [] then 0 else CountAtMost(s[..|s| - 1], v) + (if s[|s| - 1] <= v then 1 else 0)
  }

  ghost function CountAtLeast(s: seq<real>, v: real): nat {
    if s == [] then 0 else CountAtLeast(s[..|s| - 1], v) + (if s[|s| - 1] >= v then 1 else 0)
  }

  lemma {:induction false} RankCounts(s: seq<real>, v: real, lo: nat, hi: nat)
    requires lo <= hi <= |s|
    requires forall i :: lo <= i < hi ==> s[i] <= v
    ensures CountAtMost(s, v) >= hi - lo
    decreases |s|
  {
    if s == [] {
    } else if hi == |s| {
      if lo < hi {
        RankCounts(s[..|s| - 1], v, lo, hi - 1);
      }
    } else {
      RankCounts(s[..|s| - 1], v, lo, hi);
    }
  }

  lemma {:induction false} RankCountsAbove(s: seq<real>, v: real, lo: nat, hi: nat)
    requires lo <= hi <= |s|
    requires forall i :: lo <= i < hi ==> s[i] >= v
    ensures CountAtLeast(s, v) >= hi - lo
    decreases |s|
  {
    if s == [] {
    } else if hi == |s| {
      if lo < hi {
        RankCountsAbove(s[..|s| - 1], v, lo, hi - 1);
      }
    } else {
      RankCountsAbove(s[..|s| - 1], v, lo, hi);
    }
  }

  lemma DropFromInit(s: seq<real>, k: nat)
    requires k < |s| - 1
    ensures s[..|s| - 1][..k] + s[..|s| - 1][k + 1..] == (s[..k] + s[k + 1..])[..|s| - 2]
    ensures (s[..k] + s[k + 1..])[|s| - 2] == s[|s| - 1]
  {
  }

  /** Counts of samples do not depend on their order. */
  lemma {:induction false} CountInsert(s: seq<real>, k: nat, v: real)
    requires k < |s|
    ensures CountAtMost(s, v) == CountAtMost(s[..k] + s[k + 1..], v) + (if s[k] <= v then 1 else 0)
    ensures CountAtLeast(s, v) == CountAtLeast(s[..k] + s[k + 1..], v) + (if s[k] >= v then 1 else 0)
    decreases |s|
  {
    var n := |s| - 1;
    if k == n {
      assert s[..k] + s[k + 1..] == s[..n];
    } else {
      CountInsert(s[..n], k, v);
      DropFromInit(s, k);
    }
  }

  lemma {:induction false} CountsOfMultiset(a: seq<real>, b: seq<real>, v: real)
    requires multiset(a) == multiset(b)
    ensures CountAtMost(a, v) == CountAtMost(b, v) && CountAtLeast(a, v) == CountAtLeast(b, v)
    decreases |a|
  {
    SameMultisetSameElements(a, b);
    if a == [] {
    } else {
      var x := a[|a| - 1];
      assert x in a && x in b;
      var k :| 0 <= k < |b| && b[k] == x;
      LastMultiset(a);
      MiddleMultiset(b, k);
      CountsOfMultiset(a[..|a| - 1], b[..k] + b[k + 1..], v);
      CountInsert(b, k, v);
    }
  }

  /** The index rule of both snapshots: fraction `p` of the size, capped at the last element. */
  function Index(n: nat, p: real): (i: nat)
    requires n >= 1 && p >= 0.0
    ensures i < n
  {
    assert n as real * p >= 0.0;
    Min(n - 1, (n as real * p).Floor)
  }

  function Quantile(window: seq<real>, p: real): real
    requires window != [] && p >= 0.0
  {
    Sort(window)[Index(|window|, p)]
  }

  lemma RankInSort(sorted: seq<real>, window: seq<real>, i: nat)
    requires IsSortOf(sorted, window) && i < |sorted|
    ensures |sorted| == |window| && sorted[i] in window
    ensures CountAtMost(window, sorted[i]) >= i + 1
    ensures CountAtLeast(window, sorted[i]) >= |window| - i
  {
    SameMultisetSameElements(sorted, window);
    RankCounts(sorted, sorted[i], 0, i + 1);
    RankCountsAbove(sorted, sorted[i], i, |sorted|);
    CountsOfMultiset(sorted, window, sorted[i]);
  }

  /** A quantile is a sample with enough samples on either side of it: more than the fraction `p`
      of them are at most its value, and no fewer than the rest are at least its value. */
  lemma QuantileRank(window: seq<real>, p: real)
    requires window != [] && p >= 0.0
    ensures var q, n, m := Quantile(window, p), |window|, (|window| as real * p).Floor;
      && q in window
      && CountAtMost(window, q) >= (if m < n then m + 1 else n)
      && CountAtLeast(window, q) >= n - m
  {
    RankInSort(Sort(window), window, Index(|window|, p));
  }

  lemma IndexOrder(n: nat, p: real, p': real)
    requires n >= 1 && 0.0 <= p <= p'
    ensures Index(n, p) <= Index(n, p')
  {
    assert n as real * (p' - p) >= 0.0;
  }

  lemma QuantileOrder(window: seq<real>, p: real, p': real)
    requires window != [] && 0.0 <= p <= p'
    ensures Quantile(window, p) <= Quantile(window, p') <= Sort(window)[|window| - 1]
  {
    var s, n := Sort(window), |window|;
    IndexOrder(n, p, p');
    AscendingAt(s, Index(n, p), Index(n, p'));
    AscendingAt(s, Index(n, p'), n - 1);
  }

  lemma AscendingAt(s: seq<real>, i: nat, j: nat)
    requires Ascending(s) && i <= j < |s|
    ensures s[i] <= s[j]
  {
  }

  // ----- the ring

  lemma NextCursor(n: nat, w: nat)
    requires w >= 1
    ensures (n % w + 1) % w == (n + 1) % w == if n % w + 1 == w then 0 else n % w + 1
    ensures n < w ==> n % w == n
  {
    var q, r := n / w, n % w;
    if r + 1 == w {
      assert n + 1 == (q + 1) * w + 0;
      DivModUnique(n + 1, w, q + 1, 0);
      DivModUnique(r + 1, w, 1, 0);
    } else {
      DivModUnique(n + 1, w, q, r + 1);
      DivModUnique(r + 1, w, 0, r + 1);
    }
    if n < w {
      DivModUnique(n, w, 0, n);
    }
  }

  lemma SumSnoc(h: seq<real>, v: real)
    ensures Sum(h + [v]) == Sum(h) + v
  {
    assert (h + [v])[..|h|] == h;
  }

  lemma RecentAll(h: seq<real>, w: nat)
    requires |h| <= w
    ensures Recent(h, w) == h
  {
  }

  lemma RecentStep(h: seq<real>, v: real, w: nat)
    requires |h| >= w >= 1
    ensures Recent(h + [v], w) == Recent(h, w)[1..] + [v]
  {
  }

  /** Overwriting the oldest sample and moving the cursor appends to the unrolled buffer. */
  lemma RotateStep(s: seq<real>, c: nat, v: real)
    requires c < |s|
    ensures var s', c' := s[c := v], if c + 1 == |s| then 0 else c + 1;
      s'[c'..] + s'[..c'] == (s[c..] + s[..c])[1..] + [v]
  {
  }

  /** `total` samples have gone into the buffer: it is the history until it is full, and from then
      on, unrolled from the cursor, the recent part of it. */
  ghost predicate Holds(samples: seq<real>, cursor: nat, total: nat, history: seq<real>, window: nat) {
    && window >= 1 && total == |history| && |samples| == Min(total, window)
    && cursor == total % window
    && (total < window ==> samples == history && cursor == total)
    && (total >= window ==> cursor < window && samples[cursor..] + samples[..cursor] == Recent(history, window))
  }

  lemma FillStep(samples: seq<real>, cursor: nat, total: nat, history: seq<real>, window: nat, v: real)
    requires Holds(samples, cursor, total, history, window) && total < window
    ensures Holds(samples + [v], (cursor + 1) % window, total + 1, history + [v], window)
  {
    NextCursor(total, window);
    if total + 1 == window {
      var s := samples + [v];
      RecentAll(history + [v], window);
      assert s[0..] + s[..0] == s;
    } else {
      NextCursor(total + 1, window);
    }
  }

  lemma OverwriteStep(samples: seq<real>, cursor: nat, total: nat, history: seq<real>, window: nat, v: real)
    requires Holds(samples, cursor, total, history, window) && total >= window
    ensures Holds(samples[cursor := v], (cursor + 1) % window, total + 1, history + [v], window)
  {
    NextCursor(total, window);
    RecentStep(history, v, window);
    RotateStep(samples, cursor, v);
  }

  datatype Latency = Latency(count: nat, min: real, max: real, mean: real, p95: real)
  datatype Snap = Snap(n: nat, mean: real, p50: real, p90: real, p99: real, max: real)

  class Ring {
    const window: nat
    var samples: seq<real>
    var cursor: nat
    var total: nat
    var sum: real
    ghost var history: seq<real>

    ghost predicate Valid()
      reads this
    {
      Holds(samples, cursor, total, history, window) && sum == Sum(history)
    }

    constructor (window: nat)
      requires window >= 1
      ensures Valid() && history == [] && this.window == window
    {
      this.window := window;
      samples, cursor, total, sum, history := [], 0, 0, 0.0, [];
    }

    method Add(v: real)
      requires Valid()
      modifies this
      ensures Valid() && history == old(history) + [v]
    {
      SumSnoc(history, v);
      if |samples| < window {
        FillStep(samples, cursor, total, history, window, v);
        samples := samples + [v];
      } else {
        OverwriteStep(samples, cursor, total, history, window, v);
        samples := samples[cursor := v];
      }
      cursor := (cursor + 1) % window;
      total := total + 1;
      sum := sum + v;
      history := history + [v];
    }

    /** The buffer holds exactly the recent samples, each as often as it was added. */
    lemma HoldsRecent()
      requires Valid()
      ensures multiset(samples) == multiset(Recent(history, window))
      ensures Sort(samples) == Sort(Recent(history, window))
    {
      if total >= window {
        assert samples == samples[..cursor] + samples[cursor..];
      } else {
        assert Recent(history, window) == history;
      }
      SortUnique(Sort(samples), Sort(Recent(history, window)));
    }

    /** `LatencyTracker::snapshot`: minimum, maximum and p95 of the window, but the mean of all
        samples ever added. */
    method LatencySnapshot() returns (s: Latency)
      requires Valid()
      ensures s.count == |history|
      ensures history == [] ==> s == Latency(0, 0.0, 0.0, 0.0, 0.0)
      ensures history != [] ==> var w := Recent(history, window);
        && s.min in w && s.max in w && (forall x :: x in w ==> s.min <= x <= s.max)
        && s.p95 == Quantile(w, 0.95)
        && s.mean == Mean(history)
    {
      if samples == [] {
        return Latency(total, 0.0, 0.0, 0.0, 0.0);
      }
      HoldsRecent();
      var sorted := Sort(samples);
      Extremes(sorted, Recent(history, window));
      var idx := Index(|sorted|, 0.95);
      return Latency(total, sorted[0], sorted[|sorted| - 1], sum / total as real, sorted[idx]);
    }

    /** `RollingStats::snap`. */
    method TakeSnap() returns (s: Snap)
      requires Valid()
      ensures s.n == |history|
      ensures history == [] ==> s == Snap(0, 0.0, 0.0, 0.0, 0.0, 0.0)
      ensures history != [] ==> var w := Recent(history, window);
        && s.p50 == Quantile(w, 0.50) && s.p90 == Quantile(w, 0.90) && s.p99 == Quantile(w, 0.99)
        && s.max in w && (forall x :: x in w ==> x <= s.max)
        && s.p50 <= s.p90 <= s.p99 <= s.max
        && s.mean == Mean(history)
    {
      if samples == [] {
        return Snap(total, 0.0, 0.0, 0.0, 0.0, 0.0);
      }
      HoldsRecent();
      ghost var w := Recent(history, window);
      var v := Sort(samples);
      Extremes(v, w);
      QuantileOrder(w, 0.50, 0.90);
      QuantileOrder(w, 0.90, 0.99);
      return Snap(total, sum / total as real, v[Index(|v|, 0.50)], v[Index(|v|, 0.90)],
                  v[Index(|v|, 0.99)], v[|v| - 1]);
    }
  }

  lemma Extremes(sorted: seq<real>, w: seq<real>)
    requires IsSortOf(sorted, w) && sorted != []
    ensures |sorted| == |w|
    ensures sorted[0] in w && sorted[|sorted| - 1] in w
    ensures forall x :: x in w ==> sorted[0] <= x <= sorted[|sorted| - 1]
  {
    SameMultisetSameElements(sorted, w);
    forall x | x in w ensures sorted[0] <= x <= sorted[|sorted| - 1] {
      assert x in sorted;
    }
  }

  // ----- the mean

  function Quot(a: real, b: real): real
    requires b > 0.0
  {
    a / b
  }

  function Mean(s: seq<real>): real
    requires s != []
  {
    Quot(Sum(s), |s| as real)
  }

  lemma {:induction false} SumAppend(a: seq<real>, b: seq<real>)
    ensures Sum(a + b) == Sum(a) + Sum(b)
  {
    if b == [] {
      assert a + b == a;
    } else {
      SumAppend(a, b[..|b| - 1]);
      assert (a + b)[..|a + b| - 1] == a + b[..|b| - 1];
    }
  }

  /** `evicted` and `recent` weigh the same per sample. */
  ghost predicate Balanced(e: real, w: real, m: real, k: real) {
    e * k == w * m
  }

  lemma MeansEqualIff(e: real, w: real, m: real, k: real)
    requires k > 0.0 && m >= 0.0
    ensures Quot(e + w, m + k) == Quot(w, k) <==> Balanced(e, w, m, k)
  {
    var a, b := Quot(e + w, m + k), Quot(w, k);
    assert a * (m + k) == e + w && b * k == w;
    if a == b {
      assert a * m + a * k == e + w;
      assert e == a * m;
      assert e * k == a * k * m;
    }
    if Balanced(e, w, m, k) {
      assert (e + w) * k == w * (m + k);
      assert a * (m + k) * k == b * k * (m + k);
      assert (a - b) * ((m + k) * k) == 0.0;
      assert (m + k) * k > 0.0;
    }
  }

  lemma MeansOfSplit(evicted: seq<real>, recent: seq<real>)
    requires recent != []
    ensures Mean(evicted + recent) == Mean(recent) <==>
      Balanced(Sum(evicted), Sum(recent), |evicted| as real, |recent| as real)
  {
    SumAppend(evicted, recent);
    assert |evicted + recent| as real == |evicted| as real + |recent| as real;
    MeansEqualIff(Sum(evicted), Sum(recent), |evicted| as real, |recent| as real);
  }

  /** The reported mean is over the whole lifetime. It is the mean of the window exactly when the
      samples that left the window have the window's mean (in particular when none has left). */
  lemma MeanIsWindowedIff(history: seq<real>, w: nat)
    requires history != [] && w >= 1
    ensures var recent := Recent(history, w);
      var evicted := history[..|history| - |recent|];
      Mean(history) == Mean(recent) <==>
        Balanced(Sum(evicted), Sum(recent), |evicted| as real, |recent| as real)
  {
    var recent := Recent(history, w);
    var evicted := history[..|history| - |recent|];
    assert history == evicted + recent;
    MeansOfSplit(evicted, recent);
  }
}
