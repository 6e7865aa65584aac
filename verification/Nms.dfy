/** Intersection over union and greedy class-aware non-maximum suppression.

    Floats are modelled as reals. `std::sort` may leave boxes of equal score in any order, so
    everything is stated for an arbitrary score-descending permutation of the input.
 */
module Nms {
  import opened Sequences

  datatype Detection = Detection(x: real, y: real, w: real, h: real, score: real, classId: int)

  function MaxR(a: real, b: real): real { if a >= b then a else b }

  function MinR(a: real, b: real): real { if a <= b then a else b }

  // ----- intersection over union

  /** The common length of the intervals [p, p + l] and [q, q + m]. */
  function Extent(p: real, l: real, q: real, m: real): real {
    MaxR(0.0, MinR(p + l, q + m) - MaxR(p, q))
  }

  function Overlap(a: Detection, b: Detection): real {
    Extent(a.x, a.w, b.x, b.w) * Extent(a.y, a.h, b.y, b.h)
  }

  function Area(a: Detection): real {
    a.w * a.h
  }

  function Ratio(inter: real, areas: real): real {
    if areas - inter > 0.0 then inter / (areas - inter) else 0.0
  }

  function Iou(a: Detection, b: Detection): real {
    Ratio(Overlap(a, b), Area(a) + Area(b))
  }

  lemma ExtentSymmetric(p: real, l: real, q: real, m: real)
    ensures Extent(p, l, q, m) == Extent(q, m, p, l)
  {
  }

  lemma OverlapSymmetric(a: Detection, b: Detection)
    ensures Overlap(a, b) == Overlap(b, a)
  {
    ExtentSymmetric(a.x, a.w, b.x, b.w);
    ExtentSymmetric(a.y, a.h, b.y, b.h);
  }

  lemma IouSymmetric(a: Detection, b: Detection)
    ensures Iou(a, b) == Iou(b, a)
  {
    OverlapSymmetric(a, b);
    var i, s := Overlap(a, b), Area(a) + Area(b);
    assert Iou(a, b) == Ratio(i, s) && Iou(b, a) == Ratio(i, Area(b) + Area(a));
  }

  lemma ProductMonotone(p: real, q: real, r: real, s: real)
    requires 0.0 <= p <= r && 0.0 <= q <= s
    ensures 0.0 <= p * q <= r * s
  {
    assert p * q <= r * q by { assert (r - p) * q >= 0.0; }
    assert r * q <= r * s by { assert r * (s - q) >= 0.0; }
  }

  lemma QuotientInUnit(i: real, u: real)
    requires 0.0 <= i <= u && u > 0.0
    ensures 0.0 <= i / u <= 1.0
  {
    assert i / u * u == i;
  }

  lemma OverlapBounded(a: Detection, b: Detection)
    requires a.w >= 0.0 && a.h >= 0.0 && b.w >= 0.0 && b.h >= 0.0
    ensures 0.0 <= Overlap(a, b) <= Area(a) && Overlap(a, b) <= Area(b)
  {
    ProductMonotone(Extent(a.x, a.w, b.x, b.w), Extent(a.y, a.h, b.y, b.h), a.w, a.h);
    ProductMonotone(Extent(a.x, a.w, b.x, b.w), Extent(a.y, a.h, b.y, b.h), b.w, b.h);
  }

  lemma RatioInUnit(inter: real, areas: real)
    requires 0.0 <= inter && 2.0 * inter <= areas
    ensures 0.0 <= Ratio(inter, areas) <= 1.0
  {
    if areas - inter > 0.0 {
      QuotientInUnit(inter, areas - inter);
    }
  }

  /** For boxes of non-negative size the measure is a ratio. */
  lemma IouInUnit(a: Detection, b: Detection)
    requires a.w >= 0.0 && a.h >= 0.0 && b.w >= 0.0 && b.h >= 0.0
    ensures 0.0 <= Iou(a, b) <= 1.0
  {
    OverlapBounded(a, b);
    RatioInUnit(Overlap(a, b), Area(a) + Area(b));
  }

  /** A duplicate overlaps fully, so any threshold below 1 removes it. */
  lemma IouOfDuplicate(a: Detection)
    requires a.w > 0.0 && a.h > 0.0
    ensures Iou(a, a) == 1.0
  {
    ProductPositive(a.w, a.h);
    assert Overlap(a, a) == Area(a);
    RatioOfEqual(Area(a));
  }

  lemma ProductPositive(p: real, q: real)
    requires p > 0.0 && q > 0.0
    ensures p * q > 0.0
  {
  }

  lemma RatioOfEqual(area: real)
    requires area > 0.0
    ensures Ratio(area, area + area) == 1.0
  {
    assert area + area - area == area;
    assert area / area == 1.0;
  }

  // ----- the specification

  /** A kept box `a` removes a later box `b`. */
  predicate Suppresses(a: Detection, b: Detection, thr: real) {
    b.classId == a.classId && Iou(a, b) > thr
  }

  lemma SuppressesSymmetric(a: Detection, b: Detection, thr: real)
    ensures Suppresses(a, b, thr) == Suppresses(b, a, thr)
  {
    IouSymmetric(a, b);
  }

  /** What a sort by descending score may leave in place of `dets`. */
  ghost predicate IsSortOf(order: seq<Detection>, dets: seq<Detection>) {
    multiset(order) == multiset(dets) && Descending(order)
  }

  ghost predicate Descending(s: seq<Detection>) {
    forall i, j :: 0 <= i < j < |s| ==> s[i].score >= s[j].score
  }

  /** Declarative reading: box `i` survives exactly when no surviving box before it suppresses it. */
  ghost predicate Survives(s: seq<Detection>, thr: real, i: nat)
    requires i < |s|
    decreases i
  {
    forall j :: 0 <= j < i && Survives(s, thr, j) ==> !Suppresses(s[j], s[i], thr)
  }

  /** The survivors among the first `n` boxes, in order. */
  ghost function Survivors(s: seq<Detection>, thr: real, n: nat): seq<Detection>
    requires n <= |s|
  {
    if n == 0 then []
    else Survivors(s, thr, n - 1) + (if Survives(s, thr, n - 1) then [s[n - 1]] else [])
  }

  /** Recursive reading: keep the best box, delete what it suppresses, go on with the rest. */
  function Without(s: seq<Detection>, d: Detection, thr: real): seq<Detection> {
    if s == [] then []
    else (if Suppresses(d, s[0], thr) then [] else [s[0]]) + Without(s[1..], d, thr)
  }

  lemma {:induction false} WithoutShrinks(s: seq<Detection>, d: Detection, thr: real)
    ensures |Without(s, d, thr)| <= |s|
  {
    if s == [] {
    } else {
      WithoutShrinks(s[1..], d, thr);
    }
  }

  function Greedy(s: seq<Detection>, thr: real): seq<Detection>
    decreases |s|
  {
    if s == [] then []
    else
      WithoutShrinks(s[1..], s[0], thr);
      [s[0]] + Greedy(Without(s[1..], s[0], thr), thr)
  }

  function Cap(s: seq<Detection>, maxOut: int): seq<Detection> {
    s[..Min(|s|, Max(1, maxOut))]
  }

  // ----- the loops

  /** The inner loop: a kept box `i` marks the later boxes of its class that it overlaps. */
  method MarkVictims(dets: seq<Detection>, thr: real, i: nat, removed: array<bool>)
    requires i < |dets| == removed.Length
    modifies removed
    ensures forall k :: i < k < |dets| ==>
      removed[k] == (old(removed[k]) || Suppresses(dets[i], dets[k], thr))
    ensures forall k :: 0 <= k <= i ==> removed[k] == old(removed[k])
  {
    var j := i + 1;
    while j < |dets|
      invariant i + 1 <= j <= |dets|
      invariant forall k :: i < k < j ==> removed[k] == (old(removed[k]) || Suppresses(dets[i], dets[k], thr))
      invariant forall k :: 0 <= k <= i || j <= k < |dets| ==> removed[k] == old(removed[k])
    {
      if !removed[j] {
        if dets[j].classId == dets[i].classId && Iou(dets[i], dets[j]) > thr {
          removed[j] := true;
        }
      }
      j := j + 1;
    }
  }

  /** The outer loop over the sorted boxes, with its array of removal flags. The cap is only
      looked at after a box was kept, so even `max_out <= 0` keeps one. */
  method Suppress(dets: seq<Detection>, thr: real, maxOut: int) returns (keep: seq<Detection>)
    ensures keep == Cap(Survivors(dets, thr, |dets|), maxOut)
  {
    keep := [];
    var removed := new bool[|dets|](_ => false);
    var i := 0;
    while i < |dets|
      invariant 0 <= i <= |dets|
      invariant keep == Survivors(dets, thr, i)
      invariant keep == [] || |keep| < maxOut
      invariant forall j :: i <= j < |dets| ==> removed[j] == RemovedBy(dets, thr, i, j)
    {
      SurvivesIff(dets, thr, i);
      if removed[i] {
        forall j | i < j < |dets| ensures removed[j] == RemovedBy(dets, thr, i + 1, j) {
          RemovedByStep(dets, thr, i, j);
        }
        i := i + 1;
        continue;
      }
      keep := keep + [dets[i]];
      if |keep| >= maxOut {
        CapReached(dets, thr, i + 1, keep, maxOut);
        return;
      }
      MarkVictims(dets, thr, i, removed);
      forall j | i < j < |dets| ensures removed[j] == RemovedBy(dets, thr, i + 1, j) {
        RemovedByStep(dets, thr, i, j);
      }
      i := i + 1;
    }
    assert keep[..|keep|] == keep;
  }

  lemma SurvivesIff(s: seq<Detection>, thr: real, i: nat)
    requires i < |s|
    ensures Survives(s, thr, i) == !RemovedBy(s, thr, i, i)
  {
  }

  lemma CapReached(s: seq<Detection>, thr: real, n: nat, keep: seq<Detection>, maxOut: int)
    requires n <= |s| && keep == Survivors(s, thr, n) && |keep| == Max(1, maxOut)
    ensures Cap(Survivors(s, thr, |s|), maxOut) == keep
  {
    SurvivorsPrefix(s, thr, n, |s|);
  }

  /** Some survivor among the first `i` boxes suppresses box `j`. */
  ghost predicate RemovedBy(s: seq<Detection>, thr: real, i: nat, j: nat)
    requires i <= |s| && j < |s|
  {
    exists k :: 0 <= k < i && Survives(s, thr, k) && Suppresses(s[k], s[j], thr)
  }

  lemma {:induction false} SurvivorsPrefix(s: seq<Detection>, thr: real, m: nat, n: nat)
    requires m <= n <= |s|
    ensures Survivors(s, thr, m) <= Survivors(s, thr, n)
  {
    if m == n {
    } else {
      SurvivorsPrefix(s, thr, m, n - 1);
    }
  }

  /** `d` put in before the first lower score. */
  function Insert(d: Detection, s: seq<Detection>): seq<Detection> {
    if s == [] || d.score > s[0].score then [d] + s else [s[0]] + Insert(d, s[1..])
  }

  lemma ConsDescending(d: Detection, t: seq<Detection>)
    requires Descending(t) && (t == [] || d.score >= t[0].score)
    ensures Descending([d] + t)
  {
  }

  lemma {:induction false} InsertMultiset(d: Detection, s: seq<Detection>)
    ensures multiset(Insert(d, s)) == multiset(s) + multiset{d}
  {
    if s == [] || d.score > s[0].score {
    } else {
      InsertMultiset(d, s[1..]);
      assert s == [s[0]] + s[1..];
    }
  }

  lemma {:induction false} InsertDescending(d: Detection, s: seq<Detection>)
    requires Descending(s)
    ensures |Insert(d, s)| == |s| + 1 && Descending(Insert(d, s))
    ensures Insert(d, s)[0] == d || (s != [] && Insert(d, s)[0] == s[0])
  {
    if s == [] || d.score > s[0].score {
      ConsDescending(d, s);
    } else {
      InsertDescending(d, s[1..]);
      ConsDescending(s[0], Insert(d, s[1..]));
    }
  }

  /** Some score-descending rearrangement. Callers rely on nothing else about the sort. */
  method SortByScore(dets: seq<Detection>) returns (order: seq<Detection>)
    ensures IsSortOf(order, dets)
  {
    order := [];
    var i := 0;
    while i < |dets|
      invariant 0 <= i <= |dets|
      invariant IsSortOf(order, dets[..i])
    {
      assert dets[..i + 1] == dets[..i] + [dets[i]];
      InsertMultiset(dets[i], order);
      InsertDescending(dets[i], order);
      order := Insert(dets[i], order);
      i := i + 1;
    }
    assert dets[..i] == dets;
  }

  /** `nms`: sort, then suppress. `order` is what the sort left. */
  method RunNms(dets: seq<Detection>, order: seq<Detection>, thr: real, maxOut: int)
    returns (keep: seq<Detection>)
    requires IsSortOf(order, dets)
    ensures keep == Cap(Greedy(order, thr), maxOut)
    ensures keep == Cap(Survivors(order, thr, |order|), maxOut)
    ensures |keep| <= Max(1, maxOut)
    ensures Descending(keep) && PairwiseClear(keep, thr)
    ensures forall i, j :: 0 <= i < j < |keep| && keep[i].classId == keep[j].classId ==> Iou(keep[i], keep[j]) <= thr
    ensures forall d :: d in keep ==> d in dets
    ensures |keep| < Max(1, maxOut) ==> Covered(order, keep, thr)
  {
    keep := Suppress(order, thr, maxOut);
    GreedyIsSurvivors(order, thr);
    SurvivorsClear(order, thr, |order|);
    SurvivorsDescend(order, thr, |order|);
    SurvivorsFrom(order, thr, |order|);
    SameMultisetSameElements(order, dets);
    assert forall d :: d in keep ==> d in Survivors(order, thr, |order|);
    if |keep| < Max(1, maxOut) {
      assert keep == Survivors(order, thr, |order|);
      SurvivorsCover(order, thr);
    }
  }

  // ----- what survives

  /** No kept box would suppress another one. */
  ghost predicate PairwiseClear(s: seq<Detection>, thr: real) {
    forall i, j :: 0 <= i < j < |s| ==> !Suppresses(s[i], s[j], thr)
  }

  /** Every position of `s` is kept or is suppressed by an earlier kept position, whose score is
      at least as high. */
  ghost predicate Covered(s: seq<Detection>, keep: seq<Detection>, thr: real) {
    forall i {:trigger s[i]} :: 0 <= i < |s| ==>
      s[i] in keep
      || exists d :: d in keep && d.classId == s[i].classId && Iou(d, s[i]) > thr && d.score >= s[i].score
  }

  lemma {:induction false} SurvivorsFrom(s: seq<Detection>, thr: real, n: nat)
    requires n <= |s|
    ensures forall d :: d in Survivors(s, thr, n) ==>
      exists k :: 0 <= k < n && Survives(s, thr, k) && s[k] == d
  {
    if n == 0 {
    } else {
      SurvivorsFrom(s, thr, n - 1);
    }
  }

  lemma {:induction false} SurvivorsAll(s: seq<Detection>, thr: real, n: nat)
    requires n <= |s|
    ensures forall k :: 0 <= k < n && Survives(s, thr, k) ==> s[k] in Survivors(s, thr, n)
  {
    if n == 0 {
    } else {
      SurvivorsAll(s, thr, n - 1);
    }
  }

  lemma {:induction false} SurvivorsClear(s: seq<Detection>, thr: real, n: nat)
    requires n <= |s|
    ensures PairwiseClear(Survivors(s, thr, n), thr)
  {
    if n == 0 {
    } else {
      SurvivorsClear(s, thr, n - 1);
      SurvivorsFrom(s, thr, n - 1);
      var before := Survivors(s, thr, n - 1);
      if Survives(s, thr, n - 1) {
        forall i | 0 <= i < |before| ensures !Suppresses(before[i], s[n - 1], thr) {
          assert before[i] in before;
        }
      }
    }
  }

  lemma {:induction false} SurvivorsDescend(s: seq<Detection>, thr: real, n: nat)
    requires n <= |s| && Descending(s)
    ensures Descending(Survivors(s, thr, n))
  {
    if n == 0 {
    } else {
      SurvivorsDescend(s, thr, n - 1);
      SurvivorsFrom(s, thr, n - 1);
      var before := Survivors(s, thr, n - 1);
      forall i | 0 <= i < |before| ensures before[i].score >= s[n - 1].score {
        assert before[i] in before;
      }
    }
  }

  lemma SurvivorsCover(s: seq<Detection>, thr: real)
    requires Descending(s)
    ensures Covered(s, Survivors(s, thr, |s|), thr)
  {
    var keep := Survivors(s, thr, |s|);
    SurvivorsAll(s, thr, |s|);
    forall i {:trigger s[i]} | 0 <= i < |s|
      ensures s[i] in keep || exists d :: d in keep && Suppresses(d, s[i], thr) && d.score >= s[i].score
    {
      if !Survives(s, thr, i) {
        var j :| 0 <= j < i && Survives(s, thr, j) && Suppresses(s[j], s[i], thr);
        assert s[j] in keep && s[j].score >= s[i].score;
      }
    }
  }

  /** The fixed-point equation has only one solution, so it pins down what NMS keeps. */
  lemma SurvivorsUnique(s: seq<Detection>, thr: real, kept: set<nat>)
    requires forall i :: i in kept ==> i < |s|
    requires forall i: nat :: i < |s| ==>
      (i in kept <==> forall j :: 0 <= j < i && j in kept ==> !Suppresses(s[j], s[i], thr))
    ensures forall i: nat :: i < |s| ==> (i in kept <==> Survives(s, thr, i))
  {
    forall i: nat | i < |s| ensures i in kept <==> Survives(s, thr, i) {
      SurvivorsUniqueAt(s, thr, kept, i);
    }
  }

  lemma {:induction false} SurvivorsUniqueAt(s: seq<Detection>, thr: real, kept: set<nat>, i: nat)
    requires i < |s|
    requires forall i: nat :: i < |s| ==>
      (i in kept <==> forall j :: 0 <= j < i && j in kept ==> !Suppresses(s[j], s[i], thr))
    ensures i in kept <==> Survives(s, thr, i)
    decreases i
  {
    forall j: nat | j < i ensures j in kept <==> Survives(s, thr, j) {
      SurvivorsUniqueAt(s, thr, kept, j);
    }
  }

  // ----- the recursive and the declarative reading agree

  /** The boxes from `n` on that no survivor before `n` has removed. */
  ghost function Alive(s: seq<Detection>, thr: real, n: nat, m: nat): seq<Detection>
    requires n <= m <= |s|
    decreases |s| - m
  {
    if m == |s| then []
    else (if RemovedBy(s, thr, n, m) then [] else [s[m]]) + Alive(s, thr, n, m + 1)
  }

  lemma RemovedByStep(s: seq<Detection>, thr: real, n: nat, m: nat)
    requires n < |s| && m < |s|
    ensures RemovedBy(s, thr, n + 1, m)
         == (RemovedBy(s, thr, n, m) || (Survives(s, thr, n) && Suppresses(s[n], s[m], thr)))
  {
  }

  lemma WithoutCons(d: Detection, rest: seq<Detection>, k: Detection, thr: real)
    ensures Without([d] + rest, k, thr)
         == (if Suppresses(k, d, thr) then [] else [d]) + Without(rest, k, thr)
  {
    assert ([d] + rest)[1..] == rest;
  }

  lemma {:induction false} AliveAfterKept(s: seq<Detection>, thr: real, n: nat, m: nat)
    requires n < m <= |s| && Survives(s, thr, n)
    ensures Alive(s, thr, n + 1, m) == Without(Alive(s, thr, n, m), s[n], thr)
    decreases |s| - m
  {
    if m == |s| {
    } else {
      AliveAfterKept(s, thr, n, m + 1);
      RemovedByStep(s, thr, n, m);
      var rest := Alive(s, thr, n, m + 1);
      if RemovedBy(s, thr, n, m) {
        assert Alive(s, thr, n, m) == [] + rest == rest;
      } else {
        WithoutCons(s[m], rest, s[n], thr);
        assert Alive(s, thr, n, m) == [s[m]] + rest;
      }
    }
  }

  lemma {:induction false} AliveCongruent(s: seq<Detection>, thr: real, n: nat, n': nat, m: nat)
    requires n <= m <= |s| && n' <= m
    requires forall k :: m <= k < |s| ==> RemovedBy(s, thr, n, k) == RemovedBy(s, thr, n', k)
    ensures Alive(s, thr, n, m) == Alive(s, thr, n', m)
    decreases |s| - m
  {
    if m < |s| {
      AliveCongruent(s, thr, n, n', m + 1);
    }
  }

  lemma AliveAfterRemoved(s: seq<Detection>, thr: real, n: nat, m: nat)
    requires n < m <= |s| && !Survives(s, thr, n)
    ensures Alive(s, thr, n + 1, m) == Alive(s, thr, n, m)
  {
    forall k | m <= k < |s| ensures RemovedBy(s, thr, n + 1, k) == RemovedBy(s, thr, n, k) {
      RemovedByStep(s, thr, n, k);
    }
    AliveCongruent(s, thr, n + 1, n, m);
  }

  lemma GreedyCons(d: Detection, rest: seq<Detection>, thr: real)
    ensures Greedy([d] + rest, thr) == [d] + Greedy(Without(rest, d, thr), thr)
  {
    assert ([d] + rest)[1..] == rest;
  }

  /** Greedy takes the next survivor ... */
  lemma GreedyKeeps(s: seq<Detection>, thr: real, n: nat)
    requires n < |s| && Survives(s, thr, n)
    ensures Greedy(Alive(s, thr, n, n), thr) == [s[n]] + Greedy(Alive(s, thr, n + 1, n + 1), thr)
  {
    AliveHead(s, thr, n);
    AliveAfterKept(s, thr, n, n + 1);
    GreedyCons(s[n], Alive(s, thr, n, n + 1), thr);
  }

  /** ... and passes over a removed box. */
  lemma GreedyPasses(s: seq<Detection>, thr: real, n: nat)
    requires n < |s| && !Survives(s, thr, n)
    ensures Alive(s, thr, n, n) == Alive(s, thr, n + 1, n + 1)
  {
    AliveHead(s, thr, n);
    AliveAfterRemoved(s, thr, n, n + 1);
  }

  lemma AliveHead(s: seq<Detection>, thr: real, n: nat)
    requires n < |s|
    ensures var rest := Alive(s, thr, n, n + 1);
      Alive(s, thr, n, n) == if Survives(s, thr, n) then [s[n]] + rest else rest
  {
    SurvivesIff(s, thr, n);
  }

  lemma {:induction false} GreedyFrom(s: seq<Detection>, thr: real, n: nat)
    requires n <= |s|
    ensures Survivors(s, thr, n) + Greedy(Alive(s, thr, n, n), thr) == Survivors(s, thr, |s|)
    decreases |s| - n
  {
    if n == |s| {
    } else {
      GreedyFrom(s, thr, n + 1);
      if Survives(s, thr, n) {
        GreedyKeeps(s, thr, n);
        Regroup(Survivors(s, thr, n), [s[n]], Greedy(Alive(s, thr, n + 1, n + 1), thr));
      } else {
        GreedyPasses(s, thr, n);
        assert Survivors(s, thr, n + 1) == Survivors(s, thr, n);
      }
    }
  }

  lemma Regroup(a: seq<Detection>, b: seq<Detection>, c: seq<Detection>)
    ensures a + b + c == a + (b + c)
  {
  }

  lemma {:induction false} AliveAll(s: seq<Detection>, thr: real, m: nat)
    requires m <= |s|
    ensures Alive(s, thr, 0, m) == s[m..]
    decreases |s| - m
  {
    if m == |s| {
    } else {
      AliveAll(s, thr, m + 1);
    }
  }

  lemma GreedyIsSurvivors(s: seq<Detection>, thr: real)
    ensures Greedy(s, thr) == Survivors(s, thr, |s|)
  {
    GreedyFrom(s, thr, 0);
    AliveAll(s, thr, 0);
    assert s[0..] == s;
  }

  // ----- laws of NMS on a fixed order

  function OfClass(s: seq<Detection>, c: int): seq<Detection> {
    if s == [] then []
    else (if s[0].classId == c then [s[0]] else []) + OfClass(s[1..], c)
  }

  lemma OfClassCons(d: Detection, rest: seq<Detection>, c: int)
    ensures OfClass([d] + rest, c) == (if d.classId == c then [d] else []) + OfClass(rest, c)
  {
    assert ([d] + rest)[1..] == rest;
  }

  lemma {:induction false} OfClassWithout(s: seq<Detection>, d: Detection, thr: real, c: int)
    ensures d.classId == c ==> OfClass(Without(s, d, thr), c) == Without(OfClass(s, c), d, thr)
    ensures d.classId != c ==> OfClass(Without(s, d, thr), c) == OfClass(s, c)
  {
    if s == [] {
    } else {
      OfClassWithout(s[1..], d, thr, c);
      var rest, cls := Without(s[1..], d, thr), OfClass(s[1..], c);
      OfClassCons(s[0], rest, c);
      WithoutCons(s[0], cls, d, thr);
      assert [] + rest == rest && [] + cls == cls;
    }
  }

  /** Classes do not interact: restricting the result to a class is suppressing that class alone. */
  lemma {:induction false} ClassesIndependent(s: seq<Detection>, thr: real, c: int)
    ensures OfClass(Greedy(s, thr), c) == Greedy(OfClass(s, c), thr)
    decreases |s|
  {
    if s == [] {
    } else {
      var d, rest := s[0], s[1..];
      var left := Without(rest, d, thr);
      WithoutShrinks(rest, d, thr);
      ClassesIndependent(left, thr, c);
      OfClassWithout(rest, d, thr, c);
      assert Greedy(s, thr)[1..] == Greedy(left, thr);
      if d.classId == c {
        var cls := OfClass(rest, c);
        assert ([d] + cls)[1..] == cls;
        assert Greedy([d] + cls, thr) == [d] + Greedy(Without(cls, d, thr), thr);
      } else {
        assert OfClass(s, c) == [] + OfClass(rest, c) == OfClass(rest, c);
        assert OfClass(Greedy(s, thr), c) == [] + OfClass(Greedy(left, thr), c);
      }
    }
  }

  lemma {:induction false} WithoutNothing(s: seq<Detection>, d: Detection, thr: real)
    requires forall e :: e in s ==> !Suppresses(d, e, thr)
    ensures Without(s, d, thr) == s
  {
    if s == [] {
    } else {
      WithoutNothing(s[1..], d, thr);
    }
  }

  lemma {:induction false} ClearIsFixed(s: seq<Detection>, thr: real)
    requires PairwiseClear(s, thr)
    ensures Greedy(s, thr) == s
    decreases |s|
  {
    if s == [] {
    } else {
      forall e | e in s[1..] ensures !Suppresses(s[0], e, thr) {
        var j :| 0 <= j < |s[1..]| && s[1..][j] == e;
        assert s[j + 1] == e;
      }
      WithoutNothing(s[1..], s[0], thr);
      ClearIsFixed(s[1..], thr);
    }
  }

  lemma TwoPositions(s: seq<Detection>, a: Detection, b: Detection)
    requires a in s && b in s && (a == b ==> multiset(s)[a] >= 2)
    ensures exists i, j :: 0 <= i < |s| && 0 <= j < |s| && i != j && s[i] == a && s[j] == b
  {
    var i :| 0 <= i < |s| && s[i] == a;
    if a == b {
      assert s == s[..i] + [s[i]] + s[i + 1..];
      assert multiset(s) == multiset(s[..i]) + multiset{a} + multiset(s[i + 1..]);
      if a in s[..i] {
        var j :| 0 <= j < |s[..i]| && s[..i][j] == a;
        assert s[j] == b && j != i;
      } else {
        assert a in s[i + 1..];
        var j :| 0 <= j < |s[i + 1..]| && s[i + 1..][j] == a;
        assert s[i + 1 + j] == b;
      }
    } else {
      var j :| 0 <= j < |s| && s[j] == b;
      assert i != j;
    }
  }

  lemma RepeatedCount(t: seq<Detection>, i: nat, j: nat)
    requires i < j < |t| && t[i] == t[j]
    ensures multiset(t)[t[i]] >= 2
  {
    assert t == t[..i] + [t[i]] + t[i + 1..];
    assert t[i + 1..][j - i - 1] == t[i];
    assert t[i] in multiset(t[i + 1..]);
    assert multiset(t) == multiset(t[..i]) + multiset{t[i]} + multiset(t[i + 1..]);
  }

  /** Because IoU is symmetric, clearness does not depend on the order. */
  lemma ClearUnderPermutation(s: seq<Detection>, t: seq<Detection>, thr: real)
    requires PairwiseClear(s, thr) && multiset(t) == multiset(s)
    ensures PairwiseClear(t, thr)
  {
    SameMultisetSameElements(s, t);
    forall i, j | 0 <= i < j < |t| ensures !Suppresses(t[i], t[j], thr) {
      if t[i] == t[j] {
        RepeatedCount(t, i, j);
      }
      TwoPositions(s, t[i], t[j]);
      var p, q :| 0 <= p < |s| && 0 <= q < |s| && p != q && s[p] == t[i] && s[q] == t[j];
      SuppressesSymmetric(s[p], s[q], thr);
    }
  }

  /** Idempotence: NMS applied to its own output, re-sorted in whatever way, changes nothing. */
  lemma NmsIdempotent(s: seq<Detection>, thr: real, maxOut: int, again: seq<Detection>)
    requires IsSortOf(again, Cap(Greedy(s, thr), maxOut))
    ensures Cap(Greedy(again, thr), maxOut) == again
  {
    GreedyIsSurvivors(s, thr);
    SurvivorsClear(s, thr, |s|);
    var out := Cap(Greedy(s, thr), maxOut);
    ClearUnderPermutation(out, again, thr);
    ClearIsFixed(again, thr);
    SameMultisetSameElements(again, out);
  }

  /** The capped loop is a prefix of the uncapped one: raising the cap only appends. */
  lemma CapsArePrefixes(s: seq<Detection>, thr: real, k: int, m: int)
    requires k <= m
    ensures Cap(Greedy(s, thr), k) <= Cap(Greedy(s, thr), m) <= Greedy(s, thr)
    ensures m >= |s| ==> Cap(Greedy(s, thr), m) == Greedy(s, thr)
  {
    GreedyShrinks(s, thr);
  }

  lemma {:induction false} GreedyShrinks(s: seq<Detection>, thr: real)
    ensures |Greedy(s, thr)| <= |s|
    decreases |s|
  {
    if s == [] {
    } else {
      WithoutShrinks(s[1..], s[0], thr);
      GreedyShrinks(Without(s[1..], s[0], thr), thr);
    }
  }

  /** With a tie the choice of the sort decides which box survives. */
  lemma TiesCanDiffer()
    ensures exists s, t ::
      multiset(s) == multiset(t) && Descending(s) && Descending(t) && Greedy(s, 0.45) != Greedy(t, 0.45)
  {
    var a := Detection(0.0, 0.0, 2.0, 1.0, 0.5, 0);
    var b := Detection(0.0, 0.0, 1.0, 1.0, 0.5, 0);
    HalfOverlap(a, b);
    SuppressesSymmetric(a, b, 0.45);
    PairSuppressed(a, b, 0.45);
    PairSuppressed(b, a, 0.45);
    var ab: seq<Detection>, ba: seq<Detection> := [a, b], [b, a];
    assert multiset(ab) == multiset(ba) && Descending(ab) && Descending(ba);
    assert Greedy(ab, 0.45)[0] != Greedy(ba, 0.45)[0];
  }

  lemma HalfOverlap(a: Detection, b: Detection)
    requires a == Detection(0.0, 0.0, 2.0, 1.0, 0.5, 0) && b == Detection(0.0, 0.0, 1.0, 1.0, 0.5, 0)
    ensures Suppresses(a, b, 0.45)
  {
    assert Extent(0.0, 2.0, 0.0, 1.0) == 1.0;
    assert Extent(0.0, 1.0, 0.0, 1.0) == 1.0;
    UnitProducts(2.0);
    UnitProducts(1.0);
    assert Ratio(1.0, 3.0) == 0.5;
  }

  lemma UnitProducts(p: real)
    ensures p * 1.0 == p
  {
  }

  lemma PairSuppressed(a: Detection, b: Detection, thr: real)
    requires Suppresses(a, b, thr)
    ensures Greedy([a, b], thr) == [a]
  {
    assert [a, b][1..] == [b];
    assert Without([b], a, thr) == [];
  }

  // ----- exactly when the sort's choice among equal scores shows

  /** No kept box of strictly higher score suppresses `e`. */
  ghost predicate Free(s: seq<Detection>, thr: real, e: Detection) {
    forall k :: k in Greedy(s, thr) && k.score > e.score ==> !Suppresses(k, e, thr)
  }

  /** How many of these boxes score strictly higher. */
  function CountAbove(kept: seq<Detection>, score: real): nat {
    if kept == [] then 0 else (if kept[0].score > score then 1 else 0) + CountAbove(kept[1..], score)
  }

  ghost predicate Level(s: seq<Detection>, thr: real, n: nat, a: Detection, b: Detection) {
    && a.score == b.score && Free(s, thr, a) && Free(s, thr, b)
    && CountAbove(Greedy(s, thr), a.score) < n
  }

  /** Boxes of equal score that higher scores leave standing, and that are not already pushed out
      by `n` kept boxes of higher score, are all the same box. */
  ghost predicate Tame(s: seq<Detection>, thr: real, n: nat) {
    forall a, b {:trigger Level(s, thr, n, a, b)} :: a in s && b in s && Level(s, thr, n, a, b) ==> a == b
  }

  /** The first `n` boxes greedy keeps. */
  function GreedyUpto(s: seq<Detection>, thr: real, n: nat): seq<Detection>
    decreases n
  {
    if s == [] || n == 0 then []
    else [s[0]] + GreedyUpto(Without(s[1..], s[0], thr), thr, n - 1)
  }

  /** Whatever the sort does with equal scores, `nms` returns the same boxes in the same order. */
  ghost predicate OrderHidden(s: seq<Detection>, thr: real, maxOut: int) {
    forall t :: IsSortOf(t, s) ==> Cap(Greedy(t, thr), maxOut) == Cap(Greedy(s, thr), maxOut)
  }

  /** The boxes `d` suppresses, which `Without` leaves out. */
  function Victims(s: seq<Detection>, d: Detection, thr: real): seq<Detection> {
    if s == [] then []
    else (if Suppresses(d, s[0], thr) then [s[0]] else []) + Victims(s[1..], d, thr)
  }

  lemma {:induction false} WithoutIn(s: seq<Detection>, d: Detection, thr: real)
    ensures forall e :: e in Without(s, d, thr) <==> e in s && !Suppresses(d, e, thr)
    ensures forall e :: e in Victims(s, d, thr) <==> e in s && Suppresses(d, e, thr)
  {
    if s == [] {
    } else {
      WithoutIn(s[1..], d, thr);
      assert s == [s[0]] + s[1..];
    }
  }

  lemma {:induction false} WithoutSplits(s: seq<Detection>, d: Detection, thr: real)
    ensures multiset(s) == multiset(Without(s, d, thr)) + multiset(Victims(s, d, thr))
  {
    if s == [] {
    } else {
      WithoutSplits(s[1..], d, thr);
      assert s == [s[0]] + s[1..];
    }
  }

  /** How often a box remains depends only on how often it was there. */
  lemma {:induction false} WithoutCount(s: seq<Detection>, d: Detection, thr: real, e: Detection)
    ensures multiset(Without(s, d, thr))[e] == if Suppresses(d, e, thr) then 0 else multiset(s)[e]
  {
    if s == [] {
    } else {
      WithoutCount(s[1..], d, thr, e);
      assert s == [s[0]] + s[1..];
    }
  }

  lemma WithoutPermuted(s: seq<Detection>, t: seq<Detection>, d: Detection, thr: real)
    requires multiset(s) == multiset(t)
    ensures multiset(Without(s, d, thr)) == multiset(Without(t, d, thr))
  {
    forall e ensures multiset(Without(s, d, thr))[e] == multiset(Without(t, d, thr))[e] {
      WithoutCount(s, d, thr, e);
      WithoutCount(t, d, thr, e);
    }
  }

  lemma TailOfDescending(s: seq<Detection>)
    requires Descending(s) && s != []
    ensures Descending(s[1..]) && forall e :: e in s ==> e.score <= s[0].score
  {
  }

  lemma {:induction false} WithoutDescends(s: seq<Detection>, d: Detection, thr: real)
    requires Descending(s)
    ensures Descending(Without(s, d, thr))
  {
    if s == [] {
    } else {
      TailOfDescending(s);
      WithoutDescends(s[1..], d, thr);
      var rest := Without(s[1..], d, thr);
      if !Suppresses(d, s[0], thr) {
        WithoutIn(s[1..], d, thr);
        assert rest != [] ==> rest[0] in s[1..] && rest[0] in s;
        ConsDescending(s[0], rest);
      } else {
        assert [] + rest == rest;
      }
    }
  }

  lemma {:induction false} GreedyIn(s: seq<Detection>, thr: real)
    ensures forall k :: k in Greedy(s, thr) ==> k in s
    decreases |s|
  {
    if s == [] {
    } else {
      var rest := Without(s[1..], s[0], thr);
      WithoutShrinks(s[1..], s[0], thr);
      GreedyIn(rest, thr);
      WithoutIn(s[1..], s[0], thr);
      assert s == [s[0]] + s[1..];
    }
  }

  /** Nothing outranks the boxes of the highest score. */
  lemma TopIsFree(s: seq<Detection>, thr: real, e: Detection)
    requires Descending(s) && s != [] && e.score == s[0].score
    ensures Free(s, thr, e)
  {
    GreedyIn(s, thr);
    TailOfDescending(s);
  }

  /** What is left standing among the rest, once the best box has had its turn, was left standing
      in the whole; and so was what is not of the highest score. */
  lemma FreeInRest(s: seq<Detection>, thr: real, e: Detection)
    requires s != []
    ensures var rest := Without(s[1..], s[0], thr);
      && (e in rest && Free(rest, thr, e) ==> Free(s, thr, e))
      && (Free(s, thr, e) ==> Free(rest, thr, e))
  {
    var rest := Without(s[1..], s[0], thr);
    WithoutShrinks(s[1..], s[0], thr);
    WithoutIn(s[1..], s[0], thr);
    assert Greedy(s, thr) == [s[0]] + Greedy(rest, thr);
  }

  lemma CountCons(d: Detection, kept: seq<Detection>, score: real)
    ensures CountAbove([d] + kept, score) == (if d.score > score then 1 else 0) + CountAbove(kept, score)
  {
    assert ([d] + kept)[1..] == kept;
  }

  lemma {:induction false} GreedyUptoIsPrefix(s: seq<Detection>, thr: real, n: nat)
    ensures GreedyUpto(s, thr, n) == Greedy(s, thr)[..Min(|Greedy(s, thr)|, n)]
    decreases n
  {
    if s == [] || n == 0 {
    } else {
      GreedyHead(s, thr);
      GreedyUptoIsPrefix(Without(s[1..], s[0], thr), thr, n - 1);
    }
  }

  lemma {:induction false} NoneAbove(kept: seq<Detection>, score: real)
    requires forall k :: k in kept ==> k.score <= score
    ensures CountAbove(kept, score) == 0
  {
    if kept == [] {
    } else {
      assert kept[0] in kept;
      NoneAbove(kept[1..], score);
    }
  }

  /** Greedy keeps the best box and goes on with what it leaves. */
  lemma GreedyHead(s: seq<Detection>, thr: real)
    requires s != []
    ensures Greedy(s, thr) == [s[0]] + Greedy(Without(s[1..], s[0], thr), thr)
    ensures |Without(s[1..], s[0], thr)| < |s|
  {
    WithoutShrinks(s[1..], s[0], thr);
  }

  lemma TameRest(s: seq<Detection>, thr: real, n: nat)
    requires s != [] && n >= 1 && Tame(s, thr, n)
    ensures Tame(Without(s[1..], s[0], thr), thr, n - 1)
  {
    var rest := Without(s[1..], s[0], thr);
    WithoutIn(s[1..], s[0], thr);
    GreedyHead(s, thr);
    forall a, b | a in rest && b in rest && Level(rest, thr, n - 1, a, b) ensures a == b {
      FreeInRest(s, thr, a);
      FreeInRest(s, thr, b);
      CountCons(s[0], Greedy(rest, thr), a.score);
      assert a in s && b in s && Level(s, thr, n, a, b);
    }
  }

  lemma TopHasNoneAbove(s: seq<Detection>, thr: real)
    requires Descending(s) && s != []
    ensures CountAbove(Greedy(s, thr), s[0].score) == 0
  {
    GreedyIn(s, thr);
    TailOfDescending(s);
    NoneAbove(Greedy(s, thr), s[0].score);
  }

  lemma TameSameHead(s: seq<Detection>, t: seq<Detection>, thr: real, n: nat)
    requires Descending(s) && Tame(s, thr, n) && n >= 1 && IsSortOf(t, s) && s != []
    ensures |t| == |s| && t[0] == s[0]
  {
    SameMultisetSameElements(s, t);
    assert t[0] in s && s[0] in t;
    TailOfDescending(s);
    TailOfDescending(t);
    TopIsFree(s, thr, s[0]);
    TopIsFree(s, thr, t[0]);
    TopHasNoneAbove(s, thr);
    assert Level(s, thr, n, s[0], t[0]);
  }

  lemma {:induction false} TameHides(s: seq<Detection>, t: seq<Detection>, thr: real, n: nat)
    requires Descending(s) && Tame(s, thr, n) && IsSortOf(t, s)
    ensures GreedyUpto(t, thr, n) == GreedyUpto(s, thr, n)
    decreases n
  {
    if s == [] {
      SameMultisetSameElements(s, t);
    } else if n >= 1 {
      TameSameHead(s, t, thr, n);
      var d := s[0];
      TailMultiset(s);
      TailMultiset(t);
      WithoutPermuted(s[1..], t[1..], d, thr);
      WithoutDescends(s[1..], d, thr);
      WithoutDescends(t[1..], d, thr);
      TameRest(s, thr, n);
      TameHides(Without(s[1..], d, thr), Without(t[1..], d, thr), thr, n - 1);
    }
  }

  /** Move the box at `i`, of the highest score, to the front. */
  lemma MoveToFront(s: seq<Detection>, i: nat) returns (t: seq<Detection>)
    requires Descending(s) && i < |s| && s[i].score == s[0].score
    ensures IsSortOf(t, s) && t != [] && t[0] == s[i]
  {
    t := [s[i]] + (s[..i] + s[i + 1..]);
    MiddleMultiset(s, i);
    assert multiset(t) == multiset(s);
    TailOfDescending(s);
    CutDescends(s, i);
    ConsDescending(s[i], s[..i] + s[i + 1..]);
  }

  lemma CutDescends(s: seq<Detection>, i: nat)
    requires Descending(s) && i < |s|
    ensures Descending(s[..i] + s[i + 1..])
  {
  }

  lemma {:induction false} InsertVictim(v: Detection, u: seq<Detection>, d: Detection, thr: real)
    requires Suppresses(d, v, thr)
    ensures Without(Insert(v, u), d, thr) == Without(u, d, thr)
  {
    if u == [] || v.score > u[0].score {
      WithoutCons(v, u, d, thr);
    } else {
      InsertVictim(v, u[1..], d, thr);
      WithoutCons(u[0], Insert(v, u[1..]), d, thr);
    }
  }

  /** Put boxes that `d` suppresses anyway back among the others, in score order. */
  lemma {:induction false} PutBack(victims: seq<Detection>, t: seq<Detection>, d: Detection, thr: real)
    returns (u: seq<Detection>)
    requires Descending(t) && forall v :: v in victims ==> Suppresses(d, v, thr)
    ensures Descending(u) && multiset(u) == multiset(t) + multiset(victims)
    ensures Without(u, d, thr) == Without(t, d, thr)
  {
    if victims == [] {
      u := t;
    } else {
      var v := victims[0];
      assert victims == [v] + victims[1..];
      var w := PutBack(victims[1..], t, d, thr);
      InsertMultiset(v, w);
      InsertDescending(v, w);
      InsertVictim(v, w, d, thr);
      u := Insert(v, w);
    }
  }

  /** An order of the rest that changes its outcome extends to one of the whole that does. */
  lemma ExtendOrder(s: seq<Detection>, thr: real, t': seq<Detection>)
    returns (t: seq<Detection>, u: seq<Detection>)
    requires Descending(s) && s != [] && IsSortOf(t', Without(s[1..], s[0], thr))
    ensures IsSortOf(t, s) && t == [s[0]] + u && Without(u, s[0], thr) == t'
  {
    var d := s[0];
    var rest, victims := Without(s[1..], d, thr), Victims(s[1..], d, thr);
    WithoutIn(s[1..], d, thr);
    SameMultisetSameElements(rest, t');
    u := PutBack(victims, t', d, thr);
    WithoutSplits(s[1..], d, thr);
    WithoutNothing(t', d, thr);
    TailMultiset(s);
    t := [d] + u;
    assert multiset(t) == multiset(s);
    TailOfDescending(s);
    HeadStaysTop(s, u);
  }

  lemma HeadStaysTop(s: seq<Detection>, u: seq<Detection>)
    requires Descending(s) && s != [] && Descending(u) && multiset(u) == multiset(s[1..])
    ensures Descending([s[0]] + u)
  {
    TailOfDescending(s);
    SameMultisetSameElements(u, s[1..]);
    assert u != [] ==> u[0] in s[1..] && u[0] in s;
    ConsDescending(s[0], u);
  }

  /** If the highest scores are all the same box, two boxes that tell `s` apart are in the rest. */
  lemma WildRest(s: seq<Detection>, thr: real, n: nat)
    requires Descending(s) && s != [] && n >= 1 && !Tame(s, thr, n)
    requires forall e :: e in s && e.score == s[0].score ==> e == s[0]
    ensures !Tame(Without(s[1..], s[0], thr), thr, n - 1)
  {
    var a, b :| a in s && b in s && Level(s, thr, n, a, b) && a != b;
    TailOfDescending(s);
    assert a.score < s[0].score;
    StaysInRest(s, thr, a);
    StaysInRest(s, thr, b);
    GreedyHead(s, thr);
    var rest := Without(s[1..], s[0], thr);
    CountCons(s[0], Greedy(rest, thr), a.score);
    assert Level(rest, thr, n - 1, a, b);
  }

  lemma StaysInRest(s: seq<Detection>, thr: real, e: Detection)
    requires s != [] && e in s && e.score < s[0].score && Free(s, thr, e)
    ensures var rest := Without(s[1..], s[0], thr); e in rest && Free(rest, thr, e)
  {
    FreeInRest(s, thr, e);
    WithoutIn(s[1..], s[0], thr);
    assert s == [s[0]] + s[1..];
    assert s[0] in Greedy(s, thr);
  }

  lemma FrontShows(s: seq<Detection>, thr: real, n: nat, i: nat) returns (t: seq<Detection>)
    requires Descending(s) && i < |s| && s[i].score == s[0].score && s[i] != s[0] && n >= 1
    ensures IsSortOf(t, s) && GreedyUpto(t, thr, n) != GreedyUpto(s, thr, n)
  {
    t := MoveToFront(s, i);
    assert GreedyUpto(t, thr, n)[0] == s[i] && GreedyUpto(s, thr, n)[0] == s[0];
  }

  lemma UptoAfter(d: Detection, u: seq<Detection>, thr: real, n: nat)
    requires n >= 1
    ensures GreedyUpto([d] + u, thr, n) == [d] + GreedyUpto(Without(u, d, thr), thr, n - 1)
  {
    assert ([d] + u)[1..] == u;
  }

  lemma RestShows(s: seq<Detection>, thr: real, n: nat, t': seq<Detection>) returns (t: seq<Detection>)
    requires Descending(s) && s != [] && n >= 1
    requires var rest := Without(s[1..], s[0], thr);
      IsSortOf(t', rest) && GreedyUpto(t', thr, n - 1) != GreedyUpto(rest, thr, n - 1)
    ensures IsSortOf(t, s) && GreedyUpto(t, thr, n) != GreedyUpto(s, thr, n)
  {
    ghost var u;
    t, u := ExtendOrder(s, thr, t');
    UptoAfter(s[0], u, thr, n);
    assert GreedyUpto(t, thr, n)[1..] == GreedyUpto(t', thr, n - 1);
    assert GreedyUpto(s, thr, n)[1..] == GreedyUpto(Without(s[1..], s[0], thr), thr, n - 1);
  }

  lemma WildIsSome(s: seq<Detection>, thr: real, n: nat)
    requires !Tame(s, thr, n)
    ensures s != [] && n >= 1
  {
  }

  lemma {:induction false} WildShows(s: seq<Detection>, thr: real, n: nat) returns (t: seq<Detection>)
    requires Descending(s) && !Tame(s, thr, n)
    ensures IsSortOf(t, s) && GreedyUpto(t, thr, n) != GreedyUpto(s, thr, n)
    decreases n
  {
    WildIsSome(s, thr, n);
    if i :| 0 <= i < |s| && s[i].score == s[0].score && s[i] != s[0] {
      t := FrontShows(s, thr, n, i);
    } else {
      WildRest(s, thr, n);
      TailOfDescending(s);
      WithoutDescends(s[1..], s[0], thr);
      var t' := WildShows(Without(s[1..], s[0], thr), thr, n - 1);
      t := RestShows(s, thr, n, t');
    }
  }

  /** The instability of the sort cannot show exactly when boxes of equal score are identical
      wherever it matters: where no kept box of higher score suppresses them and the cap is not
      yet used up by kept boxes of higher score. */
  lemma OrderHiddenIff(s: seq<Detection>, thr: real, maxOut: int)
    requires Descending(s)
    ensures OrderHidden(s, thr, maxOut) <==> Tame(s, thr, Max(1, maxOut))
  {
    var n := Max(1, maxOut);
    GreedyUptoIsPrefix(s, thr, n);
    if Tame(s, thr, n) {
      forall t | IsSortOf(t, s) ensures Cap(Greedy(t, thr), maxOut) == Cap(Greedy(s, thr), maxOut) {
        TameHides(s, t, thr, n);
        GreedyUptoIsPrefix(t, thr, n);
      }
    } else {
      var t := WildShows(s, thr, n);
      GreedyUptoIsPrefix(t, thr, n);
      assert Cap(Greedy(t, thr), maxOut) != Cap(Greedy(s, thr), maxOut);
    }
  }

  /** A single box is asked for: the order is hidden exactly when the highest score belongs to
      one box, whatever the threshold. */
  lemma SingleHiddenIff(s: seq<Detection>, thr: real, maxOut: int)
    requires Descending(s) && s != [] && maxOut <= 1
    ensures OrderHidden(s, thr, maxOut) <==> forall e :: e in s && e.score == s[0].score ==> e == s[0]
  {
    OrderHiddenIff(s, thr, maxOut);
    forall a, b | a in s && b in s
      ensures Level(s, thr, 1, a, b) <==> a.score == b.score == s[0].score
    {
      LevelOne(s, thr, a, b);
    }
  }

  lemma LevelOne(s: seq<Detection>, thr: real, a: Detection, b: Detection)
    requires Descending(s) && a in s && b in s
    ensures Level(s, thr, 1, a, b) <==> a.score == b.score == s[0].score
  {
    TailOfDescending(s);
    TopHasNoneAbove(s, thr);
    if a.score == b.score == s[0].score {
      TopIsFree(s, thr, a);
      TopIsFree(s, thr, b);
    } else if a.score < s[0].score {
      GreedyHead(s, thr);
      CountCons(s[0], Greedy(Without(s[1..], s[0], thr), thr), a.score);
    }
  }

  // ----- whatever the threshold

  ghost predicate EqualScoresEqualBoxes(s: seq<Detection>) {
    forall a, b :: a in s && b in s && a.score == b.score ==> a == b
  }

  lemma {:induction false} IouBoundOne(a: Detection, s: seq<Detection>) returns (m: real)
    ensures forall b :: b in s ==> Iou(a, b) <= m
  {
    if s == [] {
      m := 0.0;
    } else {
      var m' := IouBoundOne(a, s[1..]);
      m := MaxR(m', Iou(a, s[0]));
      assert s == [s[0]] + s[1..];
    }
  }

  lemma {:induction false} IouBound(p: seq<Detection>, s: seq<Detection>) returns (m: real)
    ensures forall a, b :: a in p && b in s ==> Iou(a, b) <= m
  {
    if p == [] {
      m := 0.0;
    } else {
      var m0 := IouBoundOne(p[0], s);
      var m1 := IouBound(p[1..], s);
      m := MaxR(m0, m1);
      assert p == [p[0]] + p[1..];
    }
  }

  lemma {:induction false} FewerAbove(kept: seq<Detection>, score: real)
    ensures CountAbove(kept, score) <= |kept|
    ensures (exists e :: e in kept && e.score <= score) ==> CountAbove(kept, score) < |kept|
  {
    if kept == [] {
    } else {
      assert kept == [kept[0]] + kept[1..];
      FewerAbove(kept[1..], score);
    }
  }

  /** Above all overlaps nothing is suppressed. */
  lemma HighThresholdKeeps(s: seq<Detection>, u: seq<Detection>, thr: real)
    requires forall a, b :: a in s && b in s ==> Iou(a, b) <= thr
    requires forall e :: e in u ==> e in s
    ensures Greedy(u, thr) == u
  {
    assert PairwiseClear(u, thr);
    ClearIsFixed(u, thr);
  }

  /** There, with room for all boxes, two different ones of equal score show. */
  lemma TieShows(s: seq<Detection>, maxOut: int) returns (thr: real)
    requires Descending(s) && !EqualScoresEqualBoxes(s) && maxOut >= |s|
    ensures !OrderHidden(s, thr, maxOut)
  {
    thr := IouBound(s, s);
    var a, b :| a in s && b in s && a.score == b.score && a != b;
    HighThresholdKeeps(s, s, thr);
    FewerAbove(s, a.score);
    assert Level(s, thr, Max(1, maxOut), a, b);
    OrderHiddenIff(s, thr, maxOut);
  }

  /** For a caller who does not know the threshold: with room for all boxes, and likewise if the
      cap is not known either, the sort's choice is hidden exactly when no two different boxes
      share a score. */
  lemma HiddenForAllThresholdsIff(s: seq<Detection>, maxOut: int)
    requires Descending(s)
    ensures maxOut >= |s| ==> ((forall thr :: OrderHidden(s, thr, maxOut)) <==> EqualScoresEqualBoxes(s))
    ensures (forall thr, cap :: OrderHidden(s, thr, cap)) <==> EqualScoresEqualBoxes(s)
  {
    if EqualScoresEqualBoxes(s) {
      forall thr, cap ensures OrderHidden(s, thr, cap) {
        OrderHiddenIff(s, thr, cap);
      }
    } else {
      var thr := TieShows(s, |s|);
      if maxOut >= |s| {
        var thr' := TieShows(s, maxOut);
      }
    }
  }

  /** If boxes of equal score are identical, in particular if all scores differ, there is only one
      sorted order. */
  lemma {:induction false} OneOrder(s: seq<Detection>, t: seq<Detection>)
    requires Descending(s) && EqualScoresEqualBoxes(s) && IsSortOf(t, s)
    ensures t == s
    decreases |s|
  {
    SameMultisetSameElements(s, t);
    if s != [] {
      SameBest(s, t);
      TailMultiset(s);
      TailMultiset(t);
      TailOfDescending(s);
      TailOfDescending(t);
      OneOrder(s[1..], t[1..]);
      assert s == [s[0]] + s[1..] && t == [t[0]] + t[1..];
    }
  }

  lemma SameBest(s: seq<Detection>, t: seq<Detection>)
    requires Descending(s) && EqualScoresEqualBoxes(s) && IsSortOf(t, s) && s != []
    ensures t != [] && t[0] == s[0] && EqualScoresEqualBoxes(s[1..])
  {
    SameMultisetSameElements(s, t);
    assert t[0] in s && s[0] in t;
    TailOfDescending(s);
    TailOfDescending(t);
    assert forall e :: e in s[1..] ==> e in s;
  }
}
