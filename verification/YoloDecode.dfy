/** Decoding a raw YOLO output tensor into detections. */
module YoloDecode {
  import opened Nms
  import opened Letterbox

  /** A contiguous row-major float tensor. */
  datatype Tensor = Tensor(data: seq<real>, rows: nat, cols: nat)

  datatype Config = Config(numClasses: nat, conf: real, iou: real, maxDetections: int, transposed: bool)

  function NumBoxes(t: Tensor, cfg: Config): nat { if cfg.transposed then t.cols else t.rows }

  function NumAttrs(t: Tensor, cfg: Config): nat { if cfg.transposed then t.rows else t.cols }

  /** The tensor has the announced shape and room for a box and all class scores. */
  predicate WellShaped(t: Tensor, cfg: Config) {
    |t.data| == t.rows * t.cols && NumAttrs(t, cfg) >= 4 + cfg.numClasses
  }

  /** The accessor: attribute `attr` of candidate `box`, in either layout. */
  function At(t: Tensor, cfg: Config, box: nat, attr: nat): real
    requires WellShaped(t, cfg) && box < NumBoxes(t, cfg) && attr < NumAttrs(t, cfg)
  {
    if cfg.transposed then
      RowBound(attr, box, t.cols, t.rows);
      t.data[attr * t.cols + box]
    else
      RowBound(box, attr, t.cols, t.rows);
      t.data[box * t.cols + attr]
  }

  /** Candidate `box` as a row of attributes. */
  function Row(t: Tensor, cfg: Config, box: nat): (r: seq<real>)
    requires WellShaped(t, cfg) && box < NumBoxes(t, cfg)
    ensures |r| == NumAttrs(t, cfg)
    ensures forall a :: 0 <= a < |r| ==> r[a] == At(t, cfg, box, a)
  {
    seq(NumAttrs(t, cfg), a requires 0 <= a < NumAttrs(t, cfg) => At(t, cfg, box, a))
  }

  // ----- the best class of a candidate

  /** `c` is the first class of maximal score and `s` that score; -1 if no score is positive. */
  predicate IsBest(scores: seq<real>, c: int, s: real) {
    if c == -1 then s == 0.0 && forall k :: 0 <= k < |scores| ==> scores[k] <= 0.0
    else
      && 0 <= c < |scores| && s == scores[c] > 0.0
      && (forall k :: 0 <= k < |scores| ==> scores[k] <= s)
      && (forall k :: 0 <= k < c ==> scores[k] < s)
  }

  function Best(scores: seq<real>): (r: (int, real))
    ensures IsBest(scores, r.0, r.1)
  {
    if scores == [] then (-1, 0.0)
    else
      var n := |scores| - 1;
      var (c, s) := Best(scores[..n]);
      if scores[n] > s then (n, scores[n]) else (c, s)
  }

  lemma BestUnique(scores: seq<real>, c: int, s: real)
    requires IsBest(scores, c, s)
    ensures (c, s) == Best(scores)
  {
    var (c', s') := Best(scores);
    if c != -1 && c' != -1 {
      assert scores[c] <= s' && scores[c'] <= s;
    }
  }

  // ----- one candidate

  /** A row of `n` class scores preceded by an objectness score. */
  predicate HasObjectness(row: seq<real>, n: nat) {
    |row| == n + 5
  }

  function Objectness(row: seq<real>, n: nat): real
    requires |row| >= 4 + n
  {
    if HasObjectness(row, n) then row[4] else 1.0
  }

  function Scores(row: seq<real>, n: nat): (r: seq<real>)
    requires |row| >= 4 + n
    ensures |r| == n
  {
    var off := if HasObjectness(row, n) then 5 else 4;
    row[off..off + n]
  }

  /** The early test: hopeless objectness, class scores not even looked at. */
  predicate SkippedEarly(row: seq<real>, n: nat, conf: real)
    requires |row| >= 4 + n
  {
    HasObjectness(row, n) && Objectness(row, n) < conf * 0.5
  }

  /** The detection of a candidate with its best class and score, if it reaches the threshold. */
  function Accept(box: seq<real>, c: int, score: real, conf: real, lb: LetterboxInfo): seq<Detection>
    requires |box| >= 4 && lb.scale > 0.0
  {
    if c < 0 || score < conf then []
    else [Unletterbox(box[0], box[1], box[2], box[3], lb).(score := score, classId := c)]
  }

  function Lifted(obj: real, s: real): real { s * obj }

  /** The candidate scored in full. */
  function Scored(row: seq<real>, n: nat, conf: real, lb: LetterboxInfo): seq<Detection>
    requires |row| >= 4 + n && lb.scale > 0.0
  {
    var (c, s) := Best(Scores(row, n));
    Accept(row, c, Lifted(Objectness(row, n), s), conf, lb)
  }

  function Candidate(row: seq<real>, n: nat, conf: real, lb: LetterboxInfo): seq<Detection>
    requires |row| >= 4 + n && lb.scale > 0.0
  {
    if SkippedEarly(row, n, conf) then [] else Scored(row, n, conf, lb)
  }

  /** The first `k` candidates as rows. */
  function Rows(t: Tensor, cfg: Config, k: nat): (rows: seq<seq<real>>)
    requires WellShaped(t, cfg) && k <= NumBoxes(t, cfg)
    ensures |rows| == k && Wide(rows, cfg.numClasses)
    ensures forall i :: 0 <= i < k ==> rows[i] == Row(t, cfg, i)
  {
    if k == 0 then [] else Rows(t, cfg, k - 1) + [Row(t, cfg, k - 1)]
  }

  /** Every row has room for a box and `n` class scores. */
  predicate Wide(rows: seq<seq<real>>, n: nat) {
    forall i :: 0 <= i < |rows| ==> |rows[i]| >= 4 + n
  }

  /** The detections of these candidates, in order. */
  function RawOf(rows: seq<seq<real>>, n: nat, conf: real, lb: LetterboxInfo): seq<Detection>
    requires Wide(rows, n) && lb.scale > 0.0
  {
    if rows == [] then []
    else RawOf(rows[..|rows| - 1], n, conf, lb) + Candidate(rows[|rows| - 1], n, conf, lb)
  }

  /** The same with every candidate scored in full. */
  function RawFullOf(rows: seq<seq<real>>, n: nat, conf: real, lb: LetterboxInfo): seq<Detection>
    requires Wide(rows, n) && lb.scale > 0.0
  {
    if rows == [] then []
    else RawFullOf(rows[..|rows| - 1], n, conf, lb) + Scored(rows[|rows| - 1], n, conf, lb)
  }

  /** The detections of a tensor before suppression, with and without the early skip. */
  function Raw(t: Tensor, cfg: Config, lb: LetterboxInfo): seq<Detection>
    requires WellShaped(t, cfg) && lb.scale > 0.0
  {
    RawOf(Rows(t, cfg, NumBoxes(t, cfg)), cfg.numClasses, cfg.conf, lb)
  }

  function RawFull(t: Tensor, cfg: Config, lb: LetterboxInfo): seq<Detection>
    requires WellShaped(t, cfg) && lb.scale > 0.0
  {
    RawFullOf(Rows(t, cfg, NumBoxes(t, cfg)), cfg.numClasses, cfg.conf, lb)
  }

  lemma RawOfSnoc(rows: seq<seq<real>>, row: seq<real>, n: nat, conf: real, lb: LetterboxInfo)
    requires Wide(rows, n) && |row| >= 4 + n && lb.scale > 0.0
    ensures Wide(rows + [row], n)
    ensures RawOf(rows + [row], n, conf, lb) == RawOf(rows, n, conf, lb) + Candidate(row, n, conf, lb)
  {
    assert (rows + [row])[..|rows|] == rows;
  }

  // ----- the loops

  lemma BestExtends(scores: seq<real>, k: nat, c: int, s: real)
    requires k < |scores| && IsBest(scores[..k], c, s)
    ensures scores[k] > s ==> IsBest(scores[..k + 1], k, scores[k])
    ensures scores[k] <= s ==> IsBest(scores[..k + 1], c, s)
  {
    assert scores[..k + 1] == scores[..k] + [scores[k]];
    assert c >= 0 ==> scores[..k + 1][c] == scores[..k][c];
  }

  method BestClass(t: Tensor, cfg: Config, box: nat, off: nat) returns (bestC: int, bestS: real)
    requires WellShaped(t, cfg) && box < NumBoxes(t, cfg)
    requires off + cfg.numClasses <= NumAttrs(t, cfg)
    ensures (bestC, bestS) == Best(Row(t, cfg, box)[off..off + cfg.numClasses])
  {
    ghost var row := Row(t, cfg, box);
    ghost var scores := row[off..off + cfg.numClasses];
    bestC, bestS := -1, 0.0;
    var c := 0;
    while c < cfg.numClasses
      invariant 0 <= c <= cfg.numClasses
      invariant IsBest(scores[..c], bestC, bestS)
    {
      var s := At(t, cfg, box, off + c);
      assert s == row[off + c] == scores[c];
      BestExtends(scores, c, bestC, bestS);
      if s > bestS {
        bestS := s;
        bestC := c;
      }
      c := c + 1;
    }
    assert scores[..c] == scores;
    BestUnique(scores, bestC, bestS);
  }

  /** The body of the loop over candidates. */
  method DecodeOne(t: Tensor, cfg: Config, lb: LetterboxInfo, i: nat) returns (found: seq<Detection>)
    requires WellShaped(t, cfg) && lb.scale > 0.0 && i < NumBoxes(t, cfg)
    ensures found == Candidate(Row(t, cfg, i), cfg.numClasses, cfg.conf, lb)
  {
    ghost var row := Row(t, cfg, i);
    var hasObj := NumAttrs(t, cfg) == cfg.numClasses + 5;
    var off := if hasObj then 5 else 4;
    var cx, cy, bw, bh := At(t, cfg, i, 0), At(t, cfg, i, 1), At(t, cfg, i, 2), At(t, cfg, i, 3);
    var obj := if hasObj then At(t, cfg, i, 4) else 1.0;
    assert obj == Objectness(row, cfg.numClasses);
    if obj < cfg.conf * 0.5 && hasObj {
      return [];
    }
    var bestC, bestS := BestClass(t, cfg, i, off);
    assert (bestC, bestS) == Best(Scores(row, cfg.numClasses));
    var score := Lifted(obj, bestS);
    if bestC < 0 || score < cfg.conf {
      return [];
    }
    var d := Unletterbox(cx, cy, bw, bh, lb);
    return [d.(score := score, classId := bestC)];
  }

  method DecodeRaw(t: Tensor, cfg: Config, lb: LetterboxInfo) returns (raw: seq<Detection>)
    requires WellShaped(t, cfg) && lb.scale > 0.0
    ensures raw == Raw(t, cfg, lb)
  {
    raw := [];
    var i := 0;
    while i < NumBoxes(t, cfg)
      invariant 0 <= i <= NumBoxes(t, cfg)
      invariant raw == RawOf(Rows(t, cfg, i), cfg.numClasses, cfg.conf, lb)
    {
      var found := DecodeOne(t, cfg, lb, i);
      RawOfSnoc(Rows(t, cfg, i), Row(t, cfg, i), cfg.numClasses, cfg.conf, lb);
      raw := raw + found;
      i := i + 1;
    }
  }

  /** What NMS may make of these detections: they go in in some order the sort can leave. */
  ghost predicate Outcome(raw: seq<Detection>, cfg: Config, keep: seq<Detection>) {
    exists order :: IsSortOf(order, raw) && keep == Cap(Greedy(order, cfg.iou), cfg.maxDetections)
  }

  /** What `decode_yolo` may return. */
  ghost predicate Possible(t: Tensor, cfg: Config, lb: LetterboxInfo, keep: seq<Detection>)
    requires WellShaped(t, cfg) && lb.scale > 0.0
  {
    Outcome(Raw(t, cfg, lb), cfg, keep)
  }

  /** `decode_yolo`: everything handed on lies in the frame, reaches the threshold, belongs to a
      known class and is free of overlaps within its class. `order` is what the sort left. */
  method DecodeYolo(t: Tensor, cfg: Config, lb: LetterboxInfo)
    returns (keep: seq<Detection>, ghost order: seq<Detection>)
    requires WellShaped(t, cfg) && lb.scale > 0.0 && lb.srcW >= 1 && lb.srcH >= 1
    ensures IsSortOf(order, Raw(t, cfg, lb))
    ensures keep == Cap(Greedy(order, cfg.iou), cfg.maxDetections) && Possible(t, cfg, lb, keep)
    ensures PairwiseClear(keep, cfg.iou) && Descending(keep)
    ensures forall d :: d in keep ==> Acceptable(d, cfg, lb)
  {
    var raw := DecodeRaw(t, cfg, lb);
    var sorted := SortByScore(raw);
    order := sorted;
    keep := RunNms(raw, sorted, cfg.iou, cfg.maxDetections);
    RawAcceptable(Rows(t, cfg, NumBoxes(t, cfg)), cfg, lb);
  }

  predicate Acceptable(d: Detection, cfg: Config, lb: LetterboxInfo) {
    InFrame(d, lb.srcW, lb.srcH) && d.score >= cfg.conf && 0 <= d.classId < cfg.numClasses
  }

  lemma {:induction false} RawAcceptable(rows: seq<seq<real>>, cfg: Config, lb: LetterboxInfo)
    requires Wide(rows, cfg.numClasses) && lb.scale > 0.0 && lb.srcW >= 1 && lb.srcH >= 1
    ensures forall d :: d in RawOf(rows, cfg.numClasses, cfg.conf, lb) ==> Acceptable(d, cfg, lb)
  {
    if rows == [] {
    } else {
      RawAcceptable(rows[..|rows| - 1], cfg, lb);
      var row := rows[|rows| - 1];
      UnletterboxInFrame(row[0], row[1], row[2], row[3], lb);
    }
  }

  // ----- the two layouts

  ghost predicate IsTranspose(u: Tensor, t: Tensor) {
    && u.rows == t.cols && u.cols == t.rows
    && |t.data| == t.rows * t.cols && |u.data| == u.rows * u.cols
    && (forall i: nat, j: nat {:trigger Elem(t, i, j)} :: i < t.rows && j < t.cols ==> Elem(t, i, j) == Elem(u, j, i))
  }

  function Elem(t: Tensor, i: nat, j: nat): real
    requires |t.data| == t.rows * t.cols && i < t.rows && j < t.cols
  {
    RowBound(i, j, t.cols, t.rows);
    t.data[i * t.cols + j]
  }

  lemma TransposeShaped(t: Tensor, u: Tensor, cfg: Config)
    requires !cfg.transposed && WellShaped(t, cfg) && IsTranspose(u, t)
    ensures WellShaped(u, cfg.(transposed := true))
  {
  }

  lemma SameElement(t: Tensor, u: Tensor, cfg: Config, flipped: Config, box: nat, a: nat)
    requires !cfg.transposed && flipped == cfg.(transposed := true) && IsTranspose(u, t)
    requires WellShaped(t, cfg) && WellShaped(u, flipped) && box < t.rows && a < t.cols
    ensures At(u, flipped, box, a) == At(t, cfg, box, a)
  {
    assert Elem(t, box, a) == Elem(u, a, box);
  }

  lemma SameRow(t: Tensor, u: Tensor, cfg: Config, flipped: Config, box: nat)
    requires !cfg.transposed && flipped == cfg.(transposed := true) && IsTranspose(u, t)
    requires WellShaped(t, cfg) && WellShaped(u, flipped) && box < t.rows
    ensures Row(u, flipped, box) == Row(t, cfg, box)
  {
    var r, r' := Row(t, cfg, box), Row(u, flipped, box);
    forall a: nat | a < |r| ensures r'[a] == r[a] {
      SameElement(t, u, cfg, flipped, box, a);
    }
  }

  lemma {:induction false} SameRows(t: Tensor, u: Tensor, cfg: Config, flipped: Config, k: nat)
    requires !cfg.transposed && flipped == cfg.(transposed := true) && IsTranspose(u, t)
    requires WellShaped(t, cfg) && WellShaped(u, flipped) && k <= t.rows
    ensures Rows(u, flipped, k) == Rows(t, cfg, k)
  {
    if k == 0 {
    } else {
      SameRows(t, u, cfg, flipped, k - 1);
      SameRow(t, u, cfg, flipped, k - 1);
    }
  }

  /** An N x A tensor and its A x N transpose, read with `transposed` set, decode alike: the same
      raw detections, and the same results possible after sorting and suppression. */
  lemma LayoutsAgree(t: Tensor, u: Tensor, cfg: Config, lb: LetterboxInfo)
    requires !cfg.transposed && WellShaped(t, cfg) && IsTranspose(u, t) && lb.scale > 0.0
    ensures var flipped := cfg.(transposed := true);
      && WellShaped(u, flipped) && Raw(u, flipped, lb) == Raw(t, cfg, lb)
      && (forall keep :: Possible(u, flipped, lb, keep) <==> Possible(t, cfg, lb, keep))
  {
    TransposeShaped(t, u, cfg);
    SameRows(t, u, cfg, cfg.(transposed := true), t.rows);
  }

  // ----- the early skip

  /** No class score of these candidates exceeds `bound`. */
  ghost predicate ScoresBounded(rows: seq<seq<real>>, n: nat, bound: real)
    requires Wide(rows, n)
  {
    forall i :: 0 <= i < |rows| ==> RowBounded(rows[i], n, bound)
  }

  ghost predicate RowBounded(row: seq<real>, n: nat, bound: real)
    requires |row| >= 4 + n
  {
    forall k :: 0 <= k < n ==> Scores(row, n)[k] <= bound
  }

  lemma LiftedBound(obj: real, s: real, conf: real, bound: real)
    requires obj < conf * 0.5 && 0.0 < s <= bound
    requires conf == 0.0 || (conf > 0.0 && bound <= 2.0)
    ensures Lifted(obj, s) < conf
  {
    if obj <= 0.0 {
      assert s * (0.0 - obj) >= 0.0;
      if obj < 0.0 {
        assert s * (0.0 - obj) > 0.0;
      }
    } else {
      assert (2.0 - s) * obj >= 0.0;
    }
  }

  lemma HighScoreLifts(conf: real, bound: real)
    requires conf > 0.0 && bound > 2.0
    ensures var obj := conf / bound; obj < conf * 0.5 && Lifted(obj, bound) == conf
  {
    var obj := conf / bound;
    assert obj * bound == conf;
    var x := conf * 0.5 - obj;
    assert x * bound == conf * (bound * 0.5 - 1.0);
    assert conf * (bound * 0.5 - 1.0) > 0.0;
    PositiveFactor(x, bound);
  }

  lemma PositiveFactor(x: real, b: real)
    requires b > 0.0 && x * b > 0.0
    ensures x > 0.0
  {
  }

  lemma SmallScoreLifts(conf: real, bound: real)
    requires conf < 0.0 && bound > 0.0
    ensures var s := MinR(bound, 1.0); 0.0 < s <= bound && Lifted(conf, s) >= conf
  {
    var s := MinR(bound, 1.0);
    assert (1.0 - s) * conf <= 0.0;
    assert s * conf == conf - (1.0 - s) * conf;
  }

  lemma SkippedScoresNothing(row: seq<real>, n: nat, conf: real, lb: LetterboxInfo, bound: real)
    requires |row| >= 4 + n && lb.scale > 0.0 && SkippedEarly(row, n, conf)
    requires RowBounded(row, n, bound)
    requires conf == 0.0 || (conf > 0.0 && bound <= 2.0)
    ensures Scored(row, n, conf, lb) == []
  {
    var (c, s) := Best(Scores(row, n));
    if c >= 0 {
      LiftedBound(Objectness(row, n), s, conf, bound);
    }
  }

  lemma {:induction false} SkipPreservesRows(rows: seq<seq<real>>, n: nat, conf: real, lb: LetterboxInfo, bound: real)
    requires Wide(rows, n) && lb.scale > 0.0 && ScoresBounded(rows, n, bound)
    requires conf == 0.0 || (conf > 0.0 && bound <= 2.0)
    ensures RawOf(rows, n, conf, lb) == RawFullOf(rows, n, conf, lb)
  {
    if rows == [] {
    } else {
      var row := rows[|rows| - 1];
      SkipPreservesRows(rows[..|rows| - 1], n, conf, lb, bound);
      if SkippedEarly(row, n, conf) {
        SkippedScoresNothing(row, n, conf, lb, bound);
      }
    }
  }

  /** On every tensor within the bound, skipping early gives what scoring every box gives. */
  lemma EarlySkipPreserves(t: Tensor, cfg: Config, lb: LetterboxInfo, bound: real)
    requires WellShaped(t, cfg) && lb.scale > 0.0
    requires ScoresBounded(Rows(t, cfg, NumBoxes(t, cfg)), cfg.numClasses, bound)
    requires cfg.conf == 0.0 || (cfg.conf > 0.0 && bound <= 2.0)
    ensures Raw(t, cfg, lb) == RawFull(t, cfg, lb)
  {
    SkipPreservesRows(Rows(t, cfg, NumBoxes(t, cfg)), cfg.numClasses, cfg.conf, lb, bound);
  }

  /** A tensor, configuration and frame the decoder accepts, with this threshold and no class score
      above `bound`. */
  ghost predicate Within(t: Tensor, cfg: Config, lb: LetterboxInfo, conf: real, bound: real) {
    && WellShaped(t, cfg) && lb.scale > 0.0 && cfg.conf == conf
    && ScoresBounded(Rows(t, cfg, NumBoxes(t, cfg)), cfg.numClasses, bound)
  }

  /** What `decode_yolo` might return if it scored every box. */
  ghost predicate PossibleFull(t: Tensor, cfg: Config, lb: LetterboxInfo, keep: seq<Detection>)
    requires WellShaped(t, cfg) && lb.scale > 0.0
  {
    Outcome(RawFull(t, cfg, lb), cfg, keep)
  }

  /** Within these limits the skip never shows in what `decode_yolo` may return. */
  ghost predicate SkipHarmless(conf: real, bound: real) {
    forall t, cfg, lb, keep :: Within(t, cfg, lb, conf, bound) ==>
      (Possible(t, cfg, lb, keep) <==> PossibleFull(t, cfg, lb, keep))
  }

  const ONE_CLASS := Config(1, 0.0, 0.45, 300, false)
  const UNSCALED := LetterboxInfo(1.0, 0, 0, 1, 1)

  /** One candidate with one class: a unit box, its objectness and its class score. */
  function Single(obj: real, s: real): Tensor {
    Tensor([0.0, 0.0, 1.0, 1.0, obj, s], 1, 6)
  }

  lemma SingleRows(obj: real, s: real, cfg: Config)
    requires cfg.numClasses == 1 && !cfg.transposed
    ensures WellShaped(Single(obj, s), cfg)
    ensures Rows(Single(obj, s), cfg, 1) == [[0.0, 0.0, 1.0, 1.0, obj, s]]
  {
    var t := Single(obj, s);
    var row := Row(t, cfg, 0);
    assert row == [0.0, 0.0, 1.0, 1.0, obj, s];
    assert Rows(t, cfg, 0) == [];
  }

  lemma BestOfOne(s: real)
    requires s > 0.0
    ensures Best([s]) == (0, s)
  {
    BestUnique([s], 0, s);
  }

  /** A candidate that is skipped early but would have reached the threshold: the decoder finds
      nothing where scoring it would have found it. */
  lemma SkipCosts(obj: real, s: real, conf: real)
    requires obj < conf * 0.5 && s > 0.0 && Lifted(obj, s) >= conf
    ensures var t, cfg := Single(obj, s), ONE_CLASS.(conf := conf);
      && Within(t, cfg, UNSCALED, conf, s)
      && Raw(t, cfg, UNSCALED) == [] && |RawFull(t, cfg, UNSCALED)| == 1
  {
    var t, cfg := Single(obj, s), ONE_CLASS.(conf := conf);
    var row := [0.0, 0.0, 1.0, 1.0, obj, s];
    SingleRows(obj, s, cfg);
    SkippedRow(row, obj, s, conf);
    RawOfOne(row, 1, conf, UNSCALED);
  }

  lemma SkippedRow(row: seq<real>, obj: real, s: real, conf: real)
    requires row == [0.0, 0.0, 1.0, 1.0, obj, s]
    requires obj < conf * 0.5 && s > 0.0 && Lifted(obj, s) >= conf
    ensures Candidate(row, 1, conf, UNSCALED) == [] && |Scored(row, 1, conf, UNSCALED)| == 1
    ensures RowBounded(row, 1, s)
  {
    assert Scores(row, 1) == [s] && Objectness(row, 1) == obj;
    BestOfOne(s);
  }

  lemma RawOfOne(row: seq<real>, n: nat, conf: real, lb: LetterboxInfo)
    requires |row| >= 4 + n && lb.scale > 0.0
    ensures RawOf([row], n, conf, lb) == Candidate(row, n, conf, lb)
    ensures RawFullOf([row], n, conf, lb) == Scored(row, n, conf, lb)
  {
    var rows := [row];
    assert rows[..0] == [];
    assert RawOf(rows[..0], n, conf, lb) == [] && RawFullOf(rows[..0], n, conf, lb) == [];
  }

  /** A larger bound only admits more tensors. */
  lemma WithinLarger(t: Tensor, cfg: Config, lb: LetterboxInfo, conf: real, bound: real, more: real)
    requires Within(t, cfg, lb, conf, bound) && bound <= more
    ensures Within(t, cfg, lb, conf, more)
  {
    var rows := Rows(t, cfg, NumBoxes(t, cfg));
    forall i | 0 <= i < |rows| ensures RowBounded(rows[i], cfg.numClasses, more) {
      assert RowBounded(rows[i], cfg.numClasses, bound);
    }
  }

  lemma SkipShows(obj: real, s: real, conf: real, bound: real)
    requires obj < conf * 0.5 && 0.0 < s <= bound && Lifted(obj, s) >= conf
    ensures !SkipHarmless(conf, bound)
  {
    var t, cfg := Single(obj, s), ONE_CLASS.(conf := conf);
    SkipCosts(obj, s, conf);
    WithinLarger(t, cfg, UNSCALED, conf, s, bound);
    NothingFromNothing(cfg);
    SomethingFromOne(RawFull(t, cfg, UNSCALED), cfg);
    assert Possible(t, cfg, UNSCALED, []) && !PossibleFull(t, cfg, UNSCALED, []);
  }

  lemma NothingFromNothing(cfg: Config)
    ensures Outcome([], cfg, [])
  {
    var none: seq<Detection> := [];
    assert IsSortOf(none, none) && Cap(Greedy(none, cfg.iou), cfg.maxDetections) == [];
  }

  lemma SomethingFromOne(raw: seq<Detection>, cfg: Config)
    requires |raw| == 1
    ensures !Outcome(raw, cfg, [])
  {
    forall order | IsSortOf(order, raw) ensures Cap(Greedy(order, cfg.iou), cfg.maxDetections) != [] {
      assert raw[0] in multiset(raw);
      assert Greedy(order, cfg.iou)[0] == order[0];
    }
  }

  /** Exactly when the early skip cannot change what `decode_yolo` returns on any tensor with class
      scores up to `bound`: the threshold is zero, or it is positive and the bound at most 2. */
  lemma SkipHarmlessIff(conf: real, bound: real)
    requires bound > 0.0
    ensures SkipHarmless(conf, bound) <==> conf == 0.0 || (conf > 0.0 && bound <= 2.0)
  {
    if conf == 0.0 || (conf > 0.0 && bound <= 2.0) {
      forall t, cfg, lb, keep | Within(t, cfg, lb, conf, bound)
        ensures Possible(t, cfg, lb, keep) <==> PossibleFull(t, cfg, lb, keep)
      {
        EarlySkipPreserves(t, cfg, lb, bound);
      }
    } else if conf > 0.0 {
      HighScoreLifts(conf, bound);
      SkipShows(conf / bound, bound, conf, bound);
    } else {
      SmallScoreLifts(conf, bound);
      SkipShows(conf, MinR(bound, 1.0), conf, bound);
    }
  }
}
