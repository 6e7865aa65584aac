/** What decoding means: a tensor that describes detections decodes to exactly those detections. */
module YoloRoundTrip {
  import opened Nms
  import opened Letterbox
  import opened YoloDecode

  // ----- one candidate

  /** The class scores of a row, after the box and, if there is one, the objectness. */
  function ClassScores(row: seq<real>, n: nat): seq<real>
    requires |row| >= n + 4
  {
    if |row| == n + 5 then row[5..] else row[4..n + 4]
  }

  /** The row describes `d`: centre and size of its box in the input image, an objectness (1 if
      there is none), and class scores of which that of its class is positive, the highest, and
      the first of the highest; its score is the product. */
  ghost predicate Describes(row: seq<real>, n: nat, lb: LetterboxInfo, d: Detection, obj: real, s: real) {
    && |row| >= n + 4 && (row[0], row[1], row[2], row[3]) == ToInput(d, lb)
    && obj == (if |row| == n + 5 then row[4] else 1.0)
    && 0 <= d.classId < n && s == ClassScores(row, n)[d.classId] > 0.0 && d.score == s * obj
    && (forall c :: 0 <= c < n ==> ClassScores(row, n)[c] <= s)
    && (forall c :: 0 <= c < d.classId ==> ClassScores(row, n)[c] < s)
  }

  /** Confident enough for the final test and, with an objectness, for the early one. */
  predicate Confident(row: seq<real>, n: nat, conf: real, d: Detection, obj: real) {
    d.score >= conf && (|row| == n + 5 ==> obj >= conf / 2.0)
  }

  lemma BestDescribed(row: seq<real>, n: nat, lb: LetterboxInfo, d: Detection, obj: real, s: real)
    requires Describes(row, n, lb, d, obj, s)
    ensures Best(Scores(row, n)) == (d.classId, s) && Objectness(row, n) == obj
  {
    assert Scores(row, n) == ClassScores(row, n);
    BestUnique(Scores(row, n), d.classId, s);
  }

  /** A candidate that describes a detection in the frame is decoded to it if it is confident
      enough, and dropped if it is not. */
  lemma DecodesBack(row: seq<real>, n: nat, conf: real, lb: LetterboxInfo, d: Detection, obj: real, s: real)
    requires Describes(row, n, lb, d, obj, s) && InFrame(d, lb.srcW, lb.srcH)
    requires lb.scale > 0.0 && lb.srcW >= 1 && lb.srcH >= 1
    ensures Candidate(row, n, conf, lb) == if Confident(row, n, conf, d, obj) then [d] else []
  {
    BestDescribed(row, n, lb, d, obj, s);
    RoundTrip(d, lb);
    assert conf / 2.0 == conf * 0.5;
  }

  /** One without a positive class score is dropped. */
  lemma DropsUnclassified(row: seq<real>, n: nat, conf: real, lb: LetterboxInfo)
    requires |row| >= n + 4 && lb.scale > 0.0
    requires forall c :: 0 <= c < n ==> ClassScores(row, n)[c] <= 0.0
    ensures Candidate(row, n, conf, lb) == []
  {
    assert Scores(row, n) == ClassScores(row, n);
    BestUnique(Scores(row, n), -1, 0.0);
  }

  // ----- whole tensors

  /** Where a candidate lies in memory: a row of an N x A tensor, a column of an A x N one. */
  lemma RowInMemory(t: Tensor, cfg: Config, box: nat, attr: nat)
    requires WellShaped(t, cfg) && box < NumBoxes(t, cfg) && attr < NumAttrs(t, cfg)
    ensures NumBoxes(t, cfg) == (if cfg.transposed then t.cols else t.rows)
    ensures |Row(t, cfg, box)| == (if cfg.transposed then t.rows else t.cols)
    ensures var k := if cfg.transposed then attr * t.cols + box else box * t.cols + attr;
      0 <= k < |t.data| && Row(t, cfg, box)[attr] == t.data[k]
  {
    if cfg.transposed {
      RowBound(attr, box, t.cols, t.rows);
    } else {
      RowBound(box, attr, t.cols, t.rows);
    }
  }

  /** The detections among these that are confident enough. */
  ghost function Kept(t: Tensor, cfg: Config, k: nat, dets: seq<Detection>, objs: seq<real>): seq<Detection>
    requires WellShaped(t, cfg) && k <= NumBoxes(t, cfg) == |dets| == |objs|
  {
    if k == 0 then []
    else
      Kept(t, cfg, k - 1, dets, objs)
      + (if Confident(Row(t, cfg, k - 1), cfg.numClasses, cfg.conf, dets[k - 1], objs[k - 1])
         then [dets[k - 1]] else [])
  }

  /** Every candidate describes the detection of the same number. */
  ghost predicate AllDescribe(t: Tensor, cfg: Config, lb: LetterboxInfo,
                              dets: seq<Detection>, objs: seq<real>, tops: seq<real>)
    requires WellShaped(t, cfg)
  {
    && NumBoxes(t, cfg) == |dets| == |objs| == |tops|
    && (forall i :: 0 <= i < |dets| ==>
          && Describes(Row(t, cfg, i), cfg.numClasses, lb, dets[i], objs[i], tops[i])
          && InFrame(dets[i], lb.srcW, lb.srcH))
  }

  lemma {:induction false} RowsDecodeBack(t: Tensor, cfg: Config, lb: LetterboxInfo, k: nat,
                                          dets: seq<Detection>, objs: seq<real>, tops: seq<real>)
    requires WellShaped(t, cfg) && AllDescribe(t, cfg, lb, dets, objs, tops) && k <= NumBoxes(t, cfg)
    requires lb.scale > 0.0 && lb.srcW >= 1 && lb.srcH >= 1
    ensures RawOf(Rows(t, cfg, k), cfg.numClasses, cfg.conf, lb) == Kept(t, cfg, k, dets, objs)
  {
    if k > 0 {
      RowsDecodeBack(t, cfg, lb, k - 1, dets, objs, tops);
      DecodesBack(Row(t, cfg, k - 1), cfg.numClasses, cfg.conf, lb, dets[k - 1], objs[k - 1], tops[k - 1]);
      RawOfSnoc(Rows(t, cfg, k - 1), Row(t, cfg, k - 1), cfg.numClasses, cfg.conf, lb);
      assert Rows(t, cfg, k) == Rows(t, cfg, k - 1) + [Row(t, cfg, k - 1)];
    }
  }

  /** A tensor whose candidates describe these detections decodes, before suppression, to those of
      them that are confident enough, in order. */
  lemma TensorDecodesBack(t: Tensor, cfg: Config, lb: LetterboxInfo,
                          dets: seq<Detection>, objs: seq<real>, tops: seq<real>)
    requires WellShaped(t, cfg) && AllDescribe(t, cfg, lb, dets, objs, tops)
    requires lb.scale > 0.0 && lb.srcW >= 1 && lb.srcH >= 1
    ensures Raw(t, cfg, lb) == Kept(t, cfg, |dets|, dets, objs)
  {
    RowsDecodeBack(t, cfg, lb, |dets|, dets, objs, tops);
  }
}
