/** One frame through the detector node: letterbox, (inference), decode and suppress, publish. */
module DetectorPipeline {
  import opened CanBus
  import opened Nms
  import opened Letterbox
  import opened LetterboxSampling
  import opened YoloDecode
  import opened CanPublisher

  /** The network is handed the frame, letterboxed cell by cell, as `blob`; `output` is whatever it
      answers. What is kept is a possible outcome of
      decoding it: it lies inside the frame, reaches the confidence threshold and is free of
      overlaps. The first 255 of it go out in order, all of them exactly if `ok`, and every
      telemetry frame sent describes its own detection. */
  method ProcessFrame(bgr: seq<bv8>, srcW: int, srcH: int, stride: int, dstW: nat, dstH: nat,
                      output: Tensor, cfg: Config, id: nat, accepts: nat -> bool)
    returns (blob: seq<real>, kept: seq<Detection>, ok: bool, sent: seq<CanFrame>)
    requires IsImage(bgr, srcW, srcH, stride) && dstW > 0 && dstH > 0 && WellShaped(output, cfg)
    ensures var lb := Info(srcW, srcH, dstW, dstH);
      && Placed(lb, dstW, dstH) && AllRendered(blob, bgr, stride, lb, dstW, dstH)
      && lb.scale > 0.0 && Possible(output, cfg, lb, kept)
    ensures PairwiseClear(kept, cfg.iou) && Descending(kept)
    ensures forall d :: d in kept ==>
      d.score >= cfg.conf && 0 <= d.classId < cfg.numClasses && InFrame(d, srcW, srcH)
    ensures |sent| <= Total(kept) && (ok <==> |sent| == Total(kept))
    ensures !ok ==> !accepts(|sent|)
    ensures forall k :: 0 <= k < |sent| ==>
      sent[k].id == id && Describes(sent[k], k, Total(kept), kept[k], srcW, srcH)
  {
    var lb;
    lb, blob := LetterboxFrame(bgr, srcW, srcH, stride, dstW, dstH);
    ghost var order;
    kept, order := DecodeYolo(output, cfg, lb);
    ok, sent := Publish(true, id, kept, srcW, srcH, accepts);
    forall k | 0 <= k < |sent|
      ensures sent[k].id == id && Describes(sent[k], k, Total(kept), kept[k], srcW, srcH)
    {
      assert kept[k] in kept;
      PackDescribes(id, kept[k], k, Total(kept), srcW, srcH);
    }
  }

  /** A receiver of `f` learns the position of `d` among `total` detections, its class, its score
      to less than 1/255 and its centre to less than 1/65535. */
  ghost predicate Describes(f: CanFrame, k: nat, total: nat, d: Detection, w: int, h: int)
    requires w > 0 && h > 0
  {
    && f.dlc == |f.data| == 8 && f.data[0] == k && f.data[1] == total
    && (0 <= d.classId <= 255 ==> f.data[2] == d.classId)
    && (0.0 <= d.score <= 1.0 ==> 0.0 <= d.score - f.data[3] as real / 255.0 < 1.0 / 255.0)
    && 0.0 <= CentreX(d, w) - DecodeCentreX(f) < 1.0 / 65535.0
    && 0.0 <= CentreY(d, h) - DecodeCentreY(f) < 1.0 / 65535.0
  }

  lemma PackDescribes(id: nat, d: Detection, k: nat, total: nat, w: int, h: int)
    requires w > 0 && h > 0 && InFrame(d, w, h) && k < total <= 255
    ensures Pack(id, d, k, total, w, h).id == id
    ensures Describes(Pack(id, d, k, total, w, h), k, total, d, w, h)
  {
    HeaderBack(id, d, k, total, w, h);
    ReceiverSees(id, d, k, total, w, h);
  }
}
