/** Detection telemetry packed into 8-byte CAN frames. Bytes are naturals below 256. */
module CanPublisher {
  import opened Arithmetic
  import opened CanBus
  import opened Sequences
  import opened Nms
  import opened Letterbox

  /** At most 255 detections go out, so index and total fit a byte each. */
  function Total(dets: seq<Detection>): nat { Min(|dets|, 255) }

  /** A unit-interval value on `levels` steps, fraction dropped. */
  function Quantise(v: real, levels: nat): int {
    (Clamp(v, 0.0, 1.0) * levels as real).Floor
  }

  function CentreX(d: Detection, frameW: int): real
    requires frameW > 0
  {
    (d.x + d.w * 0.5) / frameW as real
  }

  function CentreY(d: Detection, frameH: int): real
    requires frameH > 0
  {
    (d.y + d.h * 0.5) / frameH as real
  }

  lemma QuantiseRange(v: real, levels: nat)
    requires levels > 0
    ensures 0 <= Quantise(v, levels) <= levels
  {
    var c, n := Clamp(v, 0.0, 1.0), levels as real;
    TimesNonNegative(c, n);
    TimesBelow(c, 1.0, n);
  }

  function Pack(id: nat, d: Detection, i: nat, total: nat, frameW: int, frameH: int): CanFrame
    requires frameW > 0 && frameH > 0
  {
    QuantiseRange(d.score, 255);
    QuantiseRange(CentreX(d, frameW), 65535);
    QuantiseRange(CentreY(d, frameH), 65535);
    var nx, ny := Quantise(CentreX(d, frameW), 65535), Quantise(CentreY(d, frameH), 65535);
    CanFrame(id, 8, [i % 256, total % 256, Max(0, Min(d.classId, 255)), Quantise(d.score, 255),
                     nx / 256, nx % 256, ny / 256, ny % 256])
  }

  /** `publish`: one frame per detection until a write fails. `accepts(k)` says whether the
      k-th write went through. */
  method Publish(open: bool, id: nat, dets: seq<Detection>, frameW: int, frameH: int, accepts: nat -> bool)
    returns (ok: bool, sent: seq<CanFrame>)
    ensures !open || frameW <= 0 || frameH <= 0 ==> !ok && sent == []
    ensures open && frameW > 0 && frameH > 0 ==>
      && Total(dets) == (if |dets| < 255 then |dets| else 255)
      && |sent| <= Total(dets)
      && (ok <==> |sent| == Total(dets))
      && (|sent| < Total(dets) ==> !accepts(|sent|))
      && (forall k :: 0 <= k < |sent| ==>
            accepts(k) && sent[k] == Pack(id, dets[k], k, Total(dets), frameW, frameH))
  {
    sent := [];
    if !open || frameW <= 0 || frameH <= 0 {
      return false, [];
    }
    var total := Total(dets);
    ok := true;
    var i := 0;
    while i < total
      invariant 0 <= i <= total && |sent| == i
      invariant forall k :: 0 <= k < i ==>
        accepts(k) && sent[k] == Pack(id, dets[k], k, total, frameW, frameH)
    {
      var fr := Pack(id, dets[i], i, total, frameW, frameH);
      if !accepts(i) {
        ok := false;
        break;
      }
      sent := sent + [fr];
      i := i + 1;
    }
  }

  // ----- what a receiver gets back

  function DecodeCentreX(f: CanFrame): real
    requires |f.data| == 8
  {
    (f.data[4] * 256 + f.data[5]) as real / 65535.0
  }

  function DecodeCentreY(f: CanFrame): real
    requires |f.data| == 8
  {
    (f.data[6] * 256 + f.data[7]) as real / 65535.0
  }

  lemma CentreInUnit(p: real, l: real, size: int)
    requires size > 0 && 0.0 <= p && 0.0 <= l <= size as real - p
    ensures 0.0 <= (p + l * 0.5) / size as real <= 1.0
  {
    QuotientInUnit(p + l * 0.5, size as real);
  }

  lemma QuantiseError(v: real)
    requires 0.0 <= v <= 1.0
    ensures 0.0 <= v - Quantise(v, 65535) as real / 65535.0 < 1.0 / 65535.0
    ensures 0.0 <= v - Quantise(v, 255) as real / 255.0 < 1.0 / 255.0
  {
    FloorBounds(v * 65535.0);
    FloorBounds(v * 255.0);
  }

  /** A unit-interval value quantised, split into two bytes and put together again. */
  lemma FieldBack(v: real)
    requires 0.0 <= v <= 1.0
    ensures var n := Quantise(v, 65535);
      && 0 <= n / 256 < 256 && Clamp(v, 0.0, 1.0) == v
      && 0.0 <= v - (n / 256 * 256 + n % 256) as real / 65535.0 < 1.0 / 65535.0
  {
    QuantiseRange(v, 65535);
    QuantiseError(v);
    var n := Quantise(v, 65535);
    assert n / 256 * 256 + n % 256 == n;
  }

  /** Index, total and class come back exactly, the score within one step. */
  lemma HeaderBack(id: nat, d: Detection, i: nat, total: nat, frameW: int, frameH: int)
    requires frameW > 0 && frameH > 0 && i < total <= 255
    ensures var f := Pack(id, d, i, total, frameW, frameH);
      && f.id == id && f.dlc == 8 && f.data[0] == i && f.data[1] == total
      && (0 <= d.classId <= 255 ==> f.data[2] == d.classId)
      && (0.0 <= d.score <= 1.0 ==> 0.0 <= d.score - f.data[3] as real / 255.0 < 1.0 / 255.0)
  {
    QuantiseRange(d.score, 255);
    if 0.0 <= d.score <= 1.0 {
      QuantiseError(d.score);
    }
  }

  lemma QuantiseOutside(v: real, levels: nat)
    requires levels > 0
    ensures v <= 0.0 ==> Quantise(v, levels) == 0
    ensures v >= 1.0 ==> Quantise(v, levels) == levels
  {
    assert 0.0 * levels as real == 0.0 && 1.0 * levels as real == levels as real;
  }

  /** Values outside their range are sent as the nearest end of it. */
  lemma PackClamps(id: nat, d: Detection, i: nat, total: nat, frameW: int, frameH: int)
    requires frameW > 0 && frameH > 0
    ensures var f := Pack(id, d, i, total, frameW, frameH);
      && (d.classId < 0 ==> f.data[2] == 0) && (d.classId > 255 ==> f.data[2] == 255)
      && (d.score <= 0.0 ==> f.data[3] == 0) && (d.score >= 1.0 ==> f.data[3] == 255)
      && (CentreX(d, frameW) <= 0.0 ==> f.data[4] == f.data[5] == 0)
      && (CentreX(d, frameW) >= 1.0 ==> f.data[4] == f.data[5] == 255)
      && (CentreY(d, frameH) <= 0.0 ==> f.data[6] == f.data[7] == 0)
      && (CentreY(d, frameH) >= 1.0 ==> f.data[6] == f.data[7] == 255)
  {
    QuantiseOutside(d.score, 255);
    QuantiseOutside(CentreX(d, frameW), 65535);
    QuantiseOutside(CentreY(d, frameH), 65535);
  }

  /** For every box in the frame the centre clamps of `publish` change nothing, every byte fits,
      and the centre is off by less than one step, never beyond the true one. */
  lemma ReceiverSees(id: nat, d: Detection, i: nat, total: nat, frameW: int, frameH: int)
    requires frameW > 0 && frameH > 0 && InFrame(d, frameW, frameH)
    requires i < total <= 255
    ensures var f := Pack(id, d, i, total, frameW, frameH);
      && |f.data| == 8 && (forall k :: 0 <= k < 8 ==> f.data[k] < 256)
      && f.data[0] == i
      && Clamp(CentreX(d, frameW), 0.0, 1.0) == CentreX(d, frameW)
      && Clamp(CentreY(d, frameH), 0.0, 1.0) == CentreY(d, frameH)
      && 0.0 <= CentreX(d, frameW) - DecodeCentreX(f) < 1.0 / 65535.0
      && 0.0 <= CentreY(d, frameH) - DecodeCentreY(f) < 1.0 / 65535.0
  {
    CentreInUnit(d.x, d.w, frameW);
    CentreInUnit(d.y, d.h, frameH);
    QuantiseRange(d.score, 255);
    FieldBack(CentreX(d, frameW));
    FieldBack(CentreY(d, frameH));
  }
}
