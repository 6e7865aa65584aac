/** What the letterboxed frame shows: which source pixel each cell holds, in which plane, said
    without reference to how the loop finds it. */
module LetterboxSampling {
  import opened Arithmetic
  import opened Sequences
  import opened Letterbox

  // ----- the sampled position

  /** The place in the source that output position `p` stands for, centre on centre. */
  function Place(p: int, scale: real): real
    requires scale > 0.0
  {
    (p as real + 0.5) / scale - 0.5
  }

  lemma QuotientOrdered(a: real, b: real, scale: real)
    requires scale > 0.0 && a <= b
    ensures a / scale <= b / scale
  {
    var x, y := a / scale, b / scale;
    assert (y - x) * scale == b - a;
    if y < x {
      TimesPositive(x - y, scale);
    }
  }

  /** Further right in the output is never further left in the source. */
  lemma SampleMonotone(p: int, p': int, scale: real, size: int)
    requires scale > 0.0 && p <= p'
    ensures Sample(p, scale, size) <= Sample(p', scale, size)
  {
    QuotientOrdered(p as real + 0.5, p' as real + 0.5, scale);
    TruncMonotone(Place(p, scale), Place(p', scale));
  }

  lemma TruncMonotone(v: real, v': real)
    requires v <= v'
    ensures Trunc(v) <= Trunc(v')
  {
  }

  /** Without scaling every pixel stands for itself. */
  lemma SampleIdentity(p: int, size: int)
    requires 0 <= p < size
    ensures Sample(p, 1.0, size) == p
  {
    assert Place(p, 1.0) == p as real;
  }

  lemma QuotientAtMost(a: real, scale: real, b: real)
    requires scale > 0.0 && a <= b * scale
    ensures a / scale <= b
  {
    QuotientOrdered(a, b * scale, scale);
    assert b * scale / scale == b;
  }

  lemma QuotientAbove(a: real, scale: real)
    requires scale > 0.0 && a > 0.0
    ensures a / scale > 0.0
  {
    var x := a / scale;
    assert x * scale == a;
    if x <= 0.0 {
      TimesNonNegative(-x, scale);
    }
  }

  /** Inside the resized image the sampled pixel is the one its place falls into, less than one
      source pixel away, and the clamp to the last pixel is never needed. */
  lemma SampleNear(p: int, scale: real, size: int)
    requires scale > 0.0 && size > 0 && 0 <= p < Resized(size, scale)
    ensures 0 <= Sample(p, scale, size) < size
    ensures -0.5 < Place(p, scale) - Sample(p, scale, size) as real < 1.0
    ensures Place(p, scale) >= 0.0 ==> Sample(p, scale, size) as real <= Place(p, scale)
  {
    FloorBounds(size as real * scale + 0.5);
    QuotientAtMost(p as real + 0.5, scale, size as real);
    QuotientAbove(p as real + 0.5, scale);
    ClampIdle(Place(p, scale), size);
  }

  lemma ClampIdle(v: real, size: int)
    requires -0.5 < v <= size as real - 0.5
    ensures var i := Min(size - 1, Max(0, Trunc(v)));
      -0.5 < v - i as real < 1.0 && 0 <= i < size && (v >= 0.0 ==> i as real <= v)
  {
    if v >= 0.0 {
      FloorBounds(v);
    }
  }

  // ----- the cells of the frame

  /** Byte `ch` of source pixel (iy, ix): 0 is blue, 1 green, 2 red. */
  ghost function ByteAt(bgr: seq<bv8>, srcW: int, srcH: int, stride: int, iy: int, ix: int, ch: int): bv8
    requires IsImage(bgr, srcW, srcH, stride) && 0 <= iy < srcH && 0 <= ix < srcW && 0 <= ch < 3
  {
    ReadInRange(bgr, srcW, srcH, stride, iy, ix);
    bgr[iy * stride + ix * 3 + ch]
  }

  /** Every cell of the buffer is as it should be. */
  ghost predicate AllRendered(blob: seq<real>, bgr: seq<bv8>, stride: int, lb: LetterboxInfo, w: nat, h: nat)
    requires Placed(lb, w, h) && IsImage(bgr, lb.srcW, lb.srcH, stride)
  {
    |blob| == 3 * (w * h) && forall a :: 0 <= a < |blob| ==> Rendered(blob, a, bgr, stride, lb, w, h)
  }

  lemma CellValue(blob: seq<real>, bgr: seq<bv8>, stride: int, lb: LetterboxInfo, w: nat, h: nat, c: Cell)
    requires Placed(lb, w, h) && IsImage(bgr, lb.srcW, lb.srcH, stride) && InBuffer(c, w, h)
    requires AllRendered(blob, bgr, stride, lb, w, h)
    ensures 0 <= Encode(c, w, h) < |blob| && blob[Encode(c, w, h)] == Pixel(bgr, stride, lb, c)
  {
    EncodeDecode(c, w, h);
    assert Encode(c, w, h) >= 0 by { PlaneStart(c.plane, w * h); }
    assert Rendered(blob, Encode(c, w, h), bgr, stride, lb, w, h);
  }

  lemma PlaneStart(p: int, n: int)
    requires p >= 0 && n >= 0
    ensures p * n >= 0
  {
  }

  /** Plane `p` (0 red, 1 green, 2 blue), row `y` and column `x` of the window, row-major from its
      corner: the byte of a source pixel less than one pixel from the place it stands for, over
      255. */
  lemma WindowCell(blob: seq<real>, bgr: seq<bv8>, stride: int, lb: LetterboxInfo, w: nat, h: nat,
                   p: int, y: int, x: int) returns (iy: int, ix: int)
    requires Placed(lb, w, h) && IsImage(bgr, lb.srcW, lb.srcH, stride)
    requires AllRendered(blob, bgr, stride, lb, w, h)
    requires 0 <= p < 3 && 0 <= y < NewH(lb) && 0 <= x < NewW(lb)
    ensures 0 <= iy < lb.srcH && 0 <= ix < lb.srcW
    ensures -0.5 < Place(y, lb.scale) - iy as real < 1.0 && -0.5 < Place(x, lb.scale) - ix as real < 1.0
    ensures var a := p * (w * h) + (y + lb.padY) * w + (x + lb.padX);
      && 0 <= a < |blob|
      && 255.0 * blob[a] == (ByteAt(bgr, lb.srcW, lb.srcH, stride, iy, ix, 2 - p) as int) as real
  {
    iy, ix := Sample(y, lb.scale, lb.srcH), Sample(x, lb.scale, lb.srcW);
    SampleNear(y, lb.scale, lb.srcH);
    SampleNear(x, lb.scale, lb.srcW);
    CellValue(blob, bgr, stride, lb, w, h, Cell(p, y + lb.padY, x + lb.padX));
  }

  /** Outside the window everything is grey. */
  lemma PadCell(blob: seq<real>, bgr: seq<bv8>, stride: int, lb: LetterboxInfo, w: nat, h: nat,
                p: int, row: int, col: int)
    requires Placed(lb, w, h) && IsImage(bgr, lb.srcW, lb.srcH, stride)
    requires AllRendered(blob, bgr, stride, lb, w, h)
    requires 0 <= p < 3 && 0 <= row < h && 0 <= col < w
    requires !(lb.padY <= row < lb.padY + NewH(lb) && lb.padX <= col < lb.padX + NewW(lb))
    ensures var a := p * (w * h) + row * w + col; 0 <= a < |blob| && blob[a] == 0.5
  {
    CellValue(blob, bgr, stride, lb, w, h, Cell(p, row, col));
  }

  ghost predicate OneColour(bgr: seq<bv8>, srcW: int, srcH: int, stride: int, blue: bv8, green: bv8, red: bv8)
    requires IsImage(bgr, srcW, srcH, stride)
  {
    forall iy, ix :: 0 <= iy < srcH && 0 <= ix < srcW ==>
      && ByteAt(bgr, srcW, srcH, stride, iy, ix, 0) == blue
      && ByteAt(bgr, srcW, srcH, stride, iy, ix, 1) == green
      && ByteAt(bgr, srcW, srcH, stride, iy, ix, 2) == red
  }

  /** A frame of one colour fills the window of plane 0 with its red, of plane 1 with its green and
      of plane 2 with its blue. */
  lemma OneColourFrame(blob: seq<real>, bgr: seq<bv8>, stride: int, lb: LetterboxInfo, w: nat, h: nat,
                       blue: bv8, green: bv8, red: bv8, y: int, x: int)
    requires Placed(lb, w, h) && IsImage(bgr, lb.srcW, lb.srcH, stride)
    requires AllRendered(blob, bgr, stride, lb, w, h)
    requires OneColour(bgr, lb.srcW, lb.srcH, stride, blue, green, red)
    requires 0 <= y < NewH(lb) && 0 <= x < NewW(lb)
    ensures var a := (y + lb.padY) * w + (x + lb.padX);
      && 0 <= a && a + 2 * (w * h) < |blob|
      && 255.0 * blob[a] == (red as int) as real
      && 255.0 * blob[a + w * h] == (green as int) as real
      && 255.0 * blob[a + 2 * (w * h)] == (blue as int) as real
  {
    var iy, ix := WindowCell(blob, bgr, stride, lb, w, h, 0, y, x);
    iy, ix := WindowCell(blob, bgr, stride, lb, w, h, 1, y, x);
    iy, ix := WindowCell(blob, bgr, stride, lb, w, h, 2, y, x);
  }

  /** A frame of the input's own size is copied pixel by pixel. */
  lemma SameSizeFrame(srcW: int, srcH: int, p: int, size: int)
    requires srcW > 0 && srcH > 0 && 0 <= p < size
    ensures var lb := Info(srcW, srcH, srcW, srcH);
      && lb.scale == 1.0 && lb.padX == 0 && lb.padY == 0 && NewW(lb) == srcW && NewH(lb) == srcH
      && Sample(p, lb.scale, size) == p
  {
    assert srcW as real / srcW as real == 1.0 && srcH as real / srcH as real == 1.0;
    SampleIdentity(p, size);
  }
}
