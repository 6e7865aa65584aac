/** The letterbox transform: a frame is scaled and centred into the network input, and boxes
    found there are mapped back to frame pixels. Floats are modelled as reals. */
module Letterbox {
  import opened Sequences
  import opened Arithmetic
  import opened Nms

  datatype LetterboxInfo = LetterboxInfo(scale: real, padX: int, padY: int, srcW: int, srcH: int)

  function Clamp(v: real, lo: real, hi: real): real {
    if v < lo then lo else if hi < v then hi else v
  }

  /** One axis of `unletterbox`: start and length of an interval given by centre and size. */
  function AxisBack(centre: real, size: real, pad: int, scale: real, src: int): (real, real)
    requires scale > 0.0
  {
    var p := Clamp((centre - size * 0.5 - pad as real) / scale, 0.0, (src - 1) as real);
    (p, Clamp(size / scale, 0.0, src as real - p))
  }

  /** `unletterbox`: a box given by centre and size in input space, in frame pixels. */
  function Unletterbox(cx: real, cy: real, bw: real, bh: real, lb: LetterboxInfo): Detection
    requires lb.scale > 0.0
  {
    var (x, w) := AxisBack(cx, bw, lb.padX, lb.scale, lb.srcW);
    var (y, h) := AxisBack(cy, bh, lb.padY, lb.scale, lb.srcH);
    Detection(x, y, w, h, 0.0, 0)
  }

  /** An interval that starts on a pixel and ends within `src` of them. */
  predicate InAxis(p: real, l: real, src: int) {
    0.0 <= p <= (src - 1) as real && 0.0 <= l <= src as real - p
  }

  /** A box lies in the frame, starting on a pixel of it. */
  predicate InFrame(d: Detection, w: int, h: int) {
    InAxis(d.x, d.w, w) && InAxis(d.y, d.h, h)
  }

  /** Where an interval, and a frame box, end up in the input image. */
  function AxisThere(p: real, l: real, pad: int, scale: real): (real, real) {
    ((p + l * 0.5) * scale + pad as real, l * scale)
  }

  function ToInput(d: Detection, lb: LetterboxInfo): (real, real, real, real) {
    var (cx, bw) := AxisThere(d.x, d.w, lb.padX, lb.scale);
    var (cy, bh) := AxisThere(d.y, d.h, lb.padY, lb.scale);
    (cx, cy, bw, bh)
  }

  lemma AxisBackInAxis(centre: real, size: real, pad: int, scale: real, src: int)
    requires scale > 0.0 && src >= 1
    ensures var (p, l) := AxisBack(centre, size, pad, scale, src); InAxis(p, l, src)
  {
  }

  function Gap(p: real, v: real): real { if p < v then v - p else p - v }

  /** `p` is the value of [lo, hi] nearest to `v`. */
  ghost predicate Nearest(p: real, v: real, lo: real, hi: real) {
    lo <= p <= hi && forall q :: lo <= q <= hi ==> Gap(p, v) <= Gap(q, v)
  }

  lemma ClampNearest(v: real, lo: real, hi: real)
    requires lo <= hi
    ensures Nearest(Clamp(v, lo, hi), v, lo, hi)
  {
  }

  /** A box reported partly or wholly outside the frame starts at the frame point nearest to where
      it would start, and is as near to its size as fits from there. */
  lemma UnletterboxNearest(cx: real, cy: real, bw: real, bh: real, lb: LetterboxInfo)
    requires lb.scale > 0.0 && lb.srcW >= 1 && lb.srcH >= 1
    ensures var d := Unletterbox(cx, cy, bw, bh, lb);
      && Nearest(d.x, (cx - bw / 2.0 - lb.padX as real) / lb.scale, 0.0, lb.srcW as real - 1.0)
      && Nearest(d.y, (cy - bh / 2.0 - lb.padY as real) / lb.scale, 0.0, lb.srcH as real - 1.0)
      && Nearest(d.w, bw / lb.scale, 0.0, lb.srcW as real - d.x)
      && Nearest(d.h, bh / lb.scale, 0.0, lb.srcH as real - d.y)
  {
    AxisNearest(cx, bw, lb.padX, lb.scale, lb.srcW);
    AxisNearest(cy, bh, lb.padY, lb.scale, lb.srcH);
  }

  lemma AxisNearest(centre: real, size: real, pad: int, scale: real, src: int)
    requires scale > 0.0 && src >= 1
    ensures var (p, l) := AxisBack(centre, size, pad, scale, src);
      && Nearest(p, (centre - size / 2.0 - pad as real) / scale, 0.0, src as real - 1.0)
      && Nearest(l, size / scale, 0.0, src as real - p)
  {
    var (p, l) := AxisBack(centre, size, pad, scale, src);
    ClampNearest((centre - size * 0.5 - pad as real) / scale, 0.0, (src - 1) as real);
    ClampNearest(size / scale, 0.0, src as real - p);
    assert size / 2.0 == size * 0.5;
  }

  /** Whatever the network reports, the box handed on lies in the frame. */
  lemma UnletterboxInFrame(cx: real, cy: real, bw: real, bh: real, lb: LetterboxInfo)
    requires lb.scale > 0.0 && lb.srcW >= 1 && lb.srcH >= 1
    ensures InFrame(Unletterbox(cx, cy, bw, bh, lb), lb.srcW, lb.srcH)
  {
    AxisBackInAxis(cx, bw, lb.padX, lb.scale, lb.srcW);
    AxisBackInAxis(cy, bh, lb.padY, lb.scale, lb.srcH);
  }

  lemma DivideBack(v: real, scale: real)
    requires scale > 0.0
    ensures v * scale / scale == v
  {
  }

  lemma EdgeBack(p: real, l: real, scale: real, pad: real)
    requires scale > 0.0
    ensures ((p + l * 0.5) * scale + pad - (l * scale) * 0.5 - pad) / scale == p
  {
    assert (p + l * 0.5) * scale == p * scale + (l * scale) * 0.5;
    DivideBack(p, scale);
  }

  lemma AxisRoundTrip(p: real, l: real, pad: int, scale: real, src: int)
    requires scale > 0.0 && src >= 1
    ensures var (centre, size) := AxisThere(p, l, pad, scale);
      AxisBack(centre, size, pad, scale, src) == (p, l) <==> InAxis(p, l, src)
  {
    var (centre, size) := AxisThere(p, l, pad, scale);
    AxisBackInAxis(centre, size, pad, scale, src);
    EdgeBack(p, l, scale, pad as real);
    DivideBack(l, scale);
    var c0 := Clamp(p, 0.0, (src - 1) as real);
    assert AxisBack(centre, size, pad, scale, src) == (c0, Clamp(l, 0.0, src as real - c0));
  }

  /** The way into the input image and back is the identity exactly on the boxes in the frame. */
  lemma RoundTrip(d: Detection, lb: LetterboxInfo)
    requires lb.scale > 0.0 && lb.srcW >= 1 && lb.srcH >= 1
    ensures var (cx, cy, bw, bh) := ToInput(d, lb);
      Unletterbox(cx, cy, bw, bh, lb).(score := d.score, classId := d.classId) == d
      <==> InFrame(d, lb.srcW, lb.srcH)
  {
    AxisRoundTrip(d.x, d.w, lb.padX, lb.scale, lb.srcW);
    AxisRoundTrip(d.y, d.h, lb.padY, lb.scale, lb.srcH);
  }

  // ----- the geometry of the letterbox

  /** `int(std::round(v))` for v >= 0. */
  function Round(v: real): int {
    (v + 0.5).Floor
  }

  /** Conversion of a float to int drops the fraction. */
  function Trunc(v: real): int {
    if v >= 0.0 then v.Floor else -((-v).Floor)
  }

  function Scale(srcW: int, srcH: int, dstW: int, dstH: int): real
    requires srcW > 0 && srcH > 0
  {
    MinR(dstW as real / srcW as real, dstH as real / srcH as real)
  }

  /** An axis of `n` pixels after scaling. */
  function Resized(n: int, scale: real): int { Round(n as real * scale) }

  function Info(srcW: int, srcH: int, dstW: int, dstH: int): LetterboxInfo
    requires srcW > 0 && srcH > 0
  {
    var scale := Scale(srcW, srcH, dstW, dstH);
    LetterboxInfo(scale,
                  (dstW - Resized(srcW, scale)) / 2,
                  (dstH - Resized(srcH, scale)) / 2,
                  srcW, srcH)
  }

  function NewW(lb: LetterboxInfo): int { Resized(lb.srcW, lb.scale) }
  function NewH(lb: LetterboxInfo): int { Resized(lb.srcH, lb.scale) }

  /** The source row or column sampled for output position `p` of the resized image. */
  function Sample(p: int, scale: real, size: int): int
    requires scale > 0.0
  {
    Min(size - 1, Max(0, Trunc((p as real + 0.5) / scale - 0.5)))
  }

  lemma ScaledFits(n: int, d: int, scale: real)
    requires n > 0 && d > 0 && 0.0 < scale <= d as real / n as real
    ensures 0 <= Round(n as real * scale) <= d
  {
    var nr := n as real;
    assert (d as real / nr) * nr == d as real;
    assert (d as real / nr - scale) * nr >= 0.0;
    assert nr * scale >= 0.0;
  }

  /** `size` pixels and padding `pad` on either side fill `d`, up to one odd pixel. */
  predicate Centred(size: int, pad: int, d: int) {
    0 <= size <= d && 0 <= pad && 0 <= d - size - 2 * pad <= 1
  }

  lemma AxisFits(n: int, d: int, scale: real)
    requires n > 0 && d > 0 && 0.0 < scale <= d as real / n as real
    ensures var size := Resized(n, scale); Centred(size, (d - size) / 2, d)
    ensures scale == d as real / n as real ==> Resized(n, scale) == d
  {
    ScaledFits(n, d, scale);
    TightAxis(n, d);
  }

  lemma ScaleBounds(srcW: int, srcH: int, dstW: int, dstH: int)
    requires srcW > 0 && srcH > 0 && dstW > 0 && dstH > 0
    ensures var s := Scale(srcW, srcH, dstW, dstH);
      && 0.0 < s <= dstW as real / srcW as real && s <= dstH as real / srcH as real
      && (s == dstW as real / srcW as real || s == dstH as real / srcH as real)
  {
    QuotientPositive(dstW, srcW);
    QuotientPositive(dstH, srcH);
  }

  lemma FitsW(srcW: int, srcH: int, dstW: int, dstH: int)
    requires srcW > 0 && srcH > 0 && dstW > 0 && dstH > 0
    ensures var lb := Info(srcW, srcH, dstW, dstH);
      && Centred(NewW(lb), lb.padX, dstW)
      && (lb.scale == dstW as real / srcW as real ==> NewW(lb) == dstW)
  {
    ScaleBounds(srcW, srcH, dstW, dstH);
    AxisFits(srcW, dstW, Scale(srcW, srcH, dstW, dstH));
  }

  lemma FitsH(srcW: int, srcH: int, dstW: int, dstH: int)
    requires srcW > 0 && srcH > 0 && dstW > 0 && dstH > 0
    ensures var lb := Info(srcW, srcH, dstW, dstH);
      && Centred(NewH(lb), lb.padY, dstH)
      && (lb.scale == dstH as real / srcH as real ==> NewH(lb) == dstH)
  {
    ScaleBounds(srcW, srcH, dstW, dstH);
    AxisFits(srcH, dstH, Scale(srcW, srcH, dstW, dstH));
  }

  /** Each axis keeps its proportion to half a pixel. */
  lemma ResizedNearest(n: int, scale: real)
    ensures -0.5 <= n as real * scale - Resized(n, scale) as real < 0.5
  {
    FloorBounds(n as real * scale + 0.5);
  }

  /** For all positive sizes the resized image is centred in the input, fills one axis, and has the
      proportions of the frame to half a pixel. */
  lemma Fits(srcW: int, srcH: int, dstW: int, dstH: int)
    requires srcW > 0 && srcH > 0 && dstW > 0 && dstH > 0
    ensures var lb := Info(srcW, srcH, dstW, dstH);
      && lb.scale > 0.0
      && Centred(NewW(lb), lb.padX, dstW) && Centred(NewH(lb), lb.padY, dstH)
      && (NewW(lb) == dstW || NewH(lb) == dstH)
      && (lb.scale == dstW as real / srcW as real || lb.scale == dstH as real / srcH as real)
      && -0.5 <= srcW as real * lb.scale - NewW(lb) as real < 0.5
      && -0.5 <= srcH as real * lb.scale - NewH(lb) as real < 0.5
  {
    ResizedNearest(srcW, Scale(srcW, srcH, dstW, dstH));
    ResizedNearest(srcH, Scale(srcW, srcH, dstW, dstH));
    ScaleBounds(srcW, srcH, dstW, dstH);
    FitsW(srcW, srcH, dstW, dstH);
    FitsH(srcW, srcH, dstW, dstH);
  }

  lemma QuotientPositive(d: int, n: int)
    requires d > 0 && n > 0
    ensures d as real / n as real > 0.0
  {
    assert d as real / n as real * n as real == d as real;
  }

  lemma TightAxis(n: int, d: int)
    requires n > 0
    ensures Round(n as real * (d as real / n as real)) == d
  {
    assert n as real * (d as real / n as real) == d as real;
  }

  // ----- the pixels

  /** Cell `a` of a three-plane buffer: colour plane, row, column. */
  datatype Cell = Cell(plane: int, row: int, col: int)

  function Encode(c: Cell, w: nat, h: nat): int {
    c.plane * (w * h) + c.row * w + c.col
  }

  function Decode(a: nat, w: nat, h: nat): Cell
    requires w > 0 && h > 0
  {
    Cell(a / (w * h), a % (w * h) / w, a % (w * h) % w)
  }

  predicate InBuffer(c: Cell, w: nat, h: nat) {
    0 <= c.plane < 3 && 0 <= c.row < h && 0 <= c.col < w
  }

  lemma RowBound(row: int, col: int, w: nat, h: nat)
    requires 0 <= row < h && 0 <= col < w
    ensures 0 <= row * w + col < w * h
  {
    assert row * w <= (h - 1) * w;
    assert row * w >= 0;
  }

  /** The layout is a bijection between cells and buffer positions: each cell lies inside its own
      plane, and no two cells share a position. */
  lemma EncodeDecode(c: Cell, w: nat, h: nat)
    requires w > 0 && h > 0 && InBuffer(c, w, h)
    ensures c.plane * (w * h) <= Encode(c, w, h) < (c.plane + 1) * (w * h) <= 3 * (w * h)
    ensures Decode(Encode(c, w, h), w, h) == c
  {
    RowBound(c.row, c.col, w, h);
    var low := c.row * w + c.col;
    assert (c.plane + 1) * (w * h) == c.plane * (w * h) + w * h;
    assert c.plane * (w * h) >= 0;
    DivModUnique(Encode(c, w, h), w * h, c.plane, low);
    DivModUnique(low, w, c.row, c.col);
    PlaneBound(c.plane, w * h);
  }

  lemma PlaneBound(p: int, n: int)
    requires 0 <= p < 3 && n >= 0
    ensures (p + 1) * n <= 3 * n
  {
  }

  lemma DecodeEncode(a: nat, w: nat, h: nat)
    requires w > 0 && h > 0 && a < 3 * (w * h)
    ensures InBuffer(Decode(a, w, h), w, h) && Encode(Decode(a, w, h), w, h) == a
  {
    MulGap(h, w);
    var n := w * h;
    assert n == h * w;
    QuotientBelow(a, n, 3);
    QuotientBelow(a % n, w, h);
    assert a == (a / n) * n + a % n;
    assert a % n == (a % n / w) * w + a % n % w;
  }

  /** A source image: rows of `stride` bytes, three bytes blue, green, red per pixel. */
  ghost predicate IsImage(bgr: seq<bv8>, srcW: int, srcH: int, stride: int) {
    srcW > 0 && srcH > 0 && 3 * srcW <= stride && (srcH - 1) * stride + 3 * srcW <= |bgr|
  }

  lemma ReadInRange(bgr: seq<bv8>, srcW: int, srcH: int, stride: int, iy: int, ix: int)
    requires IsImage(bgr, srcW, srcH, stride) && 0 <= iy < srcH && 0 <= ix < srcW
    ensures 0 <= iy * stride + ix * 3 && iy * stride + ix * 3 + 2 < |bgr|
  {
    assert iy * stride <= (srcH - 1) * stride;
    assert iy * stride >= 0;
  }

  function Normalised(b: bv8): real {
    (b as int) as real / 255.0
  }

  /** Cell by cell: inside the window the nearest source pixel, red in plane 0 and blue in plane
      2; grey outside. */
  ghost function Pixel(bgr: seq<bv8>, stride: int, lb: LetterboxInfo, c: Cell): real
    requires IsImage(bgr, lb.srcW, lb.srcH, stride) && lb.scale > 0.0 && 0 <= c.plane < 3
  {
    var y, x := c.row - lb.padY, c.col - lb.padX;
    if 0 <= y < NewH(lb) && 0 <= x < NewW(lb) then
      var iy, ix := Sample(y, lb.scale, lb.srcH), Sample(x, lb.scale, lb.srcW);
      ReadInRange(bgr, lb.srcW, lb.srcH, stride, iy, ix);
      Normalised(bgr[iy * stride + ix * 3 + 2 - c.plane])
    else 0.5
  }

  /** Window position (y, x) has been reached when rows before `rows` and, in row `rows`, columns
      before `cols` are done. */
  ghost predicate Done(lb: LetterboxInfo, c: Cell, rows: int, cols: int) {
    var y, x := c.row - lb.padY, c.col - lb.padX;
    0 <= y && 0 <= x < NewW(lb) && (y < rows || (y == rows && x < cols))
  }

  ghost predicate Progress(out: seq<real>, bgr: seq<bv8>, stride: int, lb: LetterboxInfo,
                           w: nat, h: nat, rows: int, cols: int)
    requires w > 0 && h > 0 && IsImage(bgr, lb.srcW, lb.srcH, stride) && lb.scale > 0.0
  {
    && |out| == 3 * (w * h)
    && (forall c: Cell {:trigger Encode(c, w, h)} :: InBuffer(c, w, h) ==>
          && 0 <= Encode(c, w, h) < |out|
          && out[Encode(c, w, h)] == if Done(lb, c, rows, cols) then Pixel(bgr, stride, lb, c) else 0.5)
  }

  /** The resized image, shifted by its padding, lies inside the input. */
  predicate Placed(lb: LetterboxInfo, w: nat, h: nat) {
    && lb.scale > 0.0 && w > 0 && h > 0
    && 0 <= lb.padX && NewW(lb) + lb.padX <= w
    && 0 <= lb.padY && NewH(lb) + lb.padY <= h
  }

  /** The position written for plane `p` of output pixel (y, x). */
  function Index(p: int, y: int, x: int, lb: LetterboxInfo, w: nat, h: nat): (a: int)
    requires 0 <= p < 3 && Placed(lb, w, h) && 0 <= y < NewH(lb) && 0 <= x < NewW(lb)
    ensures p * (w * h) <= a < (p + 1) * (w * h) <= 3 * (w * h)
  {
    EncodeDecode(Cell(p, y + lb.padY, x + lb.padX), w, h);
    Encode(Cell(p, y + lb.padY, x + lb.padX), w, h)
  }

  lemma IndicesDiffer(p: int, c: Cell, y: int, x: int, lb: LetterboxInfo, w: nat, h: nat)
    requires 0 <= p < 3 && Placed(lb, w, h) && 0 <= y < NewH(lb) && 0 <= x < NewW(lb)
    requires InBuffer(c, w, h) && c != Cell(p, y + lb.padY, x + lb.padX)
    ensures Encode(c, w, h) != Index(p, y, x, lb, w, h)
  {
    EncodeDecode(c, w, h);
    EncodeDecode(Cell(p, y + lb.padY, x + lb.padX), w, h);
  }

  /** The three stores for one output pixel touch exactly its three cells. */
  lemma OnePixel(out: seq<real>, bgr: seq<bv8>, stride: int, lb: LetterboxInfo,
                 w: nat, h: nat, y: int, x: int)
    requires Placed(lb, w, h) && IsImage(bgr, lb.srcW, lb.srcH, stride)
    requires 0 <= y < NewH(lb) && 0 <= x < NewW(lb)
    requires Progress(out, bgr, stride, lb, w, h, y, x)
    ensures Progress(
      out[Index(0, y, x, lb, w, h) := Pixel(bgr, stride, lb, Cell(0, y + lb.padY, x + lb.padX))]
         [Index(1, y, x, lb, w, h) := Pixel(bgr, stride, lb, Cell(1, y + lb.padY, x + lb.padX))]
         [Index(2, y, x, lb, w, h) := Pixel(bgr, stride, lb, Cell(2, y + lb.padY, x + lb.padX))],
      bgr, stride, lb, w, h, y, x + 1)
  {
    var next :=
      out[Index(0, y, x, lb, w, h) := Pixel(bgr, stride, lb, Cell(0, y + lb.padY, x + lb.padX))]
         [Index(1, y, x, lb, w, h) := Pixel(bgr, stride, lb, Cell(1, y + lb.padY, x + lb.padX))]
         [Index(2, y, x, lb, w, h) := Pixel(bgr, stride, lb, Cell(2, y + lb.padY, x + lb.padX))];
    forall c: Cell {:trigger Encode(c, w, h)} | InBuffer(c, w, h)
      ensures 0 <= Encode(c, w, h) < |next|
      ensures next[Encode(c, w, h)] == if Done(lb, c, y, x + 1) then Pixel(bgr, stride, lb, c) else 0.5
    {
      EncodeDecode(c, w, h);
      if c.row == y + lb.padY && c.col == x + lb.padX {
        assert c == Cell(c.plane, y + lb.padY, x + lb.padX);
      } else {
        IndicesDiffer(0, c, y, x, lb, w, h);
        IndicesDiffer(1, c, y, x, lb, w, h);
        IndicesDiffer(2, c, y, x, lb, w, h);
        assert Done(lb, c, y, x + 1) == Done(lb, c, y, x);
      }
    }
  }

  lemma RowDone(out: seq<real>, bgr: seq<bv8>, stride: int, lb: LetterboxInfo, w: nat, h: nat, y: int)
    requires Placed(lb, w, h) && IsImage(bgr, lb.srcW, lb.srcH, stride) && 0 <= y
    requires Progress(out, bgr, stride, lb, w, h, y, NewW(lb))
    ensures Progress(out, bgr, stride, lb, w, h, y + 1, 0)
  {
    assert forall c: Cell :: Done(lb, c, y, NewW(lb)) == Done(lb, c, y + 1, 0);
  }

  /** One pixel: sample the source and store its three channels. */
  method StorePixel(bgr: seq<bv8>, stride: int, lb: LetterboxInfo, w: nat, h: nat,
                    out: array<real>, y: int, x: int)
    requires Placed(lb, w, h) && IsImage(bgr, lb.srcW, lb.srcH, stride)
    requires 0 <= y < NewH(lb) && 0 <= x < NewW(lb)
    requires Progress(out[..], bgr, stride, lb, w, h, y, x)
    modifies out
    ensures Progress(out[..], bgr, stride, lb, w, h, y, x + 1)
  {
    OnePixel(out[..], bgr, stride, lb, w, h, y, x);
    var iy := Sample(y, lb.scale, lb.srcH);
    var ix := Sample(x, lb.scale, lb.srcW);
    ReadInRange(bgr, lb.srcW, lb.srcH, stride, iy, ix);
    var px := iy * stride + ix * 3;
    ghost var before := out[..];
    out[Index(0, y, x, lb, w, h)] := Normalised(bgr[px + 2]);
    out[Index(1, y, x, lb, w, h)] := Normalised(bgr[px + 1]);
    out[Index(2, y, x, lb, w, h)] := Normalised(bgr[px]);
    assert out[..] ==
      before[Index(0, y, x, lb, w, h) := Pixel(bgr, stride, lb, Cell(0, y + lb.padY, x + lb.padX))]
            [Index(1, y, x, lb, w, h) := Pixel(bgr, stride, lb, Cell(1, y + lb.padY, x + lb.padX))]
            [Index(2, y, x, lb, w, h) := Pixel(bgr, stride, lb, Cell(2, y + lb.padY, x + lb.padX))];
  }

  /** Position `a` of the buffer holds the pixel its plane, row and column call for. */
  ghost predicate Rendered(out: seq<real>, a: int, bgr: seq<bv8>, stride: int, lb: LetterboxInfo,
                           w: nat, h: nat)
    requires 0 <= a < |out| && Placed(lb, w, h) && IsImage(bgr, lb.srcW, lb.srcH, stride)
  {
    InBuffer(Decode(a, w, h), w, h) && out[a] == Pixel(bgr, stride, lb, Decode(a, w, h))
  }

  /** `letterbox_bgr_to_nchw`: the whole buffer, cell by cell. */
  method LetterboxFrame(bgr: seq<bv8>, srcW: int, srcH: int, stride: int, dstW: nat, dstH: nat)
    returns (lb: LetterboxInfo, blob: seq<real>)
    requires IsImage(bgr, srcW, srcH, stride) && dstW > 0 && dstH > 0
    ensures lb == Info(srcW, srcH, dstW, dstH) && Placed(lb, dstW, dstH)
    ensures |blob| == 3 * (dstW * dstH)
    ensures forall a :: 0 <= a < |blob| ==> Rendered(blob, a, bgr, stride, lb, dstW, dstH)
  {
    Fits(srcW, srcH, dstW, dstH);
    lb := Info(srcW, srcH, dstW, dstH);
    AreaPositive(dstW, dstH);
    var out := new real[3 * (dstW * dstH)](_ => 0.5);
    BlankBuffer(out[..], bgr, stride, lb, dstW, dstH);
    var y := 0;
    while y < NewH(lb)
      invariant 0 <= y <= NewH(lb)
      invariant Progress(out[..], bgr, stride, lb, dstW, dstH, y, 0)
    {
      var x := 0;
      while x < NewW(lb)
        invariant 0 <= x <= NewW(lb)
        invariant Progress(out[..], bgr, stride, lb, dstW, dstH, y, x)
      {
        StorePixel(bgr, stride, lb, dstW, dstH, out, y, x);
        x := x + 1;
      }
      RowDone(out[..], bgr, stride, lb, dstW, dstH, y);
      y := y + 1;
    }
    blob := out[..];
    AllDone(blob, bgr, stride, lb, dstW, dstH);
  }

  lemma AreaPositive(w: nat, h: nat)
    ensures w * h >= 0
  {
  }

  lemma BlankBuffer(out: seq<real>, bgr: seq<bv8>, stride: int, lb: LetterboxInfo, w: nat, h: nat)
    requires Placed(lb, w, h) && IsImage(bgr, lb.srcW, lb.srcH, stride)
    requires |out| == 3 * (w * h) && forall a :: 0 <= a < |out| ==> out[a] == 0.5
    ensures Progress(out, bgr, stride, lb, w, h, 0, 0)
  {
    forall c: Cell {:trigger Encode(c, w, h)} | InBuffer(c, w, h)
      ensures 0 <= Encode(c, w, h) < |out| && !Done(lb, c, 0, 0)
    {
      EncodeDecode(c, w, h);
      assert c.plane * (w * h) >= 0;
    }
  }

  lemma AllDone(out: seq<real>, bgr: seq<bv8>, stride: int, lb: LetterboxInfo, w: nat, h: nat)
    requires Placed(lb, w, h) && IsImage(bgr, lb.srcW, lb.srcH, stride)
    requires Progress(out, bgr, stride, lb, w, h, NewH(lb), 0)
    ensures forall a :: 0 <= a < |out| ==> Rendered(out, a, bgr, stride, lb, w, h)
  {
    forall a | 0 <= a < |out| ensures Rendered(out, a, bgr, stride, lb, w, h) {
      DecodeEncode(a, w, h);
      var c := Decode(a, w, h);
      assert Encode(c, w, h) == a;
    }
  }
}
