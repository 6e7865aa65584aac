/** What intersection over union measures: first by the points two boxes cover, then by counting
    the cells of a grid. Neither reading mentions how `Iou` computes it. */
module IouMeasure {
  import opened Arithmetic
  import opened Sequences
  import opened Nms

  // ----- by points

  ghost predicate Covers(d: Detection, px: real, py: real) {
    d.x <= px <= d.x + d.w && d.y <= py <= d.y + d.h
  }

  predicate HasSize(d: Detection) { d.w >= 0.0 && d.h >= 0.0 }

  /** `r` covers exactly the points both boxes cover. */
  ghost predicate Common(r: Detection, a: Detection, b: Detection) {
    HasSize(r) && forall px, py :: Covers(r, px, py) <==> Covers(a, px, py) && Covers(b, px, py)
  }

  lemma CommonEdges(r: Detection, a: Detection, b: Detection)
    requires HasSize(a) && HasSize(b) && Common(r, a, b)
    ensures r.x == MaxR(a.x, b.x) && r.x + r.w == MinR(a.x + a.w, b.x + b.w)
    ensures r.y == MaxR(a.y, b.y) && r.y + r.h == MinR(a.y + a.h, b.y + b.h)
  {
    assert Covers(r, r.x, r.y) && Covers(r, r.x + r.w, r.y + r.h);
    assert Covers(a, r.x, r.y) && Covers(b, r.x, r.y);
    assert Covers(a, r.x + r.w, r.y + r.h) && Covers(b, r.x + r.w, r.y + r.h);
    var left, top := MaxR(a.x, b.x), MaxR(a.y, b.y);
    assert Covers(a, left, top) && Covers(b, left, top);
    assert Covers(r, left, top);
    var right, bottom := MinR(a.x + a.w, b.x + b.w), MinR(a.y + a.h, b.y + b.h);
    assert Covers(a, right, bottom) && Covers(b, right, bottom);
    assert Covers(r, right, bottom);
  }

  /** The overlap is the area of the common part ... */
  lemma OverlapIsCommon(r: Detection, a: Detection, b: Detection)
    requires HasSize(a) && HasSize(b) && Common(r, a, b)
    ensures Overlap(a, b) == Area(r)
  {
    CommonEdges(r, a, b);
    assert Extent(a.x, a.w, b.x, b.w) == r.w && Extent(a.y, a.h, b.y, b.h) == r.h;
  }

  /** ... and nothing if there is none. */
  lemma NoOverlap(a: Detection, b: Detection)
    requires HasSize(a) && HasSize(b)
    requires forall px, py :: !(Covers(a, px, py) && Covers(b, px, py))
    ensures Overlap(a, b) == 0.0
  {
    var left, top := MaxR(a.x, b.x), MaxR(a.y, b.y);
    assert !(Covers(a, left, top) && Covers(b, left, top));
    var e, f := Extent(a.x, a.w, b.x, b.w), Extent(a.y, a.h, b.y, b.h);
    assert e == 0.0 || f == 0.0;
    ZeroProduct(e, f);
  }

  lemma ZeroProduct(e: real, f: real)
    requires e == 0.0 || f == 0.0
    ensures e * f == 0.0
  {
  }

  lemma RatioTimes(inter: real, union: real, areas: real)
    requires union == areas - inter && union > 0.0
    ensures Ratio(inter, areas) == inter / union && Ratio(inter, areas) * union == inter
  {
    assert inter / union * union == inter;
  }

  /** The measure and what it is made of, as values. */
  lemma Parts(a: Detection, b: Detection) returns (inter: real, m: real, n: real, areas: real)
    ensures inter == Overlap(a, b) && m == Area(a) && n == Area(b) && areas == m + n
    ensures Iou(a, b) == Ratio(inter, areas)
  {
    inter, m, n := Overlap(a, b), Area(a), Area(b);
    areas := m + n;
  }

  /** The common part, as a share of all that is covered: both areas less what is counted twice. */
  lemma IouIsShare(r: Detection, a: Detection, b: Detection)
    requires HasSize(a) && HasSize(b) && Common(r, a, b) && Area(a) + Area(b) - Area(r) > 0.0
    ensures Iou(a, b) * (Area(a) + Area(b) - Area(r)) == Area(r)
  {
    OverlapIsCommon(r, a, b);
    var inter, m, n, areas := Parts(a, b);
    RatioTimes(inter, areas - inter, areas);
  }

  /** Boxes without a common point have measure 0. */
  lemma IouOfDisjoint(a: Detection, b: Detection)
    requires HasSize(a) && HasSize(b)
    requires forall px, py :: !(Covers(a, px, py) && Covers(b, px, py))
    ensures Iou(a, b) == 0.0
  {
    NoOverlap(a, b);
  }

  /** A box inside another has its share of the other's area. */
  lemma IouOfInside(a: Detection, b: Detection)
    requires a.w > 0.0 && a.h > 0.0 && HasSize(b)
    requires forall px, py :: Covers(b, px, py) ==> Covers(a, px, py)
    ensures Area(a) > 0.0 && Iou(a, b) == Area(b) / Area(a)
  {
    ProductPositive(a.w, a.h);
    assert Common(b, a, b);
    OverlapIsCommon(b, a, b);
    RatioTimes(Area(b), Area(a), Area(a) + Area(b));
  }

  // ----- by cells

  /** `w` by `h` cells of a grid, from column `i` and row `j`. */
  datatype Block = Block(i: int, j: int, w: nat, h: nat)

  ghost function Cells(b: Block): set<(int, int)> {
    set x, y | b.i <= x < b.i + b.w && b.j <= y < b.j + b.h :: (x, y)
  }

  /** The block as a box, with cells of side 1. */
  function Box(b: Block): Detection {
    Detection(b.i as real, b.j as real, b.w as real, b.h as real, 0.0, 0)
  }

  lemma {:induction false} ColumnSize(i: int, j: int, h: nat)
    ensures |Cells(Block(i, j, 1, h))| == h
    decreases h
  {
    if h == 0 {
      assert Cells(Block(i, j, 1, 0)) == {};
    } else {
      ColumnSize(i, j, h - 1);
      assert Cells(Block(i, j, 1, h)) == Cells(Block(i, j, 1, h - 1)) + {(i, j + h - 1)};
    }
  }

  lemma SplitColumn(b: Block)
    requires b.w > 0
    ensures |Cells(b)| == |Cells(b.(w := b.w - 1))| + b.h
  {
    var rest, column := b.(w := b.w - 1), Block(b.i + b.w - 1, b.j, 1, b.h);
    ColumnSize(column.i, column.j, column.h);
    assert Cells(b) == Cells(rest) + Cells(column);
    assert Cells(rest) !! Cells(column);
  }

  lemma OneRowMore(w: nat, h: nat)
    requires w > 0
    ensures w * h == (w - 1) * h + h
  {
  }

  lemma {:induction false} BlockSize(b: Block)
    ensures |Cells(b)| == b.w * b.h
    decreases b.w
  {
    if b.w == 0 {
      assert Cells(b) == {};
    } else {
      SplitColumn(b);
      BlockSize(b.(w := b.w - 1));
      OneRowMore(b.w, b.h);
    }
  }

  /** The cells two blocks share form a block. */
  function Shared(a: Block, b: Block): Block {
    var i, j := Max(a.i, b.i), Max(a.j, b.j);
    Block(i, j, Max(0, Min(a.i + a.w, b.i + b.w) - i), Max(0, Min(a.j + a.h, b.j + b.h) - j))
  }

  lemma SharedCells(a: Block, b: Block)
    ensures Cells(a) * Cells(b) == Cells(Shared(a, b))
  {
  }

  lemma GridExtent(i: int, w: nat, i': int, w': nat)
    ensures Extent(i as real, w as real, i' as real, w' as real)
         == Max(0, Min(i + w, i' + w') - Max(i, i')) as real
  {
  }

  lemma {:induction false} IntProduct(w: nat, h: nat)
    ensures (w * h) as real == w as real * h as real
    decreases h
  {
    if h > 0 {
      IntProduct(w, h - 1);
      assert w * h == w * (h - 1) + w;
      assert w as real * h as real == w as real * (h - 1) as real + w as real;
    }
  }

  lemma BoxArea(b: Block)
    ensures Area(Box(b)) == |Cells(b)| as real
  {
    BlockSize(b);
    IntProduct(b.w, b.h);
  }

  lemma OverlapOf(a: Detection, b: Detection, e: real, f: real)
    requires Extent(a.x, a.w, b.x, b.w) == e && Extent(a.y, a.h, b.y, b.h) == f
    ensures Overlap(a, b) == e * f
  {
  }

  lemma BoxOverlap(a: Block, b: Block)
    ensures Overlap(Box(a), Box(b)) == |Cells(a) * Cells(b)| as real
  {
    var s := Shared(a, b);
    SharedCells(a, b);
    BlockSize(s);
    IntProduct(s.w, s.h);
    BoxOverlapOf(a, b, s);
  }

  lemma BoxOverlapOf(a: Block, b: Block, s: Block)
    requires s == Shared(a, b)
    ensures Overlap(Box(a), Box(b)) == s.w as real * s.h as real
  {
    GridExtent(a.i, a.w, b.i, b.w);
    GridExtent(a.j, a.h, b.j, b.h);
    OverlapOf(Box(a), Box(b), s.w as real, s.h as real);
  }

  lemma UnionSize(p: set<(int, int)>, q: set<(int, int)>)
    ensures |p + q| == |p| + |q| - |p * q|
    ensures |p + q| == 0 ==> |p * q| == 0
  {
    assert p + q == p + (q - p);
    assert q == (q - p) + p * q;
  }

  lemma CellCounts(a: Block, b: Block) returns (m: nat, n: nat, both: nat, either: nat)
    ensures Area(Box(a)) == m as real && Area(Box(b)) == n as real && Overlap(Box(a), Box(b)) == both as real
    ensures either == m + n - both && (either == 0 ==> both == 0)
    ensures both == |Cells(a) * Cells(b)| && either == |Cells(a) + Cells(b)|
  {
    BoxArea(a);
    BoxArea(b);
    BoxOverlap(a, b);
    UnionSize(Cells(a), Cells(b));
    m, n, both, either := |Cells(a)|, |Cells(b)|, |Cells(a) * Cells(b)|, |Cells(a) + Cells(b)|;
  }

  lemma RatioOfCounts(v: real, inter: real, both: nat, either: nat, areas: real)
    requires v == Ratio(inter, areas)
    requires inter == both as real && areas == either as real + inter && (either == 0 ==> both == 0)
    ensures v * either as real == both as real
  {
    if either > 0 {
      RatioTimes(inter, either as real, areas);
    }
  }

  /** For boxes on a grid the measure is the number of cells covered by both over the number of
      cells covered by either. */
  lemma IouCountsCells(a: Block, b: Block) returns (v: real, both: nat, either: nat)
    ensures v == Iou(Box(a), Box(b)) && both == |Cells(a) * Cells(b)| && either == |Cells(a) + Cells(b)|
    ensures v * either as real == both as real
  {
    var k, l, inter, m, n, areas;
    k, l, both, either := CellCounts(a, b);
    inter, m, n, areas := Parts(Box(a), Box(b));
    v := Iou(Box(a), Box(b));
    RatioOfCounts(v, inter, both, either, areas);
  }

  // ----- the grid may have any pitch, and lie anywhere

  lemma ScaledOrder(p: real, q: real, k: real)
    requires k > 0.0
    ensures MaxR(p * k, q * k) == MaxR(p, q) * k && MinR(p * k, q * k) == MinR(p, q) * k
  {
    if p <= q {
      TimesBelow(p, q, k);
    } else {
      TimesBelow(q, p, k);
    }
  }

  lemma ExtentScales(p: real, l: real, q: real, m: real, k: real, p': real, l': real, q': real, m': real)
    requires k > 0.0 && p' == p * k && l' == l * k && q' == q * k && m' == m * k
    ensures Extent(p', l', q', m') == Extent(p, l, q, m) * k
  {
    ScaledOrder(p, q, k);
    ScaledOrder(p + l, q + m, k);
    ScaledOrder(0.0, MinR(p + l, q + m) - MaxR(p, q), k);
  }

  lemma RatioScales(inter: real, areas: real, q: real, inter': real, areas': real)
    requires q > 0.0 && inter' == inter * q && areas' == areas * q
    ensures Ratio(inter', areas') == Ratio(inter, areas)
  {
    var u := areas - inter;
    assert areas' - inter' == u * q;
    if u > 0.0 {
      TimesPositive(u, q);
      CancelFactor(inter, u, q);
    } else {
      TimesBelow(u, 0.0, q);
    }
  }

  lemma CancelFactor(i: real, u: real, q: real)
    requires q > 0.0 && u > 0.0 && u * q > 0.0
    ensures i * q / (u * q) == i / u
  {
    var x := i / u;
    assert x * u == i;
    assert x * (u * q) == i * q;
    var y := i * q / (u * q);
    assert y * (u * q) == i * q;
    Unique(x, y, u * q);
  }

  lemma Unique(x: real, y: real, z: real)
    requires z > 0.0 && x * z == y * z
    ensures x == y
  {
    var d := x - y;
    assert d * z == 0.0;
    if d > 0.0 {
      TimesPositive(d, z);
    } else if d < 0.0 {
      TimesPositive(-d, z);
    }
  }

  lemma ProductScales(e: real, f: real, p: real, k: real, q: real, e': real, f': real, p': real)
    requires q == k * k && e' == e * k && f' == f * k && p == e * f && p' == e' * f'
    ensures p' == p * q
  {
    assert (e * k) * (f * k) == e * f * (k * k);
  }

  /** `d'` is `d` enlarged by `k` about the origin. */
  ghost predicate Enlarged(d': Detection, d: Detection, k: real) {
    d'.x == d.x * k && d'.y == d.y * k && d'.w == d.w * k && d'.h == d.h * k
  }

  lemma ExtentScaled(p: real, l: real, q: real, m: real, k: real, p': real, l': real, q': real, m': real)
    returns (e: real, e': real)
    requires k > 0.0 && p' == p * k && l' == l * k && q' == q * k && m' == m * k
    ensures e == Extent(p, l, q, m) && e' == Extent(p', l', q', m') && e' == e * k
  {
    ExtentScales(p, l, q, m, k, p', l', q', m');
    e, e' := Extent(p, l, q, m), Extent(p', l', q', m');
  }

  lemma OverlapValue(a: Detection, b: Detection, e: real, f: real) returns (i: real)
    requires e == Extent(a.x, a.w, b.x, b.w) && f == Extent(a.y, a.h, b.y, b.h)
    ensures i == Overlap(a, b) && i == e * f
  {
    i := Overlap(a, b);
  }

  lemma OverlapScaled(a: Detection, b: Detection, a': Detection, b': Detection, k: real, q: real)
    returns (i: real, i': real)
    requires k > 0.0 && q == k * k && Enlarged(a', a, k) && Enlarged(b', b, k)
    ensures i == Overlap(a, b) && i' == Overlap(a', b') && i' == i * q
  {
    var e, e' := ExtentScaled(a.x, a.w, b.x, b.w, k, a'.x, a'.w, b'.x, b'.w);
    var f, f' := ExtentScaled(a.y, a.h, b.y, b.h, k, a'.y, a'.h, b'.y, b'.h);
    i := OverlapValue(a, b, e, f);
    i' := OverlapValue(a', b', e', f');
    ProductScales(e, f, i, k, q, e', f', i');
  }

  lemma AreaScaled(d: Detection, d': Detection, k: real, q: real) returns (m: real, m': real)
    requires q == k * k && Enlarged(d', d, k)
    ensures m == Area(d) && m' == Area(d') && m' == m * q
  {
    m, m' := Area(d), Area(d');
    ProductScales(d.w, d.h, m, k, q, d'.w, d'.h, m');
  }

  lemma SumScaled(m: real, n: real, q: real, m': real, n': real) returns (s: real, s': real)
    requires m' == m * q && n' == n * q
    ensures s == m + n && s' == m' + n' && s' == s * q
  {
    s, s' := m + n, m' + n';
  }

  lemma IouValue(a: Detection, b: Detection, i: real, m: real, n: real, s: real)
    requires i == Overlap(a, b) && m == Area(a) && n == Area(b) && s == m + n
    ensures Iou(a, b) == Ratio(i, s)
  {
  }

  /** Enlarging both boxes alike does not change the measure, so the grid may have any pitch. */
  lemma IouScales(a: Detection, b: Detection, a': Detection, b': Detection, k: real)
    requires k > 0.0 && Enlarged(a', a, k) && Enlarged(b', b, k)
    ensures Iou(a', b') == Iou(a, b)
  {
    var q := PositiveProduct(k, k);
    var i, i' := OverlapScaled(a, b, a', b', k, q);
    var m, m' := AreaScaled(a, a', k, q);
    var n, n' := AreaScaled(b, b', k, q);
    var s, s' := SumScaled(m, n, q, m', n');
    IouValue(a, b, i, m, n, s);
    IouValue(a', b', i', m', n', s');
    RatioScales(i, s, q, i', s');
  }

  lemma PositiveProduct(a: real, b: real) returns (p: real)
    requires a > 0.0 && b > 0.0
    ensures p == a * b && p > 0.0
  {
    p := a * b;
  }

  /** Moving both boxes alike does not change it either. */
  lemma IouMoves(a: Detection, b: Detection, dx: real, dy: real)
    ensures Iou(a.(x := a.x + dx, y := a.y + dy), b.(x := b.x + dx, y := b.y + dy)) == Iou(a, b)
  {
    var a', b' := a.(x := a.x + dx, y := a.y + dy), b.(x := b.x + dx, y := b.y + dy);
    OverlapMoves(a, b, a', b', dx, dy);
    var inter, m, n, areas := Parts(a, b);
    var inter', m', n', areas' := Parts(a', b');
  }

  lemma OverlapMoves(a: Detection, b: Detection, a': Detection, b': Detection, dx: real, dy: real)
    requires a' == a.(x := a.x + dx, y := a.y + dy) && b' == b.(x := b.x + dx, y := b.y + dy)
    ensures Overlap(a', b') == Overlap(a, b) && Area(a') == Area(a) && Area(b') == Area(b)
  {
    ExtentMoves(a.x, a.w, b.x, b.w, dx);
    ExtentMoves(a.y, a.h, b.y, b.h, dy);
    OverlapOf(a', b', Extent(a.x, a.w, b.x, b.w), Extent(a.y, a.h, b.y, b.h));
  }

  lemma ExtentMoves(p: real, l: real, q: real, m: real, d: real)
    ensures Extent(p + d, l, q + d, m) == Extent(p, l, q, m)
  {
  }
}
