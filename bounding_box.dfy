/** The bounding box of the Julia set's sample points, and the mapping from
    the cells of a pixel grid to points of the plane. A box is its `min` and
    `max` corners; it starts as the degenerate box at the origin, grows by
    componentwise min/max, is then scaled, and maps grid cells to points by
    independent linear interpolation on each axis. */
module BoundingBoxes {
  import opened Plane
  import opened Wrappers

  /** The value of a box: its two corners. */
  datatype Bounds = Bounds(min: Complex, max: Complex)

  /** `BoundingBox::default`: both corners at the origin. */
  const Degenerate: Bounds := Bounds(Origin, Origin)

  predicate WellFormed(b: Bounds) {
    b.min.re <= b.max.re && b.min.im <= b.max.im
  }

  /** `p` lies in the closed box. */
  predicate Contains(b: Bounds, p: Complex) {
    b.min.re <= p.re <= b.max.re && b.min.im <= p.im <= b.max.im
  }

  /** Every point of `inner` lies in `outer` (for well-formed `inner`). */
  predicate Encloses(outer: Bounds, inner: Bounds) {
    outer.min.re <= inner.min.re && inner.max.re <= outer.max.re &&
    outer.min.im <= inner.min.im && inner.max.im <= outer.max.im
  }

  /** `update`: the box grown to take in `p`. */
  function Grow(b: Bounds, p: Complex): (r: Bounds)
    ensures WellFormed(b) ==> WellFormed(r)
    ensures Contains(r, p)
    ensures forall q :: Contains(b, q) ==> Contains(r, q)
    ensures Encloses(r, b)
    ensures Contains(b, p) ==> r == b
  {
    Bounds(Complex(Min(p.re, b.min.re), Min(p.im, b.min.im)),
           Complex(Max(p.re, b.max.re), Max(p.im, b.max.im)))
  }

  /** Folding `points`, left to right, into the box `b`. */
  function FoldInto(b: Bounds, points: seq<Complex>): (r: Bounds)
    ensures WellFormed(b) ==> WellFormed(r)
    ensures Encloses(r, b)
    ensures forall i :: 0 <= i < |points| ==> Contains(r, points[i])
  {
    if |points| == 0 then b
    else Grow(FoldInto(b, points[..|points| - 1]), points[|points| - 1])
  }

  /** The result of `from_iter`: every point folded into the degenerate box.
      It always contains the origin and every point. */
  function Accumulate(points: seq<Complex>): (r: Bounds)
    ensures WellFormed(r)
    ensures Contains(r, Origin)
    ensures forall i :: 0 <= i < |points| ==> Contains(r, points[i])
  {
    FoldInto(Degenerate, points)
  }

  /** A box that encloses the start and contains every point encloses the
      folded box. */
  lemma {:induction false} FoldIntoLeast(b: Bounds, points: seq<Complex>, outer: Bounds)
    requires Encloses(outer, b)
    requires forall i :: 0 <= i < |points| ==> Contains(outer, points[i])
    ensures Encloses(outer, FoldInto(b, points))
  {
    if |points| > 0 {
      var init := points[..|points| - 1];
      forall i | 0 <= i < |init|
        ensures Contains(outer, init[i])
      {
        assert init[i] == points[i];
      }
      FoldIntoLeast(b, init, outer);
      GrowLeast(outer, FoldInto(b, init), points[|points| - 1]);
    }
  }

  /** Any box that encloses `b` and contains `p` encloses `b` grown by `p`. */
  lemma GrowLeast(outer: Bounds, b: Bounds, p: Complex)
    requires Encloses(outer, b) && Contains(outer, p)
    ensures Encloses(outer, Grow(b, p))
  {
  }

  /** The accumulated box is the smallest box containing the origin and all
      the points. */
  lemma AccumulateSmallest(points: seq<Complex>, outer: Bounds)
    requires Contains(outer, Origin)
    requires forall i :: 0 <= i < |points| ==> Contains(outer, points[i])
    ensures Encloses(outer, Accumulate(points))
  {
    FoldIntoLeast(Degenerate, points, outer);
  }

  /** The accumulated box depends only on which points occur: neither their
      order nor their repetitions matter. */
  lemma AccumulateOrderIndependent(xs: seq<Complex>, ys: seq<Complex>)
    requires forall p :: p in xs <==> p in ys
    ensures Accumulate(xs) == Accumulate(ys)
  {
    var boxX, boxY := Accumulate(xs), Accumulate(ys);
    forall i | 0 <= i < |xs|
      ensures Contains(boxY, xs[i])
    {
      assert xs[i] in ys;
      var j :| 0 <= j < |ys| && ys[j] == xs[i];
    }
    forall j | 0 <= j < |ys|
      ensures Contains(boxX, ys[j])
    {
      assert ys[j] in xs;
      var i :| 0 <= i < |xs| && xs[i] == ys[j];
    }
    AccumulateSmallest(xs, boxY);
    AccumulateSmallest(ys, boxX);
  }

  /** Points the box already contains leave it unchanged; in particular
      folding the same points into the accumulated box again is the
      identity. */
  lemma {:induction false} FoldIntoIdempotent(b: Bounds, points: seq<Complex>)
    requires forall i :: 0 <= i < |points| ==> Contains(b, points[i])
    ensures FoldInto(b, points) == b
  {
    if |points| > 0 {
      FoldIntoIdempotent(b, points[..|points| - 1]);
    }
  }

  /** `offset`: the point relative to the `min` corner. */
  function Offset(b: Bounds, p: Complex): (d: Complex)
    ensures Add(b.min, d) == p
    ensures Contains(b, p) ==> 0.0 <= d.re && 0.0 <= d.im
  {
    Sub(p, b.min)
  }

  /** `abs_dimension`: the extent of the box on each axis. */
  function AbsDimension(b: Bounds): (d: Complex)
    ensures Add(b.min, d) == b.max
    ensures WellFormed(b) <==> 0.0 <= d.re && 0.0 <= d.im
  {
    Offset(b, b.max)
  }

  /** `aspect_ratio`: width over height; the source divides unguarded, so a
      box of zero height is excluded. */
  function AspectRatio(b: Bounds): (ratio: real)
    requires AbsDimension(b).im != 0.0
    ensures ratio * AbsDimension(b).im == AbsDimension(b).re
    ensures WellFormed(b) ==> 0.0 <= ratio
  {
    var d := AbsDimension(b);
    d.re / d.im
  }

  /** `width_for`: the width that keeps the aspect ratio at `height`. */
  function WidthFor(b: Bounds, height: U32): (width: U32)
    requires AbsDimension(b).im != 0.0
    ensures 0.0 <= height as real * AspectRatio(b) < U32Max as real ==>
      width as real <= height as real * AspectRatio(b) < width as real + 1.0
    ensures height as real * AspectRatio(b) <= 0.0 ==> width == 0
    ensures U32Max as real <= height as real * AspectRatio(b) ==> width == U32Max
  {
    AsU32(height as real * AspectRatio(b))
  }

  /** `height_for`: the height that keeps the aspect ratio at `width`. For a
      box of zero width `1.0 / 0.0` is infinite in `f64`, so the product is
      NaN (cast to 0) at width 0 and infinity (cast to `u32::MAX`) otherwise. */
  function HeightFor(b: Bounds, width: U32): (height: U32)
    requires AbsDimension(b).im != 0.0
    ensures AspectRatio(b) != 0.0 && 0.0 <= width as real / AspectRatio(b) < U32Max as real ==>
      height as real <= width as real / AspectRatio(b) < height as real + 1.0
    ensures AspectRatio(b) != 0.0 && U32Max as real <= width as real / AspectRatio(b) ==> height == U32Max
    ensures AspectRatio(b) != 0.0 && width as real / AspectRatio(b) <= 0.0 ==> height == 0
    ensures AspectRatio(b) == 0.0 ==> height == (if width == 0 then 0 else U32Max)
  {
    var ratio := AspectRatio(b);
    if ratio == 0.0 then (if width == 0 then 0 else U32Max)
    else
      assert width as real * (1.0 / ratio) == width as real / ratio;
      AsU32(width as real * (1.0 / ratio))
  }

  /** `fit`: a wider-than-tall box keeps the requested width, any other box
      keeps the requested height; `FitWide` and `FitTall` say what the other
      side is. */
  function Fit(b: Bounds, width: U32, height: U32): (size: (U32, U32))
    requires AbsDimension(b).im != 0.0
    ensures AspectRatio(b) > 1.0 ==> size.0 == width
    ensures AspectRatio(b) <= 1.0 ==> size.1 == height
  {
    if AspectRatio(b) > 1.0 then (width, HeightFor(b, width)) else (WidthFor(b, height), height)
  }

  /** For a wide box the derived height is the exact height truncated, and
      it is less than the width. */
  lemma FitWide(b: Bounds, width: U32, height: U32)
    requires AbsDimension(b).im != 0.0 && AspectRatio(b) > 1.0
    ensures Fit(b, width, height).1 <= width
    ensures Fit(b, width, height).1 as real <= width as real / AspectRatio(b)
                                            < Fit(b, width, height).1 as real + 1.0
  {
    TruncatedAboveOne(width, AspectRatio(b), HeightFor(b, width));
  }

  /** For a box at most as wide as tall the derived width never exceeds the
      height, and for a non-negative ratio it is the exact width truncated. */
  lemma FitTall(b: Bounds, width: U32, height: U32)
    requires AbsDimension(b).im != 0.0 && AspectRatio(b) <= 1.0
    ensures Fit(b, width, height).0 <= height
    ensures 0.0 <= AspectRatio(b) ==>
      Fit(b, width, height).0 as real <= height as real * AspectRatio(b)
                                       < Fit(b, width, height).0 as real + 1.0
  {
    TruncatedAtMostOne(height, AspectRatio(b), WidthFor(b, height));
  }

  /** `fit` ignores the request on the side it derives: for a wide box whose
      exact height at the requested width is at least one more than the
      requested height, the result is taller than requested. */
  lemma FitIgnoresDerivedRequest(b: Bounds, width: U32, height: U32)
    requires AbsDimension(b).im != 0.0 && AspectRatio(b) > 1.0
    requires height as real + 1.0 <= width as real / AspectRatio(b)
    ensures Fit(b, width, height).1 > height
  {
    FitWide(b, width, height);
  }

  /** The saturating truncation of `x * (1 / ratio)` for `ratio > 1` is the
      floor of `x / ratio`, and never exceeds `x`. */
  lemma TruncatedAboveOne(x: U32, ratio: real, n: U32)
    requires 1.0 < ratio && n == AsU32(x as real * (1.0 / ratio))
    ensures n <= x
    ensures n as real <= x as real / ratio < n as real + 1.0
  {
    var y := x as real / ratio;
    assert x as real * (1.0 / ratio) == y;
    assert y * ratio == x as real;
    assert 0.0 <= y;
    if 0 < x {
      assert y < x as real by {
        assert x as real - y == y * (ratio - 1.0);
        assert 0.0 < y;
        ProductPositive(y, ratio - 1.0);
      }
    }
  }

  lemma ProductPositive(a: real, b: real)
    requires 0.0 < a && 0.0 < b
    ensures 0.0 < a * b
  {
  }

  lemma ProductNonNegative(a: real, b: real)
    requires 0.0 <= a && 0.0 <= b
    ensures 0.0 <= a * b
  {
  }

  /** The saturating truncation of `x * ratio` for `ratio <= 1` never
      exceeds `x`, and is the floor when `ratio` is not negative. */
  lemma TruncatedAtMostOne(x: U32, ratio: real, n: U32)
    requires ratio <= 1.0 && n == AsU32(x as real * ratio)
    ensures n <= x
    ensures 0.0 <= ratio ==> n as real <= x as real * ratio < n as real + 1.0
  {
    var y := x as real * ratio;
    if ratio < 0.0 {
      ProductNonNegative(x as real, -ratio);
      assert y <= 0.0;
    } else {
      assert 0.0 <= y <= x as real by {
        assert x as real - y == x as real * (1.0 - ratio);
        ProductNonNegative(x as real, 1.0 - ratio);
        ProductNonNegative(x as real, ratio);
      }
    }
  }

  /** `scale`: both corners multiplied by the factor; a non-negative factor
      keeps the corners in order. */
  function Scaled(b: Bounds, s: real): (r: Bounds)
    ensures 0.0 <= s && WellFormed(b) ==> WellFormed(r)
  {
    Bounds(Times(b.min, s), Times(b.max, s))
  }

  /** A positive factor keeps a well-formed box well formed, and cannot make
      an ill-formed one well formed. */
  lemma ScaledPositiveIff(b: Bounds, s: real)
    requires 0.0 < s
    ensures WellFormed(Scaled(b, s)) <==> WellFormed(b)
  {
    ScalePreservesOrder(b.min.re, b.max.re, s);
    ScalePreservesOrder(b.min.im, b.max.im, s);
  }

  /** Multiplying by a positive factor neither creates nor breaks an order. */
  lemma ScalePreservesOrder(x: real, y: real, s: real)
    requires 0.0 < s
    ensures x <= y <==> x * s <= y * s
  {
    assert y * s - x * s == (y - x) * s;
    if x <= y {
      ProductNonNegative(y - x, s);
    } else {
      ProductPositive(x - y, s);
      assert x * s - y * s == (x - y) * s;
    }
  }

  /** Padding a box that contains the origin by a factor of at least one
      gives a box that encloses it. */
  lemma ScaledEncloses(b: Bounds, s: real)
    requires Contains(b, Origin) && 1.0 <= s
    ensures Encloses(Scaled(b, s), b)
    ensures Contains(Scaled(b, s), Origin)
  {
    var r := Scaled(b, s);
    assert r.min.re == b.min.re * s && r.max.re == b.max.re * s;
    assert r.min.im == b.min.im * s && r.max.im == b.max.im * s;
    ScaleAwayFromZero(b.min.re, s);
    ScaleAwayFromZero(b.max.re, s);
    ScaleAwayFromZero(b.min.im, s);
    ScaleAwayFromZero(b.max.im, s);
  }

  lemma ScaleAwayFromZero(x: real, s: real)
    requires 1.0 <= s
    ensures x <= 0.0 ==> x * s <= x
    ensures 0.0 <= x ==> x <= x * s
  {
    assert x * s - x == x * (s - 1.0);
  }

  /** `point_from_grid`: cell `(x, y)` of a `width` by `height` grid, placed
      at the same fraction of the box on each axis. The source divides by
      the grid size unguarded, so an empty grid is excluded. */
  function PointFromGrid(b: Bounds, x: U32, y: U32, width: U32, height: U32): (p: Complex)
    requires 0 < width && 0 < height
    ensures x == 0 && y == 0 ==> p == b.min
  {
    var d := AbsDimension(b);
    Add(b.min, Complex(d.re * (x as real / width as real), d.im * (y as real / height as real)))
  }

  /** The last cell is one cell's extent short of the `max` corner. */
  lemma PointFromGridLastCell(b: Bounds, width: U32, height: U32)
    requires 0 < width && 0 < height
    ensures PointFromGrid(b, width - 1, height - 1, width, height)
         == Sub(b.max, Complex(AbsDimension(b).re / width as real, AbsDimension(b).im / height as real))
  {
    var d := AbsDimension(b);
    FractionBelowOne(d.re, width - 1, width);
    FractionBelowOne(d.im, height - 1, height);
  }

  lemma FractionBelowOne(extent: real, k: nat, n: nat)
    requires 0 < n && k + 1 == n
    ensures extent * (k as real / n as real) == extent - extent / n as real
  {
    assert k as real / n as real == 1.0 - 1.0 / n as real;
  }

  /** Every cell of the grid maps into the box, and on an axis of positive
      extent strictly below the `max` corner: the grid covers `[min, max)`. */
  lemma PointFromGridInside(b: Bounds, x: U32, y: U32, width: U32, height: U32)
    requires WellFormed(b)
    requires x < width && y < height
    ensures Contains(b, PointFromGrid(b, x, y, width, height))
    ensures b.min.re < b.max.re ==> PointFromGrid(b, x, y, width, height).re < b.max.re
    ensures b.min.im < b.max.im ==> PointFromGrid(b, x, y, width, height).im < b.max.im
  {
    var d := AbsDimension(b);
    FractionInside(d.re, x, width);
    FractionInside(d.im, y, height);
  }

  lemma FractionInside(extent: real, k: nat, n: nat)
    requires 0.0 <= extent && k < n
    ensures 0.0 <= extent * (k as real / n as real) <= extent
    ensures 0.0 < extent ==> extent * (k as real / n as real) < extent
  {
    var f := k as real / n as real;
    assert 0.0 <= f < 1.0;
    assert extent - extent * f == extent * (1.0 - f);
  }

  /** Moving right on the grid never moves left in the plane, and moves
      strictly right when the box has positive width. */
  lemma PointFromGridMonotone(b: Bounds, x1: U32, x2: U32, y: U32, width: U32, height: U32)
    requires WellFormed(b) && 0 < width && 0 < height && x1 < x2
    ensures PointFromGrid(b, x1, y, width, height).re <= PointFromGrid(b, x2, y, width, height).re
    ensures b.min.re < b.max.re ==>
      PointFromGrid(b, x1, y, width, height).re < PointFromGrid(b, x2, y, width, height).re
  {
    var d := AbsDimension(b);
    var f1, f2 := x1 as real / width as real, x2 as real / width as real;
    assert f1 < f2;
    assert d.re * f2 - d.re * f1 == d.re * (f2 - f1);
  }

  /** The offset of a cell's point from `min` is the cell's share of the
      box: `offset * width == x * extent` on the real axis (and likewise on
      the imaginary one), so on an axis of non-zero extent the cell is
      recovered from the point. */
  lemma PointFromGridRecoversCell(b: Bounds, x: U32, y: U32, width: U32, height: U32)
    requires 0 < width && 0 < height
    ensures Offset(b, PointFromGrid(b, x, y, width, height)).re * width as real
         == x as real * AbsDimension(b).re
    ensures Offset(b, PointFromGrid(b, x, y, width, height)).im * height as real
         == y as real * AbsDimension(b).im
  {
    var d := AbsDimension(b);
    var fx, fy := x as real / width as real, y as real / height as real;
    assert fx * width as real == x as real;
    assert fy * height as real == y as real;
    assert Offset(b, PointFromGrid(b, x, y, width, height)) == Complex(d.re * fx, d.im * fy);
  }

  /** The mutable `BoundingBox`: its corners are overwritten in place by
      `update` and `scale`. */
  class BoundingBox {
    var min: Complex
    var max: Complex

    function Value(): Bounds
      reads this
    {
      Bounds(min, max)
    }

    /** `BoundingBox::default`. */
    constructor Default()
      ensures Value() == Degenerate
    {
      min, max := Origin, Origin;
    }

    /** `update`: componentwise min and max with `p`. */
    method Update(p: Complex)
      modifies this
      ensures Value() == Grow(old(Value()), p)
    {
      var oldMin, oldMax := min, max;
      min := Complex(Min(p.re, oldMin.re), Min(p.im, oldMin.im));
      max := Complex(Max(p.re, oldMax.re), Max(p.im, oldMax.im));
    }

    /** `scale`: both corners multiplied by `s`. */
    method Scale(s: real)
      modifies this
      ensures Value() == Scaled(old(Value()), s)
    {
      min := Times(min, s);
      max := Times(max, s);
    }
  }

  /** `from_iter`: fold every point, in order, into a fresh default box. */
  method FromIter(points: seq<Complex>) returns (bbx: BoundingBox)
    ensures fresh(bbx)
    ensures bbx.Value() == Accumulate(points)
  {
    bbx := new BoundingBox.Default();
    for i := 0 to |points|
      invariant bbx.Value() == FoldInto(Degenerate, points[..i])
    {
      assert points[..i + 1][..i] == points[..i];
      bbx.Update(points[i]);
    }
    assert points[..|points|] == points;
  }

  /** `PixelsPoints`: walks the cells of a `width` by `height` image, in the
      order the image enumerates them (given here as `cells`), and pairs
      each with its point in the plane. The box is borrowed immutably for
      the whole walk, so its value is held. `yielded` records what `Next`
      has produced so far. */
  class PixelsPoints {
    const width: U32
    const height: U32
    const bbx: Bounds
    ghost const all: seq<(U32, U32)>
    var cells: seq<(U32, U32)>
    ghost var yielded: seq<((U32, U32), Complex)>

    ghost predicate Valid()
      reads this
    {
      (forall c :: c in all ==> c.0 < width && c.1 < height) &&
      |yielded| + |cells| == |all| &&
      cells == all[|yielded|..] &&
      forall i :: 0 <= i < |yielded| ==>
        yielded[i] == (all[i], PointFromGrid(bbx, all[i].0, all[i].1, width, height))
    }

    /** `BoundingBox::points`. */
    constructor Points(b: BoundingBox, width: U32, height: U32, cells: seq<(U32, U32)>)
      requires forall c :: c in cells ==> c.0 < width && c.1 < height
      ensures Valid()
      ensures this.width == width && this.height == height && bbx == b.Value()
      ensures all == cells && this.cells == cells && yielded == []
    {
      this.width, this.height, bbx := width, height, b.Value();
      all, this.cells, yielded := cells, cells, [];
    }

    /** `next`: the next cell with its point, or `None` once the image is
        exhausted. */
    method Next() returns (item: Option<((U32, U32), Complex)>)
      requires Valid()
      modifies this
      ensures Valid()
      ensures old(cells) == [] ==> item == None && cells == [] && yielded == old(yielded)
      ensures old(cells) != [] ==>
        var c := old(cells)[0];
        && item == Some((c, PointFromGrid(bbx, c.0, c.1, width, height)))
        && cells == old(cells)[1..]
        && yielded == old(yielded) + [item.value]
      ensures WellFormed(bbx) && item.Some? ==> Contains(bbx, item.value.1)
    {
      if cells == [] {
        item := None;
      } else {
        var c := cells[0];
        assert c in all;
        var point := PointFromGrid(bbx, c.0, c.1, width, height);
        item := Some((c, point));
        cells := cells[1..];
        yielded := yielded + [(c, point)];
        if WellFormed(bbx) {
          PointFromGridInside(bbx, c.0, c.1, width, height);
        }
      }
    }
  }
}
