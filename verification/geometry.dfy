/** The geometry kernel: `Point` arithmetic and the axis-aligned `Rect`
    with its closed hit test, symmetric expansion and corner
    normalisation. Coordinates are `real`; float rounding is not modelled. */
module Geometry {

  datatype Point = Point(x: real, y: real) {

    function Add(o: Point): (r: Point)
      ensures r.x - o.x == x && r.y - o.y == y
    {
      Point(x + o.x, y + o.y)
    }

    function Sub(o: Point): (r: Point)
      ensures r.x + o.x == x && r.y + o.y == y
    {
      Point(x - o.x, y - o.y)
    }

    /** `p * k`: uniform scaling. */
    function Scale(k: real): (r: Point)
      ensures k == 1.0 ==> r == this
      ensures k == 0.0 ==> r == Point(0.0, 0.0)
    {
      Point(x * k, y * k)
    }

    /** `p * q`: componentwise product. */
    function Mul(o: Point): (r: Point)
      ensures o == Point(1.0, 1.0) ==> r == this
      ensures o == Point(0.0, 0.0) ==> r == o
    {
      Point(x * o.x, y * o.y)
    }

    function Dot(o: Point): (r: real)
      ensures o == this ==> r >= 0.0
    {
      x * o.x + y * o.y
    }
  }

  datatype Rect = Rect(x: real, y: real, width: real, height: real) {

    /** Closed on all four edges. */
    predicate HasPoint(p: Point) {
      p.x >= x && p.x <= x + width && p.y >= y && p.y <= y + height
    }

    /** Grows the rect by `amount` on every side (a negative amount shrinks). */
    function Expand(amount: real): (r: Rect)
      ensures r.x + amount == x && r.y + amount == y
      ensures r.x + r.width == x + width + amount
      ensures r.y + r.height == y + height + amount
    {
      Rect(x - amount, y - amount, width + amount * 2.0, height + amount * 2.0)
    }

    /** `rect - p`: moves the origin by `-p`, size unchanged. */
    function Offset(o: Point): (r: Rect)
      ensures r.Location().Add(o) == Location()
      ensures r.Size() == Size()
    {
      Rect(x - o.x, y - o.y, width, height)
    }

    function Location(): Point { Point(x, y) }

    function Size(): Point { Point(width, height) }
  }

  function FromLocationSize(loc: Point, size: Point): Rect {
    Rect(loc.x, loc.y, size.x, size.y)
  }

  function Min(a: real, b: real): real { if a <= b then a else b }

  function Max(a: real, b: real): real { if a <= b then b else a }

  /** `Rect::fromMinMax`: swaps each axis independently so that the size
      is never negative. */
  function FromMinMax(pmin: Point, pmax: Point): (r: Rect)
    ensures r.width >= 0.0 && r.height >= 0.0
    ensures r.x == Min(pmin.x, pmax.x) && r.y == Min(pmin.y, pmax.y)
    ensures r.x + r.width == Max(pmin.x, pmax.x)
    ensures r.y + r.height == Max(pmin.y, pmax.y)
  {
    var (x0, x1) := if pmin.x > pmax.x then (pmax.x, pmin.x) else (pmin.x, pmax.x);
    var (y0, y1) := if pmin.y > pmax.y then (pmax.y, pmin.y) else (pmin.y, pmax.y);
    Rect(x0, y0, x1 - x0, y1 - y0)
  }

  /** `std::clamp(v, lo, hi)` as libstdc++ evaluates it. */
  function Clamp(v: real, lo: real, hi: real): (r: real)
    ensures lo <= hi ==> lo <= r <= hi
    ensures lo <= v <= hi ==> r == v
    ensures lo <= hi && v < lo ==> r == lo
    ensures lo <= hi && v > hi ==> r == hi
  {
    if v < lo then lo else if hi < v then hi else v
  }

  // ----- Point lemmas -----------------------------------------------------

  lemma AddSubInverse(a: Point, b: Point)
    ensures a.Add(b).Sub(b) == a
    ensures a.Sub(b).Add(b) == a
  {
  }

  lemma MulCommutes(a: Point, b: Point)
    ensures a.Mul(b) == b.Mul(a)
  {
  }

  lemma DotSymmetric(a: Point, b: Point)
    ensures a.Dot(b) == b.Dot(a)
  {
  }

  lemma ScaleIsMulBySplat(p: Point, k: real)
    ensures p.Scale(k) == p.Mul(Point(k, k))
  {
  }

  // ----- Rect lemmas ------------------------------------------------------

  lemma LocationSizeRoundTrip(r: Rect)
    ensures FromLocationSize(r.Location(), r.Size()) == r
  {
  }

  /** Moving a rect by `-o` and a point by `-o` keeps the hit. */
  lemma OffsetKeepsHits(r: Rect, o: Point, p: Point)
    ensures r.Offset(o).HasPoint(p.Sub(o)) <==> r.HasPoint(p)
  {
  }

  lemma ExpandInverse(r: Rect, a: real)
    ensures r.Expand(a).Expand(-a) == r
  {
  }

  lemma ExpandCompose(r: Rect, a: real, b: real)
    ensures r.Expand(a).Expand(b) == r.Expand(a + b)
  {
  }

  /** A non-negative expansion never loses a point. */
  lemma ExpandMonotone(r: Rect, a: real, p: Point)
    requires a >= 0.0
    requires r.HasPoint(p)
    ensures r.Expand(a).HasPoint(p)
  {
  }

  /** Corners are inside: the hit test really is closed. */
  lemma HasPointCorners(r: Rect)
    requires r.width >= 0.0 && r.height >= 0.0
    ensures r.HasPoint(r.Location())
    ensures r.HasPoint(r.Location().Add(r.Size()))
  {
  }

  lemma FromMinMaxSymmetric(a: Point, b: Point)
    ensures FromMinMax(a, b) == FromMinMax(b, a)
  {
  }

  lemma FromMinMaxOrdered(x: real, y: real, w: real, h: real)
    requires w >= 0.0 && h >= 0.0
    ensures FromMinMax(Point(x, y), Point(x + w, y + h)) == Rect(x, y, w, h)
  {
  }

  /** The normalised rect holds exactly the points in the box spanned by
      the two corners, whatever their order. */
  lemma FromMinMaxHasPoint(a: Point, b: Point, p: Point)
    ensures FromMinMax(a, b).HasPoint(p) <==>
      Min(a.x, b.x) <= p.x <= Max(a.x, b.x) && Min(a.y, b.y) <= p.y <= Max(a.y, b.y)
  {
  }
}
