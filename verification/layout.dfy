/** The layout stack: a stack of rectangles whose top is the free area of
    the current container. Cuts split a strip off one edge of the top
    rect; push/pop nest sub-regions, and popping never removes the root. */
module Layout {
  import opened Wrappers
  import opened Geometry
  import RealArith

  /** The last element is the top of the stack. */
  type Stack = seq<Rect>

  /** Cutting, popping or peeking an empty stack: a `std::runtime_error`
      for the cuts, undefined behaviour (`back()` of an empty vector) for
      pop and peek. */
  datatype LayoutError = EmptyStack | NoProgress

  /** `strip` (above) and `rest` (below) exactly tile `r`. */
  predicate TilesVertically(strip: Rect, rest: Rect, r: Rect) {
    && strip.x == r.x && rest.x == r.x
    && strip.width == r.width && rest.width == r.width
    && strip.y == r.y
    && rest.y == strip.y + strip.height
    && strip.height + rest.height == r.height
  }

  /** `strip` (left) and `rest` (right) exactly tile `r`. */
  predicate TilesHorizontally(strip: Rect, rest: Rect, r: Rect) {
    && strip.y == r.y && rest.y == r.y
    && strip.height == r.height && rest.height == r.height
    && strip.x == r.x
    && rest.x == strip.x + strip.width
    && strip.width + rest.width == r.width
  }

  function Top(s: Stack): Rect
    requires |s| > 0
  {
    s[|s| - 1]
  }

  /** The result of a cut: the strip handed to the caller and the new stack. */
  datatype Cut = Cut(strip: Rect, stack: Stack)

  function CutTop(s: Stack, height: int): (r: Result<Cut, LayoutError>)
    ensures |s| == 0 <==> r.Failure?
    ensures r.Success? ==>
      && |r.value.stack| == |s|
      && r.value.stack[..|s| - 1] == s[..|s| - 1]
      && r.value.strip.height == height as real
      && TilesVertically(r.value.strip, Top(r.value.stack), Top(s))
  {
    if |s| == 0 then Failure(EmptyStack)
    else
      var p := Top(s);
      Success(Cut(Rect(p.x, p.y, p.width, height as real),
                  s[..|s| - 1] + [Rect(p.x, p.y + height as real, p.width, p.height - height as real)]))
  }

  function CutBottom(s: Stack, height: int): (r: Result<Cut, LayoutError>)
    ensures |s| == 0 <==> r.Failure?
    ensures r.Success? ==>
      && |r.value.stack| == |s|
      && r.value.stack[..|s| - 1] == s[..|s| - 1]
      && r.value.strip.height == height as real
      && TilesVertically(Top(r.value.stack), r.value.strip, Top(s))
  {
    if |s| == 0 then Failure(EmptyStack)
    else
      var p := Top(s);
      var rest := p.(height := p.height - height as real);
      Success(Cut(Rect(rest.x, rest.y + rest.height, rest.width, height as real),
                  s[..|s| - 1] + [rest]))
  }

  function CutLeft(s: Stack, width: int): (r: Result<Cut, LayoutError>)
    ensures |s| == 0 <==> r.Failure?
    ensures r.Success? ==>
      && |r.value.stack| == |s|
      && r.value.stack[..|s| - 1] == s[..|s| - 1]
      && r.value.strip.width == width as real
      && TilesHorizontally(r.value.strip, Top(r.value.stack), Top(s))
  {
    if |s| == 0 then Failure(EmptyStack)
    else
      var p := Top(s);
      Success(Cut(Rect(p.x, p.y, width as real, p.height),
                  s[..|s| - 1] + [Rect(p.x + width as real, p.y, p.width - width as real, p.height)]))
  }

  function CutRight(s: Stack, width: int): (r: Result<Cut, LayoutError>)
    ensures |s| == 0 <==> r.Failure?
    ensures r.Success? ==>
      && |r.value.stack| == |s|
      && r.value.stack[..|s| - 1] == s[..|s| - 1]
      && r.value.strip.width == width as real
      && TilesHorizontally(Top(r.value.stack), r.value.strip, Top(s))
  {
    if |s| == 0 then Failure(EmptyStack)
    else
      var p := Top(s);
      var rest := p.(width := p.width - width as real);
      Success(Cut(Rect(rest.x + rest.width, rest.y, width as real, rest.height),
                  s[..|s| - 1] + [rest]))
  }

  function PushBounds(s: Stack, bounds: Rect): (r: Stack)
    ensures |r| == |s| + 1 && Top(r) == bounds && r[..|s|] == s
  {
    s + [bounds]
  }

  /** Returns the top and removes it, unless it is the last rect (the root). */
  function PopBounds(s: Stack): (r: Result<Cut, LayoutError>)
    ensures |s| == 0 <==> r.Failure?
    ensures r.Success? ==> r.value.strip == Top(s)
    ensures r.Success? && |s| == 1 ==> r.value.stack == s
    ensures r.Success? && |s| > 1 ==> r.value.stack == s[..|s| - 1]
  {
    if |s| == 0 then Failure(EmptyStack)
    else if |s| <= 1 then Success(Cut(Top(s), s))
    else Success(Cut(Top(s), s[..|s| - 1]))
  }

  function Peek(s: Stack): (r: Result<Rect, LayoutError>)
    ensures |s| == 0 <==> r.Failure?
    ensures r.Success? ==> r.value == Top(s)
  {
    if |s| == 0 then Failure(EmptyStack) else Success(Top(s))
  }

  /** Pushing then popping restores the stack and hands back the pushed rect. */
  lemma PushPopRoundTrip(s: Stack, b: Rect)
    requires |s| > 0
    ensures PopBounds(PushBounds(s, b)) == Success(Cut(b, s))
  {
  }

  /** No sequence of pops empties a non-empty stack. */
  lemma {:induction false} PopsKeepRoot(s: Stack, n: nat)
    requires |s| > 0
    ensures |PopMany(s, n)| >= 1
    ensures PopMany(s, n)[0] == s[0]
  {
    if n > 0 {
      PopsKeepRoot(PopBounds(s).value.stack, n - 1);
    }
  }

  function PopMany(s: Stack, n: nat): (r: Stack)
    requires |s| > 0
    decreases n
  {
    if n == 0 then s else PopMany(PopBounds(s).value.stack, n - 1)
  }

  // ----- layoutSliceHorizontal ----------------------------------------------

  /** `int(x)`: C++ float-to-int conversion truncates toward zero. */
  function Trunc(x: real): (r: int)
    ensures x >= 0.0 ==> r as real <= x < r as real + 1.0
    ensures x < 0.0 ==> r as real - 1.0 < x <= r as real
  {
    if x >= 0.0 then x.Floor else -((-x).Floor)
  }

  /** The outcome of the column loop and of `layoutSliceHorizontal`. */
  datatype Slice = Slice(columns: seq<Rect>, stack: Stack)

  /** The column loop of `layoutSliceHorizontal`: cut `columnWidth - gap`,
      then `gap`, while the top rect still has positive width. */
  function Columns(s: Stack, columnWidth: int, gap: int): (r: Slice)
    requires |s| > 0
    requires columnWidth > 0
    ensures |r.stack| == |s| && r.stack[..|s| - 1] == s[..|s| - 1]
    ensures forall i :: 0 <= i < |r.columns| ==>
      && r.columns[i].width == (columnWidth - gap) as real
      && r.columns[i].y == Top(s).y && r.columns[i].height == Top(s).height
    ensures |r.columns| > 0 ==> r.columns[0].x == Top(s).x
    ensures forall i :: 0 < i < |r.columns| ==>
      r.columns[i].x == r.columns[i - 1].x + columnWidth as real
    ensures Top(s).width <= (|r.columns| * columnWidth) as real
    ensures Top(s).width > 0.0 ==>
      |r.columns| > 0 && (|r.columns| * columnWidth) as real < Top(s).width + columnWidth as real
    ensures Top(s).width <= 0.0 ==> r == Slice([], s)
    decreases if Top(s).width <= 0.0 then 0 else Top(s).width.Floor + 1
  {
    if Top(s).width <= 0.0 then Slice([], s)
    else
      var c1 := CutLeft(s, columnWidth - gap).value;
      var c2 := CutLeft(c1.stack, gap).value;
      var rest := Columns(c2.stack, columnWidth, gap);
      assert Top(c2.stack).width == Top(s).width - columnWidth as real;
      assert (|rest.columns| + 1) * columnWidth == |rest.columns| * columnWidth + columnWidth;
      Slice([c1.strip] + rest.columns, rest.stack)
  }

  /** Cuts a band of `height` from the top, then splits it into columns of
      `trunc(width / columns)` (gap included) from left to right until no
      width is left. The loop never ends when the band has positive width
      but the column width truncates to zero or below. */
  function SliceHorizontal(s: Stack, height: int, columns: int, gap: int): (r: Result<Slice, LayoutError>)
    requires columns != 0
    ensures |s| == 0 ==> r == Failure(EmptyStack)
    ensures r.Success? ==> r.value.stack == CutTop(s, height).value.stack
    ensures r.Success? ==> forall c :: c in r.value.columns ==>
      c.y == Top(s).y && c.height == height as real
    ensures |s| > 0 && Top(s).width > 0.0 ==>
      (r.Success? <==> Trunc(Top(s).width / columns as real) > 0)
    // on a band of positive width: at least `columns` columns of the
    // truncated width less the gap, side by side from the band's left edge
    ensures r.Success? && Top(s).width > 0.0 ==>
      var cw := Trunc(Top(s).width / columns as real);
      && columns > 0 && cw > 0
      && |r.value.columns| >= columns
      && Top(s).width <= (|r.value.columns| * cw) as real < Top(s).width + cw as real
      && forall i :: 0 <= i < |r.value.columns| ==>
           && r.value.columns[i].width == (cw - gap) as real
           && r.value.columns[i].x == Top(s).x + (i * cw) as real
  {
    if |s| == 0 then Failure(EmptyStack)
    else
      var band := CutTop(s, height).value;
      var inner := PushBounds(band.stack, band.strip);
      var columnWidth := Trunc(band.strip.width / columns as real);
      if band.strip.width > 0.0 && columnWidth <= 0 then Failure(NoProgress)
      else if band.strip.width <= 0.0 then Success(Slice([], PopBounds(inner).value.stack))
      else
        var cols := Columns(inner, columnWidth, gap);
        CountBound(band.strip.width, columns, columnWidth, |cols.columns|);
        EvenSteps(cols.columns, band.strip.x, columnWidth);
        Success(Slice(cols.columns, PopBounds(cols.stack).value.stack))
  }

  /** The editor's two-column rows: a band at least 2 wide gives a left and
      a right column of equal width, the second one column width along. */
  lemma SliceInTwo(s: Stack, height: int, gap: int)
    requires |s| > 0 && Top(s).width >= 2.0
    ensures var r := SliceHorizontal(s, height, 2, gap);
      var cw := Trunc(Top(s).width / 2.0);
      && r.Success? && |r.value.columns| >= 2
      && r.value.columns[0].x == Top(s).x && r.value.columns[1].x == Top(s).x + cw as real
      && r.value.columns[0].width == (cw - gap) as real && r.value.columns[1].width == (cw - gap) as real
  {
    assert Top(s).width / 2.0 >= 1.0;
  }

  /** A positive width `w` split into `columns` parts of truncated width
      `cw` needs at least `columns` of them to be covered; a negative
      column count would truncate to a non-positive width. */
  lemma CountBound(w: real, columns: int, cw: int, n: nat)
    requires w > 0.0 && columns != 0 && cw == Trunc(w / columns as real) && cw > 0
    requires w <= (n * cw) as real
    ensures columns > 0 && n >= columns
  {
    var c := columns as real;
    var q := w / c;
    assert 0.0 < cw as real <= q;
    assert c == w / q;
    RealArith.MulMono(cw as real, q, c);
    assert (cw * columns) as real <= w;
    assert cw * columns <= cw * n;
    CancelPositive(cw, columns, n);
  }

  /** A positive factor cancels from an inequality of products. */
  lemma CancelPositive(k: int, a: int, b: int)
    requires k > 0 && k * a <= k * b
    ensures a <= b
  {
    assert k * (b - a) >= 0;
  }

  /** Columns that start at `x0` and step by `cw` sit at `x0 + i * cw`. */
  lemma {:induction false} EvenSteps(cols: seq<Rect>, x0: real, cw: int)
    requires |cols| > 0 ==> cols[0].x == x0
    requires forall i :: 0 < i < |cols| ==> cols[i].x == cols[i - 1].x + cw as real
    ensures forall i :: 0 <= i < |cols| ==> cols[i].x == x0 + (i * cw) as real
    decreases |cols|
  {
    if |cols| > 0 {
      var k := |cols| - 1;
      var init := cols[..k];
      assert forall i :: 0 < i < |init| ==> init[i].x == init[i - 1].x + cw as real;
      EvenSteps(init, x0, cw);
      assert forall i :: 0 <= i < k ==> cols[i] == init[i];
      if k > 0 {
        assert cols[k - 1].x == x0 + ((k - 1) * cw) as real;
        assert (k * cw) as real == ((k - 1) * cw) as real + cw as real;
      }
      assert cols[k].x == x0 + (k * cw) as real;
    }
  }
}
