/** The title editor's viewport: shapes live in a virtual canvas of
    `virtualWidth × virtualHeight` that is drawn scaled into the viewport's
    rect. A left click selects the first shape under the mouse; the
    selected shape gets an axis-aligned manipulator with eight sizing
    handles and a move area. */
module Viewport {
  import opened Wrappers
  import opened Geometry
  import opened Gui

  /** `ManipulatorState`; `NoHandle` is the source's `None`. */
  datatype ManipulatorState =
    | NoHandle
    | SizingTL | SizingTR | SizingBL | SizingBR
    | SizingL | SizingR | SizingT | SizingB
    | Moving

  /** `Manipulator`: what is being dragged, and the mouse (in virtual
      coordinates) at the previous call. */
  datatype Manipulator = Manipulator(state: ManipulatorState, prevPoint: Point)

  const FreshManipulator: Manipulator := Manipulator(NoHandle, Origin)

  datatype ViewportError = ZeroVirtualSize | ZeroScreenSize

  /** The screen rect the mappings use: the one given, or the whole
      screen. */
  function ScreenRect(s: GuiState, screen: Option<Rect>): Rect {
    match screen
    case Some(r) => r
    case None => Rect(0.0, 0.0, s.screenWidth as real, s.screenHeight as real)
  }

  /** `viewportToGui`: scale from the virtual canvas to the screen rect's
      size; the screen rect's origin plays no part. */
  function ScaleToGui(p: Point, vw: int, vh: int, sb: Rect): (q: Point)
    requires vw != 0 && vh != 0
    ensures q.x * vw as real == p.x * sb.width && q.y * vh as real == p.y * sb.height
  {
    Point(p.x / vw as real * sb.width, p.y / vh as real * sb.height)
  }

  /** `guiToViewport`: scale from the screen rect's size to the virtual
      canvas. */
  function ScaleToViewport(p: Point, vw: int, vh: int, sb: Rect): (q: Point)
    requires sb.width != 0.0 && sb.height != 0.0
    ensures q.x * sb.width == p.x * vw as real && q.y * sb.height == p.y * vh as real
  {
    Point(p.x / sb.width * vw as real, p.y / sb.height * vh as real)
  }

  /** `viewportToGui`, where a zero virtual size (a division by zero in
      the source) is a failure. */
  function ToGui(p: Point, vw: int, vh: int, sb: Rect): (r: Result<Point, ViewportError>)
    ensures r.Failure? <==> vw == 0 || vh == 0
  {
    if vw == 0 || vh == 0 then Failure(ZeroVirtualSize) else Success(ScaleToGui(p, vw, vh, sb))
  }

  /** `guiToViewport`, where a zero-size screen rect is a failure. */
  function ToViewport(p: Point, vw: int, vh: int, sb: Rect): (r: Result<Point, ViewportError>)
    ensures r.Failure? <==> sb.width == 0.0 || sb.height == 0.0
  {
    if sb.width == 0.0 || sb.height == 0.0 then Failure(ZeroScreenSize) else Success(ScaleToViewport(p, vw, vh, sb))
  }

  /** `a / b * c / c * b == a` for non-zero `b` and `c`. */
  lemma ScaleBack(a: real, b: real, c: real)
    requires b != 0.0 && c != 0.0
    ensures a / b * c / c * b == a
  {
    assert a / b * c / c == a / b;
  }

  lemma GuiThenViewport(p: Point, vw: int, vh: int, sb: Rect)
    requires vw != 0 && vh != 0 && sb.width != 0.0 && sb.height != 0.0
    ensures ScaleToViewport(ScaleToGui(p, vw, vh, sb), vw, vh, sb) == p
  {
    var q := ScaleToGui(p, vw, vh, sb);
    ScaleBack(p.x, vw as real, sb.width);
    assert q.x / sb.width * vw as real == p.x;
    ScaleBack(p.y, vh as real, sb.height);
    assert q.y / sb.height * vh as real == p.y;
  }

  lemma ViewportThenGui(p: Point, vw: int, vh: int, sb: Rect)
    requires vw != 0 && vh != 0 && sb.width != 0.0 && sb.height != 0.0
    ensures ScaleToGui(ScaleToViewport(p, vw, vh, sb), vw, vh, sb) == p
  {
    var q := ScaleToViewport(p, vw, vh, sb);
    ScaleBack(p.x, sb.width, vw as real);
    assert q.x / vw as real * sb.width == p.x;
    ScaleBack(p.y, sb.height, vh as real);
    assert q.y / vh as real * sb.height == p.y;
  }

  /** With every size non-zero the two mappings are inverse to each other,
      in both orders. */
  lemma MappingsInverse(p: Point, vw: int, vh: int, sb: Rect)
    requires vw != 0 && vh != 0 && sb.width != 0.0 && sb.height != 0.0
    ensures ToGui(p, vw, vh, sb).Success? && ToViewport(ToGui(p, vw, vh, sb).value, vw, vh, sb) == Success(p)
    ensures ToViewport(p, vw, vh, sb).Success? && ToGui(ToViewport(p, vw, vh, sb).value, vw, vh, sb) == Success(p)
  {
    GuiThenViewport(p, vw, vh, sb);
    ViewportThenGui(p, vw, vh, sb);
  }

  /** Moving the screen rect does not change either mapping. */
  lemma MappingsIgnoreOrigin(p: Point, vw: int, vh: int, sb: Rect, x: real, y: real)
    ensures ToGui(p, vw, vh, sb) == ToGui(p, vw, vh, sb.(x := x, y := y))
    ensures ToViewport(p, vw, vh, sb) == ToViewport(p, vw, vh, sb.(x := x, y := y))
  {
    var moved := sb.(x := x, y := y);
    assert moved == Rect(x, y, sb.width, sb.height);
    if vw != 0 && vh != 0 {
      assert ScaleToGui(p, vw, vh, sb) == ScaleToGui(p, vw, vh, moved);
    }
    if sb.width != 0.0 && sb.height != 0.0 {
      assert ScaleToViewport(p, vw, vh, sb) == ScaleToViewport(p, vw, vh, moved);
    }
  }

  /** A virtual rect's corners mapped to the screen, normalised. */
  function GuiRect(b: Rect, vw: int, vh: int, sb: Rect): (r: Rect)
    requires vw != 0 && vh != 0
    ensures r.width >= 0.0 && r.height >= 0.0
  {
    FromMinMax(ScaleToGui(Point(b.x, b.y), vw, vh, sb), ScaleToGui(Point(b.x + b.width, b.y + b.height), vw, vh, sb))
  }

  // ----- click to select ------------------------------------------------------

  /** Whether a click at `p` lands on the shape at `b`: its screen rect
      grown by 10 on every side. */
  predicate Hits(b: Rect, p: Point, vw: int, vh: int, sb: Rect)
    requires vw != 0 && vh != 0
  {
    GuiRect(b, vw, vh, sb).Expand(10.0).HasPoint(p)
  }

  /** The first shape, in list order, that the click hits. */
  function FirstHit(shapes: seq<Rect>, p: Point, vw: int, vh: int, sb: Rect): (r: Option<nat>)
    requires vw != 0 && vh != 0
    ensures r.Some? ==>
      && r.value < |shapes|
      && Hits(shapes[r.value], p, vw, vh, sb)
      && forall j :: 0 <= j < r.value ==> !Hits(shapes[j], p, vw, vh, sb)
    ensures r.None? ==> forall j :: 0 <= j < |shapes| ==> !Hits(shapes[j], p, vw, vh, sb)
  {
    if |shapes| == 0 then None
    else if Hits(shapes[0], p, vw, vh, sb) then Some(0)
    else match FirstHit(shapes[1..], p, vw, vh, sb)
      case None => None
      case Some(i) => Some(i + 1)
  }

  /** Click selection; with no shapes nothing is divided and nothing is
      hit. */
  function SelectAt(shapes: seq<Rect>, p: Point, vw: int, vh: int, sb: Rect): (r: Result<Option<nat>, ViewportError>)
    ensures r.Failure? <==> |shapes| > 0 && (vw == 0 || vh == 0)
    ensures r.Success? && |shapes| > 0 ==> r.value == FirstHit(shapes, p, vw, vh, sb)
    ensures |shapes| == 0 ==> r == Success(None)
  {
    if |shapes| == 0 then Success(None)
    else if vw == 0 || vh == 0 then Failure(ZeroVirtualSize)
    else Success(FirstHit(shapes, p, vw, vh, sb))
  }

  // ----- the manipulator ------------------------------------------------------

  const HandleSize: real := 5.0

  datatype Handle = Handle(loc: Point, state: ManipulatorState)

  /** The eight handles of a screen rect, in the order they are checked:
      corners and edge midpoints. */
  function Handles(bg: Rect): (hs: seq<Handle>)
    ensures |hs| == 8
  {
    [ Handle(Point(bg.x, bg.y), SizingTL),
      Handle(Point(bg.x + bg.width / 2.0, bg.y), SizingT),
      Handle(Point(bg.x + bg.width, bg.y), SizingTR),
      Handle(Point(bg.x, bg.y + bg.height), SizingBL),
      Handle(Point(bg.x + bg.width / 2.0, bg.y + bg.height), SizingB),
      Handle(Point(bg.x + bg.width, bg.y + bg.height), SizingBR),
      Handle(Point(bg.x, bg.y + bg.height / 2.0), SizingL),
      Handle(Point(bg.x + bg.width, bg.y + bg.height / 2.0), SizingR) ]
  }

  /** A handle's grab area: the 5×5 square around it grown by 6. */
  function HandleArea(h: Handle): Rect {
    Rect(h.loc.x - HandleSize / 2.0, h.loc.y - HandleSize / 2.0, HandleSize, HandleSize).Expand(6.0)
  }

  /** The first handle whose grab area holds `p`. */
  function FirstHandle(hs: seq<Handle>, p: Point): (r: Option<nat>)
    ensures r.Some? ==> r.value < |hs| && HandleArea(hs[r.value]).HasPoint(p)
    ensures r.Some? ==> forall j :: 0 <= j < r.value ==> !HandleArea(hs[j]).HasPoint(p)
    ensures r.None? ==> forall j :: 0 <= j < |hs| ==> !HandleArea(hs[j]).HasPoint(p)
  {
    if |hs| == 0 then None
    else if HandleArea(hs[0]).HasPoint(p) then Some(0)
    else match FirstHandle(hs[1..], p)
      case None => None
      case Some(i) => Some(i + 1)
  }

  /** What a press with nothing grabbed picks: the first handle hit, but the
      move area (the screen rect shrunk by 10) wins over any handle. */
  function Pick(bg: Rect, p: Point): (st: ManipulatorState)
    ensures bg.Expand(-10.0).HasPoint(p) ==> st == Moving
    ensures !bg.Expand(-10.0).HasPoint(p) && FirstHandle(Handles(bg), p).None? ==> st == NoHandle
    ensures !bg.Expand(-10.0).HasPoint(p) && FirstHandle(Handles(bg), p).Some? ==>
      st == Handles(bg)[FirstHandle(Handles(bg), p).value].state
  {
    var picked := match FirstHandle(Handles(bg), p)
      case None => NoHandle
      case Some(i) => Handles(bg)[i].state;
    if bg.Expand(-10.0).HasPoint(p) then Moving else picked
  }

  /** A corner drag that would turn the width negative sets it to 1. */
  function FloorWidth(b: Rect): Rect {
    if b.width < 0.0 then b.(width := 1.0) else b
  }

  /** One drag step of the grabbed part by `d` (virtual units). */
  function Resize(st: ManipulatorState, b: Rect, d: Point): (r: Rect)
    // moving keeps the size
    ensures st == Moving ==> r == Rect(b.x + d.x, b.y + d.y, b.width, b.height)
    // edge handles move one edge and apply no floor
    ensures st == SizingT ==> r == b.(y := b.y + d.y, height := b.height - d.y)
    ensures st == SizingB ==> r == b.(height := b.height + d.y)
    ensures st == SizingL ==> r == b.(x := b.x + d.x, width := b.width - d.x)
    ensures st == SizingR ==> r == b.(width := b.width + d.x)
    // corner handles move two edges and floor only the width: a width
    // that went negative becomes 1
    ensures st in {SizingTL, SizingTR, SizingBL, SizingBR} ==> r.width >= 0.0
    ensures st in {SizingTL, SizingBL} ==>
      r.x == b.x + d.x && r.width == (if b.width - d.x < 0.0 then 1.0 else b.width - d.x)
    ensures st in {SizingTR, SizingBR} ==>
      r.x == b.x && r.width == (if b.width + d.x < 0.0 then 1.0 else b.width + d.x)
    ensures st in {SizingTL, SizingTR} ==> r.y == b.y + d.y && r.height == b.height - d.y
    ensures st in {SizingBL, SizingBR} ==> r.y == b.y && r.height == b.height + d.y
    ensures st == NoHandle ==> r == b
  {
    match st
    case NoHandle => b
    case SizingTL => FloorWidth(Rect(b.x + d.x, b.y + d.y, b.width - d.x, b.height - d.y))
    case SizingTR => FloorWidth(Rect(b.x, b.y + d.y, b.width + d.x, b.height - d.y))
    case SizingBL => FloorWidth(Rect(b.x + d.x, b.y, b.width - d.x, b.height + d.y))
    case SizingBR => FloorWidth(Rect(b.x, b.y, b.width + d.x, b.height + d.y))
    case SizingL => Rect(b.x + d.x, b.y, b.width - d.x, b.height)
    case SizingR => Rect(b.x, b.y, b.width + d.x, b.height)
    case SizingT => Rect(b.x, b.y + d.y, b.width, b.height - d.y)
    case SizingB => Rect(b.x, b.y, b.width, b.height + d.y)
    case Moving => Rect(b.x + d.x, b.y + d.y, b.width, b.height)
  }

  /** The edges a handle does not touch stay where they are, as long as a
      corner drag keeps the width non-negative: the left edge for right
      handles, the right edge for left handles, and likewise vertically. */
  lemma ResizeKeepsOppositeEdges(st: ManipulatorState, b: Rect, d: Point)
    requires st in {SizingTL, SizingBL} ==> b.width - d.x >= 0.0
    requires st in {SizingTR, SizingBR} ==> b.width + d.x >= 0.0
    ensures var r := Resize(st, b, d);
      && (st in {SizingTL, SizingBL, SizingL} ==> r.x + r.width == b.x + b.width)
      && (st in {SizingTR, SizingBR, SizingR} ==> r.x == b.x)
      && (st in {SizingTL, SizingTR, SizingT} ==> r.y + r.height == b.y + b.height)
      && (st in {SizingBL, SizingBR, SizingB} ==> r.y == b.y)
      && (st in {SizingT, SizingB} ==> r.x == b.x && r.width == b.width)
      && (st in {SizingL, SizingR} ==> r.y == b.y && r.height == b.height)
  {
  }

  /** A corner handle is its vertical edge handle applied after its
      horizontal one, with the width floor on top. */
  lemma CornerIsTwoEdges(b: Rect, d: Point)
    ensures Resize(SizingTL, b, d) == FloorWidth(Resize(SizingT, Resize(SizingL, b, d), d))
    ensures Resize(SizingTR, b, d) == FloorWidth(Resize(SizingT, Resize(SizingR, b, d), d))
    ensures Resize(SizingBL, b, d) == FloorWidth(Resize(SizingB, Resize(SizingL, b, d), d))
    ensures Resize(SizingBR, b, d) == FloorWidth(Resize(SizingB, Resize(SizingR, b, d), d))
  {
  }

  /** Moving by `d` and then by `-d` puts the shape back. */
  lemma MoveUndo(b: Rect, d: Point)
    ensures Resize(Moving, Resize(Moving, b, d), Point(-d.x, -d.y)) == b
  {
  }

  /** `rectManipulator` on the selected shape's virtual rect `b`, with `p`
      the mouse relative to the viewport: while the mouse is down, a press
      with nothing grabbed picks a part (and leaves the shape alone), and a
      grabbed part follows the mouse's virtual motion since the previous
      call; a mouse-up lets go. The previous point is always updated. */
  function Manipulate(m: Manipulator, b: Rect, p: Point, mouseDown: bool,
                      viewport: Rect, vw: int, vh: int): (r: Result<(Manipulator, Rect), ViewportError>)
    ensures r.Failure? <==> viewport.width == 0.0 || viewport.height == 0.0 || vw == 0 || vh == 0
    ensures r.Success? ==> r.value.0.prevPoint == ScaleToViewport(p, vw, vh, viewport)
    ensures r.Success? && !mouseDown ==> r.value.0.state == NoHandle && r.value.1 == b
    ensures r.Success? && mouseDown && m.state == NoHandle ==>
      r.value.1 == b && r.value.0.state == Pick(GuiRect(b, vw, vh, viewport).Expand(6.0), p)
    ensures r.Success? && mouseDown && m.state != NoHandle ==>
      r.value.0.state == m.state
      && r.value.1 == Resize(m.state, b, r.value.0.prevPoint.Sub(m.prevPoint))
  {
    if viewport.width == 0.0 || viewport.height == 0.0 then Failure(ZeroScreenSize)
    else if vw == 0 || vh == 0 then Failure(ZeroVirtualSize)
    else
      var mouseVp := ScaleToViewport(p, vw, vh, viewport);
      var boundsGui := GuiRect(b, vw, vh, viewport).Expand(6.0);
      var delta := mouseVp.Sub(m.prevPoint);
      if !mouseDown then Success((Manipulator(NoHandle, mouseVp), b))
      else if m.state == NoHandle then Success((Manipulator(Pick(boundsGui, p), mouseVp), b))
      else Success((Manipulator(m.state, mouseVp), Resize(m.state, b, delta)))
  }

  /** Dragging a grabbed part over two calls moves it by the total
      motion: the previous point links the steps. */
  lemma MoveFollowsMouse(m: Manipulator, b: Rect, p1: Point, p2: Point, viewport: Rect, vw: int, vh: int)
    requires m.state == Moving
    requires viewport.width != 0.0 && viewport.height != 0.0 && vw != 0 && vh != 0
    ensures var r1 := Manipulate(m, b, p1, true, viewport, vw, vh).value;
      var r2 := Manipulate(r1.0, r1.1, p2, true, viewport, vw, vh).value;
      var v2 := ScaleToViewport(p2, vw, vh, viewport);
      r2.1 == Rect(b.x + v2.x - m.prevPoint.x, b.y + v2.y - m.prevPoint.y, b.width, b.height)
  {
  }

  // ----- viewport() -----------------------------------------------------------

  datatype ViewportResult = ViewportResult(
    gui: Gui, shapes: seq<Rect>, selected: Option<nat>, manipulator: Manipulator, clickedShape: bool)

  /** `viewport` for an id that hashes to `wid`: the widget call, the
      manipulator on the selected shape, then click selection. `shapes`
      are the shapes' virtual rects and `selected` an index into them. */
  function ViewportStep(g: Gui, wid: WidgetID, bounds: Rect, vw: int, vh: int,
                        shapes: seq<Rect>, selected: Option<nat>, m: Manipulator)
    : (r: Result<ViewportResult, ViewportError>)
    requires selected.Some? ==> selected.value < |shapes|
    ensures r.Success? ==> |r.value.shapes| == |shapes|
    ensures r.Success? ==> r.value.selected.Some? ==> r.value.selected.value < |shapes|
    ensures r.Success? && selected.None? ==> r.value.shapes == shapes
    ensures r.Success? && selected.Some? ==>
      r.value.shapes == shapes[selected.value := r.value.shapes[selected.value]]
    ensures r.Success? && selected.Some? && !WidgetStep(g, wid, bounds, true).gui.state.mouseDown ==>
      r.value.manipulator.state == NoHandle
    ensures r.Success? ==> r.value.clickedShape ==>
      && vw != 0 && vh != 0 && r.value.selected.Some?
      && r.value.selected == FirstHit(r.value.shapes, WidgetStep(g, wid, bounds, true).widget.relativeMouse,
                                       vw, vh, bounds)
    ensures r.Success? ==>
      var call := WidgetStep(g, wid, bounds, true);
      call.widget.clicked && call.gui.state.mouseButton == LeftButton && !r.value.clickedShape ==>
        r.value.selected.None? && r.value.manipulator.state == NoHandle
    ensures r.Success? ==>
      var call := WidgetStep(g, wid, bounds, true);
      !(call.widget.clicked && call.gui.state.mouseButton == LeftButton) ==>
        !r.value.clickedShape && r.value.selected == selected
  {
    var call := WidgetStep(g, wid, bounds, true);
    var p := call.widget.relativeMouse;
    var manipulated :-
      match selected
      case None => Success((m, shapes))
      case Some(i) =>
        var step :- Manipulate(m, shapes[i], p, call.gui.state.mouseDown, bounds, vw, vh);
        Success((step.0, shapes[i := step.1]));
    var m1: Manipulator := manipulated.0;
    var shapes1: seq<Rect> := manipulated.1;
    if call.widget.clicked && call.gui.state.mouseButton == LeftButton then
      var hit :- SelectAt(shapes1, p, vw, vh, bounds);
      match hit
      case Some(j) => Success(ViewportResult(call.gui, shapes1, Some(j), m1, true))
      case None => Success(ViewportResult(call.gui, shapes1, None, m1.(state := NoHandle), false))
    else Success(ViewportResult(call.gui, shapes1, selected, m1, false))
  }
}
