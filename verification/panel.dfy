/** Scroll panels. `beginPanel` opens a panel: its rect moves up by the
    panel's scroll, becomes the innermost panel that widgets are clipped
    to, and (less the scroll bar) the new layout top. `endPanel` measures
    the content laid out since, runs the scroll thumb, clamps the scroll
    into `[0, contentSize - height]` and closes the panel. */
module Panels {
  import opened Wrappers
  import opened Geometry
  import opened Gui
  import opened Layout
  import Style
  import StyleResolve
  import Chars

  const ScrollSize: real := 18.0
  const ContentPadding: real := 50.0

  /** The open panel's layout rect: its moved rect less the scroll bar and
      a gap of 5. */
  function ContentRect(moved: Rect): Rect {
    moved.(width := moved.width - (ScrollSize + 5.0))
  }

  /** The style `beginPanel` resolves for its frame. */
  const PanelStyle: string := "panel_hollow"

  datatype PanelError = NoOpenPanel | EmptyLayout | UndefinedScroll | StyleFailed(e: StyleResolve.StyleError)

  /** `beginPanel` for an id that hashes to `wid`. Resolving the panel's
      style shrinks its rect by the style's padding before anything else
      uses it; a style the setters reject fails as `getElement` throws. */
  function BeginPanel(g: Gui, wid: WidgetID, sheet: Style.Sheet, bounds: Rect): (r: Result<Gui, PanelError>)
    ensures r.Failure? <==> StyleResolve.GetElement(sheet, PanelStyle, bounds).Failure?
    ensures r.Success? ==>
      && wid in r.value.panels && r.value.panels == g.panels[wid := r.value.panels[wid]]
      && |r.value.panelStack| == |g.panelStack| + 1 && r.value.panelStack[..|g.panelStack|] == g.panelStack
    ensures r.Success? ==>
      var inner := StyleResolve.GetElement(sheet, PanelStyle, bounds).value.bounds;
      var data := r.value.panelStack[|g.panelStack|];
      && data.id == wid
      && data.bounds == inner.(y := inner.y - PanelOf(g, wid).scroll.y)
      && r.value.panels[wid] == PanelOf(g, wid).(data := data)
      && r.value.layout == g.layout + [ContentRect(data.bounds)]
      && r.value.state == g.state && r.value.inputBlocked == g.inputBlocked && r.value.openPopup == g.openPopup
      // widgets inside see the panel's own padded on-screen rect as their parent
      && (PanelOf(g, wid).scroll.x == 0.0 ==> ParentRect(r.value) == Some(inner))
    // without a panel style the caller's rect is used as it is
    ensures PanelStyle !in sheet ==>
      r.Success? && r.value.panelStack[|g.panelStack|].bounds == bounds.(y := bounds.y - PanelOf(g, wid).scroll.y)
  {
    match StyleResolve.GetElement(sheet, PanelStyle, bounds)
    case Failure(e) => Failure(StyleFailed(e))
    case Success(el) =>
      var inner := el.bounds;
      var panel := PanelOf(g, wid);
      var data := PanelData(wid, inner.(y := inner.y - panel.scroll.y));
      Success(g.(panelStack := g.panelStack + [data],
                 panels := g.panels[wid := panel.(data := data)],
                 layout := PushBounds(g.layout, ContentRect(data.bounds))))
  }


  /** The thumb's drag rule: the grabbed offset moved to the mouse, scaled
      from track to content. A zero-height track makes the scale infinite
      in the source: the result is then the far end of the range the
      clamp allows, or undefined (NaN) when the factor is zero. */
  function Dragged(rel: Point, grab: Point, contentSize: real, trackHeight: real, vmax: real): (r: Result<real, PanelError>)
    requires contentSize > 0.0 && vmax > 0.0
    ensures r.Success? ==> 0.0 <= r.value <= vmax
    ensures trackHeight != 0.0 ==>
      r == Success(Clamp((rel.y - grab.y + 1.0) * (contentSize / trackHeight), 0.0, vmax))
    ensures r.Failure? <==> trackHeight == 0.0 && rel.y - grab.y + 1.0 == 0.0
  {
    var factor := rel.y - grab.y + 1.0;
    if trackHeight != 0.0 then
      var v := Clamp((rel.y - grab.y + 1.0) * (contentSize / trackHeight), 0.0, vmax);
      Success(v)
    else if factor > 0.0 then Success(vmax)
    else if factor < 0.0 then Success(0.0)
    else Failure(UndefinedScroll)
  }

  /** The pieces of `endPanel` that follow from the closed panel and the
      layout top. */
  function ContentSize(data: PanelData, current: Rect): real {
    (current.y - data.bounds.y) + ContentPadding
  }

  function HandleArea(data: PanelData, scroll: Point): Rect {
    Rect(data.bounds.x + data.bounds.width - ScrollSize, data.bounds.y + scroll.y, ScrollSize, data.bounds.height)
  }

  /** The scroll thumb: a press on the track by the active thumb starts a
      drag at the mouse's offset, a mouse-up ends it; when the content is
      taller than the panel the scroll follows the drag and is clamped. */
  function Thumb(panel: Panel, call: WidgetCall, thumbWid: WidgetID, handleArea: Rect,
                 contentSize: real, height: real): (r: Result<Panel, PanelError>)
    requires contentSize > ContentPadding
    ensures r.Success? ==> r.value.data == panel.data && r.value.scroll.x == panel.scroll.x
    ensures r.Success? && !call.gui.state.mouseDown ==> !r.value.dragging
    // a press on the handle starts a drag and records where it was grabbed
    ensures r.Success? ==>
      var s := call.gui.state;
      if handleArea.HasPoint(s.mousePosition) && s.mouseDown && s.activeWidget == thumbWid && !panel.dragging
      then r.value.dragging && r.value.grabCoords == call.widget.relativeMouse
      else r.value.grabCoords == panel.grabCoords && (s.mouseDown ==> r.value.dragging == panel.dragging)
    ensures r.Success? && contentSize - height > 0.0 ==> 0.0 <= r.value.scroll.y <= contentSize - height
    ensures contentSize - height <= 0.0 ==> r.Success? && r.value.scroll == panel.scroll
    ensures r.Success? && !r.value.dragging && contentSize - height > 0.0 ==>
      r.value.scroll.y == Clamp(panel.scroll.y, 0.0, contentSize - height)
  {
    var s := call.gui.state;
    var rel := call.widget.relativeMouse;
    var clickedInside := handleArea.HasPoint(s.mousePosition) && s.mouseDown && s.activeWidget == thumbWid;
    var p1 :=
      if clickedInside && !panel.dragging then panel.(grabCoords := rel, dragging := true)
      else if !s.mouseDown && panel.dragging then panel.(dragging := false)
      else panel;
    var vmax := contentSize - height;
    if vmax <= 0.0 then Success(p1)
    else if !p1.dragging then Success(p1.(scroll := p1.scroll.(y := Clamp(p1.scroll.y, 0.0, vmax))))
    else
      var y :- Dragged(rel, p1.grabCoords, contentSize, handleArea.height, vmax);
      Success(p1.(scroll := p1.scroll.(y := y)))
  }

  /** While the thumb is dragged, the grabbed offset follows the mouse,
      scaled from track to content and clamped to the scroll range. */
  lemma ThumbDragValue(panel: Panel, call: WidgetCall, thumbWid: WidgetID, handleArea: Rect,
                       contentSize: real, height: real)
    requires contentSize > ContentPadding
    ensures var r := Thumb(panel, call, thumbWid, handleArea, contentSize, height);
      r.Success? && r.value.dragging && contentSize - height > 0.0 && handleArea.height != 0.0 ==>
        r.value.scroll.y ==
          Clamp((call.widget.relativeMouse.y - r.value.grabCoords.y + 1.0) * (contentSize / handleArea.height),
                0.0, contentSize - height)
  {
  }

  /** The id the scroll thumb of a panel is registered under. */
  function ThumbIdText(panelId: nat): string {
    Chars.NatToString(panelId) + "_thumb"
  }

  /** Different panels have differently named thumbs, so one panel's thumb
      never takes over another's. */
  lemma ThumbIdsDistinct(a: nat, b: nat)
    requires a != b
    ensures ThumbIdText(a) != ThumbIdText(b)
  {
    if ThumbIdText(a) == ThumbIdText(b) {
      var ta := Chars.NatToString(a);
      var tb := Chars.NatToString(b);
      assert |ta| == |tb|;
      assert ta == ThumbIdText(a)[..|ta|] == ThumbIdText(b)[..|tb|] == tb;
      Chars.NatToStringInjective(a, b);
    }
  }

  /** `endPanel`, with `thumbWid` the hash of the thumb's id. */
  function EndPanel(g: Gui, thumbWid: WidgetID): (r: Result<Gui, PanelError>)
    ensures |g.panelStack| == 0 ==> r == Failure(NoOpenPanel)
    ensures |g.panelStack| > 0 && |g.layout| == 0 ==> r == Failure(EmptyLayout)
    ensures r.Success? ==>
      var data := g.panelStack[|g.panelStack| - 1];
      && r.value.panelStack == g.panelStack[..|g.panelStack| - 1]
      && data.id in r.value.panels && r.value.panels == g.panels[data.id := r.value.panels[data.id]]
      && PopBounds(g.layout).Success? && r.value.layout == PopBounds(g.layout).value.stack
      && r.value.inputBlocked == g.inputBlocked && r.value.openPopup == g.openPopup
    ensures r.Success? ==>
      var data := g.panelStack[|g.panelStack| - 1];
      var contentSize := ContentSize(data, Top(g.layout));
      var p := r.value.panels[data.id];
      && p.data == PanelOf(g, data.id).data
      // with content below the top and taller than the panel, the scroll is clamped
      && (contentSize > ContentPadding && contentSize - data.bounds.height > 0.0 ==>
            0.0 <= p.scroll.y <= contentSize - data.bounds.height)
      // otherwise it is left as it was
      && (contentSize <= ContentPadding || contentSize - data.bounds.height <= 0.0 ==>
            p.scroll == PanelOf(g, data.id).scroll)
  {
    if |g.panelStack| == 0 then Failure(NoOpenPanel)
    else
      var data := g.panelStack[|g.panelStack| - 1];
      var g1 := g.(panelStack := g.panelStack[..|g.panelStack| - 1]);
      var panel := PanelOf(g1, data.id);
      match Peek(g1.layout)
      case Failure(_) => Failure(EmptyLayout)
      case Success(current) =>
        var contentSize := ContentSize(data, current);
        var handleArea := HandleArea(data, panel.scroll);
        var step: (Gui, Panel) :-
          if contentSize - ContentPadding > 0.0 then
            var call := WidgetStep(g1, thumbWid, handleArea, true);
            var p :- Thumb(panel, call, thumbWid, handleArea, contentSize, data.bounds.height);
            Success((call.gui, p))
          else Success((g1, panel));
        var g2: Gui := step.0;
        var p2: Panel := step.1;
        match PopBounds(g2.layout)
        case Failure(_) => Failure(EmptyLayout)
        case Success(popped) => Success(g2.(panels := g2.panels[data.id := p2], layout := popped.stack))
  }

  /** Opening a panel and closing it again, with nothing laid out in
      between, restores the panel stack and the layout, and (the content
      being the padding only) leaves the scroll alone. */
  lemma BeginEndRoundTrip(g: Gui, wid: WidgetID, sheet: Style.Sheet, bounds: Rect, thumbWid: WidgetID)
    requires |g.layout| > 0
    ensures var b := BeginPanel(g, wid, sheet, bounds);
      b.Success? ==>
      var r := EndPanel(b.value, thumbWid);
      && r.Success?
      && r.value.panelStack == g.panelStack
      && r.value.layout == g.layout
      && r.value.state == g.state
      && r.value.panels[wid].scroll == PanelOf(g, wid).scroll
  {
    var b := BeginPanel(g, wid, sheet, bounds);
    if b.Success? {
      assert b.value.panelStack[..|b.value.panelStack| - 1] == g.panelStack;
      assert b.value.layout[..|b.value.layout| - 1] == g.layout;
    }
  }

  /** Once the scroll is in range and no drag is running, closing the
      panel again leaves it where it is. */
  lemma ScrollAtRest(panel: Panel, call: WidgetCall, thumbWid: WidgetID, handleArea: Rect,
                     contentSize: real, height: real)
    requires contentSize > ContentPadding && !panel.dragging
    requires 0.0 <= panel.scroll.y <= contentSize - height
    requires !(handleArea.HasPoint(call.gui.state.mousePosition) && call.gui.state.mouseDown
               && call.gui.state.activeWidget == thumbWid)
    ensures Thumb(panel, call, thumbWid, handleArea, contentSize, height) == Success(panel)
  {
  }
}
