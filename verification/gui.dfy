/** The immediate-mode interaction core: the shared input state, frame
    boundaries, `widget()` (hover, activation, focus, key presses and
    clicks), the checkbox, and the modal popup gate. Widget ids come from
    hashing the id string; the hash is not modelled, so callers pass ids
    and any two strings may collide (including with `InvalidWidget`). */
module Gui {
  import opened Wrappers
  import opened Geometry
  import opened Layout
  import Keys

  type WidgetID = nat

  const InvalidWidget: WidgetID := 0

  datatype MouseButton = LeftButton | MiddleButton | RightButton

  /** `QuickGUIState`. */
  datatype GuiState = GuiState(
    screenWidth: int, screenHeight: int,
    mousePosition: Point, mouseDelta: Point, lastClickedPosition: Point,
    mouseScroll: real,
    mouseDown: bool, keyDown: bool, keyUp: bool,
    mouseButton: MouseButton,
    key: Keys.Key, typedChar: int,
    activeWidget: WidgetID, hoveredWidget: WidgetID, focusedWidget: WidgetID)

  const Origin: Point := Point(0.0, 0.0)

  /** The value-initialised state. */
  const FreshState: GuiState :=
    GuiState(0, 0, Origin, Origin, Origin, 0.0, false, false, false, LeftButton,
             Keys.Unknown, 0, InvalidWidget, InvalidWidget, InvalidWidget)

  lemma FreshStateIsIdle()
    ensures FreshState.activeWidget == InvalidWidget
    ensures FreshState.hoveredWidget == InvalidWidget
    ensures FreshState.focusedWidget == InvalidWidget
    ensures !FreshState.mouseDown && !FreshState.keyDown && !FreshState.keyUp
    ensures !IsMouseDownWidget(FreshState, InvalidWidget + 1)
  {
  }

  /** `isMouseDownWidget`. */
  predicate IsMouseDownWidget(s: GuiState, wid: WidgetID) {
    s.hoveredWidget == wid && s.activeWidget == wid
  }

  datatype WidgetState = Normal | Hovered | Active | Focused | Disabled

  /** What `widget()` hands back to its caller. */
  datatype Widget = Widget(
    id: WidgetID,
    relativeMouse: Point, relativeDelta: Point, position: Point,
    clicked: bool, keyPressed: bool,
    state: WidgetState)

  /** A scroll panel's id and its bounds (already moved up by its scroll). */
  datatype PanelData = PanelData(id: WidgetID, bounds: Rect)

  /** A scroll panel's persistent state. */
  datatype Panel = Panel(scroll: Point, grabCoords: Point, dragging: bool, data: PanelData)

  const FreshPanel: Panel := Panel(Origin, Origin, false, PanelData(InvalidWidget, Rect(0.0, 0.0, 0.0, 0.0)))

  /** The parts of a `QuickGUI` that `widget()` and the containers read and
      write: the input state, the layout stack, the popup gate and the
      panels. */
  datatype Gui = Gui(
    state: GuiState,
    layout: Stack,
    inputBlocked: bool,
    openPopup: WidgetID,
    panelStack: seq<PanelData>,
    panels: map<WidgetID, Panel>)

  const FreshGui: Gui := Gui(FreshState, [], false, InvalidWidget, [], map[])

  /** `m_panels[id]`, which default-constructs a missing entry. */
  function PanelOf(g: Gui, id: WidgetID): Panel {
    if id in g.panels then g.panels[id] else FreshPanel
  }

  // ----- frames ---------------------------------------------------------------

  /** `beginFrame`: hover is forgotten only while the mouse is up; the
      screen rect becomes the layout root. */
  function BeginFrame(g: Gui, width: nat, height: nat): (r: Gui)
    ensures r.state.hoveredWidget == (if g.state.mouseDown then g.state.hoveredWidget else InvalidWidget)
    ensures r.state.activeWidget == g.state.activeWidget && r.state.focusedWidget == g.state.focusedWidget
    ensures r.state.screenWidth == width && r.state.screenHeight == height
    ensures r.layout == g.layout + [Rect(0.0, 0.0, width as real, height as real)]
    ensures r.inputBlocked == g.inputBlocked && r.openPopup == g.openPopup
  {
    var s := g.state;
    var s1 := if s.mouseDown then s else s.(hoveredWidget := InvalidWidget);
    g.(state := s1.(screenWidth := width, screenHeight := height),
       layout := PushBounds(g.layout, Rect(0.0, 0.0, width as real, height as real)))
  }

  /** `endFrame` (popup rendering left out): activity ends only on a
      mouse-up frame; the per-frame input edges and the layout are
      cleared. */
  function EndFrame(g: Gui): (r: Gui)
    ensures r.state.activeWidget == (if g.state.mouseDown then g.state.activeWidget else InvalidWidget)
    ensures r.state.hoveredWidget == g.state.hoveredWidget && r.state.focusedWidget == g.state.focusedWidget
    ensures r.state.mouseDelta == Origin && r.state.mouseScroll == 0.0
    ensures !r.state.keyDown && !r.state.keyUp
    ensures r.layout == []
    ensures r.inputBlocked == g.inputBlocked && r.openPopup == g.openPopup && r.panels == g.panels
  {
    var s := g.state;
    var s1 := if s.mouseDown then s else s.(activeWidget := InvalidWidget);
    g.(state := s1.(mouseDelta := Origin, keyDown := false, keyUp := false, mouseScroll := 0.0),
       layout := [])
  }

  // ----- widget() -------------------------------------------------------------

  /** The innermost panel's visible rect, corrected for its scroll. */
  function ParentRect(g: Gui): Option<Rect> {
    if |g.panelStack| == 0 then None
    else
      var data := g.panelStack[|g.panelStack| - 1];
      var scroll := PanelOf(g, data.id).scroll;
      Some(data.bounds.(x := data.bounds.x + scroll.x, y := data.bounds.y + scroll.y))
  }

  /** Whether the mouse may interact with a widget at `bounds`: inside it,
      inside the innermost panel, and not blocked by a modal popup. */
  predicate Qualifies(g: Gui, bounds: Rect, checkBlocked: bool) {
    && bounds.HasPoint(g.state.mousePosition)
    && (ParentRect(g).None? || ParentRect(g).value.HasPoint(g.state.mousePosition))
    && !(g.inputBlocked && checkBlocked)
  }

  /** The outcome of one `widget()` call. */
  datatype WidgetCall = WidgetCall(widget: Widget, gui: Gui)

  /** `widget(id, bounds, checkBlocked)` for an id that hashes to `wid`. */
  function WidgetStep(g: Gui, wid: WidgetID, bounds: Rect, checkBlocked: bool): (r: WidgetCall)
    ensures r.gui == g.(state := r.gui.state)
    ensures r.gui.state == g.state.(
      hoveredWidget := r.gui.state.hoveredWidget,
      activeWidget := r.gui.state.activeWidget,
      focusedWidget := r.gui.state.focusedWidget,
      lastClickedPosition := r.gui.state.lastClickedPosition)
    // the mouse, relative to the widget and clamped into it
    ensures bounds.width >= 0.0 && bounds.height >= 0.0 ==>
      && 0.0 <= r.widget.relativeMouse.x <= bounds.width
      && 0.0 <= r.widget.relativeMouse.y <= bounds.height
    ensures bounds.HasPoint(g.state.mousePosition) ==>
      r.widget.relativeMouse == g.state.mousePosition.Sub(bounds.Location())
    // hover and activation
    ensures r.gui.state.hoveredWidget == (if Qualifies(g, bounds, checkBlocked) then wid else g.state.hoveredWidget)
    ensures r.gui.state.activeWidget != g.state.activeWidget ==>
      && g.state.activeWidget == InvalidWidget
      && r.gui.state.activeWidget == wid
      && g.state.mouseDown && Qualifies(g, bounds, checkBlocked)
    ensures r.gui.state.focusedWidget ==
      (if Qualifies(g, bounds, checkBlocked) && g.state.mouseDown && g.state.activeWidget == InvalidWidget
       then wid else g.state.focusedWidget)
    // clicks
    ensures r.widget.clicked <==>
      !g.state.mouseDown && !(g.inputBlocked && checkBlocked) && IsMouseDownWidget(r.gui.state, wid)
    ensures r.gui.state.lastClickedPosition ==
      (if r.widget.clicked then Point(bounds.x, bounds.y + bounds.height) else g.state.lastClickedPosition)
    ensures r.widget.keyPressed <==>
      wid == r.gui.state.focusedWidget && g.state.keyDown && !(g.inputBlocked && checkBlocked)
    ensures r.widget.id == wid && r.widget.position == bounds.Location()
  {
    var s := g.state;
    var m := s.mousePosition;
    var blocked := g.inputBlocked && checkBlocked;
    var relative := Point(Clamp(m.x - bounds.x, 0.0, bounds.width), Clamp(m.y - bounds.y, 0.0, bounds.height));
    var st0 := if wid == s.focusedWidget then Focused else Normal;
    var hover := Qualifies(g, bounds, checkBlocked);
    var s1 := if hover then s.(hoveredWidget := wid) else s;
    var delta := if hover then s.mouseDelta else Origin;
    var st1 := if hover then Hovered else st0;
    var activate := hover && s.mouseDown && s.activeWidget == InvalidWidget;
    var s2 := if activate then s1.(focusedWidget := wid, activeWidget := wid) else s1;
    var st2 := if activate then Active else st1;
    var keyPressed := wid == s2.focusedWidget && s.keyDown && !blocked;
    var st3 := if IsMouseDownWidget(s2, wid) && !blocked then Active else st2;
    var clicked := !s.mouseDown && IsMouseDownWidget(s2, wid) && !blocked;
    var s3 := if clicked then s2.(lastClickedPosition := Point(bounds.x, bounds.y + bounds.height)) else s2;
    WidgetCall(Widget(wid, relative, delta, bounds.Location(), clicked, keyPressed, st3), g.(state := s3))
  }

  /** A widget is reported active exactly when it holds the mouse (or just
      took it) and input reaches it. */
  lemma WidgetActiveState(g: Gui, wid: WidgetID, bounds: Rect, checkBlocked: bool)
    ensures var r := WidgetStep(g, wid, bounds, checkBlocked);
      r.widget.state == Active <==>
        IsMouseDownWidget(r.gui.state, wid) && !(g.inputBlocked && checkBlocked)
  {
  }

  /** One call of a frame's sequence of `widget()` calls. */
  datatype Call = Call(wid: WidgetID, bounds: Rect, checkBlocked: bool)

  /** Runs the calls in order; plain widget calls do not touch the popup
      gate, the layout or the panels. */
  function RunCalls(g: Gui, calls: seq<Call>): (r: Gui)
    ensures r == g.(state := r.state)
    ensures r.state.mousePosition == g.state.mousePosition && r.state.mouseDown == g.state.mouseDown
    decreases |calls|
  {
    if |calls| == 0 then g
    else RunCalls(WidgetStep(g, calls[0].wid, calls[0].bounds, calls[0].checkBlocked).gui, calls[1..])
  }

  /** The index of the first call that would take the mouse: it qualifies
      and its id is not `InvalidWidget` (an id hashing to 0 "activates"
      without changing anything). */
  function FirstTaker(g: Gui, calls: seq<Call>): (r: Option<nat>)
    ensures r.Some? ==> (r.value < |calls|
      && Qualifies(g, calls[r.value].bounds, calls[r.value].checkBlocked)
      && calls[r.value].wid != InvalidWidget)
    ensures r.Some? ==> forall j :: 0 <= j < r.value ==>
      !Qualifies(g, calls[j].bounds, calls[j].checkBlocked) || calls[j].wid == InvalidWidget
    ensures r.None? ==> forall j :: 0 <= j < |calls| ==>
      !Qualifies(g, calls[j].bounds, calls[j].checkBlocked) || calls[j].wid == InvalidWidget
  {
    if |calls| == 0 then None
    else if Qualifies(g, calls[0].bounds, calls[0].checkBlocked) && calls[0].wid != InvalidWidget then Some(0)
    else match FirstTaker(g, calls[1..])
      case None => None
      case Some(i) => Some(i + 1)
  }

  /** Qualification reads only what widget calls never change. */
  lemma QualifiesStable(g: Gui, h: Gui, bounds: Rect, checkBlocked: bool)
    requires h == g.(state := h.state) && h.state.mousePosition == g.state.mousePosition
    ensures Qualifies(h, bounds, checkBlocked) == Qualifies(g, bounds, checkBlocked)
  {
  }

  /** Once a widget holds the mouse, no later call in the frame takes it. */
  lemma {:induction false} ActiveSticks(g: Gui, calls: seq<Call>)
    requires g.state.activeWidget != InvalidWidget
    ensures RunCalls(g, calls).state.activeWidget == g.state.activeWidget
    decreases |calls|
  {
    if |calls| > 0 {
      var h := WidgetStep(g, calls[0].wid, calls[0].bounds, calls[0].checkBlocked).gui;
      ActiveSticks(h, calls[1..]);
    }
  }

  /** With the mouse down and nothing active, the first call that
      qualifies (with a valid id) becomes the active and focused widget,
      whatever comes after it; with none, nothing becomes active. */
  lemma {:induction false} FirstTakerWins(g: Gui, calls: seq<Call>)
    requires g.state.mouseDown && g.state.activeWidget == InvalidWidget
    ensures RunCalls(g, calls).state.activeWidget ==
      (match FirstTaker(g, calls) case None => InvalidWidget case Some(i) => calls[i].wid)
    decreases |calls|
  {
    if |calls| > 0 {
      var h := WidgetStep(g, calls[0].wid, calls[0].bounds, calls[0].checkBlocked).gui;
      QualifiesStable(g, h, calls[0].bounds, calls[0].checkBlocked);
      if Qualifies(g, calls[0].bounds, calls[0].checkBlocked) && calls[0].wid != InvalidWidget {
        ActiveSticks(h, calls[1..]);
      } else {
        assert h.state.activeWidget == InvalidWidget;
        forall c | c in calls[1..] ensures Qualifies(h, c.bounds, c.checkBlocked) == Qualifies(g, c.bounds, c.checkBlocked) {
          QualifiesStable(g, h, c.bounds, c.checkBlocked);
        }
        FirstTakerWins(h, calls[1..]);
        FirstTakerShift(g, h, calls);
      }
    }
  }

  /** Skipping a first call that takes nothing shifts the first taker by one. */
  lemma FirstTakerShift(g: Gui, h: Gui, calls: seq<Call>)
    requires |calls| > 0
    requires !Qualifies(g, calls[0].bounds, calls[0].checkBlocked) || calls[0].wid == InvalidWidget
    requires forall c | c in calls[1..] :: Qualifies(h, c.bounds, c.checkBlocked) == Qualifies(g, c.bounds, c.checkBlocked)
    ensures (match FirstTaker(h, calls[1..]) case None => InvalidWidget case Some(i) => calls[1..][i].wid) ==
      (match FirstTaker(g, calls) case None => InvalidWidget case Some(i) => calls[i].wid)
  {
    FirstTakerSame(g, h, calls[1..]);
  }

  lemma {:induction false} FirstTakerSame(g: Gui, h: Gui, calls: seq<Call>)
    requires forall c | c in calls :: Qualifies(h, c.bounds, c.checkBlocked) == Qualifies(g, c.bounds, c.checkBlocked)
    ensures FirstTaker(h, calls) == FirstTaker(g, calls)
  {
    if |calls| > 0 {
      assert calls[0] in calls;
      FirstTakerSame(g, h, calls[1..]);
    }
  }

  /** While the mouse stays down, `endFrame` keeps the active widget, so
      the next frame's calls cannot displace it; a mouse-up frame releases
      it. */
  lemma HoldAcrossFrames(g: Gui, calls: seq<Call>, width: nat, height: nat)
    requires g.state.mouseDown && g.state.activeWidget != InvalidWidget
    ensures RunCalls(BeginFrame(EndFrame(g), width, height), calls).state.activeWidget == g.state.activeWidget
  {
    ActiveSticks(BeginFrame(EndFrame(g), width, height), calls);
  }

  // ----- checkBox -------------------------------------------------------------

  datatype Toggle = Toggle(gui: Gui, checked: bool)

  /** `checkBox`: a click flips the value. */
  function CheckBox(g: Gui, wid: WidgetID, bounds: Rect, checked: bool): (r: Toggle)
    ensures r.gui == WidgetStep(g, wid, bounds, true).gui
    ensures r.checked != checked <==> WidgetStep(g, wid, bounds, true).widget.clicked
  {
    var call := WidgetStep(g, wid, bounds, true);
    Toggle(call.gui, if call.widget.clicked then !checked else checked)
  }

  /** A checkbox behind an open popup never changes. */
  lemma CheckBoxBlocked(g: Gui, wid: WidgetID, bounds: Rect, checked: bool)
    requires g.inputBlocked
    ensures CheckBox(g, wid, bounds, checked).checked == checked
    ensures CheckBox(g, wid, bounds, checked).gui.state.activeWidget == g.state.activeWidget
  {
  }

  // ----- popups ---------------------------------------------------------------

  const ItemHeight: nat := 24
  const PopupPaddingX: nat := 10
  const PopupPaddingY: nat := 6
  const IconSpaceWidth: nat := 22

  /** A popup menu item: the id its widget hashes to (item text plus popup
      id) and its measured text width. */
  datatype PopupItem = PopupItem(wid: WidgetID, textWidth: real, hasIcon: bool)

  /** `showPopup`: opens the popup and blocks every other widget. */
  function ShowPopup(g: Gui, wid: WidgetID): (r: Gui)
    ensures r.openPopup == wid && r.inputBlocked
    ensures r == g.(openPopup := wid, inputBlocked := true)
  {
    g.(openPopup := wid, inputBlocked := true)
  }

  /** The widest item, as the integer widths the source accumulates from
      a running maximum that starts at 0. */
  function MenuWidth(items: seq<PopupItem>): (w: int)
    ensures w >= 0
    ensures forall i :: 0 <= i < |items| ==> ItemWidth(items[i]) <= w
    // the maximum is attained, unless every item is narrower than 0
    ensures w == 0 || exists i :: 0 <= i < |items| && ItemWidth(items[i]) == w
    ensures |items| == 0 ==> w == 0
  {
    if |items| == 0 then 0
    else
      var rest := MenuWidth(items[..|items| - 1]);
      var last := ItemWidth(items[|items| - 1]);
      if rest < last then last else rest
  }

  function ItemWidth(item: PopupItem): int {
    Trunc(item.textWidth) + (if item.hasIcon then IconSpaceWidth else 0)
  }

  /** The popup's rect below the last clicked widget. */
  function PopupBounds(g: Gui, items: seq<PopupItem>): (b: Rect)
    ensures b.Location() == g.state.lastClickedPosition
    ensures b.height == (ItemHeight * |items| + 2 * PopupPaddingY) as real
    ensures b.width == (MenuWidth(items) + 2 * PopupPaddingX) as real
    ensures forall i :: 0 <= i < |items| ==> ItemWidth(items[i]) as real + (2 * PopupPaddingX) as real <= b.width
  {
    var p := g.state.lastClickedPosition;
    Rect(p.x, p.y, (MenuWidth(items) + 2 * PopupPaddingX) as real, (ItemHeight * |items| + 2 * PopupPaddingY) as real)
  }

  datatype PopupResult = PopupResult(gui: Gui, selected: nat, chosen: bool)

  /** The widget call of item `k`: its row of the popup, gate ignored. */
  function ItemCall(g: Gui, b: Rect, items: seq<PopupItem>, k: nat): WidgetCall
    requires k < |items|
  {
    var y := b.y + PopupPaddingY as real + (k * ItemHeight) as real;
    WidgetStep(g, items[k].wid, Rect(b.x, y, b.width, ItemHeight as real), false)
  }

  /** The gui that item `k`'s call sees when the loop starts at item `i`:
      the calls of items `i..k-1` run in order. */
  function BeforeItem(g: Gui, b: Rect, items: seq<PopupItem>, i: nat, k: nat): Gui
    requires i <= k <= |items|
    decreases k - i
  {
    if i == k then g else BeforeItem(ItemCall(g, b, items, i).gui, b, items, i + 1, k)
  }

  /** Whether item `k` is clicked, the loop having started at item `i`. */
  predicate ItemClicked(g: Gui, b: Rect, items: seq<PopupItem>, i: nat, k: nat)
    requires i <= k < |items|
  {
    ItemCall(BeforeItem(g, b, items, i, k), b, items, k).widget.clicked
  }

  /** `popup`: nothing unless this popup is open; a mouse press outside
      closes it; otherwise the item widgets (which ignore the gate) are
      called top to bottom and the first clicked one closes the popup and
      is selected. */
  function PopupStep(g: Gui, wid: WidgetID, items: seq<PopupItem>, selected: nat): (r: PopupResult)
    ensures g.openPopup != wid ==> r == PopupResult(g, selected, false)
    ensures g.openPopup == wid && g.state.mouseDown && !PopupBounds(g, items).HasPoint(g.state.mousePosition) ==>
      r == PopupResult(g.(openPopup := InvalidWidget, inputBlocked := false), selected, false)
    ensures r.chosen ==> r.selected < |items| && r.gui.openPopup == InvalidWidget && !r.gui.inputBlocked
    ensures !r.chosen ==> r.selected == selected
    ensures r.gui.layout == g.layout && r.gui.panels == g.panels
    // the selected item is the first one clicked
    ensures r.chosen ==>
      && g.openPopup == wid
      && ItemClicked(g, PopupBounds(g, items), items, 0, r.selected)
      && (forall j :: 0 <= j < r.selected ==> !ItemClicked(g, PopupBounds(g, items), items, 0, j))
    // an open popup that is not dismissed selects nothing only when no item is clicked
    ensures (g.openPopup == wid && !(g.state.mouseDown && !PopupBounds(g, items).HasPoint(g.state.mousePosition))
      && !r.chosen) ==> forall j :: 0 <= j < |items| ==> !ItemClicked(g, PopupBounds(g, items), items, 0, j)
  {
    if g.openPopup != wid then PopupResult(g, selected, false)
    else
      var b := PopupBounds(g, items);
      if g.state.mouseDown && !b.HasPoint(g.state.mousePosition) then
        PopupResult(g.(openPopup := InvalidWidget, inputBlocked := false), selected, false)
      else PopupItems(g, b, items, 0, selected)
  }

  /** The item loop from item `i` on. */
  function PopupItems(g: Gui, b: Rect, items: seq<PopupItem>, i: nat, selected: nat): (r: PopupResult)
    requires i <= |items|
    ensures r.chosen ==> i <= r.selected < |items| && r.gui.openPopup == InvalidWidget && !r.gui.inputBlocked
    ensures !r.chosen ==> r.selected == selected && r.gui.openPopup == g.openPopup && r.gui.inputBlocked == g.inputBlocked
    ensures r.gui.layout == g.layout && r.gui.panels == g.panels
    // the first clicked item is selected, and the calls after it do not run
    ensures r.chosen ==>
      && ItemClicked(g, b, items, i, r.selected)
      && (forall j :: i <= j < r.selected ==> !ItemClicked(g, b, items, i, j))
      && r.gui == ItemCall(BeforeItem(g, b, items, i, r.selected), b, items, r.selected).gui
                    .(inputBlocked := false, openPopup := InvalidWidget)
    // no click: every item's call runs and none is clicked
    ensures !r.chosen ==>
      && (forall j :: i <= j < |items| ==> !ItemClicked(g, b, items, i, j))
      && r.gui == BeforeItem(g, b, items, i, |items|)
    decreases |items| - i
  {
    if i == |items| then PopupResult(g, selected, false)
    else
      var call := ItemCall(g, b, items, i);
      if call.widget.clicked then
        PopupResult(call.gui.(inputBlocked := false, openPopup := InvalidWidget), i, true)
      else
        ItemClickedShift(g, b, items, i);
        PopupItems(call.gui, b, items, i + 1, selected)
  }

  /** Starting the loop one item later, on the gui item `i`'s call leaves,
      sees the same clicks. */
  lemma ItemClickedShift(g: Gui, b: Rect, items: seq<PopupItem>, i: nat)
    requires i < |items|
    ensures ItemClicked(g, b, items, i, i) == ItemCall(g, b, items, i).widget.clicked
    ensures forall j :: i < j < |items| ==>
      ItemClicked(g, b, items, i, j) == ItemClicked(ItemCall(g, b, items, i).gui, b, items, i + 1, j)
  {
  }

  /** While a popup is open, a gated widget takes no clicks, no key
      presses and never becomes active; the popup's own items still do. */
  lemma PopupGate(g: Gui, wid: WidgetID, bounds: Rect)
    requires g.inputBlocked
    ensures var r := WidgetStep(g, wid, bounds, true);
      && !r.widget.clicked && !r.widget.keyPressed
      && r.gui.state.activeWidget == g.state.activeWidget
      && r.gui.state.hoveredWidget == g.state.hoveredWidget
    ensures (g.state.mouseDown && g.state.activeWidget == InvalidWidget && wid != InvalidWidget
      && bounds.HasPoint(g.state.mousePosition) && ParentRect(g).None?) ==>
      WidgetStep(g, wid, bounds, false).gui.state.activeWidget == wid
  {
  }

  /** Clicking the first item of an open popup (the mouse released over
      the item that holds it) closes the popup, lifts the gate and selects
      item 0. */
  lemma PopupFirstItemClick(g: Gui, wid: WidgetID, items: seq<PopupItem>, selected: nat)
    requires g.openPopup == wid && |items| > 0
    requires !g.state.mouseDown
    requires IsMouseDownWidget(g.state, items[0].wid)
    ensures PopupStep(g, wid, items, selected).chosen
    ensures PopupStep(g, wid, items, selected).selected == 0
    ensures !PopupStep(g, wid, items, selected).gui.inputBlocked
  {
  }

  /** A show/close cycle: showing a popup and then pressing outside it
      restores the gate and the open popup to closed. */
  lemma ShowThenDismiss(g: Gui, wid: WidgetID, items: seq<PopupItem>, selected: nat)
    requires g.state.mouseDown
    requires !PopupBounds(g, items).HasPoint(g.state.mousePosition)
    ensures var r := PopupStep(ShowPopup(g, wid), wid, items, selected);
      !r.chosen && !r.gui.inputBlocked && r.gui.openPopup == InvalidWidget
      && r.gui == g.(openPopup := InvalidWidget, inputBlocked := false)
  {
    assert PopupBounds(ShowPopup(g, wid), items) == PopupBounds(g, items);
  }
}
