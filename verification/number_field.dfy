/** The number field: decrement/increment buttons, dragging (five pixels
    per step), and a text mode entered with a right click and committed
    with Enter or by pressing outside. Every path that assigns the value
    clamps it into `[min, max]`. The field's formatted text (`std::to_string`
    of a float) is not modelled and comes in as a function. */
module NumberField {
  import opened Wrappers
  import opened Geometry
  import opened Gui
  import Layout
  import Keys
  import Chars
  import LineEditor
  import Style
  import StyleResolve
  import opened RealArith

  /** `roundf`: to the nearest integer, halves away from zero. */
  function RoundF(x: real): (k: int)
    ensures x - 0.5 <= k as real <= x + 0.5
    ensures x >= 0.0 ==> x - 0.5 < k as real
    ensures x < 0.0 ==> k as real < x + 0.5
  {
    if x >= 0.0 then (x + 0.5).Floor else -((-x + 0.5).Floor)
  }

  /** `snap`: the multiple of `step` nearest to `v` (a zero step divides
      by zero in the source and is excluded). */
  function Snap(v: real, step: real): (r: real)
    requires step != 0.0
    // a whole number of steps: the nearest one to `v / step`
    ensures (r / step).Floor as real == r / step
    ensures v / step - 0.5 <= r / step <= v / step + 0.5
  {
    var k := RoundF(v / step);
    MultipleDiv(k, step);
    k as real * step
  }

  lemma RoundFOfInt(k: int)
    ensures RoundF(k as real) == k
  {
  }

  /** Snapping lands on a multiple of the step, at most half a step away,
      and a multiple of the step is left alone. */
  lemma SnapProperties(v: real, step: real, k: int)
    requires step != 0.0
    ensures (Snap(v, step) / step).Floor as real == Snap(v, step) / step
    ensures Snap(k as real * step, step) == k as real * step
    ensures Snap(Snap(v, step), step) == Snap(v, step)
  {
    var j := RoundF(v / step);
    assert Snap(v, step) == j as real * step;
    MultipleDiv(k, step);
    MultipleDiv(j, step);
    assert Snap(v, step) / step == j as real;
    RoundFOfInt(k);
    MultipleDiv(j, step);
    RoundFOfInt(j);
  }

  /** A value `m` that is `k` steps is its own snap. */
  lemma SnapOnGrid(k: int, step: real, m: real)
    requires step != 0.0 && m == k as real * step
    ensures Snap(m, step) == m
  {
    assert m / step == k as real;
    RoundFOfInt(k);
  }

  lemma MultipleDiv(k: int, step: real)
    requires step != 0.0
    ensures (k as real * step) / step == k as real
  {
  }

  /** The snapped value is within half a step of the input. */
  lemma SnapNear(v: real, step: real)
    requires step > 0.0
    ensures v - step / 2.0 <= Snap(v, step) <= v + step / 2.0
  {
    var q := v / step;
    var k := RoundF(q);
    assert q * step == v;
    WithinHalfStep(q, k as real, step, v);
  }

  /** `|k - q| <= 1/2` scales to `|k·step - q·step| <= step/2`. */
  lemma WithinHalfStep(q: real, k: real, step: real, v: real)
    requires step > 0.0 && v == q * step
    requires q - 0.5 <= k <= q + 0.5
    ensures v - step / 2.0 <= k * step <= v + step / 2.0
  {
    var half := step / 2.0;
    MulMono(k, q + 0.5, step);
    assert (q + 0.5) * step == v + half;
    assert k * step <= v + half;
    MulMono(q - 0.5, k, step);
    assert (q - 0.5) * step == v - half;
    assert v - half <= k * step;
  }

  /** `NumberEdit`. */
  datatype NumberEdit = NumberEdit(
    editingText: bool, dragging: bool,
    edit: LineEditor.TextEdit,
    prevPos: Point,
    text: string,
    actualValue: real)

  const FreshNumberEdit: NumberEdit := NumberEdit(false, false, LineEditor.FreshTextEdit, Origin, "", 0.0)

  lemma FreshEditorsIdle()
    ensures FreshNumberEdit.edit.cursor == 0 && FreshNumberEdit.edit.viewOffset == 0.0
    ensures !FreshNumberEdit.edit.ctrl
    ensures !FreshNumberEdit.editingText && !FreshNumberEdit.dragging
  {
  }

  const Sensitivity: real := 0.2

  datatype Dragged = Dragged(edit: NumberEdit, value: real)

  /** `updateValue`: drag motion accumulates unsnapped; the value follows
      the snapped accumulator and is clamped when it changes. */
  function UpdateValue(ne: NumberEdit, dx: int, value: real, step: real, vmin: real, vmax: real): (r: Dragged)
    requires step != 0.0
    ensures r.edit == ne.(actualValue := ne.actualValue + dx as real * step * Sensitivity)
    ensures r.value == value || r.value == Clamp(Snap(r.edit.actualValue, step), vmin, vmax)
    ensures vmin <= vmax && vmin <= value <= vmax ==> vmin <= r.value <= vmax
    ensures Snap(r.edit.actualValue, step) == value ==> r.value == value
    ensures Snap(r.edit.actualValue, step) != value ==> r.value == Clamp(Snap(r.edit.actualValue, step), vmin, vmax)
  {
    var acc := ne.actualValue + dx as real * step * Sensitivity;
    var snapped := Snap(acc, step);
    Dragged(ne.(actualValue := acc), if snapped != value then Clamp(snapped, vmin, vmax) else value)
  }

  /** Five pixels of drag from a value on the step grid move it one step. */
  lemma FivePixelsOneStep(ne: NumberEdit, k: int, step: real, vmin: real, vmax: real)
    requires step != 0.0
    requires ne.actualValue == k as real * step
    ensures UpdateValue(ne, 5, k as real * step, step, vmin, vmax).value == Clamp((k + 1) as real * step, vmin, vmax)
  {
    var next := (k + 1) as real * step;
    OneStepAhead(k, step);
    SnapOnGrid(k + 1, step, next);
    var d := UpdateValue(ne, 5, k as real * step, step, vmin, vmax);
    assert d.edit.actualValue == next;
  }

  /** Five pixels at the drag sensitivity are one step, and one step more
      is a different value. */
  lemma OneStepAhead(k: int, step: real)
    requires step != 0.0
    ensures k as real * step + 5 as real * step * Sensitivity == (k + 1) as real * step
    ensures (k + 1) as real * step != k as real * step
  {
    assert 5 as real * step * Sensitivity == step;
    assert (k + 1) as real * step == k as real * step + step;
  }

  datatype FieldError = NotANumber | EditFailed(e: LineEditor.EditError) | StyleFailed(styleError: StyleResolve.StyleError)

  /** Committing the text: `std::stof` (which throws when there is no
      number), then snap, then clamp. */
  function Commit(text: string, step: real, vmin: real, vmax: real): (r: Result<real, FieldError>)
    requires step != 0.0
    ensures r.Failure? <==> Chars.StoF(text).Failure?
    ensures r.Success? && vmin <= vmax ==> vmin <= r.value <= vmax
    ensures r.Success? && vmin <= Snap(Chars.StoF(text).value, step) <= vmax ==>
      r.value == Snap(Chars.StoF(text).value, step)
  {
    match Chars.StoF(text)
    case Failure(_) => Failure(NotANumber)
    case Success(v) => Success(Clamp(Snap(v, step), vmin, vmax))
  }

  /** Typing a whole number on a unit step commits exactly that number when
      it is in range. */
  lemma CommitWholeNumber(n: nat, vmin: real, vmax: real)
    requires vmin <= n as real <= vmax
    ensures Commit(Chars.NatToString(n), 1.0, vmin, vmax) == Success(n as real)
  {
    Chars.StoFOfNatToString(n);
    CommitOfValue(Chars.NatToString(n), 1.0, vmin, vmax);
    SnapProperties(n as real, 1.0, n);
  }

  /** The text a right click puts in the field for a whole-number value,
      `std::to_string` of the float, commits back to that value with step 1. */
  lemma CommitPrintedFloat(n: nat, vmin: real, vmax: real)
    requires vmin <= n as real <= vmax
    ensures Commit(Chars.FloatText(n), 1.0, vmin, vmax) == Success(n as real)
  {
    Chars.StoFOfPrintedFloat(n);
    CommitOfValue(Chars.FloatText(n), 1.0, vmin, vmax);
    SnapProperties(n as real, 1.0, n);
  }

  /** A text that reads as a number commits that number snapped and clamped. */
  lemma CommitOfValue(text: string, step: real, vmin: real, vmax: real)
    requires step != 0.0
    ensures Chars.StoF(text).Success? ==>
      Commit(text, step, vmin, vmax) == Success(Clamp(Snap(Chars.StoF(text).value, step), vmin, vmax))
  {
  }

  // ----- number() -------------------------------------------------------------

  const ButtonWidth: real := 16.0

  /** The field's three parts: decrement button, text area, increment button. */
  function DecBounds(b: Rect): Rect { Rect(b.x, b.y, ButtonWidth, b.height) }
  function IncBounds(b: Rect): Rect { Rect(b.x + b.width - ButtonWidth, b.y, ButtonWidth, b.height) }
  function MainBounds(b: Rect): (m: Rect)
    ensures DecBounds(b).x + DecBounds(b).width == m.x
    ensures m.x + m.width == IncBounds(b).x
  {
    Rect(b.x + ButtonWidth, b.y, b.width - 2.0 * ButtonWidth, b.height)
  }

  /** A press on the text area of the focused field. */
  predicate ClickedInside(s: GuiState, main: Rect, focused: bool) {
    main.HasPoint(s.mousePosition) && s.mouseDown && focused
  }

  /** The mode logic while not editing text: a left press inside starts a
      drag from the current value, a right press switches to text mode with
      the formatted value, releasing the mouse ends the drag; while dragging
      the value follows the horizontal motion. */
  function NotEditing(ne: NumberEdit, s: GuiState, main: Rect, focused: bool, value: real,
                      step: real, vmin: real, vmax: real, format: real -> string): (r: Dragged)
    requires step != 0.0
    requires !ne.editingText
    ensures vmin <= vmax && vmin <= value <= vmax ==> vmin <= r.value <= vmax
    ensures var clickedInside := ClickedInside(s, main, focused);
      clickedInside && s.mouseButton == RightButton && !(s.mouseButton == LeftButton && !ne.dragging) ==>
      r.edit.editingText && r.edit.text == format(value)
    ensures ClickedInside(s, main, focused) && s.mouseButton == LeftButton && !ne.dragging ==>
      r.edit.dragging && r.edit.prevPos == s.mousePosition && r.edit.actualValue == value
    ensures !s.mouseDown ==> !r.edit.dragging && r.value == value
    ensures r.edit.dragging ==> r.edit.prevPos == s.mousePosition
    ensures !ne.dragging && r.edit.dragging ==> ClickedInside(s, main, focused) && s.mouseButton == LeftButton
  {
    var clickedInside := ClickedInside(s, main, focused);
    var ne1 :=
      if clickedInside && s.mouseButton == LeftButton && !ne.dragging then
        ne.(dragging := true, prevPos := s.mousePosition, actualValue := value)
      else if clickedInside && s.mouseButton == RightButton then
        ne.(editingText := true, text := format(value))
      else if !s.mouseDown && ne.dragging then ne.(dragging := false)
      else ne;
    if ne1.dragging then
      var delta := s.mousePosition.Sub(ne1.prevPos);
      var d := UpdateValue(ne1, Layout.Trunc(delta.x), value, step, vmin, vmax);
      Dragged(d.edit.(prevPos := s.mousePosition), d.value)
    else Dragged(ne1, value)
  }

  /** The mode logic in text mode: Enter or Return commits, any other key
      goes to the line editor, and a press outside the field commits the
      (possibly just edited) text. Committing leaves text mode and stops
      any drag. */
  function Editing(ne: NumberEdit, wd: Widget, s: GuiState, main: Rect, value: real,
                   step: real, vmin: real, vmax: real): (r: Result<Dragged, FieldError>)
    requires step != 0.0
    requires ne.editingText
    ensures r.Success? && vmin <= vmax && vmin <= value <= vmax ==> vmin <= r.value.value <= vmax
    ensures r.Success? && !r.value.edit.editingText ==> !r.value.edit.dragging
    ensures r.Success? && wd.keyPressed && (s.key == Keys.Enter || s.key == Keys.Return) ==>
      !r.value.edit.editingText && Commit(ne.text, step, vmin, vmax) == Success(r.value.value)
    ensures r.Success? && r.value.edit.editingText ==> r.value.value == value
    ensures r.Success? && s.mouseDown && !main.HasPoint(s.mousePosition) ==> !r.value.edit.editingText
  {
    var enter := wd.keyPressed && (s.key == Keys.Enter || s.key == Keys.Return);
    var step1 :-
      if enter then
        var v :- Commit(ne.text, step, vmin, vmax);
        Success(Dragged(ne.(editingText := false, dragging := false), v))
      else
        match LineEditor.LineEdit(wd, main, ne.edit, ne.text, s, 0.0)
        case Failure(e) => Failure(EditFailed(e))
        case Success(out) => Success(Dragged(ne.(edit := out.edit, text := out.text), value));
    if !main.HasPoint(s.mousePosition) && s.mouseDown then
      var v :- Commit(step1.edit.text, step, vmin, vmax);
      Success(Dragged(step1.edit.(editingText := false, dragging := false), v))
    else Success(step1)
  }

  datatype NumberResult = NumberResult(gui: Gui, edits: map<WidgetID, NumberEdit>, value: real)

  /** The style the text area's font setup resolves. */
  const FieldStyle: string := "textedit"

  /** The caret blink of a field in text mode: fresh glyphs, and the blink
      timer only while focused. */
  function Blinked(ne: NumberEdit, focused: bool, glyphs: seq<LineEditor.Glyph>): (r: Result<NumberEdit, FieldError>)
    ensures !ne.editingText ==> r == Success(ne)
    ensures r.Success? ==> r.value == ne.(edit := r.value.edit)
  {
    if !ne.editingText then Success(ne)
    else
      var withGlyphs := ne.edit.(glyphs := glyphs);
      if !focused then Success(ne.(edit := withGlyphs))
      else match LineEditor.Blink(withGlyphs)
        case Failure(e) => Failure(EditFailed(e))
        case Success(blinked) => Success(ne.(edit := blinked))
  }

  datatype Stepped = Stepped(gui: Gui, value: real)

  /** The decrement and increment buttons, each a widget call of its own:
      a click moves the value one step and clamps it. */
  function Buttons(g: Gui, decWid: WidgetID, incWid: WidgetID, bounds: Rect,
                   value: real, vmin: real, vmax: real, step: real): (r: Stepped)
    ensures var dec := WidgetStep(g, decWid, DecBounds(bounds), true);
      var inc := WidgetStep(dec.gui, incWid, IncBounds(bounds), true);
      && r.gui == inc.gui
      && (dec.widget.clicked && !inc.widget.clicked ==> r.value == Clamp(value - step, vmin, vmax))
      && (inc.widget.clicked && !dec.widget.clicked ==> r.value == Clamp(value + step, vmin, vmax))
      && (dec.widget.clicked && inc.widget.clicked ==>
            r.value == Clamp(Clamp(value - step, vmin, vmax) + step, vmin, vmax))
      && (!dec.widget.clicked && !inc.widget.clicked ==> r.value == value)
    ensures r.gui.state.mousePosition == g.state.mousePosition && r.gui.state.mouseDown == g.state.mouseDown
    ensures vmin <= vmax && vmin <= value <= vmax ==> vmin <= r.value <= vmax
  {
    var dec := WidgetStep(g, decWid, DecBounds(bounds), true);
    var v1 := if dec.widget.clicked then Clamp(value - step, vmin, vmax) else value;
    var inc := WidgetStep(dec.gui, incWid, IncBounds(bounds), true);
    var v2 := if inc.widget.clicked then Clamp(v1 + step, vmin, vmax) else v1;
    Stepped(inc.gui, v2)
  }

  /** The mode logic on the text area `area`, drag or text mode. */
  function FieldMode(ne: NumberEdit, wd: Widget, s: GuiState, area: Rect, focused: bool, value: real,
                     step: real, vmin: real, vmax: real, format: real -> string): (r: Result<Dragged, FieldError>)
    requires step != 0.0
    ensures !ne.editingText ==> r == Success(NotEditing(ne, s, area, focused, value, step, vmin, vmax, format))
    ensures r.Success? && vmin <= vmax && vmin <= value <= vmax ==> vmin <= r.value.value <= vmax
    ensures r.Success? && !ne.editingText && !ne.dragging && r.value.edit.dragging ==>
      area.HasPoint(s.mousePosition) && s.mouseDown
    ensures r.Success? && ne.editingText && s.mouseDown && !area.HasPoint(s.mousePosition) ==>
      !r.value.edit.editingText
  {
    if !ne.editingText then Success(NotEditing(ne, s, area, focused, value, step, vmin, vmax, format))
    else Editing(ne, wd, s, area, value, step, vmin, vmax)
  }

  /** `number`: the text area's widget call, the font setup (which shrinks
      the text area by the style's padding for everything after it), the
      caret blink in text mode, the two buttons, then the mode logic on the
      shrunk text area. `glyphs` are the renderer's positions for the text
      in text mode. */
  function NumberStep(g: Gui, edits: map<WidgetID, NumberEdit>, wid: WidgetID, decWid: WidgetID, incWid: WidgetID,
                      sheet: Style.Sheet, bounds: Rect, value: real, vmin: real, vmax: real, step: real,
                      format: real -> string, glyphs: seq<LineEditor.Glyph>)
    : (r: Result<NumberResult, FieldError>)
    requires step != 0.0
    ensures r.Success? && vmin <= vmax && vmin <= value <= vmax ==> vmin <= r.value.value <= vmax
    ensures r.Success? ==> wid in r.value.edits && r.value.edits == edits[wid := r.value.edits[wid]]
    ensures r.Success? ==> r.value.gui.state.mousePosition == g.state.mousePosition
    ensures StyleResolve.GetElement(sheet, FieldStyle, MainBounds(bounds)).Failure? ==> r.Failure?
    // the mode logic hit-tests the text area shrunk by the padding: a drag
    // starts only from a press inside it, and a press outside it commits
    ensures var ne0 := if wid in edits then edits[wid] else FreshNumberEdit;
      var area := StyleResolve.GetElement(sheet, FieldStyle, MainBounds(bounds));
      area.Success? && r.Success? && !ne0.editingText && !ne0.dragging && r.value.edits[wid].dragging ==>
      area.value.bounds.HasPoint(g.state.mousePosition) && g.state.mouseDown
    ensures var ne0 := if wid in edits then edits[wid] else FreshNumberEdit;
      var area := StyleResolve.GetElement(sheet, FieldStyle, MainBounds(bounds));
      area.Success? && r.Success? && ne0.editingText && g.state.mouseDown
        && !area.value.bounds.HasPoint(g.state.mousePosition) ==>
      !r.value.edits[wid].editingText
  {
    var main := MainBounds(bounds);
    var call := WidgetStep(g, wid, main, true);
    var focused := call.gui.state.focusedWidget == wid;
    var ne0 := if wid in edits then edits[wid] else FreshNumberEdit;
    match StyleResolve.GetElement(sheet, FieldStyle, main)
    case Failure(e) => Failure(StyleFailed(e))
    case Success(el) =>
      var ne :- Blinked(ne0, focused, glyphs);
      var b := Buttons(call.gui, decWid, incWid, bounds, value, vmin, vmax, step);
      var out :- FieldMode(ne, call.widget, b.gui.state, el.bounds, focused, b.value, step, vmin, vmax, format);
      Success(NumberResult(b.gui, edits[wid := out.edit], out.value))
  }

  /** The two buttons of an idle field: a click on one of them moves the
      value one step down or up and clamps it; with the mouse up and no
      click the value stays. */
  lemma ButtonClicks(g: Gui, edits: map<WidgetID, NumberEdit>, wid: WidgetID, decWid: WidgetID, incWid: WidgetID,
                     sheet: Style.Sheet, bounds: Rect, value: real, vmin: real, vmax: real, step: real,
                     format: real -> string, glyphs: seq<LineEditor.Glyph>)
    requires step != 0.0
    requires !(if wid in edits then edits[wid] else FreshNumberEdit).editingText
    requires StyleResolve.GetElement(sheet, FieldStyle, MainBounds(bounds)).Success?
    ensures var r := NumberStep(g, edits, wid, decWid, incWid, sheet, bounds, value, vmin, vmax, step, format, glyphs);
      var dec := WidgetStep(WidgetStep(g, wid, MainBounds(bounds), true).gui, decWid, DecBounds(bounds), true);
      var inc := WidgetStep(dec.gui, incWid, IncBounds(bounds), true);
      && r.Success?
      && (dec.widget.clicked && !inc.widget.clicked ==> r.value.value == Clamp(value - step, vmin, vmax))
      && (inc.widget.clicked && !dec.widget.clicked ==> r.value.value == Clamp(value + step, vmin, vmax))
      && (dec.widget.clicked && inc.widget.clicked ==>
            r.value.value == Clamp(Clamp(value - step, vmin, vmax) + step, vmin, vmax))
      && (!g.state.mouseDown && !dec.widget.clicked && !inc.widget.clicked ==> r.value.value == value)
  {
  }

  /** Right-clicking into text mode and pressing Enter at once keeps a value
      that is on the step grid and in range, provided the formatted text reads
      back as the value. */
  lemma EditThenEnterKeepsValue(ne: NumberEdit, s: GuiState, wd: Widget, main: Rect, k: int,
                                step: real, vmin: real, vmax: real, format: real -> string)
    requires step != 0.0 && !ne.editingText && !ne.dragging
    requires s.mouseButton == RightButton && ClickedInside(s, main, true)
    requires vmin <= k as real * step <= vmax
    requires Chars.StoF(format(k as real * step)) == Success(k as real * step)
    requires wd.keyPressed && s.key == Keys.Enter
    ensures var entered := NotEditing(ne, s, main, true, k as real * step, step, vmin, vmax, format);
      Editing(entered.edit, wd, s, main, entered.value, step, vmin, vmax).Success?
      && Editing(entered.edit, wd, s, main, entered.value, step, vmin, vmax).value.value == k as real * step
  {
    var v := k as real * step;
    SnapProperties(v, step, k);
    var entered := NotEditing(ne, s, main, true, v, step, vmin, vmax, format);
    assert entered.edit.text == format(v) && entered.value == v;
    assert Commit(format(v), step, vmin, vmax) == Success(v);
  }
}
