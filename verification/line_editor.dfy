/** The single-line text editor behind `textEdit` and the number field:
    caret movement and edits on key presses, caret placement on clicks,
    and horizontal scrolling that keeps the caret in view. Glyph positions
    come from the font renderer and are inputs here. Inserting or erasing
    at a position outside the text is undefined behaviour in the source
    and a `Failure` here. */
module LineEditor {
  import opened Wrappers
  import opened Geometry
  import opened Gui
  import Keys
  import Chars
  import Style
  import StyleResolve

  /** A glyph position as the font renderer reports it. */
  datatype Glyph = Glyph(x: real, minx: real, maxx: real)

  /** `TextEdit`. */
  datatype TextEdit = TextEdit(
    glyphs: seq<Glyph>,
    cursor: int,
    cursorShow: bool, ctrl: bool,
    blinkTime: real,
    viewOffset: real)

  const FreshTextEdit: TextEdit := TextEdit([], 0, false, false, 0.0, 0.0)

  datatype EditError = CursorOutOfRange | DeleteAtEnd | GlyphOutOfRange | StyleFailed(styleError: StyleResolve.StyleError)

  /** The text and the caret, which is all a key press changes. */
  datatype Caret = Caret(text: string, cursor: int, ctrl: bool)

  predicate InRange(c: Caret) { 0 <= c.cursor <= |c.text| }

  /** One key press. A set ctrl latch swallows the key and clears itself.
      Otherwise a printable character is inserted before the caret, and
      the editing keys move the caret or erase around it. */
  function KeyEdit(c: Caret, key: Keys.Key, typedChar: int): (r: Result<Caret, EditError>)
    ensures c.ctrl ==> r == Success(c.(ctrl := false))
    ensures !c.ctrl && InRange(c) && !Chars.IsPrint(typedChar) && key == Keys.Delete ==>
      (r.Failure? <==> c.cursor == |c.text|)
    ensures !c.ctrl && InRange(c) && !(key == Keys.Delete && !Chars.IsPrint(typedChar)) ==> r.Success?
    ensures InRange(c) && r.Success? ==> InRange(r.value)
    ensures r.Success? && !c.ctrl ==> |r.value.text| <= |c.text| + 1
  {
    if c.ctrl then Success(c.(ctrl := false))
    else if Chars.IsPrint(typedChar) then
      if !InRange(c) then Failure(CursorOutOfRange)
      else Success(Caret(c.text[..c.cursor] + [typedChar as char] + c.text[c.cursor..], c.cursor + 1, false))
    else if key == Keys.Right then
      Success(c.(cursor := if |c.text| < c.cursor + 1 then |c.text| else c.cursor + 1))
    else if key == Keys.Left then
      Success(c.(cursor := if c.cursor > 0 then c.cursor - 1 else 0))
    else if key == Keys.Backspace then
      if c.cursor <= 0 then Success(c)
      else if c.cursor > |c.text| then Failure(CursorOutOfRange)
      else Success(Caret(c.text[..c.cursor - 1] + c.text[c.cursor..], c.cursor - 1, false))
    else if key == Keys.Delete then
      if c.cursor == |c.text| then Failure(DeleteAtEnd)
      else if !(0 <= c.cursor < |c.text|) then Failure(CursorOutOfRange)
      else Success(Caret(c.text[..c.cursor] + c.text[c.cursor + 1..], c.cursor, false))
    else if key == Keys.Home then Success(c.(cursor := 0))
    else if key == Keys.End then Success(c.(cursor := |c.text|))
    else if key == Keys.LControl || key == Keys.RControl then Success(c.(ctrl := true))
    else Success(c)
  }

  /** Typing a printable character and then pressing backspace restores
      the text and the caret. */
  lemma TypeThenBackspace(c: Caret, ch: int, nonPrintable: int)
    requires !c.ctrl && InRange(c) && Chars.IsPrint(ch) && !Chars.IsPrint(nonPrintable)
    ensures KeyEdit(c, Keys.Unknown, ch).Success?
    ensures KeyEdit(KeyEdit(c, Keys.Unknown, ch).value, Keys.Backspace, nonPrintable) == Success(c)
  {
    var t := c.text;
    var i := c.cursor;
    var u := t[..i] + [ch as char] + t[i..];
    assert u[..i] == t[..i] && u[i + 1..] == t[i..];
    assert t[..i] + t[i..] == t;
  }

  /** Typing a character, stepping left over it and pressing delete
      restores the text, with the caret where it was. */
  lemma TypeLeftDelete(c: Caret, ch: int, nonPrintable: int)
    requires !c.ctrl && InRange(c) && Chars.IsPrint(ch) && !Chars.IsPrint(nonPrintable)
    ensures var typed := KeyEdit(c, Keys.Unknown, ch).value;
      var back := KeyEdit(typed, Keys.Left, nonPrintable).value;
      KeyEdit(back, Keys.Delete, nonPrintable) == Success(c)
  {
    var t := c.text;
    var i := c.cursor;
    var u := t[..i] + [ch as char] + t[i..];
    assert u[..i] == t[..i] && u[i + 1..] == t[i..];
    assert t[..i] + t[i..] == t;
  }

  /** The caret moves within the text and erasing removes exactly one
      character next to it. */
  lemma EditingKeys(c: Caret, nonPrintable: int)
    requires !c.ctrl && InRange(c) && !Chars.IsPrint(nonPrintable)
    ensures KeyEdit(c, Keys.Home, nonPrintable).value.cursor == 0
    ensures KeyEdit(c, Keys.End, nonPrintable).value.cursor == |c.text|
    ensures KeyEdit(c, Keys.Right, nonPrintable).value.cursor == (if c.cursor < |c.text| then c.cursor + 1 else c.cursor)
    ensures KeyEdit(c, Keys.Left, nonPrintable).value.cursor == (if c.cursor > 0 then c.cursor - 1 else 0)
    ensures c.cursor > 0 ==>
      KeyEdit(c, Keys.Backspace, nonPrintable).value.text == c.text[..c.cursor - 1] + c.text[c.cursor..]
    ensures c.cursor < |c.text| ==>
      KeyEdit(c, Keys.Delete, nonPrintable).value.text == c.text[..c.cursor] + c.text[c.cursor + 1..]
    ensures KeyEdit(c, Keys.LControl, nonPrintable).value == c.(ctrl := true)
  {
  }

  // ----- scrolling ------------------------------------------------------------

  /** The right end of a glyph plus the caret gap. */
  function GlyphEnd(g: Glyph): real {
    g.x + (g.maxx - g.minx) + 1.5
  }

  /** `updateCursor`: scrolls so that the glyph before the caret ends
      inside the field. */
  function UpdateCursor(e: TextEdit, bounds: Rect): (r: Result<TextEdit, EditError>)
    ensures r.Success? ==> r.value == e.(viewOffset := r.value.viewOffset)
    ensures e.cursor <= 0 ==> r == Success(e)
    ensures 0 < e.cursor <= |e.glyphs| <==> r.Success? && e.cursor > 0
    ensures r.Success? && e.cursor > 0 ==>
      var end := GlyphEnd(e.glyphs[e.cursor - 1]);
      && end - r.value.viewOffset <= bounds.width
      && (bounds.width >= 0.0 && end >= 0.0 ==> end - r.value.viewOffset >= 0.0)
      && (0.0 <= end - e.viewOffset <= bounds.width ==> r.value.viewOffset == e.viewOffset)
      && (end - e.viewOffset > bounds.width ==> r.value.viewOffset == end - bounds.width)
      && (end - e.viewOffset < 0.0 && end - e.viewOffset <= bounds.width ==>
            r.value.viewOffset == Max(0.0, end - bounds.width))
  {
    if e.cursor <= 0 then Success(e)
    else if e.cursor > |e.glyphs| then Failure(GlyphOutOfRange)
    else
      var end := GlyphEnd(e.glyphs[e.cursor - 1]);
      var next := end - e.viewOffset;
      if next > bounds.width then Success(e.(viewOffset := end - bounds.width))
      else if next < 0.0 then Success(e.(viewOffset := Max(0.0, end - bounds.width)))
      else Success(e)
  }

  // ----- clicks ---------------------------------------------------------------

  /** The clickable rect of a glyph, in the field's coordinates. */
  function GlyphRect(g: Glyph, xOffset: real, viewOffset: real, height: real): Rect {
    var w := g.maxx - g.minx;
    Rect(xOffset + ((g.x + 4.0) - w / 2.0) - viewOffset, 0.0, w, height)
  }

  /** The caret a click puts down: the first glyph whose rect holds the
      mouse, or the last glyph when none does (`size() - 1`, which is -1
      for no glyphs). */
  function ClickCursor(glyphs: seq<Glyph>, mouse: Point, xOffset: real, viewOffset: real, height: real): (r: int)
    ensures -1 <= r < |glyphs|
    ensures forall j :: 0 <= j < r ==> !GlyphRect(glyphs[j], xOffset, viewOffset, height).HasPoint(mouse)
    ensures 0 <= r < |glyphs| - 1 ==> GlyphRect(glyphs[r], xOffset, viewOffset, height).HasPoint(mouse)
    ensures (forall j :: 0 <= j < |glyphs| ==> !GlyphRect(glyphs[j], xOffset, viewOffset, height).HasPoint(mouse))
      ==> r == |glyphs| - 1
  {
    if |glyphs| == 0 then -1
    else if GlyphRect(glyphs[0], xOffset, viewOffset, height).HasPoint(mouse) then 0
    else 1 + ClickCursor(glyphs[1..], mouse, xOffset, viewOffset, height)
  }

  datatype Edited = Edited(edit: TextEdit, text: string)

  /** `lineEditor`: a key press edits (or only clears the ctrl latch); a
      left click places the caret; both restart the caret blink. */
  function LineEdit(wd: Widget, bounds: Rect, e: TextEdit, text: string, s: GuiState, xOffset: real)
    : (r: Result<Edited, EditError>)
    ensures !wd.keyPressed && !(wd.clicked && s.mouseButton == LeftButton) ==> r == Success(Edited(e, text))
    ensures wd.keyPressed && e.ctrl ==> r == Success(Edited(e.(ctrl := false), text))
    ensures wd.keyPressed && r.Success? ==>
      KeyEdit(Caret(text, e.cursor, e.ctrl), s.key, s.typedChar) ==
        Success(Caret(r.value.text, r.value.edit.cursor, r.value.edit.ctrl))
    ensures !wd.keyPressed && wd.clicked && s.mouseButton == LeftButton ==> r.Success? && r.value.text == text
    // a left click puts the caret on the glyph under the mouse
    ensures !wd.keyPressed && wd.clicked && s.mouseButton == LeftButton ==>
      && r.value.edit.cursor == ClickCursor(e.glyphs, wd.relativeMouse, xOffset, e.viewOffset, bounds.height)
      && r.value.edit.viewOffset == e.viewOffset && r.value.edit.cursorShow
    ensures r.Success? && 0 <= e.cursor <= |text| && (wd.keyPressed || !wd.clicked) ==>
      0 <= r.value.edit.cursor <= |r.value.text|
    ensures r.Success? ==> r.value.edit.glyphs == e.glyphs
  {
    if wd.keyPressed then
      if e.ctrl then Success(Edited(e.(ctrl := false), text))
      else
        var c :- KeyEdit(Caret(text, e.cursor, false), s.key, s.typedChar);
        var e1 :- UpdateCursor(e.(cursor := c.cursor, ctrl := c.ctrl, blinkTime := 0.0, cursorShow := true), bounds);
        Success(Edited(e1, c.text))
    else if wd.clicked && s.mouseButton == LeftButton then
      var cursor := ClickCursor(e.glyphs, wd.relativeMouse, xOffset, e.viewOffset, bounds.height);
      Success(Edited(e.(cursor := cursor, blinkTime := 0.0, cursorShow := true), text))
    else Success(Edited(e, text))
  }

  // ----- textEdit ---------------------------------------------------------------

  /** `drawCursor`'s blink timer: the caret toggles each time the timer
      passes 1. Showing the caret reads the glyph under it. */
  function Blink(e: TextEdit): (r: Result<TextEdit, EditError>)
    ensures r.Success? ==> r.value == e.(blinkTime := r.value.blinkTime, cursorShow := r.value.cursorShow)
    ensures 0.0 <= e.blinkTime < 1.0 && r.Success? ==> 0.0 <= r.value.blinkTime < 1.0
    ensures r.Success? ==> (r.value.cursorShow != e.cursorShow <==> r.value.blinkTime < e.blinkTime)
    ensures r.Failure? <==>
      (if e.blinkTime + 0.07 >= 1.0 then !e.cursorShow else e.cursorShow) && !(0 <= e.cursor < |e.glyphs|)
  {
    var t := e.blinkTime + 0.07;
    var e1 := if t >= 1.0 then e.(blinkTime := 0.0, cursorShow := !e.cursorShow) else e.(blinkTime := t);
    if e1.cursorShow && !(0 <= e1.cursor < |e1.glyphs|) then Failure(GlyphOutOfRange)
    else Success(e1)
  }

  datatype TextEditResult = TextEditResult(gui: Gui, edits: map<WidgetID, TextEdit>, text: string)

  /** The style a text edit is drawn and measured with. */
  function TextEditStyle(focused: bool): string {
    if focused then "textedit_focus" else "textedit"
  }

  /** `textEdit`: the widget call, the font setup (which shrinks the rect
      by the style's padding), the per-id editor (created on first use),
      fresh glyph positions for the text plus a trailing space, and
      blinking and editing only while focused, on the shrunk rect. */
  function TextEditStep(g: Gui, edits: map<WidgetID, TextEdit>, wid: WidgetID, sheet: Style.Sheet, bounds: Rect,
                        text: string, glyphs: seq<Glyph>)
    : (r: Result<TextEditResult, EditError>)
    requires |glyphs| == |text| + 1
    ensures r.Success? ==> r.value.gui == WidgetStep(g, wid, bounds, true).gui
    ensures r.Success? ==> wid in r.value.edits && r.value.edits == edits[wid := r.value.edits[wid]]
    ensures var call := WidgetStep(g, wid, bounds, true);
      var focused := call.gui.state.focusedWidget == wid;
      var styled := StyleResolve.GetElement(sheet, TextEditStyle(focused), bounds);
      && (styled.Failure? ==> r.Failure?)
      && (!focused ==> (r.Success? <==> styled.Success?))
      && (r.Success? && !focused ==> r.value.text == text)
      // the line editor measures and hit-tests against the padded rect
      && (r.Success? && focused ==>
            var e := (if wid in edits then edits[wid] else FreshTextEdit).(glyphs := glyphs);
            && Blink(e).Success?
            && LineEdit(call.widget, styled.value.bounds, Blink(e).value, text, call.gui.state, 0.0)
                 == Success(Edited(r.value.edits[wid], r.value.text)))
  {
    var call := WidgetStep(g, wid, bounds, true);
    var focused := call.gui.state.focusedWidget == wid;
    var e := (if wid in edits then edits[wid] else FreshTextEdit).(glyphs := glyphs);
    match StyleResolve.GetElement(sheet, TextEditStyle(focused), bounds)
    case Failure(err) => Failure(StyleFailed(err))
    case Success(el) =>
      if !focused then Success(TextEditResult(call.gui, edits[wid := e], text))
      else
        var e1 :- Blink(e);
        var out :- LineEdit(call.widget, el.bounds, e1, text, call.gui.state, 0.0);
        Success(TextEditResult(call.gui, edits[wid := out.edit], out.text))
  }
}
