/** The colour picker's interaction logic: a hue ring around a
    saturation/value square. A left press on the focused picker grabs the
    square or the ring, the grabbed part follows the mouse while the button
    is held, and releasing the mouse lets go. The colour-space conversions
    (`rgbToHSV`, `hsvToRGB`) and the mouse's angle around the centre
    (`atan2`) come in as inputs; the square-root distance test is stated on
    squared distances. */
module ColorPicker {
  import opened Wrappers
  import opened Geometry
  import opened Gui
  import Style
  import opened RealArith

  datatype Mode = Idling | HueRing | SatVal

  /** Hue, saturation and value, each nominally in `[0, 1]`. */
  datatype HSV = HSV(h: real, s: real, v: real)

  /** `ColorPicker`: the grabbed part, the selector's position in the
      square, and the colour in HSV. */
  datatype Picker = Picker(mode: Mode, selector: Point, hsv: HSV)

  const FreshPicker: Picker := Picker(Idling, Origin, HSV(0.0, 0.0, 0.0))

  lemma FreshPickerIdle()
    ensures FreshPicker.mode == Idling
  {
  }

  /** `NVG_PI`, as written in nanovg. */
  const Pi: real := 3.14159265358979323846264338327
  const TwoPi: real := Pi * 2.0

  const HueBarWidth: real := 18.0

  /** The picker's geometry, relative to the widget's origin. */
  datatype Wheel = Wheel(center: Point, r0: real, r1: real, square: Rect)

  /** The wheel inside `bounds` shrunk by 5 on every side: the ring's outer
      radius is half the shorter side less 5, the ring is 18 wide, and the
      square is centred with side `r1 - 1`. */
  function WheelOf(bounds: Rect): (w: Wheel)
    ensures w.center == Point((bounds.width - 10.0) / 2.0, (bounds.height - 10.0) / 2.0)
    ensures w.r1 == Min(bounds.width - 10.0, bounds.height - 10.0) / 2.0 - 5.0
    ensures w.r1 - w.r0 == HueBarWidth
    ensures w.square.width == w.square.height == w.r1 - 1.0
    ensures w.square.x + w.square.width / 2.0 == w.center.x
    ensures w.square.y + w.square.height / 2.0 == w.center.y
  {
    var b := bounds.Expand(-5.0);
    var cx := b.width * 0.5;
    var cy := b.height * 0.5;
    var r1 := (if b.width < b.height then b.width else b.height) * 0.5 - 5.0;
    var r := (r1 - 1.0) / 2.0;
    Wheel(Point(cx, cy), r1 - HueBarWidth, r1, Rect(cx - r, cy - r, r * 2.0, r * 2.0))
  }

  /** `dist >= r0 && dist <= r1` with `dist` the distance from the centre,
      compared through squares. */
  predicate InRing(w: Wheel, p: Point) {
    var cm := p.Sub(w.center);
    var d2 := cm.Dot(cm);
    (w.r0 <= 0.0 || w.r0 * w.r0 <= d2) && 0.0 <= w.r1 && d2 <= w.r1 * w.r1
  }

  /** The squared test agrees with the source's test on the distance
      itself, for any non-negative `dist` whose square is the squared
      distance. */
  lemma InRingByDistance(w: Wheel, p: Point, dist: real)
    requires dist >= 0.0
    requires var cm := p.Sub(w.center); dist * dist == cm.Dot(cm)
    ensures InRing(w, p) <==> w.r0 <= dist && dist <= w.r1
  {
    if w.r0 > 0.0 {
      SquareMonotone(w.r0, dist);
    }
    if w.r1 >= 0.0 {
      SquareMonotone(dist, w.r1);
    }
  }

  /** The ring's hue: the angle moved into `[0, 2π)` as a fraction of a
      turn. */
  function HueOfAngle(angle: real): (h: real)
    ensures h * TwoPi == angle || h * TwoPi == angle + TwoPi
    ensures -Pi <= angle <= Pi ==> 0.0 <= h < 1.0
  {
    (if angle < 0.0 then angle + TwoPi else angle) / TwoPi
  }

  datatype PickerError = DegenerateSquare

  /** Saturation and value from the mouse: the fraction across and (from
      the bottom) up the square, each clamped into `[0, 1]`. A square of
      zero size divides by zero in the source and is a failure here. */
  function SatValOf(square: Rect, mouse: Point): (r: Result<(real, real), PickerError>)
    ensures r.Failure? <==> square.width == 0.0 || square.height == 0.0
    ensures r.Success? ==> 0.0 <= r.value.0 <= 1.0 && 0.0 <= r.value.1 <= 1.0
  {
    if square.width == 0.0 || square.height == 0.0 then Failure(DegenerateSquare)
    else
      Success((Clamp((mouse.x - square.x) / square.width, 0.0, 1.0),
               1.0 - Clamp((mouse.y - square.y) / square.height, 0.0, 1.0)))
  }

  /** Where the selector is drawn for a given saturation and value. */
  function SelectorOf(square: Rect, hsv: HSV): Point {
    Point(square.x + hsv.s * square.width, square.y + (1.0 - hsv.v) * square.height)
  }

  /** A fraction clamped into `[0, 1]` and scaled back by a positive
      length is the offset clamped into `[0, len]`. */
  lemma ClampFraction(d: real, len: real)
    requires len > 0.0
    ensures Clamp(d / len, 0.0, 1.0) * len == Clamp(d, 0.0, len)
  {
    var f := d / len;
    assert f * len == d;
    if d < 0.0 {
      assert f < 0.0;
    } else if len < d {
      assert f > 1.0;
    } else {
      DivUnit(d, len);
    }
  }

  /** While the square is grabbed, the selector sits at the mouse clamped
      into the square: saturation and value invert the selector. */
  lemma SelectorFollowsMouse(square: Rect, mouse: Point, h: real)
    requires square.width > 0.0 && square.height > 0.0
    ensures SatValOf(square, mouse).Success?
    ensures var sv := SatValOf(square, mouse).value;
      SelectorOf(square, HSV(h, sv.0, sv.1)) ==
        Point(Clamp(mouse.x, square.x, square.x + square.width),
              Clamp(mouse.y, square.y, square.y + square.height))
  {
    ClampFraction(mouse.x - square.x, square.width);
    ClampFraction(mouse.y - square.y, square.height);
  }

  /** What one call of `colorPicker` leaves behind: the picker's new state
      and the (possibly recomputed) colour. */
  datatype PickerResult = PickerResult(gui: Gui, pickers: map<WidgetID, Picker>, color: Style.Color)

  /** The part a left press on the focused picker grabs: the square first,
      then the ring, otherwise nothing. */
  function Grab(w: Wheel, mouse: Point): Mode {
    if w.square.HasPoint(mouse) then SatVal
    else if InRing(w, mouse) then HueRing
    else Idling
  }

  /** A left press on the picker's bounds while it has the focus. */
  predicate LeftPressInside(s: GuiState, wid: WidgetID, bounds: Rect) {
    bounds.HasPoint(s.mousePosition) && s.mouseDown && s.focusedWidget == wid && s.mouseButton == LeftButton
  }

  /** `colorPicker`: the widget call, the grab on a left press while idle,
      the update of the grabbed component, the selector, and the release on
      mouse-up. `angle` is `atan2` of the mouse around the centre. */
  function PickerStep(g: Gui, pickers: map<WidgetID, Picker>, wid: WidgetID, bounds: Rect,
                      color: Style.Color, toHSV: Style.Color -> HSV, toRGB: HSV -> Style.Color,
                      angle: real): (r: Result<PickerResult, PickerError>)
    ensures r.Success? ==> wid in r.value.pickers
    ensures var call := WidgetStep(g, wid, bounds, true);
      r.Success? ==>
      var p := r.value.pickers[wid];
      var s := call.gui.state;
      var p0 := if wid in pickers then pickers[wid] else FreshPicker;
      var hsv0 := toHSV(color);
      var mouse := call.widget.relativeMouse;
      && r.value.pickers == pickers[wid := p]
      && r.value.gui == call.gui
      // release, grab, hold
      && (!s.mouseDown && s.focusedWidget == wid ==> p.mode == Idling)
      && (p0.mode == Idling && LeftPressInside(s, wid, bounds) ==> p.mode == Grab(WheelOf(bounds), mouse))
      && (p0.mode == Idling && !LeftPressInside(s, wid, bounds) ==>
            p.mode == Idling && p.hsv == hsv0 && r.value.color == color)
      && (p0.mode != Idling && s.mouseDown ==> p.mode == p0.mode)
      // what the grabbed part changes
      && (r.value.color == color || r.value.color == toRGB(p.hsv).(a := color.a))
      && (p.hsv == hsv0 || p.hsv == hsv0.(h := HueOfAngle(angle)) ||
          (p.hsv.h == hsv0.h && 0.0 <= p.hsv.s <= 1.0 && 0.0 <= p.hsv.v <= 1.0))
      && (p0.mode == HueRing ==> p.hsv == hsv0.(h := HueOfAngle(angle)) && r.value.color == toRGB(p.hsv).(a := color.a))
      && p.selector == SelectorOf(WheelOf(bounds).square, p.hsv)
    // hsvToRGB writes the three colour channels only
    ensures r.Success? ==> r.value.color.a == color.a
    ensures r.Failure? ==> WheelOf(bounds).square.width == 0.0 || WheelOf(bounds).square.height == 0.0
  {
    var call := WidgetStep(g, wid, bounds, true);
    var s := call.gui.state;
    var focused := s.focusedWidget == wid;
    var p0 := if wid in pickers then pickers[wid] else FreshPicker;
    var hsv0 := toHSV(color);
    var w := WheelOf(bounds);
    var mouse := call.widget.relativeMouse;
    var clickedInside := bounds.HasPoint(s.mousePosition) && s.mouseDown && focused;
    var mode := if clickedInside && s.mouseButton == LeftButton && p0.mode == Idling then Grab(w, mouse) else p0.mode;
    var hsv :-
      match mode
      case SatVal =>
        var sv :- SatValOf(w.square, mouse);
        Success(HSV(hsv0.h, sv.0, sv.1))
      case HueRing => Success(hsv0.(h := HueOfAngle(angle)))
      case Idling => Success(hsv0);
    var color1 := if mode == Idling then color else toRGB(hsv).(a := color.a);
    var mode1 := if !s.mouseDown && focused then Idling else mode;
    var p := Picker(mode1, SelectorOf(w.square, hsv), hsv);
    Success(PickerResult(call.gui, pickers[wid := p], color1))
  }

  /** Holding the square on a picker whose square has a size puts the
      selector at the mouse, clamped into the square. */
  lemma HeldSquareTracksMouse(g: Gui, pickers: map<WidgetID, Picker>, wid: WidgetID, bounds: Rect,
                              color: Style.Color, toHSV: Style.Color -> HSV, toRGB: HSV -> Style.Color, angle: real)
    requires wid in pickers && pickers[wid].mode == SatVal
    requires WheelOf(bounds).square.width > 0.0
    ensures var r := PickerStep(g, pickers, wid, bounds, color, toHSV, toRGB, angle);
      var sq := WheelOf(bounds).square;
      var mouse := WidgetStep(g, wid, bounds, true).widget.relativeMouse;
      r.Success? && r.value.pickers[wid].selector ==
        Point(Clamp(mouse.x, sq.x, sq.x + sq.width), Clamp(mouse.y, sq.y, sq.y + sq.height))
  {
    var sq := WheelOf(bounds).square;
    var mouse := WidgetStep(g, wid, bounds, true).widget.relativeMouse;
    SelectorFollowsMouse(sq, mouse, toHSV(color).h);
  }
}
