/** A shape's enter/exit sequencing and its gradient fill. A shape is
    idling, entering or exiting; `triggerEnter`/`triggerExit` only set the
    state it moves to next, and `drawAnimated` adopts that state once no
    animation is running, plays the state's animation, advances the
    shape's clock, and drops back to idling when the animation ends. */
module Shapes {
  import opened Wrappers
  import opened Geometry
  import opened Animations
  import Style

  datatype ShapeState = Idling | Entering | Exiting

  /** A shape's rect, its enter and exit animations (either may be
      absent), its current and pending states, and its clock. */
  datatype Shape = Shape(bounds: Rect, enter: Option<Animation>, exit: Option<Animation>,
                         state: ShapeState, nextState: ShapeState, globalTime: real)

  function NewShape(bounds: Rect, enter: Option<Animation>, exit: Option<Animation>): (sh: Shape)
    ensures sh.state == Idling && sh.nextState == Idling && sh.globalTime == 0.0
    ensures CurrentAnim(sh) == None
  {
    Shape(bounds, enter, exit, Idling, Idling, 0.0)
  }

  /** The animation of the current state: the enter animation while
      entering, the exit animation while exiting, none while idling. */
  function CurrentAnim(sh: Shape): Option<Animation> {
    match sh.state
    case Entering => sh.enter
    case Exiting => sh.exit
    case Idling => None
  }

  /** Stores `a` as the current state's animation. */
  function WithCurrentAnim(sh: Shape, a: Animation): (r: Shape)
    requires sh.state != Idling
    ensures CurrentAnim(r) == Some(a)
    ensures r.state == sh.state && r.nextState == sh.nextState
    ensures r.bounds == sh.bounds && r.globalTime == sh.globalTime
    ensures sh.state == Entering ==> r.exit == sh.exit
    ensures sh.state == Exiting ==> r.enter == sh.enter
  {
    if sh.state == Entering then sh.(enter := Some(a)) else sh.(exit := Some(a))
  }

  /** `triggerEnter` and `triggerExit`: only the pending state changes. */
  function TriggerEnter(sh: Shape): (r: Shape)
    ensures r.nextState == Entering
    ensures r.(nextState := sh.nextState) == sh
  {
    sh.(nextState := Entering)
  }

  function TriggerExit(sh: Shape): (r: Shape)
    ensures r.nextState == Exiting
    ensures r.(nextState := sh.nextState) == sh
  {
    sh.(nextState := Exiting)
  }

  /** `triggerAnim`: restarts the clock and plays the current state's
      animation, if there is one, on the shape. */
  function TriggerAnim(sh: Shape): (r: Shape)
    ensures r.globalTime == 0.0
    ensures r.state == sh.state && r.nextState == sh.nextState && r.bounds == sh.bounds
    ensures CurrentAnim(sh).None? ==> r == sh.(globalTime := 0.0)
    ensures CurrentAnim(sh).Some? ==>
      && CurrentAnim(r) == Some(Play(CurrentAnim(sh).value, sh.bounds))
      && IsActive(CurrentAnim(r).value)
    ensures sh.state != Entering ==> r.enter == sh.enter
    ensures sh.state != Exiting ==> r.exit == sh.exit
  {
    var sh1 := sh.(globalTime := 0.0);
    match CurrentAnim(sh1)
    case None => sh1
    case Some(a) => WithCurrentAnim(sh1, Play(a, sh1.bounds))
  }

  /** What one frame of `drawAnimated` leaves behind, and what it hands
      the running effect. */
  datatype ShapeFrame = ShapeFrame(shape: Shape, run: RunArg)

  /** `drawAnimated` with frame time `deltaTime`. */
  function DrawAnimated(sh: Shape, deltaTime: real, inElastic: real -> real, outElastic: real -> real): (r: ShapeFrame)
    ensures r.shape.bounds == sh.bounds
    // with no animation for the current state, the pending state is adopted and its animation started
    ensures CurrentAnim(sh).None? ==>
      && r.run == NoRun
      && r.shape == TriggerAnim(sh.(state := sh.nextState))
    // with one, it is updated at the shape's clock, forwards while entering
    ensures CurrentAnim(sh).Some? ==>
      var f := Update(CurrentAnim(sh).value, sh.globalTime, sh.state == Entering, inElastic, outElastic);
      && r.run == f.run
      // still going: the clock advances and the states stay
      && (!IsFinished(f.anim) ==>
            && r.shape.globalTime == sh.globalTime + deltaTime
            && r.shape.state == sh.state && r.shape.nextState == sh.nextState
            && CurrentAnim(r.shape) == Some(f.anim))
      // done: back to idling, whatever was pending, with the animation reset
      && (IsFinished(f.anim) ==>
            && r.shape.state == Idling && r.shape.nextState == Idling
            && r.shape.globalTime == 0.0
            && (sh.state == Entering ==> r.shape.enter == Some(Reset(f.anim)) && r.shape.exit == sh.exit)
            && (sh.state == Exiting ==> r.shape.exit == Some(Reset(f.anim)) && r.shape.enter == sh.enter))
  {
    match CurrentAnim(sh)
    case Some(a) =>
      var f := Update(a, sh.globalTime, sh.state == Entering, inElastic, outElastic);
      var sh1 := WithCurrentAnim(sh, f.anim).(globalTime := sh.globalTime + deltaTime);
      if IsFinished(f.anim) then
        var sh2 := WithCurrentAnim(sh1, Reset(f.anim)).(state := Idling, nextState := Idling);
        ShapeFrame(TriggerAnim(sh2), f.run)
      else ShapeFrame(sh1, f.run)
    case None =>
      ShapeFrame(TriggerAnim(sh.(state := sh.nextState)), NoRun)
  }

  // ----- sequencing properties -------------------------------------------------

  /** An idle shape with nothing pending stays idle: no effect runs and the
      clock stays at zero. */
  lemma IdleStaysIdle(sh: Shape, deltaTime: real, inElastic: real -> real, outElastic: real -> real)
    requires sh.state == Idling && sh.nextState == Idling
    ensures var r := DrawAnimated(sh, deltaTime, inElastic, outElastic);
      r.run == NoRun && r.shape == sh.(globalTime := 0.0)
  {
  }

  /** A trigger takes effect on the next frame: an idle shape with an enter
      animation starts entering, with the animation delaying from a fresh
      clock and the shape's rect captured. */
  lemma EnterStartsNextFrame(sh: Shape, deltaTime: real, inElastic: real -> real, outElastic: real -> real)
    requires sh.state == Idling && sh.enter.Some? && !IsActive(sh.enter.value)
    ensures var r := DrawAnimated(TriggerEnter(sh), deltaTime, inElastic, outElastic).shape;
      && r.state == Entering && r.globalTime == 0.0
      && r.enter == Some(Play(sh.enter.value, sh.bounds))
      && r.enter.value.state == Delaying
  {
  }

  /** While entering, the delay shows the start of the effect; while
      exiting it shows the end (the exit plays the effect backwards). */
  lemma DelayShowsStartOrEnd(sh: Shape, deltaTime: real, inElastic: real -> real, outElastic: real -> real)
    requires sh.state != Idling && CurrentAnim(sh).Some? && CurrentAnim(sh).value.state == Delaying
    ensures DrawAnimated(sh, deltaTime, inElastic, outElastic).run ==
      RunAt(if sh.state == Entering then 0.0 else 1.0)
  {
  }

  /** A trigger arriving while an animation is on its last frame is lost:
      the shape ends that frame idling with nothing pending, exactly as
      without the trigger. */
  lemma TriggerDuringLastFrameLost(sh: Shape, deltaTime: real, inElastic: real -> real, outElastic: real -> real)
    requires CurrentAnim(sh).Some?
    requires IsFinished(Update(CurrentAnim(sh).value, sh.globalTime, sh.state == Entering, inElastic, outElastic).anim)
    ensures DrawAnimated(TriggerExit(sh), deltaTime, inElastic, outElastic) ==
            DrawAnimated(sh, deltaTime, inElastic, outElastic)
    ensures DrawAnimated(TriggerEnter(sh), deltaTime, inElastic, outElastic) ==
            DrawAnimated(sh, deltaTime, inElastic, outElastic)
  {
  }

  /** A shape entering with a running animation of positive duration and
      no easing keeps entering while its clock is short of delay plus
      duration, and the effect sees the elapsed fraction. */
  lemma RunningEnterProgress(sh: Shape, deltaTime: real, inElastic: real -> real, outElastic: real -> real)
    requires sh.state == Entering && sh.enter.Some?
    requires var a := sh.enter.value;
      a.state == Running && a.durationSecs > 0.0 && a.easing == None
      && sh.globalTime < a.delaySecs + a.durationSecs
    ensures var a := sh.enter.value;
      var r := DrawAnimated(sh, deltaTime, inElastic, outElastic);
      && r.shape.state == Entering
      && r.shape.globalTime == sh.globalTime + deltaTime
      && r.run.RunAt?
      && r.run.v * a.durationSecs == sh.globalTime - a.delaySecs
  {
  }

  // ----- fill -------------------------------------------------------------------

  datatype FillMode = SolidColor | Gradient

  /** The background: two colours (opaque black and opaque white by
      default) and two gradient stops relative to the shape's rect. */
  datatype Background = Background(color0: Style.Color, color1: Style.Color, stop0: Point, stop1: Point)

  const DefaultBackground: Background :=
    Background(Style.Color(0.0, 0.0, 0.0, 1.0), Style.Color(1.0, 1.0, 1.0, 1.0), Point(0.0, 0.0), Point(0.0, 0.0))

  /** A stop relative to the rect, as an absolute point: the stop scaled by
      the rect's size and moved to its origin. */
  function StopPoint(stop: Point, b: Rect): (p: Point)
    // the stop is recovered from the point for a rect with an area
    ensures b.width != 0.0 ==> (p.x - b.x) / b.width == stop.x
    ensures b.height != 0.0 ==> (p.y - b.y) / b.height == stop.y
  {
    Point(stop.x * b.width + b.x, stop.y * b.height + b.y)
  }

  /** The stops `(0,0)` and `(1,1)` are the rect's top-left and bottom-right
      corners. */
  lemma StopCorners(b: Rect)
    ensures StopPoint(Point(0.0, 0.0), b) == b.Location()
    ensures StopPoint(Point(1.0, 1.0), b) == Point(b.x + b.width, b.y + b.height)
  {
  }

  /** `applyFill`: the first colour when solid; otherwise a linear gradient
      from the first stop to the second, first colour to second. */
  function ApplyFill(mode: FillMode, bg: Background, b: Rect): (paint: Style.Paint)
    ensures mode == SolidColor ==> paint == Style.Solid(bg.color0)
    ensures mode == Gradient ==>
      && paint.LinearGradient?
      && Point(paint.sx, paint.sy) == StopPoint(bg.stop0, b)
      && Point(paint.ex, paint.ey) == StopPoint(bg.stop1, b)
      && paint.inner == bg.color0 && paint.outer == bg.color1
  {
    match mode
    case SolidColor => Style.Solid(bg.color0)
    case Gradient =>
      var s := StopPoint(bg.stop0, b);
      var e := StopPoint(bg.stop1, b);
      Style.LinearGradient(s.x, s.y, e.x, e.y, bg.color0, bg.color1)
  }

  /** Moving a shape moves its gradient with it. */
  lemma GradientFollowsShape(bg: Background, b: Rect, d: Point)
    ensures var p := ApplyFill(Gradient, bg, b);
      var q := ApplyFill(Gradient, bg, b.(x := b.x + d.x, y := b.y + d.y));
      && q.sx == p.sx + d.x && q.sy == p.sy + d.y
      && q.ex == p.ex + d.x && q.ey == p.ey + d.y
  {
  }
}
