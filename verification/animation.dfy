/** A shape's enter or exit animation: the `Idle → Delaying → Running →
    Finished` machine, and the two effects it drives. `update` turns the
    shape's clock into a progress value and hands it, eased, to the effect:
    a reveal clips the shape to a growing part of the rect it captured
    when it started, a fade sets the alpha and may zoom about the shape's
    centre. The drawing calls themselves are not modelled; the effects are
    stated as the clip rect and the point transform they install. */
module Animations {
  import opened Wrappers
  import opened Geometry
  import opened Easings
  import opened RealArith

  datatype AnimState = Idle | Delaying | Running | Finished

  datatype Direction = FromLeft | FromRight | FromTop | FromBottom

  /** The effect and its settings. A reveal also holds the shape's rect as
      it was when the animation started. */
  datatype Effect = Reveal(direction: Direction, captured: Rect) | Fade(zoom: bool)

  /** An index into the easing menu. */
  type MenuIndex = i: nat | i < 10

  /** The animation's timing, its easing (none, or a menu entry) and its
      effect. */
  datatype Animation = Animation(state: AnimState, delaySecs: real, durationSecs: real,
                                 easing: Option<MenuIndex>, effect: Effect)

  /** A newly made animation: idle, no delay, a second and a half long, no
      easing. A new reveal comes from the left; a new fade does not zoom. */
  function NewReveal(): (a: Animation)
    ensures a.state == Idle && !IsFinished(a)
    ensures a.delaySecs == 0.0 && a.durationSecs == 1.5 && a.easing == None
    ensures a.effect.Reveal? && a.effect.direction == FromLeft
  {
    Animation(Idle, 0.0, 1.5, None, Reveal(FromLeft, Rect(0.0, 0.0, 0.0, 0.0)))
  }

  function NewFade(): (a: Animation)
    ensures a.state == Idle && !IsFinished(a)
    ensures a.delaySecs == 0.0 && a.durationSecs == 1.5 && a.easing == None
    ensures a.effect == Fade(false)
  {
    Animation(Idle, 0.0, 1.5, None, Fade(false))
  }

  predicate IsFinished(a: Animation) {
    a.state == Finished
  }

  predicate IsActive(a: Animation) {
    a.state == Delaying || a.state == Running
  }

  /** `play`: ignored while the animation is delaying or running; otherwise
      the effect is set up for the target (a reveal captures the target's
      rect) and the delay starts. */
  function Play(a: Animation, target: Rect): (r: Animation)
    ensures IsActive(a) ==> r == a
    ensures !IsActive(a) ==> r.state == Delaying
    ensures r.delaySecs == a.delaySecs && r.durationSecs == a.durationSecs && r.easing == a.easing
    ensures r.effect.Fade? <==> a.effect.Fade?
    ensures a.effect.Fade? ==> r.effect == a.effect
    ensures a.effect.Reveal? ==> r.effect.direction == a.effect.direction
    ensures a.effect.Reveal? && !IsActive(a) ==> r.effect.captured == target
  {
    if IsActive(a) then a
    else
      var effect := match a.effect
        case Reveal(d, _) => Reveal(d, target)
        case Fade(z) => Fade(z);
      a.(state := Delaying, effect := effect)
  }

  /** `reset`: back to idle, whatever the state. */
  function Reset(a: Animation): (r: Animation)
    ensures r.state == Idle && !IsActive(r) && !IsFinished(r)
    ensures r.(state := a.state) == a
  {
    a.(state := Idle)
  }

  /** What `update` hands to the effect this frame: nothing, a progress
      value, or a value that is not a finite number (a zero duration makes
      the source divide by zero, giving an infinity or NaN). */
  datatype RunArg = NoRun | RunAt(v: real) | RunNonFinite

  /** The easing applied to a linear progress value: the identity when
      no easing is set. */
  function Ease(easing: Option<MenuIndex>, v: real, inElastic: real -> real, outElastic: real -> real): (r: real)
    ensures easing == None ==> r == v
    ensures easing.Some? && easing.value != 7 && easing.value != 8 && (v == 0.0 || v == 1.0) ==> r == v
  {
    match easing
    case None => v
    case Some(i) =>
      if i != 7 && i != 8 && (v == 0.0 || v == 1.0) then
        MenuEndpoints(i, inElastic, outElastic);
        MenuEasing(i, v, inElastic, outElastic)
      else MenuEasing(i, v, inElastic, outElastic)
  }

  datatype Frame = Frame(anim: Animation, run: RunArg)

  /** `update` at the shape's clock `globalTime`, played forwards (enter)
      or backwards (exit). `inElastic` and `outElastic` stand for the two
      elastic menu entries. */
  function Update(a: Animation, globalTime: real, forward: bool,
                  inElastic: real -> real, outElastic: real -> real): (r: Frame)
    // only the state moves, and only forwards through the machine
    ensures r.anim == a.(state := r.anim.state)
    ensures !IsActive(a) ==> r == Frame(a, NoRun)
    // the delay shows the start (or, backwards, the end) and ends once the clock reaches it
    ensures a.state == Delaying ==>
      && r.run == RunAt(if forward then 0.0 else 1.0)
      && (r.anim.state == Running <==> globalTime >= a.delaySecs)
      && (r.anim.state == Delaying <==> globalTime < a.delaySecs)
    // a run ends exactly when the clock reaches delay plus duration
    ensures a.state == Running ==> r.anim.state == Running || r.anim.state == Finished
    ensures a.state == Running && a.durationSecs > 0.0 ==>
      (IsFinished(r.anim) <==> globalTime >= a.delaySecs + a.durationSecs)
    ensures a.state == Running && a.durationSecs < 0.0 ==>
      (IsFinished(r.anim) <==> globalTime <= a.delaySecs + a.durationSecs)
    ensures a.state == Running && a.durationSecs == 0.0 ==>
      (IsFinished(r.anim) <==> globalTime > a.delaySecs) && r.run == RunNonFinite
    // without easing, the value is the elapsed fraction of the duration (or its complement)
    ensures a.state == Running && a.durationSecs != 0.0 ==> r.run.RunAt?
    ensures a.state == Running && a.durationSecs != 0.0 && a.easing == None ==>
      (if forward then r.run.v else 1.0 - r.run.v) * a.durationSecs == globalTime - a.delaySecs
  {
    match a.state
    case Delaying =>
      Frame(a.(state := if globalTime >= a.delaySecs then Running else Delaying),
            RunAt(if forward then 0.0 else 1.0))
    case Running =>
      if a.durationSecs == 0.0 then
        Frame(a.(state := if globalTime - a.delaySecs > 0.0 then Finished else Running), RunNonFinite)
      else
        var t := Progress(globalTime - a.delaySecs, a.durationSecs);
        var v := if forward then t else 1.0 - t;
        Frame(a.(state := if t >= 1.0 then Finished else Running),
              RunAt(Ease(a.easing, v, inElastic, outElastic)))
    case _ => Frame(a, NoRun)
  }

  /** The elapsed fraction of a non-zero duration, with the comparison
      against 1 that ends the run stated on the elapsed time itself. */
  function Progress(elapsed: real, duration: real): (t: real)
    requires duration != 0.0
    ensures t * duration == elapsed
    ensures duration > 0.0 ==> (t >= 1.0 <==> elapsed >= duration)
    ensures duration < 0.0 ==> (t >= 1.0 <==> elapsed <= duration)
  {
    if duration > 0.0 then
      DivAtLeastOneIff(elapsed, duration);
      elapsed / duration
    else
      DivAtLeastOneNegIff(elapsed, duration);
      elapsed / duration
  }

  // ----- properties -----------------------------------------------------------

  /** Playing twice is playing once: the second call finds the animation
      delaying and leaves it alone. */
  lemma PlayIdempotent(a: Animation, b1: Rect, b2: Rect)
    ensures Play(Play(a, b1), b2) == Play(a, b1)
  {
  }

  /** After a reset, `play` starts the animation again from its delay. */
  lemma ResetThenPlay(a: Animation, target: Rect)
    ensures Play(Reset(a), target).state == Delaying
    ensures Update(Play(Reset(a), target), a.delaySecs, true, x => x, x => x).anim.state == Running
  {
  }

  /** Without easing, the value played backwards is the complement of the
      value played forwards, in every state. */
  lemma ForwardBackwardMirror(a: Animation, globalTime: real, inElastic: real -> real, outElastic: real -> real)
    requires a.easing == None
    ensures var f := Update(a, globalTime, true, inElastic, outElastic);
      var b := Update(a, globalTime, false, inElastic, outElastic);
      && f.anim == b.anim
      && (f.run.RunAt? <==> b.run.RunAt?)
      && (f.run.RunAt? ==> f.run.v + b.run.v == 1.0)
  {
  }

  /** An eased run hands the effect the menu easing of the value the same
      animation would hand it without easing. */
  lemma EasedIsEaseOfLinear(a: Animation, globalTime: real, forward: bool, i: MenuIndex,
                            inElastic: real -> real, outElastic: real -> real)
    requires a.state == Running && a.durationSecs != 0.0 && a.easing == Some(i)
    ensures var linear := Update(a.(easing := None), globalTime, forward, inElastic, outElastic);
      && linear.run.RunAt?
      && Update(a, globalTime, forward, inElastic, outElastic).run ==
           RunAt(MenuEasing(i, linear.run.v, inElastic, outElastic))
  {
  }

  /** Once a run with a positive duration would finish at some clock value,
      it would finish at every later one too. */
  lemma FinishIsMonotone(a: Animation, t1: real, t2: real, forward: bool,
                         inElastic: real -> real, outElastic: real -> real)
    requires a.state == Running && a.durationSecs > 0.0 && t1 <= t2
    requires IsFinished(Update(a, t1, forward, inElastic, outElastic).anim)
    ensures IsFinished(Update(a, t2, forward, inElastic, outElastic).anim)
  {
  }

  /** During a run with a positive duration and no easing or a non-elastic
      menu easing, the value handed to the effect stays in `[0, 1]`. */
  lemma {:induction false} RunInUnit(a: Animation, globalTime: real, forward: bool,
                                     inElastic: real -> real, outElastic: real -> real)
    requires a.state == Running && a.durationSecs > 0.0
    requires a.delaySecs <= globalTime <= a.delaySecs + a.durationSecs
    requires a.easing.Some? ==> a.easing.value != 7 && a.easing.value != 8
    ensures var r := Update(a, globalTime, forward, inElastic, outElastic).run;
      r.RunAt? && 0.0 <= r.v <= 1.0
  {
    var t := Progress(globalTime - a.delaySecs, a.durationSecs);
    DivUnit(globalTime - a.delaySecs, a.durationSecs);
    var v := if forward then t else 1.0 - t;
    if a.easing.Some? {
      MenuInUnit(a.easing.value, v, inElastic, outElastic);
    }
  }

  // ----- the effects ----------------------------------------------------------

  /** `RevealAnimation::onRun`: the clip rect for progress `t`. The rect
      grows from the named edge of the captured rect. */
  function RevealClip(dir: Direction, b: Rect, t: real): (c: Rect)
    // the growing edge moves, the opposite edge stays put
    ensures dir == FromLeft ==> c.Location() == b.Location()
    ensures dir == FromTop ==> c.Location() == b.Location()
    ensures dir == FromRight ==> c.x + c.width == b.x + b.width && c.y == b.y
    ensures dir == FromBottom ==> c.y + c.height == b.y + b.height && c.x == b.x
    // the revealed extent is the fraction `t` of the captured one
    ensures dir == FromLeft || dir == FromRight ==> c.width == b.width * t && c.height == b.height
    ensures dir == FromTop || dir == FromBottom ==> c.height == b.height * t && c.width == b.width
    // fully revealed at 1, nothing at 0
    ensures t == 1.0 ==> c == b
    ensures t == 0.0 ==> c.width == 0.0 || c.height == 0.0
  {
    match dir
    case FromLeft => Rect(b.x, b.y, b.width * t, b.height)
    case FromRight => Rect(b.x + b.width * (1.0 - t), b.y, b.width * t, b.height)
    case FromTop => Rect(b.x, b.y, b.width, b.height * t)
    case FromBottom => Rect(b.x, b.y + b.height * (1.0 - t), b.width, b.height * t)
  }

  /** For progress in `[0, 1]`, the clip never leaves the captured rect. */
  lemma RevealClipInside(dir: Direction, b: Rect, t: real)
    requires b.width >= 0.0 && b.height >= 0.0 && 0.0 <= t <= 1.0
    ensures var c := RevealClip(dir, b, t);
      && b.x <= c.x && c.x + c.width <= b.x + b.width
      && b.y <= c.y && c.y + c.height <= b.y + b.height
      && c.width >= 0.0 && c.height >= 0.0
  {
    MulNonneg(b.width, t);
    MulNonneg(b.height, t);
    MulNonneg(b.width, 1.0 - t);
    MulNonneg(b.height, 1.0 - t);
  }

  /** One step of a nanovg transform. */
  datatype Transform = Translate(dx: real, dy: real) | ScaleBy(sx: real, sy: real)

  function ApplyOne(op: Transform, p: Point): Point {
    match op
    case Translate(dx, dy) => Point(p.x + dx, p.y + dy)
    case ScaleBy(sx, sy) => Point(p.x * sx, p.y * sy)
  }

  /** The transform a sequence of nanovg calls installs: each call
      multiplies onto the current transform, so the call made last is the
      first applied to a point. */
  function ApplyAll(ops: seq<Transform>, p: Point): Point
    decreases |ops|
  {
    if |ops| == 0 then p else ApplyAll(ops[..|ops| - 1], ApplyOne(ops[|ops| - 1], p))
  }

  /** The zoom factor at progress `t`: a quarter larger at the start, none
      at the end. */
  function ZoomFactor(t: real): (k: real)
    ensures t == 1.0 ==> k == 1.0
    ensures t == 0.0 ==> k == 1.25
    ensures t <= 1.0 ==> k >= 1.0
  {
    1.0 + (1.0 - t) * 0.25
  }

  /** The calls `FadeAnimation::onRun` makes with zoom on. */
  function ZoomCalls(b: Rect, t: real): seq<Transform> {
    var k := ZoomFactor(t);
    [Translate(b.x, b.y), Translate(b.width / 2.0, b.height / 2.0), ScaleBy(k, k),
     Translate(-b.width / 2.0, -b.height / 2.0), Translate(-b.x, -b.y)]
  }

  /** `FadeAnimation::onRun`: the global alpha and the installed transform,
      for the target's current rect. */
  datatype FadeFrame = FadeFrame(alpha: real, transform: seq<Transform>)

  function FadeOnRun(zoom: bool, target: Rect, t: real): (f: FadeFrame)
    ensures f.alpha == t
    ensures !zoom ==> f.transform == []
  {
    FadeFrame(t, if zoom then ZoomCalls(target, t) else [])
  }

  function Center(b: Rect): Point {
    Point(b.x + b.width / 2.0, b.y + b.height / 2.0)
  }

  /** The zoom scales every point about the target's centre by the zoom
      factor. */
  lemma ZoomAboutCentre(b: Rect, t: real, p: Point)
    ensures var c := Center(b);
      ApplyAll(ZoomCalls(b, t), p) == c.Add(p.Sub(c).Scale(ZoomFactor(t)))
  {
    var ops := ZoomCalls(b, t);
    var k := ZoomFactor(t);
    var p1 := Point(p.x - b.x, p.y - b.y);
    var p2 := Point(p1.x - b.width / 2.0, p1.y - b.height / 2.0);
    var p3 := Point(p2.x * k, p2.y * k);
    var p4 := Point(p3.x + b.width / 2.0, p3.y + b.height / 2.0);
    var p5 := Point(p4.x + b.x, p4.y + b.y);
    assert ApplyAll(ops, p) == ApplyAll(ops[..4], p1);
    assert ops[..4][..3] == ops[..3];
    assert ApplyAll(ops[..4], p1) == ApplyAll(ops[..3], p2);
    assert ops[..3][..2] == ops[..2];
    assert ops[..3][2] == ScaleBy(k, k);
    assert ApplyOne(ScaleBy(k, k), p2) == p3;
    assert ApplyAll(ops[..3], p2) == ApplyAll(ops[..2], p3);
    assert ops[..2][..1] == ops[..1];
    assert ApplyAll(ops[..2], p3) == ApplyAll(ops[..1], p4);
    assert ApplyAll(ops[..1], p4) == ApplyAll([], p5);
    var c := Center(b);
    assert p2 == p.Sub(c);
  }

  /** Hence the centre stays put, and at the end of the fade the zoom is
      the identity. */
  lemma ZoomFixesCentre(b: Rect, t: real)
    ensures ApplyAll(ZoomCalls(b, t), Center(b)) == Center(b)
  {
    ZoomAboutCentre(b, t, Center(b));
  }

  lemma ZoomEndsAtIdentity(b: Rect, p: Point)
    ensures ApplyAll(ZoomCalls(b, 1.0), p) == p
  {
    ZoomAboutCentre(b, 1.0, p);
  }
}
