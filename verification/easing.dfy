/** The animation easings that are polynomial or piecewise polynomial:
    step, smooth-step, the quadratic to quintic families, back and bounce.
    Each maps a time fraction to a progress fraction. The `Out` variants
    are written with `(t - 1)` where the source decrements `t` inside an
    unsequenced product. */
module Easings {
  import opened Geometry
  import opened RealArith

  /** Penner's overshoot constant. */
  const Penner: real := 1.70158

  function Step(t: real): (r: real)
    ensures r == 0.0 || r == 1.0
    ensures r == 1.0 <==> t >= 0.5
  {
    if t >= 0.5 then 1.0 else 0.0
  }

  /** `x² (3 - 2x)` stays in `[0, 1]` on `[0, 1]`: `1 - x²(3 - 2x)` is
      `(1 - x)² (1 + 2x)`. */
  lemma SmoothUnit(x: real)
    requires 0.0 <= x <= 1.0
    ensures 0.0 <= x * x * (3.0 - 2.0 * x) <= 1.0
  {
    MulNonneg(x, x);
    MulNonneg(x * x, 3.0 - 2.0 * x);
    MulNonneg(1.0 - x, 1.0 - x);
    MulNonneg((1.0 - x) * (1.0 - x), 1.0 + 2.0 * x);
    assert 1.0 - x * x * (3.0 - 2.0 * x) == (1.0 - x) * (1.0 - x) * (1.0 + 2.0 * x);
  }

  /** Hermite smooth-step between the edges `e0` and `e1` (equal edges
      divide by zero in the source and are excluded). */
  function SmoothStep(t: real, e0: real, e1: real): (r: real)
    requires e0 != e1
    ensures 0.0 <= r <= 1.0
    ensures e0 < e1 && t <= e0 ==> r == 0.0
    ensures e0 < e1 && t >= e1 ==> r == 1.0
  {
    var x := Clamp((t - e0) / (e1 - e0), 0.0, 1.0);
    SmoothUnit(x);
    if e0 < e1 && t >= e1 then
      DivAtLeastOne(t - e0, e1 - e0);
      x * x * (3.0 - 2.0 * x)
    else if e0 < e1 && t <= e0 then
      DivNonpos(t - e0, e1 - e0);
      x * x * (3.0 - 2.0 * x)
    else x * x * (3.0 - 2.0 * x)
  }

  function Linear(t: real): real { t }

  function InQuad(t: real): (r: real)
    ensures 0.0 <= t <= 1.0 ==> 0.0 <= r <= t
  {
    if 0.0 <= t <= 1.0 then UnitProduct(t, t); t * t
    else t * t
  }

  function OutQuad(t: real): real { t * (2.0 - t) }

  /** The first half of each `InOut` easing is its `In` easing in half
      the time and half the height; the second half is that half turned
      about `(1/2, 1/2)`. */
  function InOutQuad(t: real): (r: real)
    ensures t < 0.5 ==> r == InQuad(2.0 * t) / 2.0
    ensures t >= 0.5 ==> r == 1.0 - InQuad(2.0 - 2.0 * t) / 2.0
  {
    if t < 0.5 then 2.0 * t * t else -1.0 + (4.0 - 2.0 * t) * t
  }

  lemma CubeBelowSquare(t: real)
    requires 0.0 <= t <= 1.0
    ensures 0.0 <= t * t * t <= t * t
  {
    var q := t * t;
    UnitProduct(t, t);
    UnitProduct(t, q);
    assert t * q == q * t;
  }

  function InCubic(t: real): (r: real)
    ensures 0.0 <= t <= 1.0 ==> 0.0 <= r <= InQuad(t)
  {
    if 0.0 <= t <= 1.0 then
      CubeBelowSquare(t);
      t * t * t
    else t * t * t
  }

  function OutCubic(t: real): real {
    var u := t - 1.0;
    u * u * u + 1.0
  }

  function InOutCubic(t: real): (r: real)
    ensures t < 0.5 ==> r == InCubic(2.0 * t) / 2.0
    ensures t >= 0.5 ==> r == 1.0 - InCubic(2.0 - 2.0 * t) / 2.0
  {
    var k := 2.0 * t - 2.0;
    if t < 0.5 then
      var w := 2.0 * t;
      assert InCubic(w) == w * w * w == 8.0 * (t * t * t);
      4.0 * t * t * t
    else
      var u := t - 1.0;
      var w := 2.0 - 2.0 * t;
      assert w == -2.0 * u && k == 2.0 * u;
      assert InCubic(w) == w * w * w == -8.0 * (u * u * u);
      assert u * k * k == 4.0 * (u * u * u);
      (t - 1.0) * k * k + 1.0
  }

  function InQuart(t: real): (r: real)
    ensures 0.0 <= t <= 1.0 ==> 0.0 <= r <= InCubic(t)
  {
    if 0.0 <= t <= 1.0 then
      assert InCubic(t) == t * t * t && InQuad(t) == t * t;
      UnitProduct(t, t * t * t);
      assert t * (t * t * t) == t * t * t * t;
      t * t * t * t
    else t * t * t * t
  }

  function OutQuart(t: real): real {
    var u := t - 1.0;
    1.0 - u * u * u * u
  }

  function InOutQuart(t: real): (r: real)
    ensures t < 0.5 ==> r == InQuart(2.0 * t) / 2.0
    ensures t >= 0.5 ==> r == 1.0 - InQuart(2.0 - 2.0 * t) / 2.0
  {
    var u := t - 1.0;
    if t < 0.5 then
      var w := 2.0 * t;
      assert InQuart(w) == w * w * w * w == 16.0 * (t * t * t * t);
      8.0 * t * t * t * t
    else
      var w := 2.0 - 2.0 * t;
      assert w == -2.0 * u;
      assert InQuart(w) == w * w * w * w == 16.0 * (u * u * u * u);
      1.0 - 8.0 * u * u * u * u
  }

  function InQuint(t: real): (r: real)
    ensures 0.0 <= t <= 1.0 ==> 0.0 <= r <= InQuart(t)
  {
    if 0.0 <= t <= 1.0 then
      assert InQuart(t) == t * t * t * t && InCubic(t) == t * t * t && InQuad(t) == t * t;
      UnitProduct(t, t * t * t * t);
      assert t * (t * t * t * t) == t * t * t * t * t;
      t * t * t * t * t
    else t * t * t * t * t
  }

  function OutQuint(t: real): real {
    var u := t - 1.0;
    1.0 + u * u * u * u * u
  }

  function InOutQuint(t: real): (r: real)
    ensures t < 0.5 ==> r == InQuint(2.0 * t) / 2.0
    ensures t >= 0.5 ==> r == 1.0 - InQuint(2.0 - 2.0 * t) / 2.0
  {
    var u := t - 1.0;
    if t < 0.5 then
      var w := 2.0 * t;
      assert InQuint(w) == w * w * w * w * w == 32.0 * (t * t * t * t * t);
      16.0 * t * t * t * t * t
    else
      var w := 2.0 - 2.0 * t;
      assert w == -2.0 * u;
      assert InQuint(w) == w * w * w * w * w == -32.0 * (u * u * u * u * u);
      1.0 + 16.0 * u * u * u * u * u
  }

  function InBack(t: real): real {
    1.0 * t * t * ((Penner + 1.0) * t - Penner)
  }

  function OutBack(t: real): real {
    var u := t / 1.0 - 1.0;
    1.0 * (u * u * ((Penner + 1.0) * u + Penner) + 1.0)
  }

  function InOutBack(t: real): real {
    var s := Penner * 1.525;
    var t2 := t / 0.5;
    if t2 < 1.0 then 1.0 / 2.0 * (t2 * t2 * ((s + 1.0) * t2 - s))
    else
      var u := t2 - 2.0;
      1.0 / 2.0 * (u * u * ((s + 1.0) * u + s) + 2.0)
  }

  /** Four parabolic arcs touching 1 at `1/2.75`, `2/2.75` and
      `2.5/2.75`. */
  function OutBounce(t: real): real {
    if t < 1.0 / 2.75 then 7.5625 * t * t
    else if t < 2.0 / 2.75 then
      var u := t - 1.5 / 2.75;
      7.5625 * u * u + 0.75
    else if t < 2.5 / 2.75 then
      var u := t - 2.25 / 2.75;
      7.5625 * u * u + 0.9375
    else
      var u := t - 2.625 / 2.75;
      7.5625 * u * u + 0.984375
  }

  function InBounce(t: real): real {
    1.0 - OutBounce(1.0 - t)
  }

  function InOutBounce(t: real): real {
    if t < 0.5 then InBounce(t * 2.0) * 0.5 else OutBounce(t * 2.0 - 1.0) * 0.5 + 0.5
  }

  // ----- properties -----------------------------------------------------------

  /** Every easing here starts at 0 and ends at 1; the in-out bounce is
      also halfway at half time. */
  lemma QuadEndpoints()
    ensures InQuad(0.0) == 0.0 && InQuad(1.0) == 1.0
    ensures OutQuad(0.0) == 0.0 && OutQuad(1.0) == 1.0
    ensures InOutQuad(0.0) == 0.0 && InOutQuad(1.0) == 1.0
  {
  }

  lemma CubicEndpoints()
    ensures InCubic(0.0) == 0.0 && InCubic(1.0) == 1.0
    ensures OutCubic(0.0) == 0.0 && OutCubic(1.0) == 1.0
    ensures InOutCubic(0.0) == 0.0 && InOutCubic(1.0) == 1.0
  {
  }

  lemma QuartEndpoints()
    ensures InQuart(0.0) == 0.0 && InQuart(1.0) == 1.0
    ensures OutQuart(0.0) == 0.0 && OutQuart(1.0) == 1.0
    ensures InOutQuart(0.0) == 0.0 && InOutQuart(1.0) == 1.0
  {
  }

  lemma QuintEndpoints()
    ensures InQuint(0.0) == 0.0 && InQuint(1.0) == 1.0
    ensures OutQuint(0.0) == 0.0 && OutQuint(1.0) == 1.0
    ensures InOutQuint(0.0) == 0.0 && InOutQuint(1.0) == 1.0
  {
  }

  lemma BackEndpoints()
    ensures InBack(0.0) == 0.0 && InBack(1.0) == 1.0
    ensures OutBack(0.0) == 0.0 && OutBack(1.0) == 1.0
    ensures InOutBack(0.0) == 0.0 && InOutBack(1.0) == 1.0
  {
  }

  lemma OutBounceEnds()
    ensures OutBounce(0.0) == 0.0 && OutBounce(1.0) == 1.0
  {
    var u := 1.0 - 2.625 / 2.75;
    assert u == 0.125 / 2.75;
    assert 7.5625 * u * u == 0.015625;
  }

  lemma InBounceEnds()
    ensures InBounce(0.0) == 0.0 && InBounce(1.0) == 1.0
  {
    OutBounceEnds();
    assert InBounce(0.0) == 1.0 - OutBounce(1.0);
    assert InBounce(1.0) == 1.0 - OutBounce(0.0);
  }

  lemma InOutBounceEnds()
    ensures InOutBounce(0.0) == 0.0 && InOutBounce(1.0) == 1.0 && InOutBounce(0.5) == 0.5
  {
    InOutBounceStart();
    InOutBounceMiddle();
    InOutBounceEnd();
  }

  lemma InOutBounceStart()
    ensures InOutBounce(0.0) == 0.0
  {
    InBounceEnds();
    assert 0.0 * 2.0 == 0.0;
  }

  lemma InOutBounceMiddle()
    ensures InOutBounce(0.5) == 0.5
  {
    OutBounceEnds();
    assert 0.5 * 2.0 - 1.0 == 0.0;
  }

  lemma InOutBounceEnd()
    ensures InOutBounce(1.0) == 1.0
  {
    OutBounceEnds();
    assert 1.0 * 2.0 - 1.0 == 1.0;
  }

  /** Each `Out` easing is its `In` easing played backwards and upside
      down. */
  lemma OutMirrorsIn(t: real)
    ensures OutQuad(t) == 1.0 - InQuad(1.0 - t)
    ensures OutCubic(t) == 1.0 - InCubic(1.0 - t)
    ensures OutQuart(t) == 1.0 - InQuart(1.0 - t)
    ensures OutQuint(t) == 1.0 - InQuint(1.0 - t)
    ensures OutBack(t) == 1.0 - InBack(1.0 - t)
    ensures OutBounce(t) == 1.0 - InBounce(1.0 - t)
  {
    var u := t - 1.0;
    assert 1.0 - t == -u;
    assert (-u) * (-u) == u * u;
    assert (-u) * (-u) * (-u) == -(u * u * u);
    assert (-u) * (-u) * (-u) * (-u) == u * u * u * u;
    assert (-u) * (-u) * (-u) * (-u) * (-u) == -(u * u * u * u * u);
  }

  /** Each `InOut` easing is point-symmetric about `(0.5, 0.5)`. */
  lemma InOutSymmetric(t: real)
    ensures InOutQuad(t) + InOutQuad(1.0 - t) == 1.0
    ensures InOutCubic(t) + InOutCubic(1.0 - t) == 1.0
    ensures InOutQuart(t) + InOutQuart(1.0 - t) == 1.0
    ensures InOutQuint(t) + InOutQuint(1.0 - t) == 1.0
    ensures InOutBack(t) + InOutBack(1.0 - t) == 1.0
    ensures InOutBounce(t) + InOutBounce(1.0 - t) == 1.0
  {
    var u := t - 1.0;
    assert (-t) * (-t) == t * t;
    assert (-t) * (-t) * (-t) == -(t * t * t);
    assert (-t) * (-t) * (-t) * (-t) == t * t * t * t;
    assert (-t) * (-t) * (-t) * (-t) * (-t) == -(t * t * t * t * t);
    assert (-u) * (-u) == u * u;
    assert (-u) * (-u) * (-u) == -(u * u * u);
    assert (-u) * (-u) * (-u) * (-u) == u * u * u * u;
    assert (-u) * (-u) * (-u) * (-u) * (-u) == -(u * u * u * u * u);
  }

  lemma SquareTimesNegative(t: real, k: real, v: real)
    requires t > 0.0 && k < 0.0 && v == t * t * k
    ensures v < 0.0
  {
    MulPosNeg(t, k);
    MulPosNeg(t, t * k);
    assert t * (t * k) == t * t * k;
  }

  /** Back overshoots below zero at the start: negative for
      `0 < t < Penner / (Penner + 1)`. */
  lemma InBackDips(t: real)
    requires 0.0 < t && (Penner + 1.0) * t < Penner
    ensures InBack(t) < 0.0
  {
    var k := (Penner + 1.0) * t - Penner;
    SquareTimesNegative(t, k, InBack(t));
  }

  /** The bounce stays in `[0, 1]` on `[0, 1]`. */
  lemma OutBounceInUnit(t: real)
    requires 0.0 <= t <= 1.0
    ensures 0.0 <= OutBounce(t) <= 1.0
  {
    if t < 1.0 / 2.75 {
      SquareAtMost(t, 1.0 / 2.75);
    } else if t < 2.0 / 2.75 {
      SquareAtMost(t - 1.5 / 2.75, 0.5 / 2.75);
    } else if t < 2.5 / 2.75 {
      SquareAtMost(t - 2.25 / 2.75, 0.25 / 2.75);
    } else {
      SquareAtMost(t - 2.625 / 2.75, 0.125 / 2.75);
    }
  }

  /** The bounce is continuous: at each breakpoint the arcs on both sides
      touch 1. */
  lemma OutBounceTouchesOne()
    ensures 7.5625 * (1.0 / 2.75) * (1.0 / 2.75) == 1.0
    ensures OutBounce(1.0 / 2.75) == 1.0
    ensures 7.5625 * (2.0 / 2.75 - 1.5 / 2.75) * (2.0 / 2.75 - 1.5 / 2.75) + 0.75 == 1.0
    ensures OutBounce(2.0 / 2.75) == 1.0
    ensures 7.5625 * (2.5 / 2.75 - 2.25 / 2.75) * (2.5 / 2.75 - 2.25 / 2.75) + 0.9375 == 1.0
    ensures OutBounce(2.5 / 2.75) == 1.0
  {
  }

  /** The first half of the in-out quadratic stays in `[0, 1/2]`. */
  lemma InOutQuadFirstHalf(t: real)
    requires 0.0 <= t < 0.5
    ensures 0.0 <= InOutQuad(t) <= 0.5
  {
    SquareAtMost(t, 0.5);
    MulNonneg(t, t);
    assert InOutQuad(t) == 2.0 * (t * t);
  }

  lemma {:induction false} InOutQuadInUnit(t: real)
    requires 0.0 <= t <= 1.0
    ensures 0.0 <= InOutQuad(t) <= 1.0
  {
    if t < 0.5 {
      InOutQuadFirstHalf(t);
    } else if t > 0.5 {
      InOutQuadFirstHalf(1.0 - t);
      InOutSymmetric(t);
    }
  }

  /** The first half of the in-out cubic stays in `[0, 1/2]`. */
  lemma InOutCubicFirstHalf(t: real)
    requires 0.0 <= t < 0.5
    ensures 0.0 <= InOutCubic(t) <= 0.5
  {
    var q := t * t;
    SquareAtMost(t, 0.5);
    MulNonneg(t, t);
    MulNonneg(t, q);
    MulNonneg(0.5 - t, q);
    assert (0.5 - t) * q == 0.5 * q - t * q;
    assert InOutCubic(t) == 4.0 * (t * q);
  }

  lemma {:induction false} InOutCubicInUnit(t: real)
    requires 0.0 <= t <= 1.0
    ensures 0.0 <= InOutCubic(t) <= 1.0
  {
    if t < 0.5 {
      InOutCubicFirstHalf(t);
    } else if t > 0.5 {
      InOutCubicFirstHalf(1.0 - t);
      InOutSymmetric(t);
    }
  }

  // ----- the easing menu ------------------------------------------------------

  /** The ten entries of the easing menu, in order, applied to `t`.
      Elastic easings are transcendental and come in as parameters. */
  function MenuEasing(i: nat, t: real, inElastic: real -> real, outElastic: real -> real): (r: real)
    requires i < 10
    ensures i == 7 ==> r == inElastic(t)
    ensures i == 8 ==> r == outElastic(t)
  {
    if i == 0 then Linear(t)
    else if i == 1 then InCubic(t)
    else if i == 2 then OutCubic(t)
    else if i == 3 then InOutCubic(t)
    else if i == 4 then InQuad(t)
    else if i == 5 then OutQuad(t)
    else if i == 6 then InOutQuad(t)
    else if i == 7 then inElastic(t)
    else if i == 8 then outElastic(t)
    else OutBounce(t)
  }

  /** Every non-elastic menu entry starts at 0 and ends at 1. */
  lemma MenuEndpoints(i: nat, inElastic: real -> real, outElastic: real -> real)
    requires i < 10 && i != 7 && i != 8
    ensures MenuEasing(i, 0.0, inElastic, outElastic) == 0.0
    ensures MenuEasing(i, 1.0, inElastic, outElastic) == 1.0
  {
    if i == 0 {
    } else if i == 1 {
      assert InCubic(0.0) == 0.0 && InCubic(1.0) == 1.0;
    } else if i == 2 {
      assert OutCubic(0.0) == 0.0 && OutCubic(1.0) == 1.0;
    } else if i == 3 {
      assert InOutCubic(0.0) == 0.0 && InOutCubic(1.0) == 1.0;
    } else if i == 4 {
      assert InQuad(0.0) == 0.0 && InQuad(1.0) == 1.0;
    } else if i == 5 {
      assert OutQuad(0.0) == 0.0 && OutQuad(1.0) == 1.0;
    } else if i == 6 {
      assert InOutQuad(0.0) == 0.0 && InOutQuad(1.0) == 1.0;
    } else {
      OutBounceEnds();
    }
  }

  /** On the unit interval every non-elastic menu entry stays in
      `[0, 1]`. */
  lemma MenuInUnit(i: nat, t: real, inElastic: real -> real, outElastic: real -> real)
    requires i < 10 && i != 7 && i != 8 && 0.0 <= t <= 1.0
    ensures 0.0 <= MenuEasing(i, t, inElastic, outElastic) <= 1.0
  {
    if i == 9 {
      OutBounceInUnit(t);
    } else if i == 2 {
      OutMirrorsIn(t);
      assert 0.0 <= InCubic(1.0 - t) <= 1.0;
    } else if i == 3 {
      InOutCubicInUnit(t);
    } else if i == 5 {
      OutMirrorsIn(t);
      assert 0.0 <= InQuad(1.0 - t) <= 1.0;
    } else if i == 6 {
      InOutQuadInUnit(t);
    }
  }
}
