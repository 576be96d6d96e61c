/** Facts about products and quotients of reals that the solver does not
    find unaided; the geometry, snapping and easing proofs use them. */
module RealArith {

  lemma MulNonneg(a: real, b: real)
    requires a >= 0.0 && b >= 0.0
    ensures a * b >= 0.0
  {
  }

  lemma MulPos(a: real, b: real)
    requires a > 0.0 && b > 0.0
    ensures a * b > 0.0
  {
  }

  lemma MulPosNeg(a: real, b: real)
    requires a > 0.0 && b < 0.0
    ensures a * b < 0.0
  {
  }

  /** Multiplying by a positive factor keeps the order. */
  lemma MulMono(a: real, b: real, c: real)
    requires a <= b && c > 0.0
    ensures a * c <= b * c
  {
    MulNonneg(b - a, c);
    assert (b - a) * c == b * c - a * c;
  }

  /** `0 <= d <= len` gives a fraction `d / len` in `[0, 1]`. */
  lemma DivUnit(d: real, len: real)
    requires 0.0 <= d <= len && len > 0.0
    ensures 0.0 <= d / len <= 1.0
  {
    var f := d / len;
    assert f * len == d;
    MulNonneg(len - d, 1.0 / len);
    assert (len - d) * (1.0 / len) == 1.0 - f;
    MulNonneg(d, 1.0 / len);
  }

  /** A non-positive numerator over a positive denominator is
      non-positive. */
  lemma DivNonpos(a: real, b: real)
    requires a <= 0.0 && b > 0.0
    ensures a / b <= 0.0
  {
    MulNonneg(-a, 1.0 / b);
    assert (-a) * (1.0 / b) == -(a / b);
  }

  /** A numerator at least the positive denominator gives at least 1. */
  lemma DivAtLeastOne(a: real, b: real)
    requires 0.0 < b <= a
    ensures a / b >= 1.0
  {
    MulNonneg(a - b, 1.0 / b);
    assert (a - b) * (1.0 / b) == a / b - 1.0;
  }

  lemma UnitProduct(a: real, b: real)
    requires 0.0 <= a <= 1.0 && 0.0 <= b <= 1.0
    ensures 0.0 <= a * b <= b
  {
    MulNonneg(a, b);
    MulNonneg(1.0 - a, b);
    assert (1.0 - a) * b == b - a * b;
  }

  /** `|u| <= a` bounds `u²` by `a²`. */
  lemma SquareAtMost(u: real, a: real)
    requires -a <= u <= a
    ensures u * u <= a * a
  {
    MulNonneg(a - u, a + u);
    assert (a - u) * (a + u) == a * a - u * u;
  }

  /** For non-negative `a` and `b`, `a <= b` exactly when `a² <= b²`. */
  lemma SquareMonotone(a: real, b: real)
    requires a >= 0.0 && b >= 0.0
    ensures a <= b <==> a * a <= b * b
  {
    if a <= b {
      MulNonneg(b - a, b + a);
      assert (b - a) * (b + a) == b * b - a * a;
    } else {
      assert (a - b) * (a + b) == a * a - b * b;
      MulPosNeg(a + b, b - a);
      assert (a + b) * (b - a) == b * b - a * a;
    }
  }

  /** Over a positive denominator, the quotient reaches 1 exactly when the
      numerator reaches the denominator. */
  lemma DivAtLeastOneIff(a: real, b: real)
    requires b > 0.0
    ensures a / b >= 1.0 <==> a >= b
  {
    if a >= b {
      DivAtLeastOne(a, b);
    } else {
      MulPos(b - a, 1.0 / b);
      assert (b - a) * (1.0 / b) == 1.0 - a / b;
    }
  }

  /** Over a negative denominator, the quotient reaches 1 exactly when the
      numerator is at most the denominator. */
  lemma DivAtLeastOneNegIff(a: real, b: real)
    requires b < 0.0
    ensures a / b >= 1.0 <==> a <= b
  {
    DivAtLeastOneIff(-a, -b);
    assert (-a) / (-b) == a / b;
  }
}
