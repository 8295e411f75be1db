/**
 * `checkHit`: the area is a quarter disc of radius r/2 in the first quadrant, a right
 * triangle with legs r/2 in the fourth, and an r × r/2 rectangle in the third. Every
 * comparison is widened by `EPS`; coordinates are exact reals.
 */
module Geometry {
  import Validator

  const Eps: real := Validator.Eps

  /** `checkHit(x, y, r)`, its three branches tried in order. */
  predicate CheckHit(x: real, y: real, r: real) {
    var halfR := r / 2.0;
    if x >= -Eps && y >= -Eps then
      x <= halfR + Eps && y <= halfR + Eps && x * x + y * y <= halfR * halfR + Eps
    else if x >= -Eps && y <= Eps then
      x <= halfR + Eps && y >= -halfR - Eps && y >= x - halfR - Eps
    else if x <= Eps && y <= Eps then
      x >= -r - Eps && y >= -halfR - Eps
    else false
  }

  /** The area itself, with no tolerance: quarter disc ∪ triangle ∪ rectangle. */
  predicate InArea(x: real, y: real, r: real) {
    var h := r / 2.0;
    || (x >= 0.0 && y >= 0.0 && x * x + y * y <= h * h)
    || (x >= 0.0 && y <= 0.0 && y >= x - h)
    || (x <= 0.0 && y <= 0.0 && x >= -r && y >= -h)
  }

  /** The tolerant test accepts every point of the area. */
  lemma AreaIsHit(x: real, y: real, r: real)
    requires r > 0.0
    requires InArea(x, y, r)
    ensures CheckHit(x, y, r)
  {
    var h := r / 2.0;
    if x >= 0.0 && y >= 0.0 && x * x + y * y <= h * h {
      QuarterDiscInBox(x, h, y);
      QuarterDiscInBox(y, h, x);
    } else if x >= 0.0 && y <= 0.0 && y >= x - h {
      if y >= -Eps {
        SquareBelow(x, h);
        SquareBelow(-y, Eps);
        assert Eps * Eps <= Eps;
      }
    } else {
      if x >= -Eps && y >= -Eps {
        SquareBelow(-x, Eps);
        SquareBelow(-y, Eps);
        assert Eps * Eps <= Eps / 2.0;
        assert x * x + y * y <= Eps;
        SquareBelow(0.0, h);
      }
    }
  }

  lemma QuarterDiscInBox(a: real, h: real, b: real)
    requires a >= 0.0 && h > 0.0 && a * a + b * b <= h * h
    ensures a <= h
  {
    SquareBelow(0.0, if b < 0.0 then -b else b);
    if a > h {
      SquareMonotone(h, a);
    }
  }

  lemma SquareMonotone(a: real, b: real)
    requires 0.0 <= a < b
    ensures a * a < b * b
  {
    Positive(b - a, b + a);
    assert b * b - a * a == (b - a) * (b + a);
  }

  lemma Positive(p: real, q: real)
    requires p > 0.0 && q > 0.0
    ensures p * q > 0.0
  {
  }

  lemma SquareBelow(a: real, b: real)
    requires 0.0 <= a <= b
    ensures a * a <= b * b
  {
    assert a * a <= a * b;
    assert a * b <= b * b;
  }

  /** A point left of the y axis and above the x axis (second quadrant) is a miss. */
  lemma SecondQuadrantMisses(x: real, y: real, r: real)
    requires x < -Eps && y > Eps
    ensures !CheckHit(x, y, r)
  {
  }

  /** A hit in the first branch lies in the quarter disc's box and, within `EPS`, in the disc. */
  lemma FirstBranchHit(x: real, y: real, r: real)
    requires x >= -Eps && y >= -Eps
    ensures CheckHit(x, y, r) <==>
      x <= r / 2.0 + Eps && y <= r / 2.0 + Eps && x * x + y * y <= (r / 2.0) * (r / 2.0) + Eps
  {
  }

  /** Every hit lies in the box [−r−EPS, r/2+EPS] × [−r/2−EPS, r/2+EPS]. */
  lemma HitBoundingBox(x: real, y: real, r: real)
    requires r >= 0.0
    requires CheckHit(x, y, r)
    ensures -r - Eps <= x <= r / 2.0 + Eps
    ensures -r / 2.0 - Eps <= y <= r / 2.0 + Eps
  {
  }

  /** The worked cases for r = 2 (so r/2 = 1). */
  lemma ExamplesRadiusTwo()
    ensures CheckHit(0.5, 0.5, 2.0)
    ensures !CheckHit(0.9, 0.9, 2.0)
    ensures CheckHit(0.5, -0.3, 2.0)
    ensures CheckHit(-1.5, -0.5, 2.0)
    ensures !CheckHit(2.0, -2.0, 2.0)
  {
  }
}
