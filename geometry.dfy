/**
 * `Image_Canvas_Geometric_Tools`: the one-axis point arithmetic used for
 * smoothed curves. Every function works on one coordinate and is called once
 * per axis. PHP doubles are modelled as exact reals.
 */
module Geometry {

  /** `mid`: the average of two points. */
  function Mid(p1: real, p2: real): real {
    (p1 + p2) / 2.0
  }

  /** `mirror`: `p1` mirrored in `p2` by `factor` (0 gives `p2`, 1 a pure reflection). */
  function Mirror(p1: real, p2: real, factor: real := 1.0): real {
    p2 + factor * (p2 - p1)
  }

  /** `controlPoint`: mirror `p1` in `p2` by the smooth factor, average with `p2`, then with the average of `p2` and `factor`. */
  function ControlPoint(p1: real, p2: real, factor: real, smoothFactor: real := 0.75): real {
    var sa := Mirror(p1, p2, smoothFactor);
    var sb := Mid(p2, sa);
    var m := Mid(p2, factor);
    Mid(sb, m)
  }

  /** `pow($x, 2)`. */
  function Square(x: real): real {
    x * x
  }

  /** `pow($x, 3)`. */
  function Cube(x: real): real {
    x * x * x
  }

  /** `bezier`: the cubic Bezier blend `(1-t)^3*p1 + 3*(1-t)^2*t*p2 + 3*(1-t)*t^2*p3 + t^3*p4`. */
  function Bezier(t: real, p1: real, p2: real, p3: real, p4: real): real {
    Cube(1.0 - t) * p1 +
    3.0 * Square(1.0 - t) * t * p2 +
    3.0 * (1.0 - t) * Square(t) * p3 +
    Cube(t) * p4
  }

  function Min4(a: real, b: real, c: real, d: real): real {
    var ab := if a <= b then a else b;
    var cd := if c <= d then c else d;
    if ab <= cd then ab else cd
  }

  function Max4(a: real, b: real, c: real, d: real): real {
    var ab := if a >= b then a else b;
    var cd := if c >= d then c else d;
    if ab >= cd then ab else cd
  }

  lemma Bounds4(a: real, b: real, c: real, d: real)
    ensures var lo, hi := Min4(a, b, c, d), Max4(a, b, c, d);
            lo <= a <= hi && lo <= b <= hi && lo <= c <= hi && lo <= d <= hi
  {
  }

  /** The midpoint does not depend on the order of its arguments. */
  lemma MidSymmetric(a: real, b: real)
    ensures Mid(a, b) == Mid(b, a)
  {
  }

  /** The midpoint lies between its two points. */
  lemma MidBetween(a: real, b: real)
    ensures (if a <= b then a else b) <= Mid(a, b) <= (if a >= b then a else b)
  {
  }

  /** Mirroring by 0 gives the mirror point. */
  lemma MirrorZero(p1: real, p2: real)
    ensures Mirror(p1, p2, 0.0) == p2
  {
  }

  /** A pure mirror (factor 1, the default) puts `p2` exactly halfway between `p1` and its image. */
  lemma MirrorReflects(p1: real, p2: real)
    ensures Mid(p1, Mirror(p1, p2)) == p2
    ensures Mirror(p1, p2) == Mirror(p1, p2, 1.0)
  {
  }

  /** Mirroring the image back in the same point gives the original point. */
  lemma MirrorInvolution(p1: real, p2: real)
    ensures Mirror(Mirror(p1, p2), p2) == p1
  {
  }

  /** The closed form of `controlPoint`. */
  lemma ControlPointClosedForm(p1: real, p2: real, factor: real, smoothFactor: real)
    ensures ControlPoint(p1, p2, factor, smoothFactor) == (3.0 * p2 + smoothFactor * (p2 - p1) + factor) / 4.0
  {
  }

  /** A control point for three equal points is that point, whatever the smooth factor. */
  lemma ControlPointFixed(p: real, smoothFactor: real)
    ensures ControlPoint(p, p, p, smoothFactor) == p
  {
    ControlPointClosedForm(p, p, p, smoothFactor);
  }

  /** Moving all three points by `c` moves the control point by `c`. */
  lemma ControlPointShift(p1: real, p2: real, factor: real, smoothFactor: real, c: real)
    ensures ControlPoint(p1 + c, p2 + c, factor + c, smoothFactor) == ControlPoint(p1, p2, factor, smoothFactor) + c
  {
    ControlPointClosedForm(p1 + c, p2 + c, factor + c, smoothFactor);
    ControlPointClosedForm(p1, p2, factor, smoothFactor);
  }

  /** The curve starts at `p1` (t = 0) and ends at `p4` (t = 1). */
  lemma BezierEnds(p1: real, p2: real, p3: real, p4: real)
    ensures Bezier(0.0, p1, p2, p3, p4) == p1
    ensures Bezier(1.0, p1, p2, p3, p4) == p4
  {
  }

  /** The four Bernstein weights of a cubic sum to 1 for every t. */
  lemma BernsteinSum(t: real)
    ensures Cube(1.0 - t) + 3.0 * Square(1.0 - t) * t + 3.0 * (1.0 - t) * Square(t) + Cube(t) == 1.0
  {
    var s := 1.0 - t;
    assert s * s * s + 3.0 * s * s * t + 3.0 * s * t * t + t * t * t == (s + t) * (s + t) * (s + t);
  }

  /** Four equal points give that point for every t. */
  lemma BezierConstant(t: real, p: real)
    ensures Bezier(t, p, p, p, p) == p
  {
    BernsteinSum(t);
    var a, b, c, d := Cube(1.0 - t), 3.0 * Square(1.0 - t) * t, 3.0 * (1.0 - t) * Square(t), Cube(t);
    assert Bezier(t, p, p, p, p) == (a + b + c + d) * p;
  }

  /** For t in [0, 1] every Bernstein weight is non-negative. */
  lemma BernsteinNonNegative(t: real)
    requires 0.0 <= t <= 1.0
    ensures Cube(1.0 - t) >= 0.0 && 3.0 * Square(1.0 - t) * t >= 0.0
    ensures 3.0 * (1.0 - t) * Square(t) >= 0.0 && Cube(t) >= 0.0
  {
    var s := 1.0 - t;
    NonNegativeProduct(s, s);
    NonNegativeProduct(s * s, s);
    NonNegativeProduct(t, t);
    NonNegativeProduct(t * t, t);
    NonNegativeProduct(3.0 * (s * s), t);
    NonNegativeProduct(3.0 * s, t * t);
  }

  lemma NonNegativeProduct(x: real, y: real)
    requires x >= 0.0 && y >= 0.0
    ensures x * y >= 0.0
  {
  }

  /** For t in [0, 1] the curve stays between the smallest and the largest of its four points. */
  lemma BezierBounded(t: real, p1: real, p2: real, p3: real, p4: real)
    requires 0.0 <= t <= 1.0
    ensures Min4(p1, p2, p3, p4) <= Bezier(t, p1, p2, p3, p4) <= Max4(p1, p2, p3, p4)
  {
    Bounds4(p1, p2, p3, p4);
    BezierWithin(t, p1, p2, p3, p4, Min4(p1, p2, p3, p4), Max4(p1, p2, p3, p4));
  }

  /** For t in [0, 1] the curve stays within any bounds of its four points. */
  lemma BezierWithin(t: real, p1: real, p2: real, p3: real, p4: real, lo: real, hi: real)
    requires 0.0 <= t <= 1.0
    requires lo <= p1 <= hi && lo <= p2 <= hi && lo <= p3 <= hi && lo <= p4 <= hi
    ensures lo <= Bezier(t, p1, p2, p3, p4) <= hi
  {
    BernsteinSum(t);
    BernsteinNonNegative(t);
    WeightedBetween(Cube(1.0 - t), 3.0 * Square(1.0 - t) * t, 3.0 * (1.0 - t) * Square(t), Cube(t),
                    p1, p2, p3, p4, lo, hi);
  }

  /** A convex combination of four values lies between any bounds of the four. */
  lemma WeightedBetween(a: real, b: real, c: real, d: real, p1: real, p2: real, p3: real, p4: real, lo: real, hi: real)
    requires a >= 0.0 && b >= 0.0 && c >= 0.0 && d >= 0.0 && a + b + c + d == 1.0
    requires lo <= p1 <= hi && lo <= p2 <= hi && lo <= p3 <= hi && lo <= p4 <= hi
    ensures lo <= a * p1 + b * p2 + c * p3 + d * p4 <= hi
  {
    ScaleBetween(a, p1, lo, hi);
    ScaleBetween(b, p2, lo, hi);
    ScaleBetween(c, p3, lo, hi);
    ScaleBetween(d, p4, lo, hi);
    Distribute(a, b, c, d, lo);
    Distribute(a, b, c, d, hi);
    SumBetween(a * p1, b * p2, c * p3, d * p4, a * lo, b * lo, c * lo, d * lo, a * hi, b * hi, c * hi, d * hi);
  }

  /** Weights that add up to 1 applied to one value give that value. */
  lemma Distribute(a: real, b: real, c: real, d: real, x: real)
    requires a + b + c + d == 1.0
    ensures a * x + b * x + c * x + d * x == x
  {
    assert a * x + b * x + c * x + d * x == (a + b + c + d) * x;
  }

  lemma SumBetween(x1: real, x2: real, x3: real, x4: real, l1: real, l2: real, l3: real, l4: real,
                    h1: real, h2: real, h3: real, h4: real)
    requires l1 <= x1 <= h1 && l2 <= x2 <= h2 && l3 <= x3 <= h3 && l4 <= x4 <= h4
    ensures l1 + l2 + l3 + l4 <= x1 + x2 + x3 + x4 <= h1 + h2 + h3 + h4
  {
  }

  lemma ScaleBetween(w: real, p: real, lo: real, hi: real)
    requires w >= 0.0 && lo <= p <= hi
    ensures w * lo <= w * p <= w * hi
  {
    NonNegativeProduct(w, p - lo);
    NonNegativeProduct(w, hi - p);
  }
}
