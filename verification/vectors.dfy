/** Two-dimensional vectors over the reals.

    They stand in for the float64 `gfx.Vec` values of the creature code: the same
    operations (`Add`, `Sub`, `To`, `Scaled`, `Len`, `Unit`), with exact real
    arithmetic instead of floating point.

    Dafny's reals have no square-root function, so every operation that needs a
    length takes the square root as a parameter `root` and requires `IsSqrt(root)`.
    Most contracts are stated over the squared length `LenSq`, which needs no root. */
module Vectors {

  datatype Vec = Vec(x: real, y: real)

  const Zero: Vec := Vec(0.0, 0.0)

  function Add(a: Vec, b: Vec): Vec {
    Vec(a.x + b.x, a.y + b.y)
  }

  /** `a - b`, as `a.Sub(b)`. */
  function Sub(a: Vec, b: Vec): Vec {
    Vec(a.x - b.x, a.y - b.y)
  }

  /** The displacement leading from `a` to `b`, as `a.To(b)`: it is the vector
      that carries `a` onto `b`, and the same vector as `b.Sub(a)`. */
  function To(a: Vec, b: Vec): (d: Vec)
    ensures Add(a, d) == b
    ensures d == Sub(b, a)
  {
    Vec(b.x - a.x, b.y - a.y)
  }

  function Scaled(v: Vec, k: real): Vec {
    Vec(v.x * k, v.y * k)
  }

  function Dot(a: Vec, b: Vec): real {
    a.x * b.x + a.y * b.y
  }

  /** Zero exactly when `a` and `b` are parallel (or one of them is zero). */
  function Cross(a: Vec, b: Vec): real {
    a.x * b.y - a.y * b.x
  }

  /** `a` is a positive multiple of `b`: parallel to it and pointing the same way. */
  predicate SameDirection(a: Vec, b: Vec) {
    Cross(a, b) == 0.0 && 0.0 < Dot(a, b)
  }

  /** The squared Euclidean length. */
  function LenSq(v: Vec): real {
    v.x * v.x + v.y * v.y
  }

  /** The squared length is never negative, and it is zero only for `Zero`. */
  lemma LenSqPositive(v: Vec)
    ensures 0.0 <= LenSq(v)
    ensures v != Zero <==> 0.0 < LenSq(v)
  {
    SumOfSquares(v.x, v.y, v.x * v.x, v.y * v.y, LenSq(v));
  }

  /** `root` is a square root on the non-negative reals. */
  ghost predicate IsSqrt(root: real -> real) {
    forall x :: 0.0 <= x ==> 0.0 <= root(x) && root(x) * root(x) == x
  }

  /** The Euclidean length, as `v.Len()`: the non-negative number whose square is
      the squared length, positive for every vector but `Zero`. */
  function Len(v: Vec, root: real -> real): (r: real)
    requires IsSqrt(root)
    ensures 0.0 <= r && r * r == LenSq(v)
    ensures v != Zero <==> 0.0 < r
  {
    LenSqPositive(v);
    var r := root(LenSq(v));
    SquarePositive(r, LenSq(v));
    r
  }

  /** The unit vector pointing the same way as `v`, as `v.Unit()`. The zero vector
      has no direction and is excluded: the division by the length in the body is
      only defined because of that. */
  function Unit(v: Vec, root: real -> real): (u: Vec)
    requires IsSqrt(root)
    requires v != Zero
    ensures LenSq(u) == 1.0
    ensures SameDirection(u, v)
  {
    var l := Len(v, root);
    var k := 1.0 / l;
    ScaledSquares(v.x, v.y, k, LenSq(Scaled(v, k)), LenSq(v));
    Inverse(l, k, LenSq(v), LenSq(Scaled(v, k)));
    SelfDirection(v);
    ScaledDirection(v, v, k);
    Scaled(v, k)
  }

  /** Every non-zero vector points its own way. */
  lemma SelfDirection(v: Vec)
    requires v != Zero
    ensures SameDirection(v, v)
  {
    LenSqPositive(v);
    SelfCross(v.x, v.y, Cross(v, v));
  }

  /** Scaling by a positive factor keeps the direction. */
  lemma ScaledDirection(u: Vec, v: Vec, k: real)
    requires SameDirection(u, v)
    requires 0.0 < k
    ensures SameDirection(Scaled(u, k), v)
  {
    ScaledPair(u.x, u.y, v.x, v.y, k, Cross(u, v), Dot(u, v),
               Cross(Scaled(u, k), v), Dot(Scaled(u, k), v));
  }

  /** Comparing a length with a non-negative bound is the same as comparing the
      squared length with the squared bound, so the guards `Len(v) > k` of the
      creature code can be read without any square root. */
  lemma LenCompare(v: Vec, k: real, root: real -> real)
    requires IsSqrt(root)
    requires 0.0 <= k
    ensures Len(v, root) > k <==> LenSq(v) > k * k
    ensures Len(v, root) < k <==> LenSq(v) < k * k
  {
    var l := Len(v, root);
    SquareLess(k, l, k * k, LenSq(v));
    SquareLess(l, k, LenSq(v), k * k);
  }

  /** The unit vector of a non-zero `v` scaled by a positive `k` has squared length
      `k * k` and points the same way as `v`. */
  lemma ScaledUnit(v: Vec, k: real, root: real -> real)
    requires IsSqrt(root)
    requires v != Zero
    requires 0.0 < k
    ensures LenSq(Scaled(Unit(v, root), k)) == k * k
    ensures SameDirection(Scaled(Unit(v, root), k), v)
  {
    var u := Unit(v, root);
    ScaledUnitSquares(u.x, u.y, k, LenSq(Scaled(u, k)), LenSq(u));
    ScaledDirection(u, v, k);
  }

  /** `v.Unit().Scaled(k)` has length exactly `k`, for every non-negative `k`. */
  lemma LenScaledUnit(v: Vec, k: real, root: real -> real)
    requires IsSqrt(root)
    requires v != Zero
    requires 0.0 <= k
    ensures Len(Scaled(Unit(v, root), k), root) == k
  {
    var s := Scaled(Unit(v, root), k);
    if k == 0.0 {
      assert s == Zero;
    } else {
      ScaledUnit(v, k, root);
      SquareEqual(Len(s, root), k, LenSq(s), k * k);
    }
  }

  // Facts about products of scalars. Each product the proof needs is passed in as
  // a parameter of its own, so that the solver meets one non-linear step at a time
  // and callers can hand in the vector terms directly.

  lemma PositiveProduct(a: real, b: real, p: real)
    requires 0.0 < a && 0.0 < b && p == a * b
    ensures 0.0 < p
  {
  }

  lemma NegativeProduct(a: real, b: real, p: real)
    requires a < 0.0 && b < 0.0 && p == a * b
    ensures 0.0 < p
  {
  }

  lemma SquarePositive(a: real, p: real)
    requires p == a * a
    ensures 0.0 <= p
    ensures a != 0.0 <==> 0.0 < p
  {
    if 0.0 < a {
      PositiveProduct(a, a, p);
    } else if a < 0.0 {
      NegativeProduct(a, a, p);
    }
  }

  lemma SumOfSquares(x: real, y: real, px: real, py: real, p: real)
    requires px == x * x && py == y * y && p == px + py
    ensures 0.0 <= p
    ensures x != 0.0 || y != 0.0 <==> 0.0 < p
  {
    SquarePositive(x, px);
    SquarePositive(y, py);
  }

  lemma ScaledSquares(x: real, y: real, k: real, p: real, q: real)
    requires p == (x * k) * (x * k) + (y * k) * (y * k)
    requires q == x * x + y * y
    ensures p == k * k * q
  {
  }

  lemma ScaledUnitSquares(x: real, y: real, k: real, p: real, q: real)
    requires p == (x * k) * (x * k) + (y * k) * (y * k)
    requires q == x * x + y * y && q == 1.0
    ensures p == k * k
  {
    ScaledSquares(x, y, k, p, q);
  }

  lemma Inverse(l: real, k: real, s: real, p: real)
    requires 0.0 < l && k == 1.0 / l && s == l * l && p == k * k * s
    ensures p == 1.0 && 0.0 < k
  {
  }

  lemma SelfCross(x: real, y: real, c: real)
    requires c == x * y - y * x
    ensures c == 0.0
  {
  }

  lemma ScaledPair(ux: real, uy: real, vx: real, vy: real, k: real,
                   c: real, d: real, pc: real, pd: real)
    requires c == ux * vy - uy * vx && d == ux * vx + uy * vy
    requires pc == (ux * k) * vy - (uy * k) * vx && pd == (ux * k) * vx + (uy * k) * vy
    requires c == 0.0 && 0.0 < d && 0.0 < k
    ensures pc == 0.0 && 0.0 < pd
  {
    assert pc == k * c;
    assert pd == k * d;
    PositiveProduct(k, d, pd);
  }

  lemma SquareDifference(a: real, b: real, pa: real, pb: real, d: real)
    requires pa == a * a && pb == b * b && d == (b - a) * (b + a)
    ensures pb - pa == d
  {
  }

  lemma StrictSquare(a: real, b: real, pa: real, pb: real)
    requires 0.0 <= a < b && pa == a * a && pb == b * b
    ensures pa < pb
  {
    SquareDifference(a, b, pa, pb, (b - a) * (b + a));
    PositiveProduct(b - a, b + a, (b - a) * (b + a));
  }

  /** Squaring is strictly monotone on the non-negative reals. */
  lemma SquareLess(a: real, b: real, pa: real, pb: real)
    requires 0.0 <= a && 0.0 <= b && pa == a * a && pb == b * b
    ensures a < b <==> pa < pb
  {
    if a < b {
      StrictSquare(a, b, pa, pb);
    } else if b < a {
      StrictSquare(b, a, pb, pa);
    }
  }

  /** Two non-negative reals with the same square are equal. */
  lemma SquareEqual(a: real, b: real, pa: real, pb: real)
    requires 0.0 <= a && 0.0 <= b && pa == a * a && pb == b * b && pa == pb
    ensures a == b
  {
    SquareLess(a, b, pa, pb);
    SquareLess(b, a, pb, pa);
  }
}
