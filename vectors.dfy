/**
 * Two-dimensional vectors (System.Numerics.Vector2) over exact reals, and
 * the two distance tests the planner uses: the strict
 * `DistanceLessThanOrEqual` extension and the closed `Distance(...) <= r`
 * comparison applied to relics.
 *
 * Every product of two reals goes through `Mul`, and the few facts about
 * products that the rest of the model needs are proved once, below.
 */
module Vectors {

  datatype Vector2 = Vector2(x: real, y: real)

  const Zero: Vector2 := Vector2(0.0, 0.0)

  /** Real multiplication. */
  function Mul(a: real, b: real): real {
    a * b
  }

  lemma MulPositive(a: real, b: real)
    requires (a > 0.0 && b > 0.0) || (a < 0.0 && b < 0.0)
    ensures Mul(a, b) > 0.0
  {
  }

  lemma MulNonNegative(a: real, b: real)
    requires a >= 0.0 && b >= 0.0
    ensures Mul(a, b) >= 0.0
  {
  }

  lemma MulByZero(a: real, b: real)
    requires a == 0.0 || b == 0.0
    ensures Mul(a, b) == 0.0
  {
  }

  function Square(r: real): real {
    Mul(r, r)
  }

  lemma SquarePositive(r: real)
    requires r != 0.0
    ensures Square(r) > 0.0
  {
    MulPositive(r, r);
  }

  lemma SquareNonNegative(r: real)
    ensures Square(r) >= 0.0
  {
    if r != 0.0 {
      SquarePositive(r);
    } else {
      MulByZero(r, r);
    }
  }

  function Add(a: Vector2, b: Vector2): Vector2 {
    Vector2(a.x + b.x, a.y + b.y)
  }

  function Sub(a: Vector2, b: Vector2): Vector2 {
    Vector2(a.x - b.x, a.y - b.y)
  }

  /** `v * k` */
  function Scale(v: Vector2, k: real): Vector2 {
    Vector2(Mul(v.x, k), Mul(v.y, k))
  }

  function LengthSquared(v: Vector2): real {
    Square(v.x) + Square(v.y)
  }

  function DistanceSquared(a: Vector2, b: Vector2): real {
    LengthSquared(Sub(a, b))
  }

  /** The `DistanceLessThanOrEqual` extension: despite its name, a STRICT test on squares. */
  predicate DistanceLessThanOrEqual(v: Vector2, other: Vector2, distance: real) {
    DistanceSquared(v, other) < Square(distance)
  }

  /** `v.Distance(other) <= radius`, stated without a square root. */
  predicate WithinDistance(v: Vector2, other: Vector2, radius: real) {
    0.0 <= radius && DistanceSquared(v, other) <= Square(radius)
  }

  /** `v.Length() < d`, stated without a square root (a length is never negative). */
  predicate LengthLessThan(v: Vector2, d: real) {
    0.0 < d && LengthSquared(v) < Square(d)
  }

  /** `Vector2.Lerp(a, b, t)` in exact arithmetic. */
  function Lerp(a: Vector2, b: Vector2, t: real): Vector2 {
    Add(a, Scale(Sub(b, a), t))
  }

  /** `(a + b) / 2` */
  function Midpoint(a: Vector2, b: Vector2): Vector2 {
    Vector2((a.x + b.x) / 2.0, (a.y + b.y) / 2.0)
  }

  lemma DistanceSquaredSymmetric(a: Vector2, b: Vector2)
    ensures DistanceSquared(a, b) == DistanceSquared(b, a)
  {
  }

  lemma DistanceSquaredSelf(v: Vector2)
    ensures DistanceSquared(v, v) == 0.0
  {
    MulByZero(v.x - v.x, v.x - v.x);
    MulByZero(v.y - v.y, v.y - v.y);
  }

  lemma StrictTestSymmetric(a: Vector2, b: Vector2, d: real)
    ensures DistanceLessThanOrEqual(a, b, d) <==> DistanceLessThanOrEqual(b, a, d)
  {
    DistanceSquaredSymmetric(a, b);
  }

  /** Under the strict test a point is near itself exactly when the distance is not 0. */
  lemma StrictTestOnSamePoint(v: Vector2, d: real)
    ensures DistanceLessThanOrEqual(v, v, d) <==> d != 0.0
  {
    if d != 0.0 {
      SamePointPasses(v, d);
    } else {
      SamePointFailsAtZero(v, d);
    }
  }

  lemma SamePointPasses(v: Vector2, d: real)
    requires d != 0.0
    ensures DistanceLessThanOrEqual(v, v, d)
  {
    DistanceSquaredSelf(v);
    SquarePositive(d);
  }

  lemma SamePointFailsAtZero(v: Vector2, d: real)
    requires d == 0.0
    ensures !DistanceLessThanOrEqual(v, v, d)
  {
    MulByZero(d, d);
  }

  /**
   * The boundary separates the two tests: a point at exactly distance d
   * along the x axis passes `Distance <= d` but fails
   * `DistanceLessThanOrEqual(…, d)`.
   */
  lemma BoundaryExcludedOnlyByStrictTest(v: Vector2, d: real)
    requires d >= 0.0
    ensures WithinDistance(v, Vector2(v.x + d, v.y), d)
    ensures !DistanceLessThanOrEqual(v, Vector2(v.x + d, v.y), d)
  {
    var w := Vector2(v.x + d, v.y);
    assert Sub(v, w) == Vector2(-d, 0.0);
    MulByZero(0.0, 0.0);
    assert Square(-d) == Square(d);
  }

  /** Interpolating from b back to a at 1 - t gives the point at t from a to b. */
  lemma LerpReversed(a: Vector2, b: Vector2, t: real)
    ensures Lerp(b, a, 1.0 - t) == Lerp(a, b, t)
  {
  }

  lemma LerpAtOne(a: Vector2, b: Vector2)
    ensures Lerp(a, b, 1.0) == b
  {
  }

  lemma LerpAtZero(a: Vector2, b: Vector2)
    ensures Lerp(a, b, 0.0) == a
  {
    MulByZero(b.x - a.x, 0.0);
    MulByZero(b.y - a.y, 0.0);
  }

  lemma LerpSamePoint(a: Vector2, t: real)
    ensures Lerp(a, a, t) == a
  {
    MulByZero(a.x - a.x, t);
    MulByZero(a.y - a.y, t);
  }

  lemma MidpointIsHalfway(a: Vector2, b: Vector2)
    ensures Midpoint(a, b) == Lerp(a, b, 0.5)
  {
  }

  lemma DivideSum(a: real, b: real, q: real)
    requires q != 0.0
    ensures a / q + b / q == (a + b) / q
  {
  }

  lemma DivideSelf(q: real)
    requires q != 0.0
    ensures q / q == 1.0
  {
  }

  /** i/n and (n-i)/n add up to one. */
  lemma FractionComplement(i: nat, n: nat)
    requires i <= n && n >= 1
    ensures 1.0 - ((n - i) as real) / (n as real) == (i as real) / (n as real)
  {
    var q := n as real;
    var a, b := (n - i) as real, i as real;
    assert a + b == q;
    DivideSum(a, b, q);
    DivideSelf(q);
  }
}
