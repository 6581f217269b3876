/** Cartesian vectors over the reals, standing for Cesium's `Cartesian3` and the
    handful of its static operations the simulation uses (add, subtract,
    multiplyByScalar, magnitude, distance, normalize, cross).

    Doubles become reals. Two things a double computation has that a real one
    lacks are supplied by the caller in a `Numerics` record:
    - `sqrt`, the square root behind `magnitude`, `distance`, `normalize` and
      `Math.sqrt`, constrained by `Lawful`;
    - `finite`, the answer JavaScript's `isFinite` gives for the double that the
      source computes in place of a real value. Over the reals every value is
      finite; leaving the answer to the caller keeps the source's rejection
      branches in the model. */
module Vectors {

  datatype Vec3 = Vec3(x: real, y: real, z: real)

  const Zero: Vec3 := Vec3(0.0, 0.0, 0.0)
  const UnitZ: Vec3 := Vec3(0.0, 0.0, 1.0)

  function Add(a: Vec3, b: Vec3): Vec3 {
    Vec3(a.x + b.x, a.y + b.y, a.z + b.z)
  }

  function Sub(a: Vec3, b: Vec3): Vec3 {
    Vec3(a.x - b.x, a.y - b.y, a.z - b.z)
  }

  function Scale(v: Vec3, k: real): Vec3 {
    Vec3(k * v.x, k * v.y, k * v.z)
  }

  function Dot(a: Vec3, b: Vec3): real {
    a.x * b.x + a.y * b.y + a.z * b.z
  }

  function Cross(a: Vec3, b: Vec3): Vec3 {
    Vec3(a.y * b.z - a.z * b.y, a.z * b.x - a.x * b.z, a.x * b.y - a.y * b.x)
  }

  /** Squared magnitude: comparisons on it avoid square roots. */
  function Norm2(v: Vec3): real {
    Dot(v, v)
  }

  /** `a` is a positive multiple of `b` (and so both are non-zero). */
  predicate SameDirection(a: Vec3, b: Vec3) {
    Cross(a, b) == Zero && Dot(a, b) > 0.0
  }

  datatype Numerics = Numerics(sqrt: real -> real, finite: real -> bool)

  /** `sqrt` returns the non-negative square root of every non-negative real. */
  ghost predicate Lawful(n: Numerics) {
    forall x :: 0.0 <= x ==> 0.0 <= n.sqrt(x) && n.sqrt(x) * n.sqrt(x) == x
  }

  /** `isFinite` holds of every component. */
  predicate FiniteVec(v: Vec3, n: Numerics) {
    n.finite(v.x) && n.finite(v.y) && n.finite(v.z)
  }

  /** `Cartesian3.magnitude`. Its square is `Norm2(v)` (`MagnitudeSquared`). */
  function Magnitude(v: Vec3, n: Numerics): (m: real)
    requires Lawful(n)
    ensures 0.0 <= m
  {
    Norm2Nonnegative(v);
    n.sqrt(Norm2(v))
  }

  /** `Cartesian3.distance`. */
  function Distance(a: Vec3, b: Vec3, n: Numerics): (d: real)
    requires Lawful(n)
    ensures 0.0 <= d
  {
    Magnitude(Sub(a, b), n)
  }

  /** `Cartesian3.normalize`: the vector divided by its magnitude. Cesium yields
      NaN components for the zero vector (the only vector of magnitude 0); the
      model returns the zero vector. */
  function Normalize(v: Vec3, n: Numerics): (r: Vec3)
    requires Lawful(n)
    ensures Magnitude(v, n) == 0.0 ==> r == Zero
  {
    var m := Magnitude(v, n);
    if m == 0.0 then Zero else Scale(v, 1.0 / m)
  }

  /** Facts about magnitudes and unit vectors live in lemmas rather than in the
      functions' own contracts: as contracts they would be handed to the solver
      wherever the functions are mentioned. */

  lemma MagnitudeSquared(v: Vec3, n: Numerics)
    requires Lawful(n)
    ensures Magnitude(v, n) * Magnitude(v, n) == Norm2(v)
  {
    Norm2Nonnegative(v);
  }

  /** A non-zero vector normalises to a unit vector pointing its way. */
  lemma NormalizeUnit(v: Vec3, n: Numerics)
    requires Lawful(n) && 0.0 < Norm2(v)
    ensures Norm2(Normalize(v, n)) == 1.0 && SameDirection(Normalize(v, n), v)
  {
    var m := Magnitude(v, n);
    MagnitudeSquared(v, n);
    if m == 0.0 {
      assert false;
    }
    UnitScaling(v, m);
  }

  lemma MagnitudeZero(n: Numerics)
    requires Lawful(n)
    ensures Magnitude(Zero, n) == 0.0
  {
    SqrtUnique(n, 0.0, 0.0);
  }

  lemma NormalizeZero(v: Vec3, n: Numerics)
    requires Lawful(n) && Norm2(v) == 0.0
    ensures Normalize(v, n) == Zero
  {
    SqrtUnique(n, 0.0, 0.0);
  }

  // ---------------------------------------------------------------------------
  // Algebra of squared magnitudes

  lemma SquareNonnegative(a: real)
    ensures a * a >= 0.0
  {
    if a < 0.0 {
      assert a * a == (-a) * (-a);
    }
  }

  lemma Norm2Nonnegative(v: Vec3)
    ensures 0.0 <= Norm2(v)
  {
  }

  /** Only the zero vector has squared magnitude zero. */
  lemma Norm2Positive(v: Vec3)
    requires v != Zero
    ensures 0.0 < Norm2(v)
  {
    SquareNonnegative(v.x);
    SquareNonnegative(v.y);
    SquareNonnegative(v.z);
    if v.x != 0.0 {
      SquareStrictMono(0.0, if v.x < 0.0 then -v.x else v.x);
    } else if v.y != 0.0 {
      SquareStrictMono(0.0, if v.y < 0.0 then -v.y else v.y);
    } else {
      SquareStrictMono(0.0, if v.z < 0.0 then -v.z else v.z);
    }
  }

  lemma Norm2Scale(v: Vec3, k: real)
    ensures Norm2(Scale(v, k)) == k * k * Norm2(v)
  {
  }

  lemma DotScale(a: Vec3, b: Vec3, k: real)
    ensures Dot(Scale(a, k), b) == k * Dot(a, b)
  {
  }

  lemma CrossScaleSelf(v: Vec3, k: real)
    ensures Cross(Scale(v, k), v) == Zero
  {
  }

  /** A positive multiple of a non-zero vector points the same way. */
  lemma PositiveMultiple(v: Vec3, k: real)
    requires 0.0 < Norm2(v) && 0.0 < k
    ensures SameDirection(Scale(v, k), v)
  {
    DotScale(v, v, k);
    CrossScaleSelf(v, k);
    assert k * Norm2(v) > 0.0;
  }

  /** Dividing a non-zero vector by its magnitude gives a unit vector along it. */
  lemma UnitScaling(v: Vec3, m: real)
    requires 0.0 < m && m * m == Norm2(v)
    ensures Norm2(Scale(v, 1.0 / m)) == 1.0 && SameDirection(Scale(v, 1.0 / m), v)
  {
    Norm2Scale(v, 1.0 / m);
    assert (1.0 / m) * (1.0 / m) * (m * m) == 1.0;
    PositiveMultiple(v, 1.0 / m);
  }

  lemma PositiveProduct(a: real, b: real)
    requires 0.0 < a && 0.0 < b
    ensures 0.0 < a * b
  {
  }

  lemma PositiveQuotient(a: real, q: real)
    requires 0.0 < a && 0.0 < q
    ensures 0.0 < a / q
  {
    assert a == (a / q) * q;
    if a / q <= 0.0 {
      assert false;
    }
  }

  /** Stretching a vector by a positive factor keeps its direction. */
  lemma SameDirectionScale(a: Vec3, b: Vec3, k: real)
    requires SameDirection(a, b) && 0.0 < k
    ensures SameDirection(Scale(a, k), b)
  {
    assert Cross(Scale(a, k), b) == Scale(Cross(a, b), k);
    DotScale(a, b, k);
    PositiveProduct(k, Dot(a, b));
  }

  // ---------------------------------------------------------------------------
  // Square roots: comparisons on magnitudes are comparisons on their squares

  lemma SquareMono(a: real, b: real)
    requires 0.0 <= a <= b
    ensures a * a <= b * b
  {
    assert a * (b - a) >= 0.0;
    assert b * (b - a) >= 0.0;
  }

  lemma SquareStrictMono(a: real, b: real)
    requires 0.0 <= a < b
    ensures a * a < b * b
  {
    assert a * (b - a) >= 0.0;
    assert b * (b - a) > 0.0;
  }

  /** For non-negative `m` and `c`: `m < c` exactly when `m² < c²`. */
  lemma LessIffSquareLess(m: real, c: real)
    requires 0.0 <= m && 0.0 <= c
    ensures m < c <==> m * m < c * c
  {
    if m < c {
      SquareStrictMono(m, c);
    } else {
      SquareMono(c, m);
    }
  }

  /** The square root of a non-negative real is the only non-negative real
      whose square it is. */
  lemma SqrtUnique(n: Numerics, x: real, y: real)
    requires Lawful(n)
    requires 0.0 <= y && y * y == x
    ensures n.sqrt(x) == y
  {
    var s := n.sqrt(x);
    assert 0.0 <= s && s * s == x;
    if s < y {
      SquareStrictMono(s, y);
    } else if y < s {
      SquareStrictMono(y, s);
    }
  }

  lemma MagnitudeLess(v: Vec3, c: real, n: Numerics)
    requires Lawful(n) && 0.0 <= c
    ensures Magnitude(v, n) < c <==> Norm2(v) < c * c
  {
    MagnitudeSquared(v, n);
    LessIffSquareLess(Magnitude(v, n), c);
  }

  lemma UnitMagnitude(v: Vec3, n: Numerics)
    requires Lawful(n) && Norm2(v) == 1.0
    ensures Magnitude(v, n) == 1.0
  {
    SqrtUnique(n, 1.0, 1.0);
  }
}
