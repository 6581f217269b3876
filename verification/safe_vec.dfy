/** The defensive vector helpers of `src/utils/vecSafe.ts`: operations that are
    total and fall back to fixed vectors instead of dividing by (nearly) zero or
    dereferencing a missing operand. */
module SafeVec {
  import opened Options
  import opened Vectors

  /** Magnitudes at or below this threshold count as degenerate. */
  const Epsilon: real := 0.000001

  /** `vecSafe`: the unit vector along `v`, or +Z when `|v| < Epsilon`. */
  function VecSafe(v: Vec3, n: Numerics): (r: Vec3)
    requires Lawful(n)
    ensures Magnitude(v, n) < Epsilon ==> r == UnitZ
    ensures r != Zero
  {
    if Magnitude(v, n) < Epsilon then UnitZ
    else
      MagnitudeLess(v, Epsilon, n);
      NormalizeUnit(v, n);
      Normalize(v, n)
  }

  /** The fallback, stated on the squared magnitude. */
  lemma VecSafeFallback(v: Vec3, n: Numerics)
    requires Lawful(n) && Norm2(v) < Epsilon * Epsilon
    ensures VecSafe(v, n) == UnitZ
  {
    MagnitudeLess(v, Epsilon, n);
  }

  /** Above the threshold `vecSafe` is a positive multiple of `v`. */
  lemma VecSafeDirection(v: Vec3, n: Numerics)
    requires Lawful(n) && Norm2(v) >= Epsilon * Epsilon
    ensures SameDirection(VecSafe(v, n), v)
  {
    MagnitudeLess(v, Epsilon, n);
    NormalizeUnit(v, n);
  }

  /** `vecSafe` always returns a unit vector. */
  lemma VecSafeUnit(v: Vec3, n: Numerics)
    requires Lawful(n)
    ensures Norm2(VecSafe(v, n)) == 1.0
  {
    MagnitudeLess(v, Epsilon, n);
    if Magnitude(v, n) >= Epsilon {
      NormalizeUnit(v, n);
    }
  }

  /** `isValidVec`: the magnitude is finite and strictly above `Epsilon`. */
  function IsValidVec(v: Vec3, n: Numerics): (ok: bool)
    requires Lawful(n)
    ensures ok ==> n.finite(Magnitude(v, n))
    ensures v == Zero ==> !ok
  {
    var m := Magnitude(v, n);
    SqrtUnique(n, 0.0, 0.0);
    n.finite(m) && m > Epsilon
  }

  /** Validity on the squared magnitude. */
  lemma IsValidVecSquared(v: Vec3, n: Numerics)
    requires Lawful(n)
    ensures IsValidVec(v, n) <==> n.finite(Magnitude(v, n)) && Norm2(v) > Epsilon * Epsilon
  {
    MagnitudeSquared(v, n);
    LessIffSquareLess(Epsilon, Magnitude(v, n));
  }

  /** `safeClone`: a copy of a valid vector, +Z for an invalid one. */
  function SafeClone(v: Vec3, n: Numerics): (r: Vec3)
    requires Lawful(n)
    ensures IsValidVec(v, n) ==> r == v
    ensures !IsValidVec(v, n) ==> r == UnitZ
  {
    if IsValidVec(v, n) then v else UnitZ
  }

  /** `safeAdd`: componentwise sum, a missing operand counting as zero. */
  function SafeAdd(a: Option<Vec3>, b: Option<Vec3>): (r: Vec3)
    ensures b.None? ==> r == a.GetOr(Zero)
    ensures a.None? ==> r == b.GetOr(Zero)
    ensures a.Some? && b.Some? ==> r == Add(a.value, b.value)
  {
    Add(a.GetOr(Zero), b.GetOr(Zero))
  }

  /** `safeMul`: componentwise scaling, a missing vector counting as zero. */
  function SafeMul(v: Option<Vec3>, k: real): (r: Vec3)
    ensures v.None? ==> r == Zero
    ensures v.Some? ==> r == Scale(v.value, k)
  {
    Scale(v.GetOr(Zero), k)
  }

  // ---------------------------------------------------------------------------
  // Properties

  /** At magnitude exactly `Epsilon` the two guards disagree: `isValidVec`
      rejects the vector while `vecSafe` normalises it instead of falling back. */
  lemma BoundaryMismatch(v: Vec3, n: Numerics)
    requires Lawful(n) && Norm2(v) == Epsilon * Epsilon
    ensures !IsValidVec(v, n)
    ensures VecSafe(v, n) == Scale(v, 1.0 / Epsilon)
  {
    SqrtUnique(n, Norm2(v), Epsilon);
    assert Magnitude(v, n) == Epsilon;
    NormalizeUnit(v, n);
  }

  /** A concrete vector on that boundary: invalid, yet `vecSafe` maps it to +X. */
  lemma BoundaryExample(n: Numerics)
    requires Lawful(n)
    ensures !IsValidVec(Vec3(Epsilon, 0.0, 0.0), n)
    ensures VecSafe(Vec3(Epsilon, 0.0, 0.0), n) == Vec3(1.0, 0.0, 0.0)
  {
    BoundaryMismatch(Vec3(Epsilon, 0.0, 0.0), n);
  }

  /** Cloning twice is cloning once. */
  lemma SafeCloneIdempotent(v: Vec3, n: Numerics)
    requires Lawful(n)
    ensures SafeClone(SafeClone(v, n), n) == SafeClone(v, n)
  {
  }

  /** When 1 is finite the clone is always valid. */
  lemma SafeCloneValid(v: Vec3, n: Numerics)
    requires Lawful(n) && n.finite(1.0)
    ensures IsValidVec(SafeClone(v, n), n)
  {
    if !IsValidVec(v, n) {
      assert Norm2(UnitZ) == 1.0;
      UnitMagnitude(UnitZ, n);
      assert IsValidVec(UnitZ, n);
    }
  }

  lemma SafeAddCommutative(a: Option<Vec3>, b: Option<Vec3>)
    ensures SafeAdd(a, b) == SafeAdd(b, a)
  {
  }

  /** Scaling distributes over the safe sum. */
  lemma SafeMulDistributes(a: Option<Vec3>, b: Option<Vec3>, k: real)
    ensures SafeMul(Some(SafeAdd(a, b)), k) == SafeAdd(Some(SafeMul(a, k)), Some(SafeMul(b, k)))
  {
  }
}
