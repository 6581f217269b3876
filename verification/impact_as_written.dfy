/** The impact branch of the `onTick` listener in `src/App.tsx` exactly as it is
    written. After zeroing the velocity and the acceleration it calls
    `Cartesian3.multiplyByScalar(normalize(position), EARTH_RADIUS)` without the
    `result` argument that Cesium writes into, so the call throws a TypeError.
    The satellite is then left below the surface and not dead. The exception
    also leaves the listener, so no satellite after it in the registry is
    updated in that tick.

    `SatTick.Step` is the corrected behaviour: it clamps the satellite to the
    surface and marks it dead (`TickLaws.ImpactStops`, `TickLaws.ImpactOnSurface`). */
module ImpactAsWritten {
  import opened Vectors
  import opened SafeVec
  import opened LaunchSat
  import opened SatTick
  import opened TickLaws

  /** How the listener finishes with one satellite: normally, or by throwing
      with the satellite in the state it had reached. */
  datatype Outcome = Done(sat: Sat) | Raised(sat: Sat)

  /** One satellite's update as written. */
  function StepAsWritten(s: Sat, n: Numerics): (o: Outcome)
    requires Lawful(n)
    ensures o.Raised? <==> Impacts(s, n)
    ensures o.Done? ==> o.sat == Step(s, n)
  {
    if Skipped(s, n) then Done(s)
    else
      var m := Advance(s, n);
      if !FiniteVec(m.position, n) then
        Done(s.(velocity := m.velocity, burnTime := m.burnTime))
      else if Sinks(m, n) then
        // The velocity and the acceleration are already zero and the position
        // is already the new one when the scaling call throws.
        Raised(s.(position := m.position, velocity := Zero, acceleration := Zero,
                  burnTime := m.burnTime))
      else
        var t := Record(s, Land(s, m, n), n);
        assert Step(s, n) == t;
        Done(t)
  }

  /** On impact the code as written stops the satellite but leaves it alive,
      at its new position below the surface. */
  lemma ImpactLeavesAlive(s: Sat, n: Numerics)
    requires Lawful(n) && Impacts(s, n)
    ensures var o := StepAsWritten(s, n);
      && o.Raised? && !o.sat.dead
      && o.sat.velocity == Zero && o.sat.acceleration == Zero
      && o.sat.position == Advance(s, n).position
  {
  }

  /** The corrected step marks the same satellite dead. */
  lemma ImpactKillsWhenCorrected(s: Sat, n: Numerics)
    requires Lawful(n) && Impacts(s, n)
    ensures !StepAsWritten(s, n).sat.dead && Step(s, n).dead
  {
    ImpactLeavesAlive(s, n);
    DeadOnlyByImpact(s, n);
  }

  /** One tick as written. The satellites are updated in registry order, and
      the first one that raises stops the tick. The flag says whether the tick
      raised. */
  function TickAsWritten(reg: seq<Sat>, n: Numerics): (r: (seq<Sat>, bool))
    requires Lawful(n)
    ensures |r.0| == |reg|
    ensures r.1 <==> exists i :: 0 <= i < |reg| && Impacts(reg[i], n)
    decreases |reg|
  {
    if |reg| == 0 then ([], false)
    else
      match StepAsWritten(reg[0], n)
      case Raised(t) =>
        ([t] + reg[1..], true)
      case Done(t) =>
        var rest := TickAsWritten(reg[1..], n);
        assert forall i :: 1 <= i < |reg| ==> reg[i] == reg[1..][i - 1];
        ([t] + rest.0, rest.1)
  }

  /** When no satellite impacts, the tick as written is the corrected tick. */
  lemma {:induction false} NoImpactAgrees(reg: seq<Sat>, n: Numerics)
    requires Lawful(n)
    requires forall i :: 0 <= i < |reg| ==> !Impacts(reg[i], n)
    ensures TickAsWritten(reg, n).0 == Tick(reg, n)
    decreases |reg|
  {
    if |reg| > 0 {
      assert !Impacts(reg[0], n);
      var rest := reg[1..];
      assert forall i :: 0 <= i < |rest| ==> rest[i] == reg[i + 1];
      NoImpactAgrees(rest, n);
      var r := TickAsWritten(reg, n).0;
      assert r == [Step(reg[0], n)] + Tick(rest, n);
      assert forall i :: 0 <= i < |reg| ==> r[i] == Step(reg[i], n);
    }
  }

  /** When satellite `j` is the first to impact, the tick as written updates
      the satellites before it as the corrected tick does ... */
  lemma {:induction false} BeforeFirstImpact(reg: seq<Sat>, j: nat, n: Numerics)
    requires Lawful(n) && j < |reg| && Impacts(reg[j], n)
    requires forall i :: 0 <= i < j ==> !Impacts(reg[i], n)
    ensures forall i :: 0 <= i < j ==> TickAsWritten(reg, n).0[i] == Step(reg[i], n)
    decreases j
  {
    if j > 0 {
      assert !Impacts(reg[0], n);
      assert StepAsWritten(reg[0], n) == Done(Step(reg[0], n));
      var rest := reg[1..];
      assert forall i :: 0 <= i < |rest| ==> rest[i] == reg[i + 1];
      BeforeFirstImpact(rest, j - 1, n);
      var q := TickAsWritten(rest, n);
      assert TickAsWritten(reg, n).0 == [Step(reg[0], n)] + q.0;
    }
  }

  /** ... raises at `j`, leaving it alive below the surface, and does not
      touch the satellites after it. */
  lemma {:induction false} FirstImpactStops(reg: seq<Sat>, j: nat, n: Numerics)
    requires Lawful(n) && j < |reg| && Impacts(reg[j], n)
    requires forall i :: 0 <= i < j ==> !Impacts(reg[i], n)
    ensures var r := TickAsWritten(reg, n);
      r.1 && r.0[j] == StepAsWritten(reg[j], n).sat && r.0[j + 1..] == reg[j + 1..]
    decreases j
  {
    var r := TickAsWritten(reg, n);
    if j == 0 {
      assert StepAsWritten(reg[0], n).Raised?;
      assert r.0 == [StepAsWritten(reg[0], n).sat] + reg[1..];
    } else {
      assert !Impacts(reg[0], n);
      assert StepAsWritten(reg[0], n) == Done(Step(reg[0], n));
      var rest := reg[1..];
      assert forall i :: 0 <= i < |rest| ==> rest[i] == reg[i + 1];
      FirstImpactStops(rest, j - 1, n);
      var q := TickAsWritten(rest, n);
      assert r == ([Step(reg[0], n)] + q.0, q.1);
      assert r.0[j + 1..] == q.0[j..];
      assert rest[j..] == reg[j + 1..];
    }
  }

  /** A satellite 100 m above the ground, falling straight down at 1 km/s,
      with no burn left. */
  const Falling: Sat :=
    Sat(Vec3(0.0, 0.0, EarthRadius + 100.0), Vec3(0.0, 0.0, -1000.0), Zero, 0.0, [], Idle, false)

  /** The pull of gravity on it, G·M / (R + 100 m)², and the push of drag,
      1000 m/s times the drag factor at 100 m, in m/s². */
  const Pull: real := 398589196000000.0 / 40590915210000.0
  const Lift: real := 0.000999

  /** Above the threshold, a point on the +Z axis points along +Z. */
  lemma VecSafeOnAxis(z: real, n: Numerics)
    requires Lawful(n) && Epsilon <= z
    ensures Magnitude(Vec3(0.0, 0.0, z), n) == z
    ensures VecSafe(Vec3(0.0, 0.0, z), n) == UnitZ
  {
    assert Norm2(Vec3(0.0, 0.0, z)) == z * z;
    SqrtUnique(n, z * z, z);
    assert (1.0 / z) * z == 1.0;
  }

  /** The falling satellite is simulated, at radius `R + 100`. */
  lemma FallingRadius(n: Numerics)
    requires Lawful(n) && forall x :: n.finite(x)
    ensures Magnitude(Falling.position, n) == EarthRadius + 100.0
    ensures !Skipped(Falling, n)
  {
    VecSafeOnAxis(EarthRadius + 100.0, n);
  }

  lemma FallingGravity(n: Numerics)
    requires Lawful(n)
    ensures Gravity(Falling.position, EarthRadius + 100.0, n) ==
      Vec3(0.0, 0.0, -Pull)
  {
    VecSafeOnAxis(EarthRadius + 100.0, n);
  }

  lemma FallingDrag()
    ensures Drag(Falling.velocity, 100.0) == Vec3(0.0, 0.0, Lift)
  {
  }

  /** With the burn over, a satellite on the +Z axis accelerates along it by
      its gravity plus its drag. */
  lemma CoastingAcceleration(s: Sat, n: Numerics, g: real, d: real)
    requires Lawful(n) && !Skipped(s, n) && s.burnTime <= 0.0
    requires Gravity(s.position, Magnitude(s.position, n), n) == Vec3(0.0, 0.0, g)
    requires Drag(s.velocity, Magnitude(s.position, n) - EarthRadius) == Vec3(0.0, 0.0, d)
    ensures Acceleration(s, n) == Vec3(0.0, 0.0, g + d)
  {
  }

  /** Its acceleration: gravity straight down, drag straight up. */
  lemma FallingAcceleration(n: Numerics)
    requires Lawful(n) && !Skipped(Falling, n)
    ensures Acceleration(Falling, n) == Vec3(0.0, 0.0, -Pull + Lift)
  {
    VecSafeOnAxis(EarthRadius + 100.0, n);
    FallingGravity(n);
    FallingDrag();
    CoastingAcceleration(Falling, n, -Pull, Lift);
  }

  /** Gravity at 100 m pulls by less than 10 m/s². */
  lemma GravityBelowTen()
    ensures 0.0 < Pull < 10.0
  {
    var q := (EarthRadius + 100.0) * (EarthRadius + 100.0);
    assert Mu < 10.0 * q;
    PositiveQuotient(Mu, q);
    assert Mu / q * q == Mu;
  }

  /** The falling satellite ends the tick below the surface, at a height
      above the centre that is still positive. */
  lemma FallingSinks(n: Numerics)
    requires Lawful(n) && forall x :: n.finite(x)
    ensures Impacts(Falling, n)
  {
    FallingRadius(n);
    FallingAcceleration(n);
    GravityBelowTen();
    var m := Advance(Falling, n);
    var z := EarthRadius + 100.0 - 1000.0 - Pull + Lift;
    assert m.position == Vec3(0.0, 0.0, z);
    VecSafeOnAxis(z, n);
  }

  /** A concrete input: the code as written throws for `Falling` and leaves it
      alive, where the corrected step marks it dead. */
  lemma ImpactExample(n: Numerics)
    requires Lawful(n) && forall x :: n.finite(x)
    ensures StepAsWritten(Falling, n).Raised?
    ensures !StepAsWritten(Falling, n).sat.dead && Step(Falling, n).dead
  {
    FallingSinks(n);
    ImpactKillsWhenCorrected(Falling, n);
  }
}
