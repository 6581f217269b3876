/** What the per-tick update of `src/App.tsx` guarantees: frozen dead
    satellites, a bounded trail, an exact burn countdown, the physics of each
    force, and a classifier that agrees with its square-free reference. */
module TickLaws {
  import opened Vectors
  import opened SafeVec
  import opened LaunchSat
  import opened SatTick

  // ---------------------------------------------------------------------------
  // Skipping, freezing and impact

  /** The tick kills the satellite: it is simulated, its new position is
      finite and lies below the surface. */
  predicate Impacts(s: Sat, n: Numerics)
    requires Lawful(n)
  {
    !Skipped(s, n) && FiniteVec(Advance(s, n).position, n) && Sinks(Advance(s, n), n)
  }

  /** `dead` is set by an impact and by nothing else, and is never cleared. */
  lemma DeadOnlyByImpact(s: Sat, n: Numerics)
    requires Lawful(n)
    ensures Step(s, n).dead <==> s.dead || Impacts(s, n)
  {
    if !Skipped(s, n) && FiniteVec(Advance(s, n).position, n) {
      var m := Advance(s, n);
      assert Step(s, n) == Record(s, Land(s, m, n), n);
    }
  }

  /** A dead satellite is never changed again, however many ticks pass. */
  lemma {:induction false} DeadStaysFrozen(s: Sat, k: nat, n: Numerics)
    requires Lawful(n) && s.dead
    ensures Run(s, k, n) == s
  {
    if k > 0 {
      assert Step(s, n) == s;
      DeadStaysFrozen(s, k - 1, n);
    }
  }

  /** On impact the satellite stops, loses its burn, dies and then stays where
      it is for good ... */
  lemma ImpactStops(s: Sat, k: nat, n: Numerics)
    requires Lawful(n) && Impacts(s, n)
    ensures var t := Step(s, n);
      && t.dead && t.velocity == Zero && t.acceleration == Zero
      && Run(t, k, n) == t
  {
    var m := Advance(s, n);
    assert Step(s, n) == Record(s, Land(s, m, n), n);
    DeadStaysFrozen(Step(s, n), k, n);
  }

  /** ... and, unless it fell exactly to the centre, it is put on the surface
      sphere ... */
  lemma ImpactOnSurface(s: Sat, n: Numerics)
    requires Lawful(n) && Impacts(s, n) && 0.0 < Norm2(Advance(s, n).position)
    ensures Norm2(Step(s, n).position) == EarthRadius * EarthRadius
  {
    ImpactClamps(s, n);
    ClampOnSurface(Advance(s, n).position, n);
  }

  /** ... straight below its new position. */
  lemma ImpactBelowFall(s: Sat, n: Numerics)
    requires Lawful(n) && Impacts(s, n) && 0.0 < Norm2(Advance(s, n).position)
    ensures SameDirection(Step(s, n).position, Advance(s, n).position)
  {
    ImpactClamps(s, n);
    ClampOnSurface(Advance(s, n).position, n);
  }

  /** On impact the new position is replaced by its clamp to the surface. */
  lemma ImpactClamps(s: Sat, n: Numerics)
    requires Lawful(n) && Impacts(s, n)
    ensures Step(s, n).position == Clamp(Advance(s, n).position, n)
  {
    var m := Advance(s, n);
    assert Step(s, n) == Record(s, Land(s, m, n), n);
  }

  /** The clamp puts a point other than the centre on the surface sphere,
      along its own direction. */
  lemma ClampOnSurface(p: Vec3, n: Numerics)
    requires Lawful(n) && 0.0 < Norm2(p)
    ensures Norm2(Clamp(p, n)) == EarthRadius * EarthRadius
    ensures SameDirection(Clamp(p, n), p)
  {
    var u := Normalize(p, n);
    NormalizeUnit(p, n);
    ScaleUnit(u, EarthRadius);
    SameDirectionScale(u, p, EarthRadius);
  }

  /** A satellite that hits the ground has speed zero, so it is reported as
      crashing when it started the tick below the crash altitude ... */
  lemma ImpactLowCrashes(s: Sat, n: Numerics)
    requires Lawful(n) && Impacts(s, n) && Altitude(s, n) < CrashAltitude
    ensures Step(s, n).status == Crashing
  {
    var l := Land(s, Advance(s, n), n);
    assert Step(s, n) == Record(s, l, n);
    RestingLowCrashes(s, l, n);
  }

  /** ... and as orbiting otherwise: never as escaping, and never as crashing
      when it fell from higher up. */
  lemma ImpactHighOrbits(s: Sat, n: Numerics)
    requires Lawful(n) && Impacts(s, n) && Altitude(s, n) >= CrashAltitude
    ensures Step(s, n).status == Orbiting
  {
    var l := Land(s, Advance(s, n), n);
    assert Step(s, n) == Record(s, l, n);
    RestingHighOrbits(s, l, n);
  }

  /** A satellite left at rest below the crash altitude is reported crashing. */
  lemma RestingLowCrashes(s: Sat, l: Sat, n: Numerics)
    requires Lawful(n) && !Skipped(s, n) && l.velocity == Zero
    ensures Altitude(s, n) < CrashAltitude ==> Record(s, l, n).status == Crashing
  {
    MagnitudeZero(n);
  }

  /** A satellite left at rest at or above the crash altitude is reported orbiting. */
  lemma RestingHighOrbits(s: Sat, l: Sat, n: Numerics)
    requires Lawful(n) && !Skipped(s, n) && l.velocity == Zero
    ensures Altitude(s, n) >= CrashAltitude ==> Record(s, l, n).status == Orbiting
  {
    MagnitudeZero(n);
  }

  /** `src/App.tsx`, lines 119-126: a non-finite new position is discarded, but the velocity
      and the burn time have already been updated. */
  lemma RejectedStep(s: Sat, n: Numerics)
    requires Lawful(n) && !Skipped(s, n) && !FiniteVec(Advance(s, n).position, n)
    ensures var t := Step(s, n);
      && t.position == s.position && t.trail == s.trail && t.status == s.status
      && t.dead == s.dead && t.acceleration == s.acceleration
      && Sub(t.velocity, s.velocity) == Acceleration(s, n)
      && t.burnTime == Thrust(s).1
  {
  }

  /** Without impact, the new velocity is the old one plus the total
      acceleration and the satellite moves by the NEW velocity. */
  lemma StepIntegrates(s: Sat, n: Numerics)
    requires Lawful(n) && !Skipped(s, n)
    requires FiniteVec(Advance(s, n).position, n) && !Sinks(Advance(s, n), n)
    ensures var t := Step(s, n);
      && Sub(t.velocity, s.velocity) == Acceleration(s, n)
      && Sub(t.position, s.position) == t.velocity
      && !t.dead && t.acceleration == s.acceleration
  {
    var m := Advance(s, n);
    assert Step(s, n) == Record(s, Land(s, m, n), n);
  }

  /** A satellite whose tick goes through is never left "idle". */
  lemma ProcessedNeverIdle(s: Sat, n: Numerics)
    requires Lawful(n) && !Skipped(s, n) && FiniteVec(Advance(s, n).position, n)
    ensures Step(s, n).status != Idle
  {
    assert Step(s, n) == Record(s, Land(s, Advance(s, n), n), n);
  }

  /** The status a processed tick sets is the square-free classification of
      the altitude before the tick and the velocity after it. */
  lemma StepStatus(s: Sat, n: Numerics)
    requires Lawful(n) && !Skipped(s, n) && FiniteVec(Advance(s, n).position, n)
    ensures EarthRadius + Altitude(s, n) > 0.0
    ensures Step(s, n).status == ClassifyBySquares(Altitude(s, n), Step(s, n).velocity)
  {
    var t := Step(s, n);
    assert t == Record(s, Land(s, Advance(s, n), n), n);
    ClassifyAgrees(Altitude(s, n), t.velocity, n);
  }

  /** A processed tick records the satellite's finite new position when it lies
      more than `TrailSpacing` from the trail's last point, and otherwise
      leaves the trail as it was. */
  lemma StepTrail(s: Sat, n: Numerics)
    requires Lawful(n) && !Skipped(s, n) && FiniteVec(Advance(s, n).position, n)
    ensures var t := Step(s, n);
      FiniteVec(t.position, n) && FarFromLast(s.trail, t.position, n) ==>
        t.trail == Push(s.trail, t.position) && t.trail[|t.trail| - 1] == t.position
    ensures var t := Step(s, n);
      !(FiniteVec(t.position, n) && FarFromLast(s.trail, t.position, n)) ==> t.trail == s.trail
  {
    var l := Land(s, Advance(s, n), n);
    assert Step(s, n) == Record(s, l, n);
    RecordTrail(s, l, n);
  }

  /** A trail of at most `TrailCapacity` points stays that short forever. */
  lemma {:induction false} TrailStaysBounded(s: Sat, k: nat, n: Numerics)
    requires Lawful(n) && |s.trail| <= TrailCapacity
    ensures |Run(s, k, n).trail| <= TrailCapacity
    decreases k
  {
    if k > 0 {
      var t := Step(s, n);
      assert |t.trail| <= TrailCapacity;
      TrailStaysBounded(t, k - 1, n);
      assert Run(s, k, n) == Run(t, k - 1, n);
    }
  }

  /** The trail keeps the newest points: after a recorded point it is the last
      `min(|trail| + 1, TrailCapacity)` points of the old trail followed by it. */
  lemma TrailWindow(trail: seq<Vec3>, p: Vec3, n: Numerics)
    requires Lawful(n) && |trail| <= TrailCapacity && FarFromLast(trail, p, n)
    ensures var t := AppendTrail(trail, p, n);
      |t| == Min(|trail| + 1, TrailCapacity) && t == (trail + [p])[|trail| + 1 - |t|..]
  {
  }

  /** The 50 m test on squared distances. */
  lemma TrailGuardSquared(trail: seq<Vec3>, p: Vec3, n: Numerics)
    requires Lawful(n)
    ensures FarFromLast(trail, p, n) <==>
      |trail| == 0 || Norm2(Sub(p, trail[|trail| - 1])) > TrailSpacing * TrailSpacing
  {
    if |trail| > 0 {
      MagnitudeSquared(Sub(p, trail[|trail| - 1]), n);
      LessIffSquareLess(TrailSpacing, Distance(p, trail[|trail| - 1], n));
    }
  }

  // ---------------------------------------------------------------------------
  // Burn countdown

  /** Over `k` processed ticks from burn time `b`: how many applied thrust, and
      the burn time left. */
  function Countdown(b: real, k: nat): (nat, real)
    decreases k
  {
    if k == 0 then (0, b)
    else if b > 0.0 then
      var rest := Countdown(b - Dt, k - 1);
      (1 + rest.0, rest.1)
    else
      (0, b)
  }

  /** A whole-second burn `b` thrusts on exactly `min(b, k)` of `k` processed
      ticks and leaves `b - min(b, k)` seconds. */
  lemma {:induction false} WholeBurn(b: nat, k: nat)
    ensures Countdown(b as real, k) == (Min(b, k), (b - Min(b, k)) as real)
    decreases k
  {
    if k > 0 && b > 0 {
      WholeBurn(b - 1, k - 1);
    }
  }

  /** The satellite is processed on each of the first `k` ticks. */
  predicate ProcessedFor(s: Sat, k: nat, n: Numerics)
    requires Lawful(n)
  {
    forall j: nat :: j < k ==> !Skipped(Run(s, j, n), n)
  }

  /** `k` processed ticks of the satellite count its burn time down exactly as
      `Countdown` does. */
  lemma {:induction false} RunCountdown(s: Sat, k: nat, n: Numerics)
    requires Lawful(n) && ProcessedFor(s, k, n)
    ensures Run(s, k, n).burnTime == Countdown(s.burnTime, k).1
    decreases k
  {
    if k > 0 {
      assert !Skipped(Run(s, 0, n), n);
      var t := Step(s, n);
      assert t.burnTime == Thrust(s).1;
      forall j: nat | j < k - 1
        ensures !Skipped(Run(t, j, n), n)
      {
        assert Run(s, j + 1, n) == Run(t, j, n);
      }
      RunCountdown(t, k - 1, n);
    }
  }

  /** A satellite launched with a whole-second burn `b` and processed for `k`
      ticks thrusts on exactly the ticks before the `b`-th, and has
      `b - min(b, k)` seconds left. */
  lemma BurnSchedule(s: Sat, b: nat, k: nat, n: Numerics)
    requires Lawful(n) && s.burnTime == b as real && ProcessedFor(s, k, n)
    ensures forall j: nat :: j < k ==> (Run(s, j, n).burnTime > 0.0 <==> j < b)
    ensures Run(s, k, n).burnTime == (b - Min(b, k)) as real
  {
    forall j: nat | j <= k
      ensures Run(s, j, n).burnTime == (b - Min(b, j)) as real
    {
      RunCountdown(s, j, n);
      WholeBurn(b, j);
    }
  }

  /** Each processed tick consumes one second of a positive burn and applies
      the stored acceleration, and nothing otherwise. */
  lemma StepBurns(s: Sat, n: Numerics)
    requires Lawful(n) && !Skipped(s, n)
    ensures s.burnTime > 0.0 ==> Step(s, n).burnTime == s.burnTime - 1.0
    ensures s.burnTime <= 0.0 ==> Step(s, n).burnTime == s.burnTime
    ensures var r := Magnitude(s.position, n);
      Acceleration(s, n) == Add(if s.burnTime > 0.0 then s.acceleration else Zero,
                                Add(Gravity(s.position, r, n), Drag(s.velocity, r - EarthRadius)))
  {
  }

  // ---------------------------------------------------------------------------
  // Forces

  lemma NegativeProduct(k: real, a: real)
    requires k < 0.0 && 0.0 < a
    ensures k * a < 0.0
  {
    assert (-k) * a > 0.0 by { PositiveProduct(-k, a); }
  }

  lemma SquareAtLeastOne(r: real)
    requires 1.0 <= r
    ensures 1.0 <= r * r
  {
    SquareMono(1.0, r);
  }

  /** The strength `G·M / r²` of gravity at radius `r >= 1`, a positive number. */
  lemma GravityStrength(r: real)
    requires r >= MinRadius
    ensures 0.0 < Mu / (r * r)
  {
    SquareAtLeastOne(r);
    PositiveQuotient(Mu, r * r);
  }

  /** Gravity has magnitude `G·M / r²`. */
  lemma GravityMagnitude(pos: Vec3, n: Numerics)
    requires Lawful(n) && Magnitude(pos, n) >= MinRadius
    ensures var r := Magnitude(pos, n);
      Norm2(Gravity(pos, r, n)) == (Mu / (r * r)) * (Mu / (r * r))
  {
    var r := Magnitude(pos, n);
    var u := VecSafe(pos, n);
    var k := -Mu / (r * r);
    VecSafeUnit(pos, n);
    ScaleUnit(u, k);
    assert k * k == (Mu / (r * r)) * (Mu / (r * r));
  }

  /** Gravity points towards the Earth's centre. */
  lemma GravityInward(pos: Vec3, n: Numerics)
    requires Lawful(n) && Magnitude(pos, n) >= MinRadius
    ensures Dot(Gravity(pos, Magnitude(pos, n), n), pos) < 0.0
  {
    var r := Magnitude(pos, n);
    var u := VecSafe(pos, n);
    var k := -Mu / (r * r);
    MagnitudeLess(pos, Epsilon, n);
    VecSafeDirection(pos, n);
    GravityStrength(r);
    DotScale(u, pos, k);
    NegativeProduct(k, Dot(u, pos));
  }

  /** Inside the band drag is a small multiple of the velocity pointing against
      it; outside it is zero. */
  lemma DragOpposesMotion(v: Vec3, altitude: real)
    ensures Dot(Drag(v, altitude), v) <= 0.0
    ensures Norm2(Drag(v, altitude)) <= DragCoefficient * DragCoefficient * Norm2(v)
  {
    if InDragBand(altitude) {
      var f := DragFactor(altitude);
      DotScale(v, v, -f);
      Norm2Scale(v, -f);
      Norm2Nonnegative(v);
      assert (-f) * Norm2(v) <= 0.0 by {
        assert 0.0 <= f * Norm2(v);
      }
      assert (-f) * (-f) <= DragCoefficient * DragCoefficient by {
        SquareMono(f, DragCoefficient);
      }
      assert (-f) * (-f) * Norm2(v) <= DragCoefficient * DragCoefficient * Norm2(v);
    }
  }

  /** Inside the band drag strictly slows a moving satellite. */
  lemma DragSlows(v: Vec3, altitude: real)
    requires InDragBand(altitude) && v != Zero
    ensures Dot(Drag(v, altitude), v) < 0.0
  {
    var f := DragFactor(altitude);
    DotScale(v, v, -f);
    Norm2Positive(v);
    PositiveProduct(f, Norm2(v));
  }

  // ---------------------------------------------------------------------------
  // Classification

  /** The classifier on speeds and square roots decides exactly as its
      square-free reference. */
  lemma ClassifyAgrees(altitude: real, v: Vec3, n: Numerics)
    requires Lawful(n) && EarthRadius + altitude > 0.0
    ensures Classify(altitude, Magnitude(v, n), EscapeSpeed(altitude, n)) == ClassifyBySquares(altitude, v)
  {
    var speed := Magnitude(v, n);
    var e := EscapeSpeed(altitude, n);
    var x := 2.0 * Mu / (EarthRadius + altitude);
    MagnitudeLess(v, CrashSpeed, n);
    MagnitudeSquared(v, n);
    EscapeSpeedSquared(altitude, n);
    LessIffSquareLess(e * EscapeMargin, speed);
    assert (e * EscapeMargin) * (e * EscapeMargin) == EscapeMargin * EscapeMargin * (e * e);
    assert (e * EscapeMargin) * (e * EscapeMargin) == EscapeMargin * EscapeMargin * x;
  }

  /** Both sides of the crash threshold at 99 m/s. */
  lemma CrashThreshold(e: real)
    requires CrashSpeed <= e
    ensures Classify(9999.0, 99.0, e) == Crashing
    ensures Classify(10001.0, 99.0, e) == Orbiting
  {
  }

  /** 20% over the escape speed is escaping, unless slow and low. */
  lemma EscapeAboveMargin(altitude: real, e: real)
    requires 100.0 <= e
    ensures Classify(altitude, 1.2 * e, e) == Escaping
  {
  }

  /** Each status has its own colour, except that idle and orbiting are both green. */
  lemma ColourRoundTrip(st: Status)
    ensures st != Idle ==> ColourStatus(StatusColour(st)) == st
    ensures StatusColour(Idle) == StatusColour(Orbiting)
  {
  }

  // ---------------------------------------------------------------------------
  // The registry

  /** A tick leaves dead satellites untouched, keeps bounded trails bounded and
      never revives a satellite. */
  lemma TickLaws(reg: seq<Sat>, n: Numerics)
    requires Lawful(n)
    ensures forall i :: 0 <= i < |reg| && reg[i].dead ==> Tick(reg, n)[i] == reg[i]
    ensures forall i :: 0 <= i < |reg| && reg[i].dead ==> Tick(reg, n)[i].dead
    ensures forall i :: 0 <= i < |reg| && |reg[i].trail| <= TrailCapacity ==>
      |Tick(reg, n)[i].trail| <= TrailCapacity
  {
  }
}
