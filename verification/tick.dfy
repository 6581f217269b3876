/** The body of the `viewer.clock.onTick` listener in `src/App.tsx`: one
    simulation step of every satellite in the registry. Each satellite feels
    gravity, banded atmospheric drag and, while its burn lasts, its stored
    thrust; velocity and then position are integrated over one second; a
    satellite that sinks below the Earth's surface is frozen on it; its trail
    grows by well-separated points up to a fixed capacity; and its status is
    reclassified.

    Logging, entity and material updates and the redraw request are rendering
    effects and are not modelled; the colour a status is drawn in is kept as a
    value. */
module SatTick {
  import opened Vectors
  import opened SafeVec
  import opened LaunchSat

  // ---------------------------------------------------------------------------
  // Constants

  /** Gravitational constant (m³/(kg·s²)), Earth's mass (kg) and radius (m). */
  const G: real := 6.6743e-11
  const EarthMass: real := 5.972e24
  const EarthRadius: real := 6.371e6

  /** Length of one tick in seconds. */
  const Dt: real := 1.0

  /** Positions closer than this to the Earth's centre are not simulated. */
  const MinRadius: real := 1.0

  /** Drag acts strictly between the ground and this altitude. */
  const DragCeiling: real := 100000.0
  /** Drag coefficient at ground level; it falls linearly to zero at the ceiling. */
  const DragCoefficient: real := 0.000001

  /** A trail point is recorded only this many metres away from the last one. */
  const TrailSpacing: real := 50.0
  /** A trail keeps at most this many points. */
  const TrailCapacity: nat := 300

  const CrashAltitude: real := 10000.0
  const CrashSpeed: real := 100.0
  /** A satellite escapes once faster than this multiple of the escape speed. */
  const EscapeMargin: real := 1.1

  /** The standard gravitational parameter G·M of the Earth. */
  const Mu: real := G * EarthMass

  // ---------------------------------------------------------------------------
  // Forces

  /** `gravAccel`: `vecSafe(position)` scaled by `-G·M / r²`. */
  function Gravity(pos: Vec3, r: real, n: Numerics): Vec3
    requires Lawful(n) && r >= MinRadius
  {
    Scale(VecSafe(pos, n), -Mu / (r * r))
  }

  predicate InDragBand(altitude: real) {
    0.0 < altitude < DragCeiling
  }

  /** `dragFactor`: the drag coefficient thinned linearly with altitude. */
  function DragFactor(altitude: real): (f: real)
    ensures InDragBand(altitude) ==> 0.0 < f < DragCoefficient
    ensures altitude == 0.0 ==> f == DragCoefficient
    ensures altitude == DragCeiling ==> f == 0.0
  {
    DragCoefficient * (1.0 - altitude / DragCeiling)
  }

  /** `drag`: opposes the velocity inside the drag band, zero elsewhere. */
  function Drag(velocity: Vec3, altitude: real): (d: Vec3)
    ensures !InDragBand(altitude) ==> d == Zero
    ensures InDragBand(altitude) ==> Cross(d, velocity) == Zero
  {
    if InDragBand(altitude) then
      CrossScaleSelf(velocity, -DragFactor(altitude));
      Scale(velocity, -DragFactor(altitude))
    else
      Zero
  }

  /** `burn` and the burn time left after the tick: the stored acceleration,
      consuming one second of burn, while any burn time is left; nothing, and
      the burn time untouched, otherwise. */
  function Thrust(s: Sat): (b: (Vec3, real))
    ensures s.burnTime > 0.0 ==> b.0 == s.acceleration && b.1 == s.burnTime - 1.0
    ensures s.burnTime <= 0.0 ==> b.0 == Zero && b.1 == s.burnTime
  {
    if s.burnTime > 0.0 then (s.acceleration, s.burnTime - Dt) else (Zero, s.burnTime)
  }

  // ---------------------------------------------------------------------------
  // Trail

  /** The trail takes a new point when it is empty or the point lies more than
      `TrailSpacing` from its last point. */
  predicate FarFromLast(trail: seq<Vec3>, p: Vec3, n: Numerics)
    requires Lawful(n)
  {
    |trail| == 0 || Distance(p, trail[|trail| - 1], n) > TrailSpacing
  }

  function Min(a: int, b: int): int {
    if a < b then a else b
  }

  /** `push` then, past capacity, `shift`. */
  function Push(trail: seq<Vec3>, p: Vec3): (t: seq<Vec3>)
    ensures |trail| <= TrailCapacity ==> |t| == Min(|trail| + 1, TrailCapacity)
    ensures |trail| <= TrailCapacity ==> t == (trail + [p])[|trail| + 1 - |t|..]
  {
    var grown := trail + [p];
    if |grown| > TrailCapacity then grown[1..] else grown
  }

  /** `src/App.tsx`, lines 155-160: record `p` if it is far enough from the last point. */
  function AppendTrail(trail: seq<Vec3>, p: Vec3, n: Numerics): (t: seq<Vec3>)
    requires Lawful(n)
    ensures !FarFromLast(trail, p, n) ==> t == trail
    ensures FarFromLast(trail, p, n) ==> |t| > 0 && t[|t| - 1] == p
    ensures |trail| <= TrailCapacity ==> |t| <= TrailCapacity
  {
    if FarFromLast(trail, p, n) then Push(trail, p) else trail
  }

  // ---------------------------------------------------------------------------
  // Classification and colour

  /** `escapeV`: `sqrt(2·G·M / (R + altitude))`. */
  function EscapeSpeed(altitude: real, n: Numerics): (e: real)
    requires Lawful(n) && EarthRadius + altitude > 0.0
    ensures 0.0 <= e
  {
    EscapeNumeratorPositive(altitude);
    n.sqrt(2.0 * Mu / (EarthRadius + altitude))
  }

  lemma EscapeNumeratorPositive(altitude: real)
    requires EarthRadius + altitude > 0.0
    ensures 0.0 < 2.0 * Mu / (EarthRadius + altitude)
  {
    PositiveQuotient(2.0 * Mu, EarthRadius + altitude);
  }

  /** The escape speed squared is `2·G·M / (R + altitude)`. */
  lemma EscapeSpeedSquared(altitude: real, n: Numerics)
    requires Lawful(n) && EarthRadius + altitude > 0.0
    ensures EscapeSpeed(altitude, n) * EscapeSpeed(altitude, n) == 2.0 * Mu / (EarthRadius + altitude)
  {
    EscapeNumeratorPositive(altitude);
  }

  /** `src/App.tsx`, lines 168-174: crashing first, then escaping, else orbiting. */
  function Classify(altitude: real, speed: real, escapeSpeed: real): (st: Status)
    ensures st != Idle
    ensures st == Crashing <==> altitude < CrashAltitude && speed < CrashSpeed
    ensures st == Escaping <==> !(altitude < CrashAltitude && speed < CrashSpeed) && speed > escapeSpeed * EscapeMargin
  {
    if altitude < CrashAltitude && speed < CrashSpeed then Crashing
    else if speed > escapeSpeed * EscapeMargin then Escaping
    else Orbiting
  }

  /** The same decision on squared speeds, with no square root: the reference
      the classifier is checked against. */
  function ClassifyBySquares(altitude: real, velocity: Vec3): Status
    requires EarthRadius + altitude > 0.0
  {
    if altitude < CrashAltitude && Norm2(velocity) < CrashSpeed * CrashSpeed then Crashing
    else if Norm2(velocity) > EscapeMargin * EscapeMargin * (2.0 * Mu / (EarthRadius + altitude)) then Escaping
    else Orbiting
  }

  datatype Hue = Red | Green | Blue
  /** A Cesium colour `withAlpha`. */
  datatype Colour = Colour(hue: Hue, alpha: real)

  /** `src/App.tsx`, lines 185-189: the colour a status is drawn in. */
  function StatusColour(st: Status): (c: Colour)
    ensures c.hue == Red <==> st == Crashing
    ensures c.hue == Blue <==> st == Escaping
    ensures c.alpha == (if st == Crashing then 0.8 else 0.6)
  {
    if st == Crashing then Colour(Red, 0.8)
    else if st == Escaping then Colour(Blue, 0.6)
    else Colour(Green, 0.6)
  }

  /** What a colour says about the status: green cannot tell idle from orbiting. */
  function ColourStatus(c: Colour): Status {
    match c.hue
    case Red => Crashing
    case Blue => Escaping
    case Green => Orbiting
  }

  // ---------------------------------------------------------------------------
  // One satellite, one tick

  /** `src/App.tsx`, lines 46-65: the satellite is dead, its position is not finite, or its
      radius is not finite or below `MinRadius`; such a satellite is skipped. */
  predicate Skipped(s: Sat, n: Numerics)
    requires Lawful(n)
  {
    || s.dead
    || !FiniteVec(s.position, n)
    || !n.finite(Magnitude(s.position, n))
    || Magnitude(s.position, n) < MinRadius
  }

  /** Height above the spherical Earth, from the radius before the tick. */
  function Altitude(s: Sat, n: Numerics): real
    requires Lawful(n)
  {
    Magnitude(s.position, n) - EarthRadius
  }

  /** `totalAccel`: thrust plus gravity plus drag. */
  function Acceleration(s: Sat, n: Numerics): Vec3
    requires Lawful(n) && !Skipped(s, n)
  {
    var r := Magnitude(s.position, n);
    Add(Thrust(s).0, Add(Gravity(s.position, r, n), Drag(s.velocity, r - EarthRadius)))
  }

  /** Velocity, position and burn time after integration (`src/App.tsx`, lines 86-116). */
  datatype Motion = Motion(velocity: Vec3, position: Vec3, burnTime: real)

  /** Semi-implicit Euler: the velocity gains one tick of acceleration and the
      position then moves by the UPDATED velocity. */
  function Advance(s: Sat, n: Numerics): (m: Motion)
    requires Lawful(n) && !Skipped(s, n)
    ensures Sub(m.velocity, s.velocity) == Acceleration(s, n)
    ensures Sub(m.position, s.position) == m.velocity
    ensures m.burnTime == Thrust(s).1
  {
    var v := Add(s.velocity, Scale(Acceleration(s, n), Dt));
    Motion(v, Add(s.position, Scale(v, Dt)), Thrust(s).1)
  }

  /** `normalize(position) · EARTH_RADIUS`: the point of the surface below. */
  function Clamp(p: Vec3, n: Numerics): Vec3
    requires Lawful(n)
  {
    Scale(Normalize(p, n), EarthRadius)
  }

  predicate Sinks(m: Motion, n: Numerics)
    requires Lawful(n)
  {
    Magnitude(m.position, n) < EarthRadius
  }

  /** `src/App.tsx`, lines 128-147 as intended: take the new position and velocity or, below
      the surface, freeze on the surface and die. */
  function Land(s: Sat, m: Motion, n: Numerics): (t: Sat)
    requires Lawful(n)
    ensures t.trail == s.trail && t.status == s.status && t.burnTime == m.burnTime
    ensures Sinks(m, n) ==> t.dead && t.velocity == Zero && t.acceleration == Zero
    ensures !Sinks(m, n) ==> t == s.(position := m.position, velocity := m.velocity, burnTime := m.burnTime)
  {
    if Sinks(m, n) then
      s.(position := Clamp(m.position, n), velocity := Zero, acceleration := Zero,
         burnTime := m.burnTime, dead := true)
    else
      s.(position := m.position, velocity := m.velocity, burnTime := m.burnTime)
  }

  /** `src/App.tsx`, lines 149-174: record the trail point and reclassify, using the altitude
      from before the tick and the speed after it. */
  function Record(before: Sat, landed: Sat, n: Numerics): (t: Sat)
    requires Lawful(n) && !Skipped(before, n)
    ensures t == landed.(trail := t.trail, status := t.status)
    ensures t.status != Idle
    ensures |landed.trail| <= TrailCapacity ==> |t.trail| <= TrailCapacity
  {
    var trail := if FiniteVec(landed.position, n) then AppendTrail(landed.trail, landed.position, n) else landed.trail;
    var altitude := Altitude(before, n);
    landed.(trail := trail, status := Classify(altitude, Magnitude(landed.velocity, n), EscapeSpeed(altitude, n)))
  }

  /** The trail rule of `Record`: a finite position more than `TrailSpacing`
      from the last point is pushed; otherwise the trail is kept. */
  lemma RecordTrail(before: Sat, landed: Sat, n: Numerics)
    requires Lawful(n) && !Skipped(before, n)
    ensures FiniteVec(landed.position, n) && FarFromLast(landed.trail, landed.position, n) ==>
      Record(before, landed, n).trail == Push(landed.trail, landed.position)
    ensures !(FiniteVec(landed.position, n) && FarFromLast(landed.trail, landed.position, n)) ==>
      Record(before, landed, n).trail == landed.trail
  {
  }

  /** One satellite's update in one tick. */
  function Step(s: Sat, n: Numerics): (t: Sat)
    requires Lawful(n)
    ensures Skipped(s, n) ==> t == s
    ensures !s.dead && t.dead ==> t.velocity == Zero && t.acceleration == Zero
    ensures t.acceleration == s.acceleration || t.acceleration == Zero
    ensures !Skipped(s, n) ==> t.burnTime == Thrust(s).1
    ensures |s.trail| <= TrailCapacity ==> |t.trail| <= TrailCapacity
  {
    if Skipped(s, n) then s
    else
      var m := Advance(s, n);
      if !FiniteVec(m.position, n) then
        // `src/App.tsx`, lines 119-126: the new position is rejected, but the velocity and
        // the burn time were already replaced.
        s.(velocity := m.velocity, burnTime := m.burnTime)
      else
        Record(s, Land(s, m, n), n)
  }

  /** One tick: every satellite of the registry stepped, in place. */
  function Tick(reg: seq<Sat>, n: Numerics): (r: seq<Sat>)
    requires Lawful(n)
    ensures |r| == |reg|
    ensures forall i :: 0 <= i < |reg| ==> r[i] == Step(reg[i], n)
  {
    seq(|reg|, i requires 0 <= i < |reg| => Step(reg[i], n))
  }

  /** `k` successive ticks of one satellite. */
  function Run(s: Sat, k: nat, n: Numerics): Sat
    requires Lawful(n)
    decreases k
  {
    if k == 0 then s else Run(Step(s, n), k - 1, n)
  }
}
