/** `src/utils/launchSat.ts`: the satellite record, the registry of satellites
    and `launchSatellites`, which prunes dead satellites and appends a batch of
    fresh ones.

    Cesium's random numbers, `Cartesian3.fromDegrees` and
    `Ellipsoid.WGS84.geodeticSurfaceNormal` are foreign calls; their results are
    parameters (a `Site`). Entity creation and redraw requests are rendering
    effects and are not modelled. */
module LaunchSat {
  import opened Vectors
  import opened SafeVec

  /** `status` of a satellite: "idle" until its first processed tick. */
  datatype Status = Idle | Orbiting | Crashing | Escaping

  /** `SatData` without its rendering handles. `trail` is `trailPositions`. */
  datatype Sat = Sat(
    position: Vec3,
    velocity: Vec3,
    acceleration: Vec3,
    burnTime: real,
    trail: seq<Vec3>,
    status: Status,
    dead: bool)

  const DefaultThrust: real := 600.0
  const DefaultBurnTime: real := 15.0

  /** Random offsets in the Earth-fixed x-y plane (z = 0) are scaled by this
      many metres. */
  const OffsetScale: real := 5000.0

  /** Shares of the launch direction along the local up and east vectors. */
  const UpShare: real := 0.6
  const EastShare: real := 0.8

  /** What the source obtains from Cesium while launching:
      - `center`: the shared launch point, `fromDegrees(-80, 0, 1000 + 50·random)`;
      - `draws`: the two random numbers drawn for each satellite's offset, in order;
      - `surfaceNormal`: `Ellipsoid.WGS84.geodeticSurfaceNormal`. */
  datatype Site = Site(center: Vec3, draws: seq<(real, real)>, surfaceNormal: Vec3 -> Vec3)

  /** The number of iterations of `for (let i = 0; i < count; i++)`. */
  function Iterations(count: int): (k: nat)
    ensures count <= 0 ==> k == 0
    ensures count >= 0 ==> k == count
  {
    if count < 0 then 0 else count
  }

  /** Start position of the `i`-th new satellite: the centre plus an offset in
      the Earth-fixed x-y plane. At a site on the equator that plane contains
      the local vertical, so the offset is not horizontal. */
  function StartPosition(site: Site, i: nat): (p: Vec3)
    requires i < |site.draws|
    ensures Sub(p, site.center) == Vec3(site.draws[i].0 * OffsetScale, site.draws[i].1 * OffsetScale, 0.0)
  {
    Add(site.center, Vec3(site.draws[i].0 * OffsetScale, site.draws[i].1 * OffsetScale, 0.0))
  }

  /** Local east: `normalize(cross(UNIT_Z, up))`. */
  function East(up: Vec3, n: Numerics): (e: Vec3)
    requires Lawful(n)
    ensures 0.0 < Norm2(Cross(UnitZ, up)) ==> Norm2(e) == 1.0
    ensures Dot(e, up) == 0.0
  {
    var c := Cross(UnitZ, up);
    var m := Magnitude(c, n);
    var k := if m == 0.0 then 0.0 else 1.0 / m;
    assert Normalize(c, n) == Scale(c, k);
    CrossOrthogonal(UnitZ, up);
    DotScale(c, up, k);
    Normalize(c, n)
  }

  /** `0.6·up + 0.8·east`. */
  function LaunchDirection(up: Vec3, n: Numerics): Vec3
    requires Lawful(n)
  {
    Add(Scale(up, UpShare), Scale(East(up, n), EastShare))
  }

  /** The stored `acceleration`: `thrust · vecSafe(launch direction)`. */
  function BurnVector(up: Vec3, thrust: real, n: Numerics): Vec3
    requires Lawful(n)
  {
    Scale(VecSafe(LaunchDirection(up, n), n), thrust)
  }

  /** The burn has magnitude |thrust| whatever the direction, since `vecSafe`
      always returns a unit vector. */
  lemma BurnMagnitude(up: Vec3, thrust: real, n: Numerics)
    requires Lawful(n)
    ensures Norm2(BurnVector(up, thrust, n)) == thrust * thrust
  {
    var u := VecSafe(LaunchDirection(up, n), n);
    VecSafeUnit(LaunchDirection(up, n), n);
    ScaleUnit(u, thrust);
  }

  /** The `i`-th satellite of a batch, as pushed onto `activeSats`. */
  function NewSat(site: Site, i: nat, thrust: real, burnTime: real, n: Numerics): (s: Sat)
    requires Lawful(n) && i < |site.draws|
    ensures s.position == StartPosition(site, i)
    ensures s.velocity == Zero
    ensures s.acceleration == BurnVector(site.surfaceNormal(s.position), thrust, n)
    ensures s.burnTime == burnTime
    ensures s.trail == [s.position]
    ensures s.status == Idle && !s.dead
  {
    var pos := StartPosition(site, i);
    Sat(pos, Zero, BurnVector(site.surfaceNormal(pos), thrust, n), burnTime, [pos], Idle, false)
  }

  /** `activeSats.filter((s) => !s.dead)`. */
  function Prune(reg: seq<Sat>): (r: seq<Sat>)
    ensures |r| <= |reg|
    ensures forall i :: 0 <= i < |r| ==> !r[i].dead
  {
    if reg == [] then []
    else if reg[0].dead then Prune(reg[1..])
    else [reg[0]] + Prune(reg[1..])
  }

  /** The batch created by the loop, in creation order. */
  function Spawn(site: Site, k: nat, thrust: real, burnTime: real, n: Numerics): (b: seq<Sat>)
    requires Lawful(n) && k <= |site.draws|
    ensures |b| == k
    ensures forall i :: 0 <= i < k ==> b[i] == NewSat(site, i, thrust, burnTime, n)
  {
    seq(k, i requires 0 <= i < k => NewSat(site, i, thrust, burnTime, n))
  }

  /** `launchSatellites(viewer, count, thrust, burnTime)` on registry `reg`:
      the surviving satellites in their old order, then the new batch. */
  function LaunchSatellites(reg: seq<Sat>, count: int, thrust: real, burnTime: real, site: Site, n: Numerics): (r: seq<Sat>)
    requires Lawful(n) && count <= |site.draws|
    ensures |r| == |Prune(reg)| + Iterations(count)
    ensures r[..|Prune(reg)|] == Prune(reg)
    ensures r[|Prune(reg)|..] == Spawn(site, Iterations(count), thrust, burnTime, n)
  {
    var p := Prune(reg);
    var b := Spawn(site, Iterations(count), thrust, burnTime, n);
    assert (p + b)[..|p|] == p;
    assert (p + b)[|p|..] == b;
    p + b
  }

  /** Survivors come first, in their old order. */
  lemma SurvivorAt(reg: seq<Sat>, count: int, thrust: real, burnTime: real, site: Site, n: Numerics, i: nat)
    requires Lawful(n) && count <= |site.draws| && i < |Prune(reg)|
    ensures i < |LaunchSatellites(reg, count, thrust, burnTime, site, n)|
    ensures LaunchSatellites(reg, count, thrust, burnTime, site, n)[i] == Prune(reg)[i]
  {
    var r := LaunchSatellites(reg, count, thrust, burnTime, site, n);
    assert r[i] == r[..|Prune(reg)|][i];
  }

  /** The batch follows the survivors, in creation order. */
  lemma BatchAt(reg: seq<Sat>, count: int, thrust: real, burnTime: real, site: Site, n: Numerics, j: nat)
    requires Lawful(n) && count <= |site.draws| && j < Iterations(count)
    ensures |Prune(reg)| + j < |LaunchSatellites(reg, count, thrust, burnTime, site, n)|
    ensures LaunchSatellites(reg, count, thrust, burnTime, site, n)[|Prune(reg)| + j] == NewSat(site, j, thrust, burnTime, n)
  {
    var r := LaunchSatellites(reg, count, thrust, burnTime, site, n);
    var p := Prune(reg);
    var b := Spawn(site, Iterations(count), thrust, burnTime, n);
    assert r[|p|..] == b;
    assert r[|p| + j] == b[j];
  }

  /** After a launch no satellite in the registry is dead. */
  lemma LaunchedAlive(reg: seq<Sat>, count: int, thrust: real, burnTime: real, site: Site, n: Numerics)
    requires Lawful(n) && count <= |site.draws|
    ensures var r := LaunchSatellites(reg, count, thrust, burnTime, site, n);
      forall i :: 0 <= i < |r| ==> !r[i].dead
  {
    var r := LaunchSatellites(reg, count, thrust, burnTime, site, n);
    var p := Prune(reg);
    forall i | 0 <= i < |r|
      ensures !r[i].dead
    {
      if i < |Prune(reg)| {
        SurvivorAt(reg, count, thrust, burnTime, site, n, i);
      } else {
        BatchAt(reg, count, thrust, burnTime, site, n, i - |Prune(reg)|);
      }
    }
  }

  /** `s` is the `j`-th satellite of a fresh batch: at rest on its offset,
      idle, with the given burn time, a one-point trail and a burn of
      magnitude |thrust|. */
  predicate Fresh(s: Sat, site: Site, j: nat, thrust: real, burnTime: real)
    requires j < |site.draws|
  {
    && s.velocity == Zero
    && s.burnTime == burnTime
    && s.status == Idle
    && s.trail == [s.position]
    && s.position == StartPosition(site, j)
    && Norm2(s.acceleration) == thrust * thrust
  }

  /** The `j`-th new satellite is fresh. */
  lemma FreshAt(reg: seq<Sat>, count: int, thrust: real, burnTime: real, site: Site, n: Numerics, j: nat)
    requires Lawful(n) && count <= |site.draws| && j < Iterations(count)
    ensures var r := LaunchSatellites(reg, count, thrust, burnTime, site, n);
      |Prune(reg)| + j < |r| && Fresh(r[|Prune(reg)| + j], site, j, thrust, burnTime)
  {
    BatchAt(reg, count, thrust, burnTime, site, n, j);
    var s := NewSat(site, j, thrust, burnTime, n);
    BurnMagnitude(site.surfaceNormal(s.position), thrust, n);
  }

  /** Every new satellite is fresh. */
  lemma LaunchedAreFresh(reg: seq<Sat>, count: int, thrust: real, burnTime: real, site: Site, n: Numerics)
    requires Lawful(n) && count <= |site.draws|
    ensures var r := LaunchSatellites(reg, count, thrust, burnTime, site, n);
      forall i :: |Prune(reg)| <= i < |r| ==>
        i - |Prune(reg)| < |site.draws| && Fresh(r[i], site, i - |Prune(reg)|, thrust, burnTime)
  {
    var r := LaunchSatellites(reg, count, thrust, burnTime, site, n);
    forall i | |Prune(reg)| <= i < |r|
      ensures i - |Prune(reg)| < |site.draws| && Fresh(r[i], site, i - |Prune(reg)|, thrust, burnTime)
    {
      FreshAt(reg, count, thrust, burnTime, site, n, i - |Prune(reg)|);
    }
  }

  /** `launchSatellites(viewer, count)` with the default thrust and burn time. */
  function LaunchWithDefaults(reg: seq<Sat>, count: int, site: Site, n: Numerics): (r: seq<Sat>)
    requires Lawful(n) && count <= |site.draws|
    ensures |r| == |Prune(reg)| + Iterations(count)
    ensures forall i :: |Prune(reg)| <= i < |r| ==>
      r[i].burnTime == 15.0 && Norm2(r[i].acceleration) == 600.0 * 600.0
  {
    LaunchedAreFresh(reg, count, DefaultThrust, DefaultBurnTime, site, n);
    LaunchSatellites(reg, count, DefaultThrust, DefaultBurnTime, site, n)
  }

  // ---------------------------------------------------------------------------
  // Properties

  /** Pruning a concatenation prunes each part: survivors keep their order. */
  lemma {:induction false} PruneAppend(a: seq<Sat>, b: seq<Sat>)
    ensures Prune(a + b) == Prune(a) + Prune(b)
  {
    if a == [] {
      assert a + b == b;
    } else {
      assert (a + b)[0] == a[0];
      assert (a + b)[1..] == a[1..] + b;
      PruneAppend(a[1..], b);
    }
  }

  /** A registry without dead satellites is left as it is. */
  lemma {:induction false} PruneAllAlive(reg: seq<Sat>)
    requires forall i :: 0 <= i < |reg| ==> !reg[i].dead
    ensures Prune(reg) == reg
  {
    if reg != [] {
      PruneAllAlive(reg[1..]);
    }
  }

  /** A satellite survives pruning exactly when it was in the registry and alive. */
  lemma {:induction false} PruneMembers(reg: seq<Sat>, s: Sat)
    ensures s in Prune(reg) <==> s in reg && !s.dead
  {
    if reg != [] {
      PruneMembers(reg[1..], s);
      assert reg == [reg[0]] + reg[1..];
    }
  }

  /** Pruning twice is pruning once. */
  lemma PruneIdempotent(reg: seq<Sat>)
    ensures Prune(Prune(reg)) == Prune(reg)
  {
    PruneAllAlive(Prune(reg));
  }

  /** With a unit surface normal that is not the polar axis, east is
      perpendicular to up, the launch direction is already a unit vector and the
      burn vector is exactly `thrust · (0.6·up + 0.8·east)`. */
  lemma BurnVectorExact(up: Vec3, thrust: real, n: Numerics)
    requires Lawful(n)
    requires Norm2(up) == 1.0 && 0.0 < Norm2(Cross(UnitZ, up))
    ensures Norm2(LaunchDirection(up, n)) == 1.0
    ensures BurnVector(up, thrust, n) == Scale(LaunchDirection(up, n), thrust)
  {
    var e := East(up, n);
    var d := LaunchDirection(up, n);
    Norm2Combination(up, e, UpShare, EastShare);
    assert Norm2(d) == 1.0;
    UnitMagnitude(d, n);
    assert Normalize(d, n) == Scale(d, 1.0 / 1.0);
    assert Scale(d, 1.0 / 1.0) == d;
  }

  // ---------------------------------------------------------------------------
  // Geometry helpers

  lemma ScaleUnit(u: Vec3, k: real)
    requires Norm2(u) == 1.0
    ensures Norm2(Scale(u, k)) == k * k
  {
    Norm2Scale(u, k);
  }

  lemma CrossOrthogonal(a: Vec3, b: Vec3)
    ensures Dot(Cross(a, b), b) == 0.0
  {
  }

  /** Squared magnitude of `p·a + q·b`. */
  lemma Norm2Combination(a: Vec3, b: Vec3, p: real, q: real)
    ensures Norm2(Add(Scale(a, p), Scale(b, q)))
         == p * p * Norm2(a) + q * q * Norm2(b) + 2.0 * p * q * Dot(a, b)
  {
  }
}
