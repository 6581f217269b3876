/** `src/utils/CameraSatCycle.ts`: the chase camera's module state and
    `jumpToNextSatellite`. The camera steps round the satellite registry one
    satellite at a time and flies the camera along the current satellite's
    direction from the Earth's centre.

    The three module-level variables are one `Camera` value, and every
    operation returns the new value. The Cesium viewer is an opaque handle. The
    `flyTo` call is returned as a `Flight` value rather than performed. */
module CameraCycle {
  import opened Options
  import opened Vectors
  import opened LaunchSat

  /** A Cesium viewer, known only by its identity. */
  datatype Viewer = Viewer(id: nat)

  /** `cameraIndex`, `viewerInstance` and `cameraActive`. */
  datatype Camera = Camera(index: nat, viewer: Option<Viewer>, active: bool)

  const Initial: Camera := Camera(0, None, false)

  /** The camera flies this many metres from the Earth's centre, along the
      direction of the satellite. */
  const FlightRadius: real := 100000.0

  /** `Cesium.Math.PI_OVER_TWO`, as a double. */
  const PiOverTwo: real := 1.5707963267948966

  /** The arguments of `camera.flyTo`. */
  datatype Flight = Flight(viewer: Viewer, destination: Vec3, heading: real, pitch: real, roll: real)

  /** `attachChaseCamera`: remember the viewer, restart at index 0, enable. */
  function Attach(c: Camera, v: Viewer): (r: Camera)
    ensures r.viewer == Some(v) && r.index == 0 && r.active
  {
    Camera(0, Some(v), true)
  }

  /** `startChaseCamera`: remember a given viewer; enable the camera if some
      viewer is known, otherwise change nothing. */
  function Start(c: Camera, v: Option<Viewer>): (r: Camera)
    ensures r.index == c.index
    ensures v.None? && c.viewer.None? ==> r == c
    ensures v.Some? ==> r.viewer == v && r.active
    ensures v.None? && c.viewer.Some? ==> r == c.(active := true)
  {
    var known := if v.Some? then v else c.viewer;
    if known.None? then c else c.(viewer := known, active := true)
  }

  /** `stopChaseCamera`. */
  function Stop(c: Camera): (r: Camera)
    ensures !r.active && r.index == c.index && r.viewer == c.viewer
  {
    c.(active := false)
  }

  /** The set-up in `src/App.tsx` starts the camera before attaching it. The
      start finds no viewer and does nothing; the attach then enables it. */
  lemma SetupOrder(v: Viewer)
    ensures Start(Initial, None) == Initial
    ensures Attach(Start(Initial, None), v) == Camera(0, Some(v), true)
  {
  }

  /** The viewer `jumpToNextSatellite` uses: the argument, else the stored one. */
  function ViewerFor(c: Camera, v: Option<Viewer>): (r: Option<Viewer>)
    ensures v.Some? ==> r == v
    ensures v.None? ==> r == c.viewer
  {
    if v.Some? then v else c.viewer
  }

  /** A jump happens when a viewer is known and the registry is not empty. */
  predicate CanJump(c: Camera, v: Option<Viewer>, reg: seq<Sat>) {
    ViewerFor(c, v).Some? && |reg| > 0
  }

  /** `jumpToNextSatellite`: advance the index cyclically and fly to the
      satellite it now names. */
  function JumpToNext(c: Camera, v: Option<Viewer>, reg: seq<Sat>, n: Numerics): (r: (Camera, Option<Flight>))
    requires Lawful(n)
    ensures !CanJump(c, v, reg) ==> r == (c, None)
    ensures CanJump(c, v, reg) ==>
      && r.0 == c.(index := r.0.index)
      && r.0.index < |reg|
      && r.1.Some? && r.1.value.viewer == ViewerFor(c, v).value
  {
    var w := ViewerFor(c, v);
    if w.None? || |reg| == 0 then (c, None)
    else
      var i := (c.index + 1) % |reg|;
      var destination := Scale(Normalize(reg[i].position, n), FlightRadius);
      (c.(index := i), Some(Flight(w.value, destination, 0.0, -PiOverTwo, 0.0)))
  }

  // ---------------------------------------------------------------------------
  // Properties

  /** Each jump moves one place on, wrapping from the last satellite to the
      first. */
  lemma JumpIndex(c: Camera, v: Option<Viewer>, reg: seq<Sat>, n: Numerics)
    requires Lawful(n) && CanJump(c, v, reg)
    ensures var i := JumpToNext(c, v, reg, n).0.index;
      (c.index + 1 < |reg| ==> i == c.index + 1)
      && (c.index + 1 == |reg| ==> i == 0)
  {
    var size := |reg|;
    var next := c.index + 1;
    assert JumpToNext(c, v, reg, n).0.index == next % size;
    if next < size {
      ModBelow(next, size);
    } else if next == size {
      ModSelf(size);
    }
  }

  lemma ModBelow(x: nat, m: nat)
    requires x < m
    ensures x % m == x
  {
  }

  lemma ModSelf(m: nat)
    requires 0 < m
    ensures m % m == 0
  {
  }

  /** The camera flies, looking straight down, to the point `FlightRadius`
      from the Earth's centre on the ray through the satellite the new index
      names. That point is far below the surface, because `FlightRadius` is
      smaller than the Earth's radius. */
  lemma FlightAlongSatellite(c: Camera, v: Option<Viewer>, reg: seq<Sat>, n: Numerics)
    requires Lawful(n) && CanJump(c, v, reg)
    ensures var r := JumpToNext(c, v, reg, n);
      var p := reg[r.0.index].position;
      && r.1.value.heading == 0.0 && r.1.value.pitch == -PiOverTwo && r.1.value.roll == 0.0
      && (0.0 < Norm2(p) ==>
            Norm2(r.1.value.destination) == FlightRadius * FlightRadius
            && SameDirection(r.1.value.destination, p))
  {
    var r := JumpToNext(c, v, reg, n);
    var p := reg[r.0.index].position;
    if 0.0 < Norm2(p) {
      var u := Normalize(p, n);
      NormalizeUnit(p, n);
      Norm2Scale(u, FlightRadius);
      SameDirectionScale(u, p, FlightRadius);
    }
  }

  /** `k` jumps in a row, with the registry unchanged in between. */
  function Jumps(c: Camera, v: Option<Viewer>, reg: seq<Sat>, k: nat, n: Numerics): Camera
    requires Lawful(n)
    decreases k
  {
    if k == 0 then c else Jumps(JumpToNext(c, v, reg, n).0, v, reg, k - 1, n)
  }

  /** Where `k` places on from `i` lands on a cycle of `size` places, for
      `i < size` and `k <= size`. */
  function Onward(i: nat, k: nat, size: nat): nat {
    if i + k < size then i + k else i + k - size
  }

  /** After `k` jumps, at most one round, the index has moved on `k` places
      round the registry; nothing else about the camera changes. */
  lemma {:induction false} JumpsIndex(c: Camera, v: Option<Viewer>, reg: seq<Sat>, k: nat, n: Numerics)
    requires Lawful(n) && CanJump(c, v, reg) && c.index < |reg| && k <= |reg|
    ensures Jumps(c, v, reg, k, n).index == Onward(c.index, k, |reg|)
    ensures Jumps(c, v, reg, k, n) == c.(index := Jumps(c, v, reg, k, n).index)
    decreases k
  {
    if k > 0 {
      var d := JumpToNext(c, v, reg, n).0;
      JumpIndex(c, v, reg, n);
      assert CanJump(d, v, reg);
      JumpsIndex(d, v, reg, k - 1, n);
    }
  }

  /** As many jumps as there are satellites bring the camera back to where it
      started. */
  lemma FullCycle(c: Camera, v: Option<Viewer>, reg: seq<Sat>, n: Numerics)
    requires Lawful(n) && CanJump(c, v, reg) && c.index < |reg|
    ensures Jumps(c, v, reg, |reg|, n) == c
  {
    JumpsIndex(c, v, reg, |reg|, n);
  }

  /** Every satellite is reached within fewer jumps than there are satellites. */
  lemma ReachesEvery(c: Camera, v: Option<Viewer>, reg: seq<Sat>, j: nat, n: Numerics)
    requires Lawful(n) && CanJump(c, v, reg) && c.index < |reg| && j < |reg|
    ensures var k := if c.index <= j then j - c.index else j + |reg| - c.index;
      k < |reg| && Jumps(c, v, reg, k, n).index == j
  {
    var k := if c.index <= j then j - c.index else j + |reg| - c.index;
    JumpsIndex(c, v, reg, k, n);
  }

  /** Jumping never switches the camera on or off, and a stopped camera still
      jumps: the flag is not consulted. */
  lemma JumpIgnoresActive(c: Camera, v: Option<Viewer>, reg: seq<Sat>, n: Numerics)
    requires Lawful(n)
    ensures JumpToNext(c, v, reg, n).0.active == c.active
    ensures JumpToNext(Stop(c), v, reg, n).1 == JumpToNext(c, v, reg, n).1
  {
  }
}
