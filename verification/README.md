# Satellite launch simulation: a Dafny model

This project models the deterministic core of a small Cesium/React satellite
launch simulation. Satellites are launched in batches from a site on the
equator, with a short burn along a fixed up-and-east direction. On every clock
tick the `onTick` listener in `src/App.tsx` updates each satellite:

- gravity, a banded atmospheric drag and the remaining burn accelerate it;
- its velocity and then its position are integrated over one second;
- a satellite that sinks below the surface is frozen on the surface and dies;
- its trail keeps at most 300 points, at least 50 m apart;
- its status becomes crashing, escaping or orbiting, and each status has a
  colour.

Besides the tick, the project models:

- the launch (`launchSat.ts`);
- the chase camera's index cycling (`CameraSatCycle.ts`);
- the defensive vector helpers (`vecSafe.ts`);
- the building-layer filter (`applyFiliter.ts`);
- the single-layer toggle (`toggleLayerVisibility.ts`).

Doubles are modelled as reals. Two things a double computation provides and a
real one lacks are supplied by the caller in a `Vectors.Numerics` record:

- a square root, constrained by `Vectors.Lawful` to return the non-negative
  root;
- an `isFinite` predicate, so the source's rejection branches stay in the
  model.

Cesium's random numbers, `fromDegrees` and the WGS84 surface normal are
parameters, given as a `LaunchSat.Site`. Each operation is a pure function on
immutable values: a satellite is a `LaunchSat.Sat`, the registry is a
`seq<Sat>`, the camera state is a `CameraCycle.Camera` and the layer
visibility is a `map<int, bool>`.

Files, one module each:

- `options.dfy`: optional values.
- `vectors.dfy`: `Cartesian3` arithmetic, magnitudes and square roots.
- `safe_vec.dfy`: `vecSafe.ts`.
- `launch_sat.dfy`: `launchSat.ts`.
- `tick.dfy`: the tick listener of `App.tsx`, as corrected (see Findings).
- `tick_laws.dfy`: properties of the tick.
- `impact_as_written.dfy`: the impact branch exactly as written, and its
  consequences.
- `camera.dfy`: `CameraSatCycle.ts`.
- `layer_filter.dfy`: `applyFiliter.ts`.
- `layer_toggle.dfy`: `toggleLayerVisibility.ts`.
- `layer_state.dfy`: the visibility map both layer operations produce.

Four behaviours of the code are easy to misread:

- **Pruning on launch.** `launchSatellites` removes dead satellites from the
  registry before launching (`launchSat.ts:28`), so the registry is not
  append-only. A camera index may therefore point past the end of the
  registry. The next jump brings it back in range (`CameraCycle.JumpToNext`).
- **Rejected positions.** A tick whose new position is not finite keeps the
  position, trail and status. It is not rolled back, though: the velocity and
  the burn time have already been replaced (`App.tsx:89`, `App.tsx:98`;
  `TickLaws.RejectedStep`).
- **Skipping.** A satellite is skipped only when it is dead, its position is
  not finite, or its radius is not finite or below 1 m. Its velocity and
  acceleration are not validated (`App.tsx:46-65`; `SatTick.Skipped`).
- **Impact.** On impact the satellite is meant to be clamped to the surface
  with a plain `normalize`, but the call as written throws; see Findings.

## Model

| member | source | states |
|---|---|---|
| SafeVec.VecSafe | src/utils/vecSafe.ts:6-12 | below magnitude 1e-6 the result is exactly +Z; the result is never the zero vector |
| SafeVec.VecSafeFallback | src/utils/vecSafe.ts:7-10 | the +Z fallback, stated on the squared magnitude: a squared magnitude below 1e-12 gives +Z |
| SafeVec.VecSafeDirection | src/utils/vecSafe.ts:11 | at or above the threshold the result is a positive multiple of the input |
| SafeVec.VecSafeUnit | src/utils/vecSafe.ts:6-12 | the result always has squared length 1 |
| SafeVec.IsValidVec | src/utils/vecSafe.ts:17-20 | a valid vector has a finite magnitude, and the zero vector is never valid |
| SafeVec.IsValidVecSquared | src/utils/vecSafe.ts:17-20 | valid exactly when the magnitude is finite and the squared magnitude exceeds 1e-12 (both directions) |
| SafeVec.BoundaryMismatch | src/utils/vecSafe.ts:6-20 | at magnitude exactly 1e-6 `isValidVec` rejects the vector while `vecSafe` normalises it instead of falling back |
| SafeVec.BoundaryExample | src/utils/vecSafe.ts:6-20 | the concrete vector (1e-6, 0, 0) is invalid, yet `vecSafe` maps it to +X |
| SafeVec.SafeClone | src/utils/vecSafe.ts:25-27 | a valid vector is copied unchanged; an invalid one is replaced by +Z |
| SafeVec.SafeCloneIdempotent | src/utils/vecSafe.ts:25-27 | cloning a clone changes nothing |
| SafeVec.SafeCloneValid | src/utils/vecSafe.ts:25-27 | when 1 is finite, every clone is a valid vector |
| SafeVec.SafeAdd | src/utils/vecSafe.ts:32-34 | a missing operand counts as the zero vector, so adding a missing vector returns the other operand |
| SafeVec.SafeAddCommutative | src/utils/vecSafe.ts:32-34 | the safe sum does not depend on the order of the operands |
| SafeVec.SafeMul | src/utils/vecSafe.ts:39-41 | a missing vector scales to the zero vector for every scalar; a present one is scaled componentwise |
| SafeVec.SafeMulDistributes | src/utils/vecSafe.ts:32-41 | safe scaling distributes over the safe sum |
| LaunchSat.Iterations | src/utils/launchSat.ts:40 | the loop runs `count` times for a non-negative count, and never for a negative one |
| LaunchSat.StartPosition | src/utils/launchSat.ts:41-47 | the start point differs from the shared centre by (5000·draw₀, 5000·draw₁, 0), an offset in the Earth-fixed x-y plane |
| LaunchSat.East | src/utils/launchSat.ts:53-56 | the local east vector is perpendicular to the surface normal, and a unit vector away from the poles |
| LaunchSat.BurnMagnitude | src/utils/launchSat.ts:58-69 | the stored acceleration has magnitude equal to the absolute thrust, whatever the launch direction |
| LaunchSat.BurnVectorExact | src/utils/launchSat.ts:58-69 | with a unit normal off the polar axis, 0.6·up + 0.8·east is already a unit vector and the burn is exactly thrust times it |
| LaunchSat.NewSat | src/utils/launchSat.ts:71-119 | a new satellite is at rest at its start point, with the given burn time, a one-point trail, status idle, alive |
| LaunchSat.Prune | src/utils/launchSat.ts:28 | pruning never lengthens the registry and leaves no dead satellite |
| LaunchSat.PruneMembers | src/utils/launchSat.ts:28 | a satellite survives pruning exactly when it was in the registry and alive |
| LaunchSat.PruneAppend | src/utils/launchSat.ts:28 | pruning is done piecewise, so survivors keep their relative order |
| LaunchSat.PruneAllAlive | src/utils/launchSat.ts:28 | a registry without dead satellites is left exactly as it was |
| LaunchSat.PruneIdempotent | src/utils/launchSat.ts:28 | pruning twice is pruning once |
| LaunchSat.Spawn | src/utils/launchSat.ts:40-120 | the batch holds exactly `k` satellites, the `i`-th being the `i`-th one created |
| LaunchSat.LaunchSatellites | src/utils/launchSat.ts:22-123 | the new registry is the pruned old one followed by exactly max(count, 0) new satellites |
| LaunchSat.SurvivorAt | src/utils/launchSat.ts:28 | survivors come first, in their old order |
| LaunchSat.BatchAt | src/utils/launchSat.ts:40-120 | the new satellites follow the survivors, in creation order |
| LaunchSat.LaunchedAlive | src/utils/launchSat.ts:28-120 | after a launch no satellite in the registry is dead |
| LaunchSat.FreshAt | src/utils/launchSat.ts:40-120 | the j-th new satellite follows the survivors and is at rest at its j-th start point, idle, with the given burn time, a one-point trail and a burn of magnitude equal to the absolute thrust |
| LaunchSat.LaunchedAreFresh | src/utils/launchSat.ts:40-120 | every satellite after the survivors is fresh in that sense, for its own position in the batch |
| LaunchSat.LaunchWithDefaults | src/utils/launchSat.ts:25-26 | without explicit arguments the burn lasts 15 s and has magnitude 600 |
| SatTick.DragFactor | src/App.tsx:75-80 | inside the drag band the factor lies strictly between 0 and 1e-6; it is 1e-6 at the ground and 0 at 100 km |
| SatTick.Drag | src/App.tsx:75-84 | drag is zero outside 0 < altitude < 100 km, and parallel to the velocity inside |
| TickLaws.DragOpposesMotion | src/App.tsx:75-84 | drag never points along the motion, and is at most 1e-6 times the speed |
| SatTick.Thrust | src/App.tsx:86-90 | while burn time remains, thrust is the stored acceleration and one second is consumed; otherwise thrust is zero and the burn time is untouched |
| TickLaws.GravityStrength | src/App.tsx:68 | the gravity factor G·M/r² is positive for every simulated radius |
| TickLaws.GravityMagnitude | src/App.tsx:67-73 | gravity has magnitude exactly G·M/r² |
| TickLaws.GravityInward | src/App.tsx:67-73 | gravity points towards the Earth's centre |
| SatTick.Advance | src/App.tsx:92-116 | the velocity changes by exactly the total acceleration, and the position by exactly the new velocity |
| TickLaws.StepBurns | src/App.tsx:86-96 | a processed tick uses burn + gravity + drag, and consumes one second of a positive burn and nothing otherwise |
| TickLaws.StepIntegrates | src/App.tsx:92-131 | without impact, the satellite's velocity and position change by semi-implicit Euler steps, and it stays alive with its acceleration |
| TickLaws.RejectedStep | src/App.tsx:118-126 | a non-finite new position is discarded, together with nothing else: the velocity and the burn time are already updated |
| SatTick.AppendTrail | src/App.tsx:149-161 | a point too close to the last one leaves the trail unchanged; otherwise it becomes the last point; a trail of at most 300 points stays so |
| SatTick.Push | src/App.tsx:158-159 | after a push the trail holds the newest min(n + 1, 300) points, the oldest dropped first |
| TickLaws.TrailWindow | src/App.tsx:149-161 | a recorded point yields the last min(n + 1, 300) points of the old trail followed by it |
| TickLaws.TrailGuardSquared | src/App.tsx:157 | the 50 m spacing test agrees with a test on squared distances |
| TickLaws.TrailStaysBounded | src/App.tsx:149-161 | a trail of at most 300 points stays that short over any number of ticks |
| SatTick.EscapeSpeed | src/App.tsx:164-166 | the escape speed is a non-negative number |
| SatTick.EscapeSpeedSquared | src/App.tsx:164-166 | the escape speed squared is 2·G·M / (R + altitude) |
| SatTick.Classify | src/App.tsx:168-174 | the status is never idle; crashing exactly when low and slow; escaping exactly when not crashing and faster than 1.1 times the escape speed |
| TickLaws.ClassifyAgrees | src/App.tsx:163-174 | the classifier on speeds and square roots decides exactly as a square-free reference on squared speeds |
| TickLaws.CrashThreshold | src/App.tsx:168-169 | at 99 m/s a satellite is crashing just below 10 km and orbiting just above |
| TickLaws.EscapeAboveMargin | src/App.tsx:170-171 | 20% over the escape speed is escaping |
| SatTick.StatusColour | src/App.tsx:185-189 | red exactly for crashing, blue exactly for escaping, green otherwise; alpha 0.8 for crashing and 0.6 otherwise |
| TickLaws.ColourRoundTrip | src/App.tsx:185-189 | the colour determines the status, except that idle and orbiting share green |
| SatTick.Land | src/App.tsx:128-147 | a satellite that sinks below the surface dies at rest with no acceleration; otherwise it takes the new position and velocity |
| SatTick.Record | src/App.tsx:149-174 | recording changes only the trail and the status, the status is never idle, and a bounded trail stays bounded |
| SatTick.RecordTrail | src/App.tsx:149-161 | a finite position more than 50 m from the last trail point is pushed, and otherwise the trail is unchanged |
| SatTick.Step | src/App.tsx:45-174 | a skipped satellite is unchanged; a satellite only dies at rest; its acceleration is kept or zeroed; a processed tick takes the burn countdown step; trails stay bounded |
| TickLaws.DeadOnlyByImpact | src/App.tsx:46-147 | a satellite is dead after a tick exactly when it was dead already or sank below the surface in it |
| TickLaws.DeadStaysFrozen | src/App.tsx:46-47 | a dead satellite is never changed again, over any number of ticks |
| TickLaws.ImpactStops | src/App.tsx:133-147 | on impact the satellite dies with zero velocity and acceleration, and no later tick changes it |
| TickLaws.ImpactOnSurface | src/App.tsx:138-144 | on impact away from the centre, the satellite is put on the sphere of the Earth's radius |
| TickLaws.ImpactBelowFall | src/App.tsx:138-144 | on impact away from the centre, the surface point lies on the ray through the position it fell to |
| TickLaws.StepStatus | src/App.tsx:163-174 | a processed tick sets the status the square-free reference gives for the altitude before the tick and the velocity after it |
| TickLaws.StepTrail | src/App.tsx:149-161 | a processed tick pushes the finite new position when it is more than 50 m from the last trail point, and otherwise leaves the trail unchanged |
| TickLaws.DragSlows | src/App.tsx:75-84 | inside the drag band a moving satellite's drag has a strictly negative component along its velocity |
| TickLaws.ImpactLowCrashes | src/App.tsx:75-169 | an impact from below 10 km is reported as crashing |
| TickLaws.ImpactHighOrbits | src/App.tsx:75-174 | an impact from 10 km or higher is reported as orbiting, since the status uses the altitude before the tick |
| TickLaws.ProcessedNeverIdle | src/App.tsx:168-174 | a satellite whose tick goes through is never left idle |
| TickLaws.WholeBurn | src/App.tsx:86-90 | counting down from B whole seconds, exactly min(B, k) of k steps have burn time left, and B - min(B, k) seconds remain |
| TickLaws.RunCountdown | src/App.tsx:86-90 | k ticks in which the satellite is processed count its burn time down exactly as that countdown does |
| TickLaws.BurnSchedule | src/App.tsx:86-90 | a satellite with a burn of B whole seconds, processed for k ticks, thrusts exactly on the ticks before the B-th and has B - min(B, k) seconds left |
| SatTick.Tick | src/App.tsx:41-205 | the tick updates every satellite of the registry, each one independently, and keeps the registry's length |
| TickLaws.TickLaws | src/App.tsx:45-161 | a tick leaves dead satellites untouched and keeps bounded trails bounded |
| ImpactAsWritten.StepAsWritten | src/App.tsx:128-147 | the update as written throws exactly for an impacting satellite, and otherwise agrees with the corrected step |
| ImpactAsWritten.ImpactLeavesAlive | src/App.tsx:128-144 | when it throws, the satellite is at rest at its new position, which lies below the surface, and is not dead |
| ImpactAsWritten.ImpactKillsWhenCorrected | src/App.tsx:133-147 | the satellite the code as written leaves alive is dead after the corrected step |
| ImpactAsWritten.TickAsWritten | src/App.tsx:41-205 | the tick as written raises exactly when some satellite impacts |
| ImpactAsWritten.NoImpactAgrees | src/App.tsx:41-205 | without an impact, the tick as written is the corrected tick |
| ImpactAsWritten.BeforeFirstImpact | src/App.tsx:45 | satellites before the first impacting one are updated as by the corrected tick |
| ImpactAsWritten.FirstImpactStops | src/App.tsx:45-144 | the first impacting satellite is left alive below the surface and every later one is not updated |
| ImpactAsWritten.ImpactExample | src/App.tsx:108-144 | a satellite 100 m up, falling at 1 km/s, makes the code as written throw, where the corrected step kills it |
| CameraCycle.Attach | src/utils/CameraSatCycle.ts:8-13 | attaching stores the viewer, resets the index to 0 and enables the camera |
| CameraCycle.Start | src/utils/CameraSatCycle.ts:15-23 | with no viewer given or stored nothing changes; otherwise a given viewer is stored and the camera is enabled; the index never changes |
| CameraCycle.SetupOrder | src/App.tsx:38-39 | the start before the attach does nothing, and the attach enables the camera at index 0 |
| CameraCycle.Stop | src/utils/CameraSatCycle.ts:25-28 | stopping disables the camera and changes nothing else |
| CameraCycle.JumpToNext | src/utils/CameraSatCycle.ts:30-58 | without a viewer or satellites nothing happens; otherwise only the index changes, it lands inside the registry even from a stale index, and a flight with that viewer is requested |
| CameraCycle.JumpIndex | src/utils/CameraSatCycle.ts:34 | a jump moves one place on, wrapping from the last satellite to the first |
| CameraCycle.FlightAlongSatellite | src/utils/CameraSatCycle.ts:38-55 | the camera flies with heading 0, pitch -π/2 and roll 0 to the point 100 km from the centre on the ray through the satellite |
| CameraCycle.JumpsIndex | src/utils/CameraSatCycle.ts:34 | k jumps, for k up to the registry size, move the index k places round the registry and change nothing else |
| CameraCycle.FullCycle | src/utils/CameraSatCycle.ts:34 | as many jumps as there are satellites bring the camera back to its start |
| CameraCycle.ReachesEvery | src/utils/CameraSatCycle.ts:34-35 | every satellite is reached in fewer jumps than there are satellites |
| CameraCycle.JumpIgnoresActive | src/utils/CameraSatCycle.ts:6-58 | a jump never changes the active flag, and a stopped camera jumps just the same |
| LayerFilter.InFilter | src/utils/applyFiliter.ts:17-28 | MEP keeps HVAC, Plumbing and Electrical; ARCH_STRUCT keeps Architectural and Structural; any other type keeps nothing |
| LayerFilter.VisitKeys | src/utils/applyFiliter.ts:23-40 | the new map has an entry exactly for the asset ids of non-context layers that have a tileset |
| LayerFilter.VisitLastWins | src/utils/applyFiliter.ts:25-37 | each entry holds what the last eligible layer with that asset id decided |
| LayerFilter.ApplyFilter | src/utils/applyFiliter.ts:8-44 | the same type again clears the filter, any other type becomes active, and the fresh map covers exactly the eligible asset ids |
| LayerFilter.ClearShowsAll | src/utils/applyFiliter.ts:22-28 | clearing the filter shows every layer that gets an entry |
| LayerFilter.ApplyShowsFiltered | src/utils/applyFiliter.ts:28-36 | applying a filter shows a layer exactly when it belongs to the filter's group |
| LayerFilter.UnknownHidesAll | src/utils/applyFiliter.ts:28 | an unknown filter type hides every layer |
| LayerFilter.ApplyTwiceClears | src/utils/applyFiliter.ts:22-43 | the same filter twice from none ends with no filter and every eligible layer shown |
| LayerFilter.ContextNeverListed | src/utils/applyFiliter.ts:26 | a context layer gets no entry of its own |
| LayerToggle.Toggle | src/utils/toggleLayerVisibility.ts:6-25 | without a tileset nothing changes; otherwise the entry reads as the negation of what it read as (missing reads false); every other entry is unchanged |
| LayerToggle.ToggleTwiceVisible | src/utils/toggleLayerVisibility.ts:14-24 | toggling twice reads the same as not toggling, everywhere |
| LayerToggle.ToggleTwice | src/utils/toggleLayerVisibility.ts:14-24 | toggling twice restores a present entry exactly; a missing one comes back as false |
| LayerToggle.ToggleCommutes | src/utils/toggleLayerVisibility.ts:24 | toggles of different layers commute |

## Left out

- Rendering is not modelled. This covers entities, point, ellipsoid and polyline materials, `CallbackProperty`, `requestRender` and the `needsRender` flag. The colour a status is drawn in is kept as a value. `console` output is not modelled either.
- Doubles are reals. Rounding, overflow, NaN and infinities are not modelled. `isFinite` is the caller-supplied `Numerics.finite`, and the square root is the caller-supplied `Numerics.sqrt`.
- Vectors.Normalize: returns the zero vector for the zero vector. Cesium's `normalize` yields NaN components there, or throws in a debug build.
- SatTick.Skipped: does not model the `!sat.position || !sat.velocity || !sat.acceleration` tests at `src/App.tsx:46`, because every field of a `Sat` is always present.
- CameraCycle.JumpToNext: does not model the `!sat?.position` return at `src/utils/CameraSatCycle.ts:36`, because a satellite always has a position.
- `camera.flyTo` is a foreign call and is returned as a `Flight` value. There is no camera-follow step, and `cameraActive` is written but never read.
- Randomness, `fromDegrees` and the WGS84 surface normal are parameters in a `Site`.
- LaunchSat.LaunchSatellites: requires one pair of random draws per new satellite (`count <= |site.draws|`), because the random source is a parameter.
- LaunchSat.Iterations: models an integer `count`. A fractional count would make the source's loop run ⌈count⌉ times.
- Asset ids are integers. Keys of a JavaScript record that are not integers are not modelled.
- LayerFilter.InFilter: models the `undefined` an unknown filter type stores as `false`. Every reader of the map treats it as falsy, and toggling negates it to `true` either way. A type naming a property of `Object.prototype`, such as "toString", would throw in the source; the model treats it as unknown.
- `readyPromise` callbacks that set `tileset.show` later are not modelled, nor are the React state setters. The model returns the values handed to them.
- SafeVec.VecSafe: its own contract omits the unit length and the direction. Those are stated in `VecSafeUnit` and `VecSafeDirection`, which keeps nonlinear facts out of every proof that mentions `VecSafe`.
- SatTick.Step: its own contract is partial. The properties of a tick are the lemmas of `TickLaws`.
- The launch site's altitude and random jitter, and the viewer, terrain and tileset set-up, are not modelled. Nor are the clipping planes, bookmarks, sidebar and canvas polling. None of them is part of the simulation's logic.

## Findings

| source | as written | input that shows it | evidently intended | confidence | as-written member | corrected member |
|---|---|---|---|---|---|---|
| src/App.tsx:138-144 | On impact the code clamps the satellite with `multiplyByScalar(normalize(position), EARTH_RADIUS)`. The call lacks the `result` argument that Cesium writes into, so it throws. By then velocity and acceleration are zero and the sub-surface position is stored, but `dead` is not yet set. The exception also leaves the listener, so no later satellite is updated in that tick. | a satellite 100 m above the surface, falling straight down at 1000 m/s with no burn left (`ImpactAsWritten.Falling`) | the satellite is clamped to the surface along its direction and marked dead, and the tick goes on with the remaining satellites | high, not executed; relies on Cesium's `multiplyByScalar` assigning to `result.x` | ImpactAsWritten.ImpactExample | TickLaws.ImpactStops |

`SatTick.Step` is the corrected update that the rest of the model uses.
`ImpactAsWritten.FirstImpactStops` shows what the tick as written does with
the satellites after the first impact.

A second observation is not a finding, because the intent is unclear. The
chase camera flies to 100 km from the Earth's centre (`CameraSatCycle.ts:42-46`),
which is well below the surface; `CameraCycle.FlightAlongSatellite` states it
as written.
