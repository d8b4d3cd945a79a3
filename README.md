# Discrete physics step of a 2D mini-game

This project models, in Dafny, the discrete part of the per-frame physics
update `PhysicsSystem::step` of a small real-time 2D game:

- **Bounding geometry.** `get_bounding_box` takes the absolute value of a
  motion's scale, because the sign of the scale only encodes the facing
  direction. `collides` is a deliberately coarse broad-phase test. It compares
  the squared distance between two centres with the larger of the two squared
  radii of the circles drawn around the bounding boxes.
- **Euler integration.** Every motion in the motion container is moved in
  place by `velocity * (elapsed_ms / 1000)`.
- **All-pairs collision scan.** A nested loop visits every ordered pair of
  distinct indices `(i, j)`, row by row. For each pair that collides it
  appends the two events `(entity_i, entity_j)` and `(entity_j, entity_i)` to
  the registry's collision list. That list keeps insertion order and allows
  duplicates.

Files and modules:

- `geometry.dfy` (`Geometry`): `vec2` as a pair of reals, with `+`, `-`,
  scalar `*` and `/`, `dot`, `abs` and `max`.
- `components.dfy` (`Components`): `Entity`, `Motion`, the bounding box,
  the collision test and one Euler step, with their lemmas.
- `collision_scan.dfy` (`CollisionScan`): the event sequence the nested scan
  appends, written as functions that follow the two loops. It comes with
  lemmas on how many events there are, where each one sits, and which
  events occur. The scan is stated for any pairwise test. The frame step
  instantiates it with `Components.Collides`, and the lemmas that need
  symmetry get it from `Components.CollidesSymmetric`.
- `physics_system.dfy` (`PhysicsSystem`): the `Registry` class. It holds the
  motion container as two parallel arrays (`entities`, `motions`) and the
  collision list as a sequence. Its methods `Integrate`, `DetectCollisions`
  and `Step` are the loops of the frame step, proved against the functions
  above.

Single-precision floats are modelled by exact `real` arithmetic.

Three facts about the code shape the model:

- `collides` names the first motion's squared radius `other_r_squared` and
  the second's `my_r_squared` (src/physics_system.cpp:21-24). Only their
  maximum is used (line 25), so which radius carries which name does not
  affect the result. `Components.Collides` keeps the source's names, and
  `Components.CollidesSymmetric` states that the test does not depend on the
  order of its arguments.
- The comparison at line 26 is strict. When the squared distance equals the
  larger squared radius, the two motions do not collide.
  `Components.BoundaryDoesNotCollide` states this.
- The step only appends to `registry.collisions`. Nothing in
  `physics_system.cpp` clears that list. `DetectCollisions` and `Step`
  therefore keep the earlier events as a prefix.

## Model

| member | source | states |
|---|---|---|
| `Geometry.Abs` | src/physics_system.cpp:11 | the result is non-negative and is either the argument or its negation |
| `Geometry.Max` | src/physics_system.cpp:25 | the result is at least both arguments and is one of them |
| `Components.BoundingBox` | src/physics_system.cpp:8-12 | both components are non-negative and each equals the scale component or its negation |
| `Components.BoundingBoxIgnoresFacing` | src/physics_system.cpp:8-12 | negating either scale component (a change of facing) leaves the bounding extent unchanged |
| `Components.RadiusSquared` | src/physics_system.cpp:21-24 | the squared bounding-circle radius is never negative |
| `Components.RadiusSquaredOfScale` | src/physics_system.cpp:21-24 | the squared radius is `(sx² + sy²) / 4` whatever the signs of the scale components |
| `Components.DistanceSquared` | src/physics_system.cpp:19-20 | the squared centre distance is never negative |
| `Components.DistanceSquaredSymmetric` | src/physics_system.cpp:19-20 | the squared distance does not depend on which centre is subtracted from which |
| `Components.Collides` | src/physics_system.cpp:14-29 | the test holds exactly when the centre of one motion lies strictly inside the bounding circle of the other, as the source comment describes |
| `Components.CollidesSymmetric` | src/physics_system.cpp:17-29 | for all motions, `collides(a, b) == collides(b, a)` |
| `Components.ZeroScalesNeverCollide` | src/physics_system.cpp:19-28 | two motions whose scales are both zero never collide, wherever they are |
| `Components.CollidesWithSelf` | src/physics_system.cpp:17-29 | a motion collides with itself exactly when its squared radius is positive, which is why the scan must skip `i == j` |
| `Components.BoundaryDoesNotCollide` | src/physics_system.cpp:26 | when the squared distance equals the larger squared radius, neither order collides: the comparison is strict |
| `Components.StepSeconds` | src/physics_system.cpp:41 | the step length in seconds times 1000 is the elapsed milliseconds |
| `Components.Euler` | src/physics_system.cpp:42 | the displacement equals velocity times the step; velocity, scale and angle are kept |
| `Components.EulerZeroStep` | src/physics_system.cpp:41-42 | a zero-length step changes nothing |
| `Components.EulerSteps` | src/physics_system.cpp:33-42 | two steps of `s` and `t` seconds equal one step of `s + t`: distance depends on elapsed time, not on frame count |
| `Components.AdvanceAll` | src/physics_system.cpp:36-43 | same length as the input, and element `k` is motion `k` after one Euler step |
| `CollisionScan.PairEvents` | src/physics_system.cpp:67-68 | exactly two events are recorded for a colliding pair: the first has `entity_i` as its subject, and the second is the first with subject and other swapped |
| `CollisionScan.RowEvents` | src/physics_system.cpp:56-70 | the inner loop over the columns before `j` records at most two events per column; the exact count comes from `CountBefore`, the contents from `PairInRow` and `RowEventsFromCollidingPairs` |
| `CollisionScan.ScanEvents` | src/physics_system.cpp:52-71 | no contract of its own: the events of rows `0..i-1` in row order; `CountBefore` states how many, `RowInScan` and `EventsAt` where each sits, `ScanEventsFromCollidingPairs` which events occur |
| `CollisionScan.Events` | src/physics_system.cpp:52-71 | one scan appends exactly `2 × |{(i, j) : i != j ∧ collides(m_i, m_j)}|` events |
| `CollisionScan.CountBefore` | src/physics_system.cpp:52-71 | after rows `0..i-1` and columns `0..j-1` of row `i`, the events number twice the colliding ordered pairs visited so far |
| `CollisionScan.EventCount` | src/physics_system.cpp:52-71 | all rows of the scan together hold exactly two events per distinct colliding ordered pair; the proof behind `Events`' count |
| `CollisionScan.PartInWhole` | src/physics_system.cpp:52-71 | in a sequence built by appending parts in turn, as both loops build the event list, element `u` of part `i` sits right after the parts before it |
| `CollisionScan.PairInRow` | src/physics_system.cpp:56-68 | the two events of a colliding pair `(i, j)` sit right after the events of the columns before `j` in row `i`, in order |
| `CollisionScan.RowInScan` | src/physics_system.cpp:52-71 | event `u` of row `i` sits right after the events of the rows before `i` in the scan's events |
| `CollisionScan.PairAt` | src/physics_system.cpp:52-68 | the two events of a colliding pair `(i, j)` sit in the scan's events right after all rows before `i` and the columns before `j` of row `i` |
| `CollisionScan.EventsAt` | src/physics_system.cpp:62-68 | every colliding pair `(i, j)` with `i != j` puts `(entity_i, entity_j)` and then `(entity_j, entity_i)` at positions `2p` and `2p + 1`, where `p` counts the colliding pairs before `(i, j)` in row-major (i, then j) order |
| `CollisionScan.RowEventsFromCollidingPairs` | src/physics_system.cpp:56-69 | for a symmetric test, every event of a row names the entities of a distinct colliding ordered pair |
| `CollisionScan.ScanEventsFromCollidingPairs` | src/physics_system.cpp:52-71 | for a symmetric test, every event of the scan names the entities of a distinct colliding ordered pair |
| `CollisionScan.EventIffCollidingPair` | src/physics_system.cpp:56-68 | for a symmetric test, an event is recorded if and only if it is `(entity_a, entity_b)` for some `a != b` with `collides(m_a, m_b)` |
| `CollisionScan.NoSelfEvents` | src/physics_system.cpp:58-59 | when entity handles are distinct, no recorded event pairs an entity with itself |
| `CollisionScan.PairsBeforeGrows` | src/physics_system.cpp:52-56 | a colliding pair visited earlier in row-major order has strictly fewer colliding pairs before it |
| `CollisionScan.FourEventsPerPair` | src/physics_system.cpp:52-71 | for a symmetric test, each colliding unordered pair `{i, j}` yields four events at four distinct positions: two `(entity_i, entity_j)` and two `(entity_j, entity_i)` |
| `PhysicsSystem.FrameCollisionEvents` | src/physics_system.cpp:52-71 | with the bounding-circle test: the event count is twice the number of colliding ordered pairs, and an event is recorded exactly when it names such a pair |
| `PhysicsSystem.SingleMotionNoEvents` | src/physics_system.cpp:56-59 | a container with a single motion records no event, even when that motion overlaps itself |
| `PhysicsSystem.Registry.Integrate` | src/physics_system.cpp:36-43 | the motions become `AdvanceAll` of the old motions with step `elapsed_ms / 1000`; the entity array and the container size are unchanged |
| `PhysicsSystem.Registry.DetectCollisions` | src/physics_system.cpp:51-71 | the collision list becomes the old list followed by the scan's events in loop order; entities and motions are unchanged |
| `PhysicsSystem.Registry.ScanRow` | src/physics_system.cpp:53-70 | one pass of the inner loop appends exactly the events of row `i`, in column order, to the collision list |
| `PhysicsSystem.Registry.Step` | src/physics_system.cpp:31-71 | integration, then a scan of the moved motions whose events are appended after the existing ones; entities are unchanged |

## Left out

- The orbital integrator under the `launch` flag (src/physics_system.cpp:113-145) is not modelled. It is floating-point numerics (`sqrt`, `atan2`, a possibly zero distance) driven by a global flag and the players collection.
- The debug visualisation of bounding circles (src/physics_system.cpp:87-106) is not modelled. It calls `sqrt` and `createLine`, an entity-creation function with rendering side effects that is not part of this model.
- The unimplemented TODO regions (src/physics_system.cpp:45-48, 73-85, 108-111) are not modelled: they contain no behaviour.
- The window width and height (src/physics_system.cpp:79) are accepted by `Registry.Step` and not used, as in the source.
- `ComponentContainer`, `emplace_with_duplicates` and `registry.motions.get` are not part of this model. The container is two parallel arrays, and the event store is a sequence that is only appended to.
- IEEE single-precision rounding, overflow, infinities and NaN are not modelled: all arithmetic is on exact reals.
- Clearing the collision list between frames happens outside the modelled file and is not modelled.
- CollisionScan.ScanEvents: has no contract of its own. Any contract on it would be assumed in every proof about the scan. Its properties are stated instead by `CountBefore` (how many events), `RowInScan` and `EventsAt` (where each event sits) and `ScanEventsFromCollidingPairs` (which events).
- CollisionScan.PairEvents: its contract fixes the first event's subject and the swap, not the first event's other entity; `EventsAt` pins both, with `(entity_i, entity_j)` at position `2p` and `(entity_j, entity_i)` at `2p + 1`.
