# Robot registry of the arena visualizer

This project is a Dafny model of the robot registry of a 3D arena visualizer. The registry is the `Robot` class in `src/js/app/components/robot.js`. It keeps the robots of a shared scene, each a child named `'robot_' + id`. It creates robots when their reality flag suits the environment's reality mode, and clamps them into the arena. It moves them by scheduling a tween (a timed linear animation), and it recolours and deletes them. A per-frame tick advances the pending tweens.

The model has five modules:

- `Geometry` (`geometry.dfy`): the arithmetic of the registry as pure functions.
  - Clamping to the arena, with a positive scene scale.
  - `Math.round(v * 10) / 10`, written as `Floor(v * 10 + 1/2) / 10`.
  - The rotation-sign test `currentHeading * newHeading >= 0`.
  - The colour normalisation.
- `Scene` (`scene.dfy`): robot names, the scene node record and the callback status strings.
- `Motion` (`motion.dfy`): the tween record and one frame of a tween. It also folds a tick over the pending tweens in the order they were scheduled, and proves what a tick preserves.
- `Robots` (`robot.dfy`): the `Robot` class.
  - The scene is a `map` field from name to node.
  - The pending tweens are a `seq` field.
  - Each operation is a method that changes those fields in place.
  - `Valid()` is the arena invariant: every robot, and both ends of every pending tween, lie in the scaled arena.
- `Scenarios` (`scenarios.dfy`): client runs proved from the class contracts alone.

Modelling choices:

- Positions, rotations, times and colours are exact reals.
- Rotation is kept in degrees, as `heading - 90`. The degree-to-radian factor is positive, so the sign test is unchanged.
- A zero Euclidean distance is written as "target equals current position".
- The environment mode, the arena bounds and the scale are constructor parameters.
- The current time is a parameter of `Create`, `Move` and `Update`.
- A callback is modelled by the status it receives.
  - A status that `create`, `move`, `delete` or `changeColor` delivers at once is returned.
  - A status delivered when a tween completes is stored in the tween (`notify`) and returned by the tick that completes it.
- A tween keeps a reference to the robot object, not to its name. Each node therefore carries a `serial` that stands for its object identity. A tween whose robot has been deleted, or replaced by a new robot of the same name, changes nothing in the scene.

Details of the code that the model keeps as written:

- `move` computes the target rotation from the unrounded heading. The rounded heading at robot.js:141 is never used.
- `create` clamps without rounding. `move` rounds, then clamps, then scales.
- A zero-distance `move` never calls its callback.
- A missing robot in `move` or `changeColor` reports `'undefined'`.
- `create` reports `'success'` only when it adds a robot. On an existing robot it reports `'already defined, so moved'`, and only when the move's tween completes. Otherwise it reports nothing.
- On re-create, the reality test compares the incoming reality with the environment mode, not with the stored robot's reality.
- Blue is divided by 265, not by 256. This is kept as written; `GreyIsTinted` states what it does to a grey input.
- `get_coordinates` returns the robot node.

## Model

| member | source | states |
|---|---|---|
| `Geometry.Clamp` | src/js/app/components/robot.js:40-41 | the clamped value lies in [lo, hi] and equals the input when the input already lies there |
| `Geometry.ClampNearest` | src/js/app/components/robot.js:40-41 | the clamped value is the point of [lo, hi] nearest to the input |
| `Geometry.Place` | src/js/app/components/robot.js:40-41 | a coordinate clamped and then scaled lies in the scaled interval, and is just the scaled input when that is inside |
| `Geometry.CreatePos` | src/js/app/components/robot.js:40-41 | the creation position lies in the scaled arena, and is the scaled input when the input is inside the arena |
| `Geometry.Round1` | src/js/app/components/robot.js:139-141 | rounding gives a multiple of a tenth in (v - 0.05, v + 0.05]: the nearest tenth, a tie going up |
| `Geometry.Round1OnTenths` | src/js/app/components/robot.js:139-140 | a value already on the tenth grid is unchanged by rounding |
| `Geometry.Round1Idempotent` | src/js/app/components/robot.js:139-141 | rounding twice is rounding once |
| `Geometry.MovePos` | src/js/app/components/robot.js:139-140 | the move target, rounded then clamped then scaled, lies in the scaled arena |
| `Geometry.RoundedAxisNear` | src/js/app/components/robot.js:139-140 | on one axis, rounding before clamping and scaling shifts the target by at most scale * 0.05 |
| `Geometry.MoveNearCreate` | src/js/app/components/robot.js:139-140 | the move target is within scale * 0.05 of the create position on each axis, and equal to it for inputs on the tenth grid |
| `Geometry.RotationFlag` | src/js/app/components/robot.js:136 | the rotation flag holds exactly when current and new heading are on the same side of zero (zero counting as both) |
| `Geometry.ChannelColor` | src/js/app/components/robot.js:19 | the colour is (R/256, G/256, B/265); 8-bit red and green inputs give channels in [0, 1), and so does blue below 265 |
| `Geometry.GreyIsTinted` | src/js/app/components/robot.js:19 | a grey input gives equal red and green but a strictly dimmer blue |
| `Scene.RobotName` | src/js/app/components/robot.js:56 | a robot's scene name carries the `robot_` prefix and gives the id back after it |
| `Scene.RobotNameInjective` | src/js/app/components/robot.js:56 | two ids share a scene name only if they are equal |
| `Motion.Lerp` | src/js/app/components/robot.js:150-152 | linear interpolation stays between its ends, starting at the first and ending at the second |
| `Motion.Progress` | src/js/app/components/robot.js:150-168 | after the 50 ms delay the elapsed fraction of the 1000 ms tween is in [0, 1], and is 1 exactly when the tween is done |
| `Motion.Frame` | src/js/app/components/robot.js:153-167 | a frame puts the robot between start and target; it leaves the rotation alone without the flag until completion; at completion position and rotation equal the target |
| `Motion.Step` | src/js/app/components/robot.js:153-167 | a tween step adds and removes no child and touches only its own robot; it does nothing before its delay, nothing to a replaced robot, and leaves its robot at the target pose when done |
| `Motion.RunKeepsKeys` | src/js/app/main.js:196 | a tick neither adds nor removes scene children |
| `Motion.RunKeepsSerials` | src/js/app/components/robot.js:153-167 | a tick never replaces a child's object |
| `Motion.RunLeavesOthers` | src/js/app/components/robot.js:153-167 | a tick leaves unchanged every child that no tween animates |
| `Motion.RunKeepsArena` | src/js/app/components/robot.js:150-162 | a tick keeps every robot in the scaled arena when every tween runs between points inside it |
| `Motion.TickPartition` | src/js/app/components/robot.js:163-167 | a tick splits the tweens into kept (not yet done) and completed (done), each exactly once |
| `Motion.CompletesOnceAcrossTicks` | src/js/app/components/robot.js:163-167 | for two ticks at now1 <= now2, the first tick's completions plus the second tick's completions among the tweens the first kept are exactly the completions of one tick at now2: each completion is reported once, on the first tick at or after its end |
| `Motion.NothingCompletesTwice` | src/js/app/components/robot.js:163-167 | no tween kept by a tick completes again at the same time (the case now1 == now2 of `CompletesOnceAcrossTicks`) |
| `Robots.PlanMove` | src/js/app/components/robot.js:127-173 | move turns on the spot exactly when the target equals the current position, rotating to heading - 90 from the unrounded heading; otherwise it schedules a tween from the current pose to an in-arena target, starting after the delay, with the sign-based rotation flag |
| `Robots.MoveKeepsPositions` | src/js/app/components/robot.js:149-173 | move adds and removes no child and changes no position at once |
| `Robots.Robot.constructor` | src/js/app/components/robot.js:11-14 | a registry over a scene without robots is valid and has no tweens |
| `Robots.Robot.ChangeColor` | src/js/app/components/robot.js:16-28 | a missing robot reports 'undefined' and nothing changes; a present one gets colour (R/256, G/256, B/265), reports 'success', and nothing else changes |
| `Robots.Robot.Create` | src/js/app/components/robot.js:30-90 | an absent robot is added, at the clamped position with rotation heading - 90 and the given reality, only when the reality suits the mode (reporting 'success'); an existing one is moved (reporting 'already defined, so moved' on completion) or, on a reality mismatch, deleted; the arena invariant holds |
| `Robots.Robot.MoveWith` | src/js/app/components/robot.js:127-178 | a missing robot reports 'undefined' and nothing changes; a present one turns at once or gets a tween, as `PlanMove` says; the arena invariant holds |
| `Robots.Robot.Move` | src/js/app/components/robot.js:127-178 | move with a callback that reports 'success' on completion: a missing robot reports 'undefined' and nothing changes; a present one turns at once or gets a tween as `PlanMove` says, and is returned |
| `Robots.Robot.Delete` | src/js/app/components/robot.js:92-106 | an unspecified id reports 'id not specified' and a missing robot 'not found', both changing nothing; a present robot is removed alone and 'success' reported |
| `Robots.Robot.DeleteAll` | src/js/app/components/robot.js:108-120 | exactly the children with the `robot_` prefix are removed; every other child stays unchanged |
| `Robots.Robot.Exists` | src/js/app/components/robot.js:122-125 | the lookup finds a robot exactly when one is named after the id, and returns that robot |
| `Robots.Robot.GetCoordinates` | src/js/app/components/robot.js:180-188 | returns the robot named after the id, and so its position, or nothing when there is none |
| `Robots.Robot.Update` | src/js/app/components/robot.js:190-192 | a tick applies every tween's step in order, keeps exactly the unfinished tweens, returns the completed tweens' statuses, and keeps the arena invariant |
| `Scenarios.CreateTwice` | src/js/app/components/robot.js:78-83 | creating an id twice with a suitable reality leaves exactly one robot; with an unsuitable reality none |
| `Scenarios.CreateThenMismatch` | src/js/app/components/robot.js:84-87 | in a 'V' environment, creating an id as 'V' and then again as 'R' leaves no robot: the second create deletes it |
| `Scenarios.TurnOnTheSpot` | src/js/app/components/robot.js:170-173 | a move to the robot's own position sets rotation heading - 90 at once, schedules nothing and never reports |
| `Scenarios.SignCrossingMove` | src/js/app/components/robot.js:134-169 | a move from rotation 90 to -90 leaves the rotation at 90 mid-way, ends at the target position with rotation -90, and reports 'success' once |

## Left out

- `src/js/app/main.js` is not part of this model: scene, camera, lights, renderer, raycast clicks and the render loop. Its `TWEEN.update()` call is the per-frame tick, which is `Update(now)` here.
- The STL model load in `create` is taken to succeed at once. The robot is added synchronously, so the window in which a robot being loaded still looks absent is not modelled.
- `alert`, `clickEvent` and `console.log` are user-interface and logging output.
- The unused `ambient` parameter of `changeColor`, and the material, mesh, shadow, scale, opacity and `rotation.x` settings of a new robot.
- The z coordinate is always 0 and is not stored.
- Callbacks are always present: a status that the source would drop because no callback was passed is still returned.
- Ids are strings. An undefined id is modelled only for `delete`, where the source tests for it. Elsewhere JavaScript would look up `'robot_undefined'`.
- The default reality `'V'` of `create`: callers pass the reality explicitly.
- Scene lookup searches only the top-level children, and names are unique map keys. THREE's recursive, first-match `getObjectByName` over possibly repeated names is not modelled.
- `delete` and `create` use the global scene (`scene`, `window.scene`); the model takes it to be the registry's own scene.
- Floating-point rounding, `Math.sqrt` and the irrational degree-to-radian factor: reals are exact.
- The tween library's internals. A tween is `{start, target, startTime = now + 50, duration = 1000, rotation flag}` with linear interpolation. Repeat, yoyo, easing and tweens added during a tick are not modelled. Overlapping tweens on one robot are applied in tick order, and nothing more is proved about them.
- Robots.Robot.constructor: it requires the scene to hold no robots yet. The source does not check this; it is how the registry is used on a freshly built scene.
