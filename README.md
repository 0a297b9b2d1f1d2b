# Stellar simulation core

A Dafny model of the simulation engine in `stellar_classes.py` of
blender_solar_system. A `SolarSystem` holds a list of `StellarBody`
objects and runs a frame loop (`create_animation`). Each frame has two
phases:

- **Interaction phase** (`_calculate_all_body_interactions`): every pair of
  bodies `i < j` calls `accelerate_due_to_gravity`. The call changes both
  velocities by Newton's law of gravitation.
- **Update phase** (`_update_all`): the list is sorted by x coordinate, then
  each body moves by its velocity and a location keyframe is recorded for
  the current frame.

The model has these parts:

- `vectors.dfy`: 3-vectors over `real`.
- `stellar_body.dfy`: a body as a value (position and velocity default to the origin and zero, as in `StellarBody.__init__`), with `move` and
  `accelerate_due_to_gravity` on values.
- `pairs.dfy`: the order in which the interaction phase visits pairs.
- `sorting.dfy`: the stable sort by x used by `list.sort`.
- `seqs.dfy`: mapping over sequences.
- `schedule.dfy`: functions for the phases, one frame and a whole run, and
  the lemmas about them.
- `solar_system.dfy`: the `SolarSystem` class. Its methods update the body
  list in place with the loops of the source. When it completes, each
  method is proved to compute a function of `schedule.dfy`:
  `AccelerateDueToGravity` computes `Interact`, `CalculateAllBodyInteractions`
  computes `InteractionPhase`, `UpdateAll` computes `UpdatePhase`,
  `AnimateFrame` and `StepAnimation` compute `Frame`, and `CreateAnimation`
  computes `Run`. `AddBody` only appends.

The host library's vector length (`Vector.magnitude`) is a parameter,
`magnitude: Vec3 -> real`. Lemmas that need a real norm require
`IsMagnitude(magnitude)`: nonnegative, and zero only for the zero vector.

A zero distance makes `distance_mag ** 2` zero. The division by it raises
`ZeroDivisionError`, and the model returns `Result.ZeroDivisionError`. The
error ends the whole animation.

## Model

| member | source | states |
|---|---|---|
| StellarBodies.Move | stellar_classes.py:79-84 | the new position minus the old is exactly the velocity; velocity, name and mass are unchanged |
| StellarBodies.GravityForce | stellar_classes.py:91-96 | no contract of its own: the separation `other - self` over its length `n`, times `m1*m2/n^2`; `SelfAcceleration`, `OtherAcceleration` and `Pull` state what it does to each velocity |
| StellarBodies.Accelerated | stellar_classes.py:99-101 | no contract of its own: one pass of the `for body in self, other` loop; `MomentumExchange` states that the two passes keep the pair's momentum, and `SelfAcceleration`/`OtherAcceleration` give each pass in closed form |
| StellarBodies.AccelerateDueToGravity | stellar_classes.py:90-102 | raises exactly when the length of `other - self` is zero; otherwise only the two velocities change |
| StellarBodies.ConservesMomentum | stellar_classes.py:98-102 | a completed call leaves `m1*v1 + m2*v2` of the pair unchanged (Newton's third law) |
| StellarBodies.MomentumExchange | stellar_classes.py:98-102 | adding a force over one mass and taking it over the other keeps the pair's total momentum |
| StellarBodies.VectorExchange | stellar_classes.py:99-101 | the same exchange stated on the velocity vectors and masses |
| StellarBodies.SelfAcceleration | stellar_classes.py:91-101 | `self`'s new velocity is `v + (other - self) * other.mass / n^3` |
| StellarBodies.OtherAcceleration | stellar_classes.py:91-102 | `other`'s new velocity is `v - (other - self) * self.mass / n^3` |
| StellarBodies.Pull | stellar_classes.py:94-101 | the normalised force over each body's mass, with the loop's sign, in closed form |
| StellarBodies.PullTowardsEachOther | stellar_classes.py:90-102 | with a true norm, the distance is positive and each body is pulled along the separation towards the other, by a positive factor |
| StellarBodies.ZeroDivisionIffCoincident | stellar_classes.py:91-94 | with a true norm, the call raises exactly when the two positions are equal |
| Pairs.Row | stellar_classes.py:20-21 | the inner loop's pairs `(i, j), (i, j+1), ...` up to the last body, and how many there are |
| Pairs.PairsFrom | stellar_classes.py:19-21 | every pair visited from outer position `i` on has `i <= first < second < n` |
| Pairs.PairsFromCount | stellar_classes.py:19-21 | outer positions `i..n` give `(n-i)(n-i-1)/2` pairs |
| Pairs.AllPairsCount | stellar_classes.py:19-21 | a phase makes `n(n-1)/2` calls |
| Pairs.PairsFromMembership | stellar_classes.py:19-21 | a pair is visited from `i` on exactly when `i <= first < second < n` |
| Pairs.AllPairsMembership | stellar_classes.py:19-21 | every pair `i < j < n` is visited, and no other |
| Pairs.PairsFromOrdered | stellar_classes.py:19-21 | the pairs come in strictly increasing lexicographic order |
| Pairs.AllPairsExactlyOnce | stellar_classes.py:19-21 | the phase's pairs are in lexicographic order, so no pair is visited twice |
| Sorting.SortPermutation | stellar_classes.py:24 | the sort keeps the length and is a permutation |
| Sorting.SortSorted | stellar_classes.py:24 | the result is ordered by x coordinate |
| Sorting.SortStable | stellar_classes.py:24 | bodies with equal x keep their relative order (the sort is stable) |
| Sorting.InsertPermutation | stellar_classes.py:24 | one insertion adds exactly the inserted body |
| Sorting.InsertSorted | stellar_classes.py:24 | an insertion into a sorted list stays sorted |
| Sorting.InsertStable | stellar_classes.py:24 | an insertion goes after every body with the same key |
| Sorting.InsertByX | stellar_classes.py:24 | no contract of its own: one insertion step of the sort; `InsertPermutation`, `InsertSorted` and `InsertStable` state its properties |
| Sorting.SortByX | stellar_classes.py:24 | no contract of its own: `list.sort(key=position[0])` as an insertion sort; `SortPermutation`, `SortSorted` and `SortStable` state that it is a stable sort by x |
| Seqs.MapPermutation | stellar_classes.py:25-27 | mapping a permutation gives a permutation of the mapped list |
| Schedule.Interact | stellar_classes.py:21 | one call on the list raises exactly at a zero distance; otherwise it changes only the velocities of bodies `i` and `j` |
| Schedule.ApplyPairs | stellar_classes.py:19-21 | a completed sequence of calls keeps the number of bodies; `ApplyPairsOnlyVelocities`, `ApplyPairsFailsIff`, `ApplyPairsConservesMomentum` and `ApplyPairsConcat` state the rest |
| Schedule.InteractionPhase | stellar_classes.py:17-21 | no contract of its own: the calls for every pair `i < j` in lexicographic order; `InteractionPhaseOnlyVelocities`, `InteractionPhaseFailsIff` and `InteractionPhaseConservesMomentum` state its properties, and `Pairs.AllPairsMembership`, `Pairs.AllPairsExactlyOnce` and `Pairs.AllPairsCount` its pairs |
| Schedule.ApplyPairsOnlyVelocities | stellar_classes.py:17-21 | calls for any pairs change velocities only: no position, name or mass, and no reordering |
| Schedule.InteractionPhaseOnlyVelocities | stellar_classes.py:17-21 | a completed interaction phase changes velocities only |
| Schedule.ApplyPairsFailsIff | stellar_classes.py:17-21 | with a true norm, a sequence of calls raises exactly when one of its pairs has equal starting positions |
| Schedule.CoincidentAllPairs | stellar_classes.py:19-20 | some visited pair coincides exactly when two bodies of the list share a position |
| Schedule.InteractionPhaseFailsIff | stellar_classes.py:17-21 | with a true norm, the phase raises exactly when two bodies share a position |
| Schedule.SumExchange | stellar_classes.py:98-102 | swapping two terms of a sum for two with the same sum keeps the total |
| Schedule.InteractConservesMomentum | stellar_classes.py:21 | one completed call keeps the total momentum of the whole list |
| Schedule.ApplyPairsConservesMomentum | stellar_classes.py:17-21 | completed calls for any pairs keep the total momentum |
| Schedule.InteractionPhaseConservesMomentum | stellar_classes.py:17-21 | a completed interaction phase conserves the system's total momentum |
| Schedule.MoveAndRecord | stellar_classes.py:25-27 | each body of the sorted list is moved, and one keyframe per body records the frame, name and moved position, in list order |
| Schedule.UpdatePhase | stellar_classes.py:23-27 | no contract of its own: sort by x, then move and record each body; `UpdatePhaseFacts` states its properties |
| Schedule.UpdatePhaseFacts | stellar_classes.py:23-27 | the update phase moves every body exactly once (a permutation of the moved list), orders it by pre-move x, and logs one keyframe per body for this frame with each name as often as it occurs |
| Schedule.Frame | stellar_classes.py:31-33 | no contract of its own: the interaction phase, then, if it completed, the update phase; `FrameShape` states its properties |
| Schedule.FrameShape | stellar_classes.py:31-33 | a completed frame keeps the number of bodies and records one keyframe per body, all for this frame |
| Schedule.Run | stellar_classes.py:30-33 | no contract of its own: the frames of `range(frame_start, frame_end)` in turn, stopping at the first error; `RunCons`, `RunCount` and `RunFrames` state its properties |
| Schedule.RunFrom | stellar_classes.py:31-33 | no contract of its own: the first frame of a non-empty range, then the rest; `RunCons` states the split |
| Schedule.RunCons | stellar_classes.py:31-33 | a completed run over a non-empty range is its first frame, completed, followed by the completed rest of the run, with the keyframes concatenated |
| Schedule.FrameTotalProduct | stellar_classes.py:31 | counting `n` keyframes per frame over `range(first, stop)` gives `(stop - first) * n`, or 0 |
| Schedule.RunCount | stellar_classes.py:30-33 | a completed run keeps the number of bodies and records `(frame_end - frame_start) * len(bodies)` keyframes |
| Schedule.RunFrames | stellar_classes.py:30-33 | every keyframe of a completed run belongs to a frame of the range, and frames never go backwards |
| Schedule.ConcatFrames | stellar_classes.py:31-33 | one frame's keyframes followed by the later frames' keep the frame order |
| Schedule.ApplyPairsConcat | stellar_classes.py:19-21 | the calls for `a + b` are those for `a`, then, if none raised, those for `b` |
| Schedule.RowCallsStep | stellar_classes.py:20-21 | one pass of the inner loop is one call followed by the rest of the row |
| Schedule.RowCalls | stellar_classes.py:20-21 | no contract of its own: the inner loop's calls from inner position `j` on; `RowCallsStep` and `RowCallsDone` state how the loop steps and ends |
| Schedule.RowCallsDone | stellar_classes.py:20 | once `j` reaches the end of the list the inner loop makes no call |
| Schedule.Animate | stellar_classes.py:31-33 | no contract of its own: the frame loop with a log of keyframes already inserted; `AnimateIsRun` and `AnimateStep` state its properties |
| Schedule.AnimateFrom | stellar_classes.py:31-33 | no contract of its own: one pass of the loop body, then the rest of the loop; `AnimateStep` states the step |
| Schedule.AnimateIsRun | stellar_classes.py:30-33 | the frame loop with keyframes already recorded gives those keyframes followed by the run |
| SolarSystems.SolarSystem.constructor | stellar_classes.py:8-12 | stores `frame_start` and `frame_end` (defaults 1 and 250); the body list is empty |
| SolarSystems.SolarSystem.AddBody | stellar_classes.py:14-15 | the list becomes the old list with the body appended |
| SolarSystems.SolarSystem.AccelerateDueToGravity | stellar_classes.py:90-102 | the force computed once, then the two-pass `for body in self, other` loop, gives exactly `Interact`; on error nothing changes |
| SolarSystems.SolarSystem.InteractWithLater | stellar_classes.py:20-21 | the inner loop over the bodies after `first` performs exactly that row's calls, and changes velocities only |
| SolarSystems.SolarSystem.CalculateAllBodyInteractions | stellar_classes.py:17-21 | the nested loops raise exactly when the interaction phase does; otherwise the list becomes the phase's result; only velocities change in either case |
| SolarSystems.SolarSystem.UpdateAll | stellar_classes.py:23-27 | the list becomes the update phase's result, and its keyframes are appended to the log |
| SolarSystems.SolarSystem.AnimateFrame | stellar_classes.py:31-33 | one pass of the frame loop sets `current_frame`, completes exactly when `Frame` does, and then the list is the frame's new list and the log is the old log followed by the frame's keyframes; after an error no body has moved and no keyframe was recorded (only velocities changed) |
| SolarSystems.SolarSystem.StepAnimation | stellar_classes.py:31-33 | the same pass seen from the loop: it completes exactly when `Frame` does, a completed pass leaves the frame's new list and the old log followed by its keyframes, a failed one leaves the log and everything but velocities unchanged, and a failed frame fails the remaining frames while a completed one leaves the outcome of the frames still to run unchanged |
| Schedule.AnimateStep | stellar_classes.py:31-33 | the loop from one frame on is that frame, then the loop from the next frame on; a failed frame fails the loop |
| SolarSystems.SolarSystem.CreateAnimation | stellar_classes.py:30-33 | completes exactly when the run does; then the list and the new keyframes are the run's, and `current_frame` ends at `frame_end - 1` (untouched for an empty range); on an error `current_frame` lies in `[frame_start, frame_end)` |

## Left out

- The Blender side is not modelled: `_add_sphere`, the mesh, `obj.location` and `keyframe_insert`. The keyframe log is a ghost field of `(frame, name, position)` entries. The position is the body's position right after its move, which is what `obj.location` holds when the keyframe is inserted.
- The display radius `max(log(mass, 1.3), 0.01)` is not modelled (rendering only). Its consequence for the physics is modelled: the logarithm raises for a mass <= 0, so `Mass` is a positive real.
- The `size` parameter of `SolarSystem.__init__` is stored but never used by the core.
- `main.py` is not modelled: it only builds a scene from concrete bodies.
- Floating point is modelled as exact `real` arithmetic, so momentum conservation is exact rather than up to rounding.
- `Vector.magnitude` is a function parameter. `Vector.normalize` is written out as division by that length.
- The source keeps bodies as shared objects and mutates them through references. The model keeps them as values in `bodies` and writes each update back by index. Aliasing (the same object added twice) is not modelled: with it, the self pair has zero distance and raises in the first frame in both versions, but the state left behind may differ.
- `current_frame` is set by the constructor to `frame_start`, although the source only creates it in the loop. No method reads it outside the loop.
- The inner loop of `_calculate_all_body_interactions` and the body of the frame loop of `create_animation` are separate methods, `InteractWithLater` and `AnimateFrame`; `StepAnimation` restates `AnimateFrame` for the loop. This keeps each proof small.
- The source iterates over `bodies_copy`, and nothing changes the list order during the phase. The model therefore iterates over `bodies` by index.
- SolarSystems.SolarSystem.CalculateAllBodyInteractions: after an error, the state left behind is only stated to differ from the old state in velocities. The velocities of the pairs already done are not stated exactly.
- SolarSystems.SolarSystem.InteractWithLater: after an error, likewise only the velocities-only change is stated.
- SolarSystems.SolarSystem.CreateAnimation: after an error, the body list and keyframes are not described (the source leaves them half-updated too), and `current_frame` is only stated to lie in the range, not to be the frame that raised.
- SolarSystems.SolarSystem.AnimateFrame: after an error, the log is unchanged and only velocities have changed, but the velocities of the pairs already done are not stated exactly.
- SolarSystems.SolarSystem.StepAnimation: after an error, likewise only the unchanged log and the velocities-only change are stated.
- Every body moves in every frame, and the only error the core can raise is the division by zero at `stellar_classes.py:94`.
