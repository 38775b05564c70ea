# DetourCrowd steering behaviours in Dafny

This project models two steering behaviours of the DetourCrowd layer of Recast/Detour (MASA Group extension).
Each tick, a behaviour reads an agent's previous-tick record and writes steering outputs into its next-tick record.

- **Seek with arrival** (`dtSeekBehavior`). The pursuit force is the offset to the target plus the target's velocity weighted by a prediction factor, clamped to the agent's maximum acceleration. The force is integrated over `dt`, and the agent is put into one of three cases:
  - arrived: hard stop;
  - inside the braking distance `speed² / maxAcceleration`: velocity scaled down linearly;
  - far: full speed.

  The velocity is then clamped to the maximum speed. Only `dvel` and `desiredSpeed` of the next-tick record are written.
- **Separation** (`dtSeparationBehavior`). Neighbours are skipped when they are inactive or when their gap (centre distance minus both radii) lies outside `[EPSILON, radius]`. The radius is the configured separation distance, or the agent's collision query range when that distance is negative. Each remaining neighbour adds the unit vector pointing away from it, scaled by `weight · (1 − (gap/radius)²) / gap`. The sum is averaged over the number of neighbours counted.

Vectors are `Vec3` over `real` (module `Vectors`).
The agent record is a class whose fields the behaviours read and write (module `Crowd`).
`EPSILON` is a positive constant of unspecified value.

Vector length needs a square root, which has no definition here. Every operation that uses a length therefore receives the length function as a parameter, constrained to be the Euclidean norm (`IsLength`: non-negative, square equal to the dot product).
From that constraint the model proves the laws the behaviours rely on: `|0| = 0`, `|k v| = |k| |v|`, and unit length of a normalised vector.
`dtVclamp` is given the behaviour its callers rely on: a vector longer than the bound is scaled to exactly the bound, and a shorter one is left unchanged.

The per-agent parameter stores are sequences indexed by agent id.
Each behaviour is a class holding its store.

Three places where the code behaves differently from what its names suggest; the model follows the code:
- The separation radius falls back to the collision query range only for a *negative* distance (`< 0`). A distance of exactly zero is used as it is, and then no neighbour is counted (`ZeroDistanceNoForce`).
- A neighbour's push has length `|weight| / gap`. Near the `EPSILON` boundary it is therefore close to `separationWeight / EPSILON` (`ContributionPushesAway`).
- `computeForce` accumulates onto whatever its `force` argument holds and averages the whole accumulator. The model keeps that initial value as a parameter (`init`); `update` passes the zero vector.

## Model

| member | source | states |
|---|---|---|
| Vectors.Clamp | DetourCrowd/Source/DetourSeekBehavior.cpp:124 | the result is never longer than the bound; a vector within the bound is returned unchanged; a longer one is scaled along itself to exactly the bound |
| Vectors.Normalize | DetourCrowd/Source/DetourSeparationBehavior.cpp:105 | a vector of positive length normalises to a unit vector that, scaled by the original length, gives back the vector |
| SeekBehavior.PursuitOffset | DetourCrowd/Source/DetourSeekBehavior.cpp:78-84 | the agent's position plus the offset is the target's position plus its velocity weighted by the prediction factor; with no prediction the offset is simply target minus agent |
| SeekBehavior.SeekForce | DetourCrowd/Source/DetourSeekBehavior.cpp:78-87 | the force is `(target − agent) + predictionFactor · targetVel` when that is within `maxAcceleration`; otherwise it is that vector rescaled to length exactly `maxAcceleration`; its length never exceeds `maxAcceleration` |
| SeekBehavior.StillTargetForce | DetourCrowd/Source/DetourSeekBehavior.cpp:78-87 | agent at the origin, still target at distance `d` on an axis, no prediction, `maxAcceleration < d`: the force is the axis vector of length `maxAcceleration` (the 10 → 5 scenario) |
| SeekBehavior.Integrate | DetourCrowd/Source/DetourSeekBehavior.cpp:98-99 | the integrated velocity differs from the previous one by exactly `force · dt`, and equals it when `dt = 0` |
| SeekBehavior.SlowDist | DetourCrowd/Source/DetourSeekBehavior.cpp:103 | the braking distance is non-negative and satisfies `slowDist · maxAcceleration = speed²` |
| SeekBehavior.DistToObj | DetourCrowd/Source/DetourSeekBehavior.cpp:104 | with non-negative radii and seek offset, the distance left never exceeds the distance between the centres |
| SeekBehavior.Phase | DetourCrowd/Source/DetourSeekBehavior.cpp:107-121 | the arrived case fires iff `distToObj ≤ EPSILON`; the far case iff `EPSILON < distToObj` and `slowDist ≤ distToObj`; in the slow-down case `slowDist > 0` and `distToObj / slowDist` lies strictly in (0, 1) |
| SeekBehavior.Braking | DetourCrowd/Source/DetourSeekBehavior.cpp:106-121 | the desired speed chosen by the three cases is never negative |
| SeekBehavior.Arrival | DetourCrowd/Source/DetourSeekBehavior.cpp:97-126 | the written velocity is never longer than `maxSpeed`; the desired speed is non-negative; at `distToObj ≤ EPSILON` both outputs are zero whatever the velocity and force |
| SeekBehavior.SlowingDownScales | DetourCrowd/Source/DetourSeekBehavior.cpp:113-118 | in the slow-down case the factor lies in (0, 1); the written velocity is the clamp of the tentative velocity times that factor; the desired speed is the factor times the tentative speed, taken before the clamp, and is at most the tentative speed |
| SeekBehavior.FullSpeedKeepsIntegratedVelocity | DetourCrowd/Source/DetourSeekBehavior.cpp:98-124 | in the far case the desired speed is `maxSpeed`; the velocity is `vel + force·dt` clamped to `maxSpeed`, and exactly `vel + force·dt` when that is within the limit |
| SeekBehavior.ZeroForceKeepsVelocity | DetourCrowd/Source/DetourSeekBehavior.cpp:98-124 | far from the target, with no force and a velocity within the limit, the velocity is kept |
| SeekBehavior.FarTargetFullSpeed | DetourCrowd/Source/DetourSeekBehavior.cpp:98-126 | agent at rest, target beyond `EPSILON` on an axis, one step of the force exceeding `maxSpeed`: the agent asks for full speed and moves along the axis at exactly `maxSpeed` (the 10-away scenario with outputs (3,0,0) and 3) |
| SeekBehavior.NearTargetStops | DetourCrowd/Source/DetourSeekBehavior.cpp:104-111 | with the target within `EPSILON` (no radii, no offset), both outputs are zero whatever the velocity and force (the 0.05-away scenario) |
| SeekBehavior.Steer | DetourCrowd/Source/DetourSeekBehavior.cpp:68-69 | computing the force and applying it gives a velocity never longer than the agent's `maxSpeed` |
| SeekBehavior.Seek.ApplyForce | DetourCrowd/Source/DetourSeekBehavior.cpp:90-127 | the step-by-step update writes into `newAgent.dvel` and `newAgent.desiredSpeed` exactly the arrival-profile outputs of the previous-tick state, and writes nothing else |
| SeekBehavior.Seek.Update | DetourCrowd/Source/DetourSeekBehavior.cpp:56-70 | missing records, or a missing or inactive target, leave `newAgent` untouched; otherwise only its steering outputs change, and they equal the force-then-arrival result of the previous-tick state |
| SeparationBehavior.EffectiveRadius | DetourCrowd/Source/DetourSeparationBehavior.cpp:82 | a non-negative configured distance (zero included) is used as it is; a negative one is replaced by the collision query range |
| SeparationBehavior.Gap | DetourCrowd/Source/DetourSeparationBehavior.cpp:97 | with non-negative radii the gap never exceeds the distance between the centres |
| SeparationBehavior.Counted | DetourCrowd/Source/DetourSeparationBehavior.cpp:91-100 | a neighbour passes the filter iff it is active and `EPSILON ≤ gap ≤ radius`; when one passes, the radius is at least `EPSILON > 0` |
| SeparationBehavior.Falloff | DetourCrowd/Source/DetourSeparationBehavior.cpp:102 | the falloff never exceeds 1 and is zero at the separation radius |
| SeparationBehavior.Weight | DetourCrowd/Source/DetourSeparationBehavior.cpp:102 | the weight is zero when the separation weight is zero or the neighbour sits exactly at the radius |
| SeparationBehavior.Contribution | DetourCrowd/Source/DetourSeparationBehavior.cpp:102-106 | a counted neighbour of zero weight pushes with the zero vector |
| SeparationBehavior.CountOf | DetourCrowd/Source/DetourSeparationBehavior.cpp:87-104 | the count never exceeds the number of neighbour records |
| SeparationBehavior.Accumulated | DetourCrowd/Source/DetourSeparationBehavior.cpp:87-107 | when every record is inactive, the accumulator is left as it was |
| SeparationBehavior.SeparationForce | DetourCrowd/Source/DetourSeparationBehavior.cpp:77-110 | on the early return (no records, no targets, `nbTargets ≤ 0`) the force is the starting accumulator |
| SeparationBehavior.CountIsFilterSize | DetourCrowd/Source/DetourSeparationBehavior.cpp:87-104 | the count equals the number of neighbour indices that are active with `EPSILON ≤ gap ≤ radius` |
| SeparationBehavior.NothingCountedKeepsAccumulator | DetourCrowd/Source/DetourSeparationBehavior.cpp:87-107 | when no neighbour passes the filter, the accumulator is left as it was |
| SeparationBehavior.NarrowRadiusCountsNothing | DetourCrowd/Source/DetourSeparationBehavior.cpp:99 | a radius below `EPSILON` lets no neighbour through |
| SeparationBehavior.NoNeighbourNoForce | DetourCrowd/Source/DetourSeparationBehavior.cpp:77-110 | on the early return (no records, no targets, `nbTargets ≤ 0`), or when no neighbour is counted, the force is the starting accumulator, i.e. zero when called from update |
| SeparationBehavior.ZeroDistanceNoForce | DetourCrowd/Source/DetourSeparationBehavior.cpp:82 | a configured distance of 0 is not replaced by the collision query range: the force stays the starting accumulator |
| SeparationBehavior.FalloffBounds | DetourCrowd/Source/DetourSeparationBehavior.cpp:102 | for `0 < gap ≤ radius` the falloff `1 − (gap/radius)²` lies in [0, 1) and is zero at `gap = radius` |
| SeparationBehavior.WeightBounds | DetourCrowd/Source/DetourSeparationBehavior.cpp:102 | with a non-negative separation weight, a counted neighbour's weight lies between 0 and that weight and is zero at the radius |
| SeparationBehavior.ContributionPushesAway | DetourCrowd/Source/DetourSeparationBehavior.cpp:97-106 | a counted neighbour has `0 < EPSILON ≤ gap ≤ radius`, so the division by the gap is defined; the centre offset `agent − neighbour` has positive length; the push is that offset scaled to unit length (by `1/|offset|`) and then by `weight/gap`, so it points away from the neighbour when the weight is non-negative, and it has length `|weight| / gap` |
| SeparationBehavior.SingleNeighbourForce | DetourCrowd/Source/DetourSeparationBehavior.cpp:104-110 | with one counted neighbour and a zero accumulator, the force is exactly that neighbour's push |
| SeparationBehavior.StepsCommute | DetourCrowd/Source/DetourSeparationBehavior.cpp:102-106 | visiting two neighbours in either order gives the same accumulator: each visit only adds its own push |
| SeparationBehavior.CountLast | DetourCrowd/Source/DetourSeparationBehavior.cpp:87-104 | the count over a list equals the count without the record at index `k`, plus one if that record passes the filter |
| SeparationBehavior.VisitLast | DetourCrowd/Source/DetourSeparationBehavior.cpp:87-107 | the accumulator over a list equals the one over the list without the record at index `k`, followed by that record's visit |
| SeparationBehavior.OrderIndependent | DetourCrowd/Source/DetourSeparationBehavior.cpp:87-107 | two neighbour lists holding the same records (as multisets) in any order give the same count and the same accumulator |
| SeparationBehavior.ForceOrderIndependent | DetourCrowd/Source/DetourSeparationBehavior.cpp:77-110 | the separation force does not depend on the order of the neighbour records |
| SeparationBehavior.PrefixStep | DetourCrowd/Source/DetourSeparationBehavior.cpp:87-107 | visiting one more neighbour adds one to the count and its push to the accumulator exactly when it passes the filter, and changes neither otherwise |
| SeparationBehavior.VisitCounted | DetourCrowd/Source/DetourSeparationBehavior.cpp:102-106 | the loop's own arithmetic (`1/radius`, the weight, normalise, multiply-add by `weight/gap`) adds exactly the neighbour's push |
| SeparationBehavior.Separation.AccumulateNeighbours | DetourCrowd/Source/DetourSeparationBehavior.cpp:87-107 | the loop returns the number of neighbours passing the filter and the accumulator plus the pushes of exactly those neighbours, in order |
| SeparationBehavior.Separation.ComputeForce | DetourCrowd/Source/DetourSeparationBehavior.cpp:68-113 | the accumulator is unchanged on the early return (no records, no targets, `nbTargets ≤ 0`); otherwise it is the accumulated pushes divided by the count when the count is positive |
| SeparationBehavior.Separation.Update | DetourCrowd/Source/DetourSeparationBehavior.cpp:57-66 | nothing is applied iff a record is missing; otherwise the force handed to applyForce is computed from a zero accumulator |

## Left out

- `allocate` and `free` in both behaviours: placement construction over the library's allocator, which is outside the model.
- The temporary agent-pointer buffer and `crowd->getAgents`. The resolved neighbour records are a parameter (`Option<seq<Agent>>`, `None` for a failed allocation), with as many entries as `separationNbTargets`.
- The call order in the separation source (`getAgents` before the null check) is not modelled; only the early-return outcome is.
- Separation's `applyForce` is inherited from the generic steering-behaviour base, which is not part of this model. `SeparationBehavior.Separation.Update` returns the force it would hand over and writes nothing; `dt` is therefore not a parameter.
- IEEE `float` arithmetic: rounding, `inf` and `NaN` are not modelled; everything is over `real`.
- The inverse radius `1/maxDistance` is taken inside the loop, where the radius is known to be positive. The source takes it before the loop, where a zero radius gives `inf` that is never used.
- Square roots: lengths come from a length function constrained to the Euclidean norm.
- `dtVnormalize` is modelled only for vectors of positive length.
- The value of `EPSILON`, which is defined outside the modelled files; only its positivity is used.
- Agent fields the two behaviours neither read nor write, and the crowd's double buffering and update order.
- SeekBehavior.Seek.Update: requires a positive maximum acceleration and a non-negative maximum speed for an agent with a live target. With zero acceleration the braking distance divides by zero.
- SeparationBehavior.Separation.ComputeForce: requires non-negative agent radii, so that a counted neighbour's centre offset has positive length before it is normalised.
