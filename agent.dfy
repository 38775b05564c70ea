/** The crowd agent record (dtCrowdAgent) as far as the steering behaviours
    read or write it, and the constants they share. */
module Crowd {
  import opened Vectors

  datatype Option<T> = None | Some(value: T)

  type Positive = r: real | 0.0 < r witness 1.0

  /** Distance under which a target counts as reached and a neighbour as
      touching. Its value is defined outside the modelled files; only its
      positivity is relied on. */
  const EPSILON: Positive

  /** One crowd member. The behaviours read a previous-tick record and write
      the steering outputs `dvel` and `desiredSpeed` of a next-tick record. */
  class Agent {
    var id: nat
    var active: bool
    var npos: Vec3
    var vel: Vec3
    var dvel: Vec3
    var radius: real
    var maxSpeed: real
    var maxAcceleration: real
    var desiredSpeed: real
    var collisionQueryRange: real
  }

  /** Between two states, only the steering outputs of `a` changed. */
  twostate predicate OnlySteeringWritten(a: Agent)
    reads a
  {
    && a.id == old(a.id)
    && a.active == old(a.active)
    && a.npos == old(a.npos)
    && a.vel == old(a.vel)
    && a.radius == old(a.radius)
    && a.maxSpeed == old(a.maxSpeed)
    && a.maxAcceleration == old(a.maxAcceleration)
    && a.collisionQueryRange == old(a.collisionQueryRange)
  }
}
