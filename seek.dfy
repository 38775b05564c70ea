/** dtSeekBehavior: pursuit of a (possibly moving) target agent, with a
    kinematic arrival profile that brakes the agent as it approaches. */
module SeekBehavior {
  import opened Vectors
  import opened Crowd

  /** Per-agent parameters (dtSeekBehaviorParams). The target is a weak
      reference into the crowd's agent registry, or null. */
  datatype SeekParams = SeekParams(
    seekTarget: Agent?,
    seekPredictionFactor: real,
    seekDistance: real)

  /** The unclamped pursuit force: the offset to the target plus the
      target's velocity weighted by the prediction factor. */
  function PursuitOffset(agentPos: Vec3, targetPos: Vec3, targetVel: Vec3, predictionFactor: real): (r: Vec3)
    ensures Add(agentPos, r) == Add(targetPos, Scale(targetVel, predictionFactor))
    ensures predictionFactor == 0.0 ==> r == Sub(targetPos, agentPos)
  {
    Add(Sub(targetPos, agentPos), Scale(targetVel, predictionFactor))
  }

  /** computeForce: the pursuit force, limited to the agent's acceleration. */
  function SeekForce(
    length: Vec3 -> real, agentPos: Vec3, maxAcceleration: real,
    targetPos: Vec3, targetVel: Vec3, predictionFactor: real): (r: Vec3)
    requires IsLength(length)
    requires 0.0 <= maxAcceleration
    ensures length(r) <= maxAcceleration
    ensures var raw := PursuitOffset(agentPos, targetPos, targetVel, predictionFactor);
      && (length(raw) <= maxAcceleration ==> r == raw)
      && (maxAcceleration < length(raw) ==>
            length(r) == maxAcceleration && r == Scale(raw, maxAcceleration / length(raw)))
  {
    Clamp(length, PursuitOffset(agentPos, targetPos, targetVel, predictionFactor), maxAcceleration)
  }

  /** Distance needed to stop from `speed` under full deceleration. */
  function SlowDist(speed: real, maxAcceleration: real): (r: real)
    requires 0.0 < maxAcceleration
    ensures 0.0 <= r
    ensures r * maxAcceleration == speed * speed
  {
    speed * (speed - 0.0) / maxAcceleration
  }

  /** Distance left to the target, net of both radii and the seek offset. */
  function DistToObj(
    length: Vec3 -> real, agentPos: Vec3, agentRadius: real,
    targetPos: Vec3, targetRadius: real, seekDistance: real): (r: real)
    ensures 0.0 <= agentRadius && 0.0 <= targetRadius && 0.0 <= seekDistance ==>
      r <= Dist(length, agentPos, targetPos)
  {
    Dist(length, agentPos, targetPos) - agentRadius - targetRadius - seekDistance
  }

  /** The three cases of the arrival profile. */
  datatype ArrivalPhase = Arrived | SlowingDown | FullSpeed

  function Phase(distToObj: real, slowDist: real): (r: ArrivalPhase)
    ensures r == Arrived <==> distToObj <= EPSILON
    ensures r == SlowingDown ==> 0.0 < slowDist && 0.0 < distToObj / slowDist < 1.0
    ensures r == FullSpeed <==> EPSILON < distToObj && slowDist <= distToObj
  {
    if distToObj <= EPSILON then Arrived
    else if distToObj < slowDist then
      QuotientInUnitInterval(distToObj, slowDist);
      SlowingDown
    else FullSpeed
  }

  /** What the behaviour writes into the next-tick record. */
  datatype Steering = Steering(dvel: Vec3, desiredSpeed: real)

  /** The velocity reached by applying `force` for `dt` from `vel`. */
  function Integrate(vel: Vec3, force: Vec3, dt: real): (r: Vec3)
    ensures Sub(r, vel) == Scale(force, dt)
    ensures dt == 0.0 ==> r == vel
  {
    Add(vel, Scale(force, dt))
  }

  /** The velocity and desired speed chosen by the arrival case, before the
      velocity is clamped to the maximum speed. */
  function Braking(
    length: Vec3 -> real, vel: Vec3, force: Vec3, dt: real,
    maxAcceleration: real, maxSpeed: real, distToObj: real): (r: Steering)
    requires IsLength(length)
    requires 0.0 < maxAcceleration && 0.0 <= maxSpeed
    ensures 0.0 <= r.desiredSpeed
  {
    var tentative := Integrate(vel, force, dt);
    var slowDist := SlowDist(length(vel), maxAcceleration);
    match Phase(distToObj, slowDist)
    case Arrived => Steering(Zero, 0.0)
    case SlowingDown =>
      var slowed := Scale(tentative, distToObj / slowDist);
      LengthSquared(length, slowed);
      Steering(slowed, length(slowed))
    case FullSpeed => Steering(tentative, maxSpeed)
  }

  /** applyForce: integrate the force, choose the arrival case, then clamp the
      velocity to the maximum speed. */
  function Arrival(
    length: Vec3 -> real, vel: Vec3, force: Vec3, dt: real,
    maxAcceleration: real, maxSpeed: real, distToObj: real): (r: Steering)
    requires IsLength(length)
    requires 0.0 < maxAcceleration && 0.0 <= maxSpeed
    ensures length(r.dvel) <= maxSpeed
    ensures 0.0 <= r.desiredSpeed
    ensures distToObj <= EPSILON ==> r == Steering(Zero, 0.0)
  {
    var b := Braking(length, vel, force, dt, maxAcceleration, maxSpeed, distToObj);
    LengthOfZero(length);
    Steering(Clamp(length, b.dvel, maxSpeed), b.desiredSpeed)
  }

  /** Inside the braking zone the tentative velocity is scaled by a factor in
      (0, 1); the desired speed is the scaled speed, taken before the final
      clamp, and so never exceeds the tentative speed. */
  lemma SlowingDownScales(
    length: Vec3 -> real, vel: Vec3, force: Vec3, dt: real,
    maxAcceleration: real, maxSpeed: real, distToObj: real)
    requires IsLength(length)
    requires 0.0 < maxAcceleration && 0.0 <= maxSpeed
    requires Phase(distToObj, SlowDist(length(vel), maxAcceleration)) == SlowingDown
    ensures var slowDist := SlowDist(length(vel), maxAcceleration);
      var k := distToObj / slowDist;
      var tentative := Integrate(vel, force, dt);
      var r := Arrival(length, vel, force, dt, maxAcceleration, maxSpeed, distToObj);
      && 0.0 < k < 1.0
      && r.dvel == Clamp(length, Scale(tentative, k), maxSpeed)
      && r.desiredSpeed == k * length(tentative)
      && r.desiredSpeed <= length(tentative)
  {
    var slowDist := SlowDist(length(vel), maxAcceleration);
    var k := distToObj / slowDist;
    var tentative := Integrate(vel, force, dt);
    LengthOfScaled(length, tentative, k);
    LengthSquared(length, tentative);
    assert k * length(tentative) <= length(tentative) by {
      assert (1.0 - k) * length(tentative) >= 0.0;
    }
  }

  /** Far from the target the desired speed is the maximum speed, and the
      velocity is the integrated one, only limited to the maximum speed. */
  lemma FullSpeedKeepsIntegratedVelocity(
    length: Vec3 -> real, vel: Vec3, force: Vec3, dt: real,
    maxAcceleration: real, maxSpeed: real, distToObj: real)
    requires IsLength(length)
    requires 0.0 < maxAcceleration && 0.0 <= maxSpeed
    requires Phase(distToObj, SlowDist(length(vel), maxAcceleration)) == FullSpeed
    ensures var r := Arrival(length, vel, force, dt, maxAcceleration, maxSpeed, distToObj);
      && r.desiredSpeed == maxSpeed
      && r.dvel == Clamp(length, Integrate(vel, force, dt), maxSpeed)
      && (length(Integrate(vel, force, dt)) <= maxSpeed ==> r.dvel == Add(vel, Scale(force, dt)))
  {
  }

  /** With no force and a velocity already within the speed limit, an agent
      that is far from its target keeps its velocity. */
  lemma ZeroForceKeepsVelocity(
    length: Vec3 -> real, vel: Vec3, dt: real,
    maxAcceleration: real, maxSpeed: real, distToObj: real)
    requires IsLength(length)
    requires 0.0 < maxAcceleration && 0.0 <= maxSpeed
    requires length(vel) <= maxSpeed
    requires Phase(distToObj, SlowDist(length(vel), maxAcceleration)) == FullSpeed
    ensures Arrival(length, vel, Zero, dt, maxAcceleration, maxSpeed, distToObj).dvel == vel
  {
  }

  /** Vector identities of the scenarios below, kept apart from the length
      axioms so that the solver proves them by arithmetic alone. */
  lemma AxisIdentities(a: real)
    ensures PursuitOffset(Zero, Vec3(a, 0.0, 0.0), Zero, 0.0) == Vec3(a, 0.0, 0.0)
    ensures Sub(Vec3(a, 0.0, 0.0), Zero) == Vec3(a, 0.0, 0.0)
  {
  }

  lemma ScaleOnAxis(a: real, k: real, b: real)
    requires a * k == b
    ensures Scale(Vec3(a, 0.0, 0.0), k) == Vec3(b, 0.0, 0.0)
  {
  }

  /** An agent at the origin seeking a still target at distance `d` along the
      first axis, with no prediction: when the maximum acceleration `a` is
      below `d`, the force points at the target with length exactly `a`. */
  lemma StillTargetForce(length: Vec3 -> real, d: real, a: real)
    requires IsLength(length)
    requires 0.0 <= a < d
    ensures SeekForce(length, Zero, a, Vec3(d, 0.0, 0.0), Zero, 0.0) == Vec3(a, 0.0, 0.0)
  {
    AxisIdentities(d);
    LengthOnAxis(length, d);
    ScaleOnAxis(d, a / d, a);
  }

  /** The same agent, at rest and without radii or offset, applying that
      force for `dt`: it is beyond the arrival threshold and, at rest, has no
      braking distance, so it asks for full speed; when one step of the force
      exceeds the maximum speed `s`, the new velocity is clamped to `s` along
      the axis. */
  lemma FarTargetFullSpeed(length: Vec3 -> real, d: real, a: real, s: real, dt: real)
    requires IsLength(length)
    requires EPSILON < d && 0.0 < a && 0.0 <= s < a * dt
    ensures Arrival(length, Zero, Vec3(a, 0.0, 0.0), dt, a, s,
      DistToObj(length, Zero, 0.0, Vec3(d, 0.0, 0.0), 0.0, 0.0)) == Steering(Vec3(s, 0.0, 0.0), s)
  {
    AxisIdentities(d);
    LengthOnAxis(length, d);
    LengthOfZero(length);
    assert SlowDist(0.0, a) == 0.0;
    ScaleOnAxis(a, dt, a * dt);
    assert Integrate(Zero, Vec3(a, 0.0, 0.0), dt) == Vec3(a * dt, 0.0, 0.0);
    LengthOnAxis(length, a * dt);
    ScaleOnAxis(a * dt, s / (a * dt), s);
  }

  /** An agent at the origin whose still target lies within the arrival
      threshold (no radii, no offset) stops, whatever its velocity and the
      force. */
  lemma NearTargetStops(
    length: Vec3 -> real, d: real, vel: Vec3, force: Vec3, dt: real,
    maxAcceleration: real, maxSpeed: real)
    requires IsLength(length)
    requires 0.0 <= d <= EPSILON
    requires 0.0 < maxAcceleration && 0.0 <= maxSpeed
    ensures Arrival(length, vel, force, dt, maxAcceleration, maxSpeed,
      DistToObj(length, Zero, 0.0, Vec3(d, 0.0, 0.0), 0.0, 0.0)) == Steering(Zero, 0.0)
  {
    AxisIdentities(d);
    LengthOnAxis(length, d);
  }

  /** Everything the behaviour writes for agent `ag` pursuing `target`. */
  function Steer(length: Vec3 -> real, ag: Agent, target: Agent, p: SeekParams, dt: real): (r: Steering)
    reads ag, target
    requires IsLength(length)
    requires 0.0 < ag.maxAcceleration && 0.0 <= ag.maxSpeed
    ensures length(r.dvel) <= ag.maxSpeed
  {
    var force := SeekForce(length, ag.npos, ag.maxAcceleration, target.npos, target.vel, p.seekPredictionFactor);
    Arrival(length, ag.vel, force, dt, ag.maxAcceleration, ag.maxSpeed,
      DistToObj(length, ag.npos, ag.radius, target.npos, target.radius, p.seekDistance))
  }

  /** A seek behaviour instance with its parameter store, indexed by agent id. */
  class Seek {
    var params: seq<SeekParams>

    /** `ag` is present and its parameters name an active target. */
    predicate HasLiveTarget(ag: Agent?)
      reads this, ag, Targets()
    {
      && ag != null
      && ag.id < |params|
      && params[ag.id].seekTarget != null
      && params[ag.id].seekTarget.active
    }

    /** Every agent some parameter record names as its target. */
    function Targets(): set<Agent>
      reads this
    {
      set i | 0 <= i < |params| && params[i].seekTarget != null :: params[i].seekTarget
    }

    /** applyForce: writes the arrival-profile output into `newAgent`. */
    method ApplyForce(length: Vec3 -> real, oldAgent: Agent, newAgent: Agent, force: Vec3, dt: real)
      requires IsLength(length)
      requires oldAgent.id < |params| && params[oldAgent.id].seekTarget != null
      requires 0.0 < oldAgent.maxAcceleration && 0.0 <= oldAgent.maxSpeed
      modifies newAgent`dvel, newAgent`desiredSpeed
      ensures
        var target := params[oldAgent.id].seekTarget;
        var distToObj := old(DistToObj(length, oldAgent.npos, oldAgent.radius,
          target.npos, target.radius, params[oldAgent.id].seekDistance));
        Steering(newAgent.dvel, newAgent.desiredSpeed)
          == old(Arrival(length, oldAgent.vel, force, dt, oldAgent.maxAcceleration, oldAgent.maxSpeed, distToObj))
    {
      var target := params[oldAgent.id].seekTarget;
      var distance := params[oldAgent.id].seekDistance;

      var tmpForce := Scale(force, dt);
      var newVelocity := Add(oldAgent.vel, tmpForce);

      var currentSpeed := length(oldAgent.vel);
      var slowDist := currentSpeed * (currentSpeed - 0.0) / oldAgent.maxAcceleration;
      var distToObj := length(Sub(target.npos, oldAgent.npos)) - oldAgent.radius - target.radius - distance;
      assert slowDist == SlowDist(currentSpeed, oldAgent.maxAcceleration);
      ghost var expected := Braking(length, oldAgent.vel, force, dt,
        oldAgent.maxAcceleration, oldAgent.maxSpeed, distToObj);

      if distToObj <= EPSILON {
        newVelocity := Zero;
        newAgent.desiredSpeed := 0.0;
      } else if distToObj < slowDist {
        var slowDownRadius := distToObj / slowDist;
        newVelocity := Scale(newVelocity, slowDownRadius);
        newAgent.desiredSpeed := length(newVelocity);
      } else {
        newAgent.desiredSpeed := oldAgent.maxSpeed;
      }
      assert newVelocity == expected.dvel && newAgent.desiredSpeed == expected.desiredSpeed;

      newVelocity := Clamp(length, newVelocity, oldAgent.maxSpeed);
      newAgent.dvel := newVelocity;
    }

    /** update: no-op without both records or without a live target;
        otherwise compute the pursuit force and apply it. */
    method Update(length: Vec3 -> real, oldAgent: Agent?, newAgent: Agent?, dt: real)
      requires IsLength(length)
      requires oldAgent != null && newAgent != null ==> oldAgent.id < |params|
      requires newAgent != null && HasLiveTarget(oldAgent) ==>
        0.0 < oldAgent.maxAcceleration && 0.0 <= oldAgent.maxSpeed
      modifies newAgent
      ensures newAgent != null ==> OnlySteeringWritten(newAgent)
      ensures newAgent != null && !old(HasLiveTarget(oldAgent)) ==> unchanged(newAgent)
      ensures newAgent != null && old(HasLiveTarget(oldAgent)) ==>
        Steering(newAgent.dvel, newAgent.desiredSpeed)
          == old(Steer(length, oldAgent, params[oldAgent.id].seekTarget, params[oldAgent.id], dt))
    {
      if oldAgent == null || newAgent == null {
        return;
      }
      var target := params[oldAgent.id].seekTarget;
      if target == null || !target.active {
        return;
      }
      var p := params[oldAgent.id];
      var desiredForce := SeekForce(length, oldAgent.npos, oldAgent.maxAcceleration,
        target.npos, target.vel, p.seekPredictionFactor);
      ApplyForce(length, oldAgent, newAgent, desiredForce, dt);
    }
  }
}
