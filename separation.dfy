/** The separation behaviour (dtSeparationBehavior): an agent is pushed away
    from the listed neighbours that are active and whose gap (distance
    between centres minus both radii) lies between EPSILON and the
    separation radius. Each such neighbour contributes the unit vector
    pointing away from it, scaled by a quadratically falling weight divided
    by the gap; the accumulated force is averaged over the neighbours
    counted. */
module SeparationBehavior {
  import opened Vectors
  import opened Crowd

  /** Per-agent parameters (dtSeparationBehaviorParams). The crowd handle
      that resolves target ids to agent records is not modelled: the
      resolved records are passed to the operations instead. */
  datatype SeparationParams = SeparationParams(
    separationTargets: Option<seq<int>>,
    separationNbTargets: int,
    separationWeight: real,
    separationDistance: real)

  /** The records the crowd returned for the target list, if any. */
  function Neighbours(agents: Option<seq<Agent>>): seq<Agent>
  {
    if agents.Some? then agents.value else []
  }

  /** The crowd resolves exactly `separationNbTargets` records whenever the
      loop would read them. */
  predicate Resolved(p: SeparationParams, agents: Option<seq<Agent>>)
  {
    (agents.Some? && p.separationTargets.Some? && 0 < p.separationNbTargets) ==>
      |agents.value| == p.separationNbTargets
  }

  /** Agent radii are never negative. */
  predicate RadiiNonNegative(ag: Agent, ns: seq<Agent>)
    reads ag, ns
  {
    0.0 <= ag.radius && forall n :: n in ns ==> 0.0 <= n.radius
  }

  /** The separation radius: the configured distance, or the agent's
      collision query range when that distance is negative. */
  function EffectiveRadius(distance: real, queryRange: real): (r: real)
    ensures 0.0 <= distance ==> r == distance
    ensures distance < 0.0 ==> r == queryRange
  {
    if distance < 0.0 then queryRange else distance
  }

  /** The free space between the agent and a neighbour. */
  function Gap(length: Vec3 -> real, ag: Agent, n: Agent): (r: real)
    reads ag, n
    ensures 0.0 <= ag.radius && 0.0 <= n.radius ==> r <= length(Sub(ag.npos, n.npos))
  {
    length(Sub(ag.npos, n.npos)) - ag.radius - n.radius
  }

  /** The loop's filter: a neighbour counts when it is active and its gap is
      neither beyond the separation radius nor below EPSILON. */
  predicate Counted(length: Vec3 -> real, ag: Agent, n: Agent, maxDistance: real)
    reads ag, n
    ensures Counted(length, ag, n, maxDistance) <==>
      n.active && EPSILON <= Gap(length, ag, n) <= maxDistance
    ensures Counted(length, ag, n, maxDistance) ==> 0.0 < EPSILON <= maxDistance
  {
    n.active && !(Gap(length, ag, n) > maxDistance || Gap(length, ag, n) < EPSILON)
  }

  /** The falloff factor `1 - (gap / maxDistance)²`. */
  function Falloff(gap: real, maxDistance: real): (r: real)
    requires 0.0 < maxDistance
    ensures r <= 1.0
    ensures gap == maxDistance ==> r == 0.0
  {
    1.0 - Sqr(gap * (1.0 / maxDistance))
  }

  /** The weight of a neighbour at distance `gap`. */
  function Weight(separationWeight: real, gap: real, maxDistance: real): (r: real)
    requires 0.0 < maxDistance
    ensures separationWeight == 0.0 || gap == maxDistance ==> r == 0.0
  {
    separationWeight * Falloff(gap, maxDistance)
  }

  /** The force a counted neighbour adds: the unit vector from the neighbour
      to the agent, scaled by the weight divided by the gap. */
  function Contribution(
    length: Vec3 -> real, ag: Agent, n: Agent, separationWeight: real, maxDistance: real): (r: Vec3)
    reads ag, n
    requires IsLength(length)
    requires 0.0 <= ag.radius && 0.0 <= n.radius
    requires Counted(length, ag, n, maxDistance)
    ensures Weight(separationWeight, Gap(length, ag, n), maxDistance) == 0.0 ==> r == Zero
  {
    var diff := Sub(ag.npos, n.npos);
    var gap := Gap(length, ag, n);
    Scale(Normalize(length, diff), Weight(separationWeight, gap, maxDistance) / gap)
  }

  /** How many of `ns` pass the filter. */
  function CountOf(length: Vec3 -> real, ag: Agent, ns: seq<Agent>, maxDistance: real): (r: nat)
    reads ag, ns
    ensures r <= |ns|
  {
    if ns == [] then 0
    else
      CountOf(length, ag, ns[..|ns| - 1], maxDistance)
        + (if Counted(length, ag, ns[|ns| - 1], maxDistance) then 1 else 0)
  }

  /** The accumulator after visiting `ns` in order from `init`. */
  function Accumulated(
    length: Vec3 -> real, ag: Agent, ns: seq<Agent>,
    separationWeight: real, maxDistance: real, init: Vec3): (r: Vec3)
    reads ag, ns
    requires IsLength(length)
    requires RadiiNonNegative(ag, ns)
    ensures (forall i :: 0 <= i < |ns| ==> !ns[i].active) ==> r == init
  {
    if ns == [] then init
    else
      var acc := Accumulated(length, ag, ns[..|ns| - 1], separationWeight, maxDistance, init);
      var n := ns[|ns| - 1];
      if Counted(length, ag, n, maxDistance) then
        Add(acc, Contribution(length, ag, n, separationWeight, maxDistance))
      else acc
  }

  /** The force computeForce leaves in an accumulator that held `init`:
      unchanged on the early return, otherwise the accumulated force divided
      by the number of neighbours counted, when there is one. */
  function SeparationForce(
    length: Vec3 -> real, ag: Agent, p: SeparationParams,
    agents: Option<seq<Agent>>, init: Vec3): (r: Vec3)
    reads ag, Neighbours(agents)
    requires IsLength(length)
    requires RadiiNonNegative(ag, Neighbours(agents))
    ensures agents.None? || p.separationTargets.None? || p.separationNbTargets <= 0 ==> r == init
  {
    if agents.None? || p.separationTargets.None? || p.separationNbTargets <= 0 then init
    else
      var ns := agents.value;
      var maxDistance := EffectiveRadius(p.separationDistance, ag.collisionQueryRange);
      var count := CountOf(length, ag, ns, maxDistance);
      var sum := Accumulated(length, ag, ns, p.separationWeight, maxDistance, init);
      if count > 0 then Scale(sum, 1.0 / count as real) else sum
  }

  /** The indices of the neighbours that pass the filter. */
  ghost function CountedIndices(length: Vec3 -> real, ag: Agent, ns: seq<Agent>, maxDistance: real): set<int>
    reads ag, ns
  {
    set i | 0 <= i < |ns| && Counted(length, ag, ns[i], maxDistance)
  }

  /** `count` is the number of neighbours passing the filter. */
  lemma {:induction false} CountIsFilterSize(
    length: Vec3 -> real, ag: Agent, ns: seq<Agent>, maxDistance: real)
    ensures CountOf(length, ag, ns, maxDistance) == |CountedIndices(length, ag, ns, maxDistance)|
  {
    if ns != [] {
      var last := |ns| - 1;
      var pre := ns[..last];
      CountIsFilterSize(length, ag, pre, maxDistance);
      var before := CountedIndices(length, ag, pre, maxDistance);
      var after := CountedIndices(length, ag, ns, maxDistance);
      if Counted(length, ag, ns[last], maxDistance) {
        assert after == before + {last};
      } else {
        assert after == before;
      }
    }
  }

  /** When no neighbour passes the filter, the accumulator is untouched. */
  lemma {:induction false} NothingCountedKeepsAccumulator(
    length: Vec3 -> real, ag: Agent, ns: seq<Agent>,
    separationWeight: real, maxDistance: real, init: Vec3)
    requires IsLength(length)
    requires RadiiNonNegative(ag, ns)
    requires CountOf(length, ag, ns, maxDistance) == 0
    ensures Accumulated(length, ag, ns, separationWeight, maxDistance, init) == init
  {
    if ns != [] {
      NothingCountedKeepsAccumulator(length, ag, ns[..|ns| - 1], separationWeight, maxDistance, init);
    }
  }

  /** A separation radius below EPSILON (in particular a configured distance
      of zero, which is used as it is) lets no neighbour through. */
  lemma {:induction false} NarrowRadiusCountsNothing(
    length: Vec3 -> real, ag: Agent, ns: seq<Agent>, maxDistance: real)
    requires maxDistance < EPSILON
    ensures CountOf(length, ag, ns, maxDistance) == 0
  {
    if ns != [] {
      NarrowRadiusCountsNothing(length, ag, ns[..|ns| - 1], maxDistance);
    }
  }

  /** On the early return, or with no neighbour counted, the force is the
      accumulator it started from: the zero vector when update calls it. */
  lemma NoNeighbourNoForce(
    length: Vec3 -> real, ag: Agent, p: SeparationParams, agents: Option<seq<Agent>>, init: Vec3)
    requires IsLength(length)
    requires RadiiNonNegative(ag, Neighbours(agents))
    requires (agents.Some? && p.separationTargets.Some? && 0 < p.separationNbTargets) ==>
      CountOf(length, ag, agents.value,
        EffectiveRadius(p.separationDistance, ag.collisionQueryRange)) == 0
    ensures SeparationForce(length, ag, p, agents, init) == init
  {
    if agents.Some? && p.separationTargets.Some? && 0 < p.separationNbTargets {
      NothingCountedKeepsAccumulator(length, ag, agents.value, p.separationWeight,
        EffectiveRadius(p.separationDistance, ag.collisionQueryRange), init);
    }
  }

  /** A configured separation distance of zero is not replaced by the
      collision query range: nothing is pushed away. */
  lemma ZeroDistanceNoForce(
    length: Vec3 -> real, ag: Agent, p: SeparationParams, agents: Option<seq<Agent>>, init: Vec3)
    requires IsLength(length)
    requires RadiiNonNegative(ag, Neighbours(agents))
    requires p.separationDistance == 0.0
    ensures SeparationForce(length, ag, p, agents, init) == init
  {
    if agents.Some? {
      NarrowRadiusCountsNothing(length, ag, agents.value, 0.0);
    }
    NoNeighbourNoForce(length, ag, p, agents, init);
  }

  /** For a gap in (0, maxDistance] the falloff lies in [0, 1), and it is
      zero exactly at the separation radius. */
  lemma FalloffBounds(gap: real, maxDistance: real)
    requires 0.0 < gap <= maxDistance
    ensures 0.0 <= Falloff(gap, maxDistance) < 1.0
    ensures gap == maxDistance ==> Falloff(gap, maxDistance) == 0.0
  {
    var q := gap * (1.0 / maxDistance);
    assert q * maxDistance == gap;
    ProductPositive(gap, 1.0 / maxDistance);
    if 1.0 < q {
      ProductPositive(q - 1.0, maxDistance);
      assert false;
    }
    ProductPositive(q, q);
    ProductMonotone(q, 1.0, q);
    assert Falloff(gap, maxDistance) == 1.0 - q * q;
  }

  /** With a non-negative separation weight, a counted neighbour's weight
      lies between 0 and that weight, and vanishes at the separation radius. */
  lemma WeightBounds(separationWeight: real, gap: real, maxDistance: real)
    requires 0.0 <= separationWeight
    requires 0.0 < gap <= maxDistance
    ensures 0.0 <= Weight(separationWeight, gap, maxDistance) <= separationWeight
    ensures gap == maxDistance ==> Weight(separationWeight, gap, maxDistance) == 0.0
  {
    FalloffBounds(gap, maxDistance);
  }

  // Arithmetic steps of the contribution proofs, stated apart so that the
  // solver meets each nonlinear goal on its own.
  lemma AbsOfQuotient(w: real, g: real)
    requires 0.0 < g
    ensures Abs(w / g) == Abs(w) / g
  {
    if w < 0.0 {
      assert w / g == -((-w) / g);
      ProductPositive(-w, 1.0 / g);
    } else if 0.0 < w {
      ProductPositive(w, 1.0 / g);
    }
  }

  /** A counted neighbour is at positive gap, so the division by the gap is
      defined; its contribution points from the neighbour to the agent and
      has length |weight| / gap (not the weight itself). */
  lemma ContributionPushesAway(
    length: Vec3 -> real, ag: Agent, n: Agent, separationWeight: real, maxDistance: real)
    requires IsLength(length)
    requires 0.0 <= ag.radius && 0.0 <= n.radius
    requires Counted(length, ag, n, maxDistance)
    ensures 0.0 < EPSILON <= Gap(length, ag, n) <= maxDistance
    ensures 0.0 < length(Sub(ag.npos, n.npos))
    ensures var diff := Sub(ag.npos, n.npos);
      var gap := Gap(length, ag, n);
      Contribution(length, ag, n, separationWeight, maxDistance)
        == Scale(Scale(diff, 1.0 / length(diff)), Weight(separationWeight, gap, maxDistance) / gap)
    ensures length(Contribution(length, ag, n, separationWeight, maxDistance))
      == Abs(Weight(separationWeight, Gap(length, ag, n), maxDistance)) / Gap(length, ag, n)
  {
    var diff := Sub(ag.npos, n.npos);
    var gap := Gap(length, ag, n);
    var w := Weight(separationWeight, gap, maxDistance);
    var u := Normalize(length, diff);
    var k := w / gap;
    var c := Contribution(length, ag, n, separationWeight, maxDistance);
    LengthOfScaled(length, u, k);
    assert length(c) == Abs(k) * 1.0;
    AbsOfQuotient(w, gap);
  }

  /** With a single counted neighbour and a zero accumulator, the force is
      that neighbour's contribution: the average of one term. */
  lemma SingleNeighbourForce(
    length: Vec3 -> real, ag: Agent, n: Agent, p: SeparationParams)
    requires IsLength(length)
    requires 0.0 <= ag.radius && 0.0 <= n.radius
    requires p.separationTargets.Some? && 0 < p.separationNbTargets
    requires Counted(length, ag, n, EffectiveRadius(p.separationDistance, ag.collisionQueryRange))
    ensures SeparationForce(length, ag, p, Some([n]), Zero)
      == Contribution(length, ag, n, p.separationWeight,
           EffectiveRadius(p.separationDistance, ag.collisionQueryRange))
  {
    var maxDistance := EffectiveRadius(p.separationDistance, ag.collisionQueryRange);
    assert [n][..0] == [];
    var c := Contribution(length, ag, n, p.separationWeight, maxDistance);
    assert CountOf(length, ag, [n], maxDistance) == 1;
    assert Accumulated(length, ag, [n], p.separationWeight, maxDistance, Zero) == Add(Zero, c);
    AverageOfOne(c);
  }

  // Dividing a single term by a count of one; kept apart from the length
  // constraint so that the solver sees only arithmetic.
  lemma AverageOfOne(c: Vec3)
    ensures Scale(Add(Zero, c), 1.0 / 1 as real) == c
  {
  }

  /** One more neighbour visited: the count and the accumulator grow by the
      neighbour's share exactly when it passes the filter. */
  lemma PrefixStep(
    length: Vec3 -> real, ag: Agent, ns: seq<Agent>, i: nat,
    separationWeight: real, maxDistance: real, init: Vec3)
    requires IsLength(length)
    requires RadiiNonNegative(ag, ns)
    requires i < |ns|
    ensures RadiiNonNegative(ag, ns[..i + 1]) && RadiiNonNegative(ag, ns[..i])
    ensures Counted(length, ag, ns[i], maxDistance) ==>
      && CountOf(length, ag, ns[..i + 1], maxDistance) == CountOf(length, ag, ns[..i], maxDistance) + 1
      && Accumulated(length, ag, ns[..i + 1], separationWeight, maxDistance, init)
         == Add(Accumulated(length, ag, ns[..i], separationWeight, maxDistance, init),
                Contribution(length, ag, ns[i], separationWeight, maxDistance))
    ensures !Counted(length, ag, ns[i], maxDistance) ==>
      && CountOf(length, ag, ns[..i + 1], maxDistance) == CountOf(length, ag, ns[..i], maxDistance)
      && Accumulated(length, ag, ns[..i + 1], separationWeight, maxDistance, init)
         == Accumulated(length, ag, ns[..i], separationWeight, maxDistance, init)
  {
    assert ns[..i + 1][..i] == ns[..i];
  }

  /** The loop's update of the accumulator for a counted neighbour, with
      the gap and the weight as the loop computes them, adds that neighbour's
      contribution. */
  lemma VisitCounted(
    length: Vec3 -> real, ag: Agent, n: Agent, separationWeight: real, maxDistance: real,
    acc: Vec3, dist: real, invSeparationDist: real, weight: real)
    requires IsLength(length)
    requires 0.0 <= ag.radius && 0.0 <= n.radius
    requires Counted(length, ag, n, maxDistance)
    requires dist == Gap(length, ag, n)
    requires 0.0 < maxDistance && invSeparationDist == 1.0 / maxDistance
    requires weight == separationWeight * (1.0 - Sqr(dist * invSeparationDist))
    ensures Mad(acc, Normalize(length, Sub(ag.npos, n.npos)), weight / dist)
      == Add(acc, Contribution(length, ag, n, separationWeight, maxDistance))
  {
    WeightAsComputed(separationWeight, dist, maxDistance, invSeparationDist);
    var k := weight / dist;
    assert k == Weight(separationWeight, Gap(length, ag, n), maxDistance) / Gap(length, ag, n);
    assert Contribution(length, ag, n, separationWeight, maxDistance)
      == Scale(Normalize(length, Sub(ag.npos, n.npos)), k);
  }

  // The loop's weight expression, with the inverse radius precomputed, is the
  // weight of the specification; a small nonlinear step stated on its own.
  lemma WeightAsComputed(separationWeight: real, gap: real, maxDistance: real, invSeparationDist: real)
    requires 0.0 < maxDistance && invSeparationDist == 1.0 / maxDistance
    ensures separationWeight * (1.0 - Sqr(gap * invSeparationDist))
      == Weight(separationWeight, gap, maxDistance)
  {
  }

  /** What visiting neighbour `n` does to the accumulator `acc`. */
  function Step(
    length: Vec3 -> real, ag: Agent, n: Agent,
    separationWeight: real, maxDistance: real, acc: Vec3): Vec3
    reads ag, n
    requires IsLength(length)
    requires 0.0 <= ag.radius && 0.0 <= n.radius
  {
    if Counted(length, ag, n, maxDistance) then
      Add(acc, Contribution(length, ag, n, separationWeight, maxDistance))
    else acc
  }

  // Vector addition is commutative and associative; kept apart from the
  // length axioms so the solver sees only linear arithmetic.
  lemma AddSwap(a: Vec3, b: Vec3, c: Vec3)
    ensures Add(Add(a, b), c) == Add(Add(a, c), b)
  {
  }

  /** Two visits commute. */
  lemma StepsCommute(
    length: Vec3 -> real, ag: Agent, m: Agent, n: Agent,
    separationWeight: real, maxDistance: real, acc: Vec3)
    requires IsLength(length)
    requires 0.0 <= ag.radius && 0.0 <= m.radius && 0.0 <= n.radius
    ensures Step(length, ag, n, separationWeight, maxDistance,
              Step(length, ag, m, separationWeight, maxDistance, acc))
         == Step(length, ag, m, separationWeight, maxDistance,
              Step(length, ag, n, separationWeight, maxDistance, acc))
  {
    if Counted(length, ag, m, maxDistance) && Counted(length, ag, n, maxDistance) {
      AddSwap(acc, Contribution(length, ag, m, separationWeight, maxDistance),
        Contribution(length, ag, n, separationWeight, maxDistance));
    }
  }

  /** Counting the neighbour at index `k` can be done last instead. */
  lemma {:induction false} CountLast(
    length: Vec3 -> real, ag: Agent, ns: seq<Agent>, k: nat, maxDistance: real)
    requires k < |ns|
    ensures CountOf(length, ag, ns, maxDistance)
      == CountOf(length, ag, ns[..k] + ns[k + 1..], maxDistance)
         + (if Counted(length, ag, ns[k], maxDistance) then 1 else 0)
    decreases |ns|
  {
    var last := |ns| - 1;
    var pre := ns[..last];
    var rest := ns[..k] + ns[k + 1..];
    if k == last {
      assert rest == pre;
    } else {
      var restPre := pre[..k] + pre[k + 1..];
      assert pre[k] == ns[k];
      assert rest == restPre + [ns[last]];
      assert rest[..|rest| - 1] == restPre;
      CountLast(length, ag, pre, k, maxDistance);
    }
  }

  /** Visiting the neighbour at index `k` can be done last instead. */
  lemma {:induction false} VisitLast(
    length: Vec3 -> real, ag: Agent, ns: seq<Agent>, k: nat,
    separationWeight: real, maxDistance: real, init: Vec3)
    requires IsLength(length)
    requires RadiiNonNegative(ag, ns)
    requires k < |ns|
    ensures RadiiNonNegative(ag, ns[..k] + ns[k + 1..])
    ensures Accumulated(length, ag, ns, separationWeight, maxDistance, init)
      == Step(length, ag, ns[k], separationWeight, maxDistance,
           Accumulated(length, ag, ns[..k] + ns[k + 1..], separationWeight, maxDistance, init))
    decreases |ns|
  {
    var last := |ns| - 1;
    var pre := ns[..last];
    var rest := ns[..k] + ns[k + 1..];
    assert forall n :: n in rest ==> n in ns;
    if k == last {
      assert rest == pre;
    } else {
      var restPre := pre[..k] + pre[k + 1..];
      assert pre[k] == ns[k];
      assert rest == restPre + [ns[last]];
      assert rest[..|rest| - 1] == restPre;
      VisitLast(length, ag, pre, k, separationWeight, maxDistance, init);
      var acc := Accumulated(length, ag, restPre, separationWeight, maxDistance, init);
      assert Accumulated(length, ag, ns, separationWeight, maxDistance, init)
        == Step(length, ag, ns[last], separationWeight, maxDistance,
             Accumulated(length, ag, pre, separationWeight, maxDistance, init));
      assert Accumulated(length, ag, rest, separationWeight, maxDistance, init)
        == Step(length, ag, ns[last], separationWeight, maxDistance, acc);
      StepsCommute(length, ag, ns[k], ns[last], separationWeight, maxDistance, acc);
    }
  }

  /** Removing from `ns` an occurrence of the last element of `ms` leaves
      the same multiset as removing that last element from `ms`. */
  lemma RemoveMatching<T>(ns: seq<T>, ms: seq<T>) returns (k: nat)
    requires multiset(ns) == multiset(ms) && ms != []
    ensures k < |ns| && ns[k] == ms[|ms| - 1]
    ensures multiset(ns[..k] + ns[k + 1..]) == multiset(ms[..|ms| - 1])
  {
    var m := ms[|ms| - 1];
    assert ms == ms[..|ms| - 1] + [m];
    assert m in multiset(ns);
    k :| 0 <= k < |ns| && ns[k] == m;
    assert ns == ns[..k] + [m] + ns[k + 1..];
    assert multiset(ns) == multiset(ns[..k] + ns[k + 1..]) + multiset{m};
    assert multiset(ms) == multiset(ms[..|ms| - 1]) + multiset{m};
    assert multiset(ns[..k] + ns[k + 1..]) == multiset(ns) - multiset{m};
  }

  /** The neighbour list is visited in order, yet neither the count nor the
      accumulated force depends on that order: any rearrangement of the
      same records gives the same values. */
  lemma {:induction false} OrderIndependent(
    length: Vec3 -> real, ag: Agent, ns: seq<Agent>, ms: seq<Agent>,
    separationWeight: real, maxDistance: real, init: Vec3)
    requires IsLength(length)
    requires RadiiNonNegative(ag, ns)
    requires multiset(ns) == multiset(ms)
    ensures RadiiNonNegative(ag, ms)
    ensures CountOf(length, ag, ns, maxDistance) == CountOf(length, ag, ms, maxDistance)
    ensures Accumulated(length, ag, ns, separationWeight, maxDistance, init)
      == Accumulated(length, ag, ms, separationWeight, maxDistance, init)
    decreases |ms|
  {
    assert forall n :: n in ms ==> n in multiset(ns);
    if ms == [] {
      assert |ns| == |multiset(ns)| == 0;
    } else {
      var msPre := ms[..|ms| - 1];
      var k := RemoveMatching(ns, ms);
      var rest := ns[..k] + ns[k + 1..];
      CountLast(length, ag, ns, k, maxDistance);
      VisitLast(length, ag, ns, k, separationWeight, maxDistance, init);
      OrderIndependent(length, ag, rest, msPre, separationWeight, maxDistance, init);
    }
  }

  /** The separation force is the same for any order of the same
      neighbour records. */
  lemma ForceOrderIndependent(
    length: Vec3 -> real, ag: Agent, p: SeparationParams, ns: seq<Agent>, ms: seq<Agent>, init: Vec3)
    requires IsLength(length)
    requires RadiiNonNegative(ag, ns)
    requires multiset(ns) == multiset(ms)
    ensures RadiiNonNegative(ag, ms)
    ensures SeparationForce(length, ag, p, Some(ns), init) == SeparationForce(length, ag, p, Some(ms), init)
  {
    OrderIndependent(length, ag, ns, ms, p.separationWeight,
      EffectiveRadius(p.separationDistance, ag.collisionQueryRange), init);
  }

  /** A separation behaviour instance with its parameter store, indexed by
      agent id. */
  class Separation {
    var params: seq<SeparationParams>

    /** computeForce: filter the neighbours, accumulate their repulsion onto
        `init`, and average over the number counted. */
    method ComputeForce(
      length: Vec3 -> real, ag: Agent, agents: Option<seq<Agent>>, init: Vec3)
      returns (force: Vec3)
      requires IsLength(length)
      requires ag.id < |params|
      requires Resolved(params[ag.id], agents)
      requires RadiiNonNegative(ag, Neighbours(agents))
      ensures force == SeparationForce(length, ag, params[ag.id], agents, init)
    {
      var p := params[ag.id];
      force := init;
      if agents.None? || p.separationTargets.None? || p.separationNbTargets <= 0 {
        return;
      }
      var ns := agents.value;
      assert RadiiNonNegative(ag, ns) && |ns| == p.separationNbTargets;
      var maxDistance := if p.separationDistance < 0.0 then ag.collisionQueryRange else p.separationDistance;
      assert maxDistance == EffectiveRadius(p.separationDistance, ag.collisionQueryRange);
      var count;
      force, count := AccumulateNeighbours(length, ag, ns, p.separationWeight, maxDistance, init);
      if count > 0 {
        force := Scale(force, 1.0 / count as real);
      }
    }

    /** The loop of computeForce: visit the neighbours in order, skipping
        inactive ones and those whose gap is out of range, and add the
        contribution of every other one to the accumulator. */
    static method AccumulateNeighbours(
      length: Vec3 -> real, ag: Agent, ns: seq<Agent>,
      separationWeight: real, maxDistance: real, init: Vec3)
      returns (force: Vec3, count: nat)
      requires IsLength(length)
      requires RadiiNonNegative(ag, ns)
      ensures count == CountOf(length, ag, ns, maxDistance)
      ensures force == Accumulated(length, ag, ns, separationWeight, maxDistance, init)
    {
      force := init;
      count := 0;
      for i := 0 to |ns|
        invariant count == CountOf(length, ag, ns[..i], maxDistance)
        invariant force == Accumulated(length, ag, ns[..i], separationWeight, maxDistance, init)
      {
        PrefixStep(length, ag, ns, i, separationWeight, maxDistance, init);
        var target := ns[i];
        if !target.active {
          continue;
        }
        var diff := Sub(ag.npos, target.npos);
        var dist := length(diff) - ag.radius - target.radius;
        if dist > maxDistance || dist < EPSILON {
          continue;
        }
        assert dist == Gap(length, ag, target) && Counted(length, ag, target, maxDistance);
        // The inverse is taken here, where the radius is known to be positive.
        var invSeparationDist := 1.0 / maxDistance;
        var weight := separationWeight * (1.0 - Sqr(dist * invSeparationDist));
        VisitCounted(length, ag, target, separationWeight, maxDistance, force, dist, invSeparationDist, weight);
        count := count + 1;
        diff := Normalize(length, diff);
        force := Mad(force, diff, weight / dist);
      }
      assert ns[..|ns|] == ns;
    }

    /** update: nothing happens unless both records are present; otherwise
        the force computed from a zero accumulator is handed to applyForce,
        which is returned here. */
    method Update(length: Vec3 -> real, oldAgent: Agent?, newAgent: Agent?, agents: Option<seq<Agent>>)
      returns (applied: Option<Vec3>)
      requires IsLength(length)
      requires oldAgent != null && newAgent != null ==>
        && oldAgent.id < |params|
        && Resolved(params[oldAgent.id], agents)
        && RadiiNonNegative(oldAgent, Neighbours(agents))
      ensures applied.None? <==> oldAgent == null || newAgent == null
      ensures applied.Some? ==>
        oldAgent != null && applied.value == SeparationForce(length, oldAgent, params[oldAgent.id], agents, Zero)
    {
      if oldAgent == null || newAgent == null {
        return None;
      }
      var force := ComputeForce(length, oldAgent, agents, Zero);
      return Some(force);
    }
  }
}
