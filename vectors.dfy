/** Three-component vectors over the reals and the few operations of the
    Detour vector library that the steering behaviours use.

    The library computes lengths with a square root, which has no definition
    here. Every operation that needs a length therefore receives the length
    function as a parameter, constrained by `IsLength` to be the Euclidean
    norm: non-negative, and its square is the dot product of the vector with
    itself. The usual laws of a norm are proved from that. */
module Vectors {

  datatype Vec3 = Vec3(x: real, y: real, z: real)

  const Zero := Vec3(0.0, 0.0, 0.0)

  function Abs(k: real): real { if k < 0.0 then -k else k }

  /** dtVadd */
  function Add(a: Vec3, b: Vec3): Vec3 { Vec3(a.x + b.x, a.y + b.y, a.z + b.z) }

  /** dtVsub: `a - b` */
  function Sub(a: Vec3, b: Vec3): Vec3 { Vec3(a.x - b.x, a.y - b.y, a.z - b.z) }

  /** dtVscale */
  function Scale(v: Vec3, k: real): Vec3 { Vec3(v.x * k, v.y * k, v.z * k) }

  /** dtVmad: `a + b * k` */
  function Mad(a: Vec3, b: Vec3, k: real): Vec3 { Add(a, Scale(b, k)) }

  function Dot(a: Vec3, b: Vec3): real { a.x * b.x + a.y * b.y + a.z * b.z }

  /** dtSqr */
  function Sqr(a: real): real { a * a }

  /** `length` is the Euclidean length, as dtVlen computes it. */
  ghost predicate IsLength(length: Vec3 -> real)
  {
    forall v {:trigger Dot(v, v)} :: 0.0 <= length(v) && length(v) * length(v) == Dot(v, v)
  }

  // Facts about real products and squares. Each is a single nonlinear step,
  // stated apart so that the proofs calling them stay small for the solver.
  lemma ProductPositive(a: real, b: real)
    requires 0.0 < a && 0.0 < b
    ensures 0.0 < a * b
  {
  }

  lemma ProductMonotone(a: real, b: real, k: real)
    requires 0.0 < k && a <= b
    ensures a * k <= b * k
  {
  }

  lemma QuotientInUnitInterval(a: real, b: real)
    requires 0.0 < a < b
    ensures 0.0 < a / b < 1.0
  {
    var q := a / b;
    assert q * b == a;
    if q <= 0.0 {
      ProductMonotone(q, 0.0, b);
    } else if 1.0 <= q {
      ProductMonotone(1.0, q, b);
    }
  }

  lemma SquareMonotone(a: real, b: real)
    requires 0.0 <= a < b
    ensures a * a < b * b
  {
    ProductPositive(b - a, b + a);
    assert (b - a) * (b + a) == b * b - a * a;
  }

  /** Two non-negative reals with the same square are equal. */
  lemma SquareRootUnique(a: real, b: real)
    requires 0.0 <= a && 0.0 <= b && a * a == b * b
    ensures a == b
  {
    if a < b {
      SquareMonotone(a, b);
    } else if b < a {
      SquareMonotone(b, a);
    }
  }

  // Laws of the length function. LengthSquared instantiates the IsLength
  // constraint at one vector; DotOfScaled is pure arithmetic on components.
  lemma LengthSquared(length: Vec3 -> real, v: Vec3)
    requires IsLength(length)
    ensures 0.0 <= length(v) && length(v) * length(v) == Dot(v, v)
  {
  }

  lemma LengthOfZero(length: Vec3 -> real)
    requires IsLength(length)
    ensures length(Zero) == 0.0
  {
    LengthSquared(length, Zero);
    SquareRootUnique(length(Zero), 0.0);
  }

  lemma DotOfScaled(v: Vec3, k: real)
    ensures Dot(Scale(v, k), Scale(v, k)) == k * k * Dot(v, v)
  {
  }

  /** The non-negative root of `k² l²` is `|k| l`. */
  lemma RootOfScaledSquare(a: real, l: real, k: real)
    requires 0.0 <= a && 0.0 <= l
    requires a * a == k * k * (l * l)
    ensures a == Abs(k) * l
  {
    var m := Abs(k);
    assert m * m == k * k;
    assert (m * l) * (m * l) == (m * m) * (l * l);
    if m == 0.0 {
      assert 0.0 <= m * l;
    } else {
      ProductPositive(m, l + 1.0);
      assert 0.0 <= m * l;
    }
    SquareRootUnique(a, m * l);
  }

  /** Length is absolutely homogeneous: `|k v| = |k| |v|`. */
  lemma LengthOfScaled(length: Vec3 -> real, v: Vec3, k: real)
    requires IsLength(length)
    ensures length(Scale(v, k)) == Abs(k) * length(v)
  {
    DotOfScaled(v, k);
    RootOfScaledSquare(length(Scale(v, k)), length(v), k);
  }

  lemma UnitLength(length: Vec3 -> real)
    requires IsLength(length)
    ensures length(Vec3(1.0, 0.0, 0.0)) == 1.0
  {
    var l := length(Vec3(1.0, 0.0, 0.0));
    LengthSquared(length, Vec3(1.0, 0.0, 0.0));
    SquareRootUnique(l, 1.0);
  }

  /** A vector along the first axis has the length of its coordinate. */
  lemma LengthOnAxis(length: Vec3 -> real, a: real)
    requires IsLength(length)
    requires 0.0 <= a
    ensures length(Vec3(a, 0.0, 0.0)) == a
  {
    UnitLength(length);
    LengthOfScaled(length, Vec3(1.0, 0.0, 0.0), a);
    assert Scale(Vec3(1.0, 0.0, 0.0), a) == Vec3(a, 0.0, 0.0);
  }

  /** dtVnormalize: the vector divided by its length. */
  function Normalize(length: Vec3 -> real, v: Vec3): (r: Vec3)
    requires IsLength(length)
    requires 0.0 < length(v)
    ensures length(r) == 1.0
    ensures v == Scale(r, length(v))
  {
    var k := 1.0 / length(v);
    LengthOfScaled(length, v, k);
    assert Abs(k) * length(v) == 1.0;
    Scale(v, k)
  }

  /** dtVclamp as its callers use it: a vector longer than `maxLen` is scaled
      down to length `maxLen`, a shorter one is left as it is. */
  function Clamp(length: Vec3 -> real, v: Vec3, maxLen: real): (r: Vec3)
    requires IsLength(length)
    requires 0.0 <= maxLen
    ensures length(r) <= maxLen
    ensures length(v) <= maxLen ==> r == v
    ensures maxLen < length(v) ==> length(r) == maxLen && r == Scale(v, maxLen / length(v))
  {
    if length(v) > maxLen then
      var k := maxLen / length(v);
      LengthOfScaled(length, v, k);
      Scale(v, k)
    else
      v
  }

  /** dtVdist: the distance from `a` to `b`. */
  function Dist(length: Vec3 -> real, a: Vec3, b: Vec3): real
  {
    length(Sub(b, a))
  }
}
