/**
 * The per-entity records of the physics system and the pure geometry the
 * frame step applies to them: the bounding extent of a motion, the
 * approximate bounding-circle collision test and one explicit Euler step.
 */
module Components {
  import opened Geometry

  /** An opaque entity handle; it carries no data and is only used as a key. */
  datatype Entity = Entity(id: nat)

  /**
   * Kinematic state of one entity. The sign of `scale` encodes the facing
   * direction, so bounding geometry always uses its absolute value.
   */
  datatype Motion = Motion(position: Vec2, velocity: Vec2, scale: Vec2, angle: real)

  /** Bounding extent of a motion: the absolute value of its scale, componentwise. */
  function BoundingBox(motion: Motion): (r: Vec2)
    ensures 0.0 <= r.x && (r.x == motion.scale.x || r.x == -motion.scale.x)
    ensures 0.0 <= r.y && (r.y == motion.scale.y || r.y == -motion.scale.y)
  {
    Vec2(Abs(motion.scale.x), Abs(motion.scale.y))
  }

  /** Mirroring a motion's scale along either axis leaves its bounding extent unchanged. */
  lemma BoundingBoxIgnoresFacing(motion: Motion, flipX: bool, flipY: bool)
    ensures var s := motion.scale;
            var flipped := Vec2(if flipX then -s.x else s.x, if flipY then -s.y else s.y);
            BoundingBox(motion.(scale := flipped)) == BoundingBox(motion)
  {
  }

  /**
   * Squared radius of the circle around a motion's bounding box: the squared
   * length of half its bounding extent.
   */
  function RadiusSquared(motion: Motion): (r: real)
    ensures 0.0 <= r
  {
    var half := Div(BoundingBox(motion), 2.0);
    DotSelfNonNegative(half);
    Dot(half, half)
  }

  lemma HalfAbsSquared(a: real)
    ensures (Abs(a) / 2.0) * (Abs(a) / 2.0) == a * a / 4.0
  {
    if a < 0.0 {
      assert Abs(a) == -a;
      assert (-a / 2.0) * (-a / 2.0) == a * a / 4.0;
    } else {
      assert (a / 2.0) * (a / 2.0) == a * a / 4.0;
    }
  }

  /**
   * The squared bounding radius is a quarter of the squared length of the
   * scale, whatever the signs of its components.
   */
  lemma RadiusSquaredOfScale(motion: Motion)
    ensures RadiusSquared(motion) == (motion.scale.x * motion.scale.x + motion.scale.y * motion.scale.y) / 4.0
  {
    HalfAbsSquared(motion.scale.x);
    HalfAbsSquared(motion.scale.y);
  }

  /** Squared distance between two points. */
  function DistanceSquared(p: Vec2, q: Vec2): (r: real)
    ensures 0.0 <= r
  {
    DotSelfNonNegative(Sub(p, q));
    Dot(Sub(p, q), Sub(p, q))
  }

  /** Squared distance is symmetric. */
  lemma DistanceSquaredSymmetric(p: Vec2, q: Vec2)
    ensures DistanceSquared(p, q) == DistanceSquared(q, p)
  {
    DotSubSymmetric(p, q);
  }

  /** The point `p` lies strictly inside the bounding circle of `motion`. */
  predicate CentreInside(p: Vec2, motion: Motion) {
    DistanceSquared(p, motion.position) < RadiusSquared(motion)
  }

  /**
   * The approximate collision test: the squared centre distance is compared
   * with the larger of the two squared bounding-circle radii. The local names
   * follow the source, where `otherRSquared` belongs to the first motion and
   * `myRSquared` to the second; only their maximum is used.
   *
   * Equivalently, the centre of one motion lies strictly inside the bounding
   * circle of the other.
   */
  function Collides(motion1: Motion, motion2: Motion): (r: bool)
    ensures r <==> CentreInside(motion2.position, motion1) || CentreInside(motion1.position, motion2)
  {
    DistanceSquaredSymmetric(motion1.position, motion2.position);
    var distSquared := DistanceSquared(motion1.position, motion2.position);
    var otherRSquared := RadiusSquared(motion1);
    var myRSquared := RadiusSquared(motion2);
    var rSquared := Max(otherRSquared, myRSquared);
    distSquared < rSquared
  }

  /** The collision test does not depend on the order of its arguments. */
  lemma CollidesSymmetric()
    ensures forall a: Motion, b: Motion :: Collides(a, b) == Collides(b, a)
  {
  }

  /** Two motions whose scales are both zero never collide, wherever they are. */
  lemma ZeroScalesNeverCollide(a: Motion, b: Motion)
    requires a.scale == Zero && b.scale == Zero
    ensures !Collides(a, b)
  {
  }

  /**
   * A motion collides with itself exactly when its bounding circle has a
   * positive radius; this is why the collision scan skips the pair (i, i).
   */
  lemma CollidesWithSelf(m: Motion)
    ensures Collides(m, m) <==> 0.0 < RadiusSquared(m)
  {
    assert Sub(m.position, m.position) == Zero;
  }

  /**
   * The comparison is strict: motions whose centre distance equals the
   * larger bounding radius (circles that merely reach the other centre) do
   * not collide, in either order.
   */
  lemma BoundaryDoesNotCollide(a: Motion, b: Motion)
    requires DistanceSquared(a.position, b.position) == Max(RadiusSquared(a), RadiusSquared(b))
    ensures !Collides(a, b) && !Collides(b, a)
  {
    CollidesSymmetric();
  }

  /** Step length in seconds for an elapsed time given in milliseconds. */
  function StepSeconds(elapsedMs: real): (r: real)
    ensures r * 1000.0 == elapsedMs
  {
    1.0 * (elapsedMs / 1000.0)
  }

  /**
   * One explicit Euler step of `stepSeconds`: the position moves by velocity
   * times the step; velocity, scale and angle are kept.
   */
  function Euler(motion: Motion, stepSeconds: real): (r: Motion)
    ensures r.velocity == motion.velocity && r.scale == motion.scale && r.angle == motion.angle
    ensures Sub(r.position, motion.position) == Mul(motion.velocity, stepSeconds)
  {
    motion.(position := Add(motion.position, Mul(motion.velocity, stepSeconds)))
  }

  /** A zero-length step leaves the motion unchanged. */
  lemma EulerZeroStep(motion: Motion)
    ensures Euler(motion, 0.0) == motion
  {
  }

  /**
   * Two consecutive steps equal one step of the summed length, so the
   * distance covered depends on elapsed time, not on the number of frames.
   */
  lemma EulerSteps(motion: Motion, s: real, t: real)
    ensures Euler(Euler(motion, s), t) == Euler(motion, s + t)
  {
    var v := motion.velocity;
    assert v.x * s + v.x * t == v.x * (s + t);
    assert v.y * s + v.y * t == v.y * (s + t);
  }

  /** Every motion of a sequence advanced by one Euler step of the same length. */
  function AdvanceAll(motions: seq<Motion>, stepSeconds: real): (r: seq<Motion>)
    ensures |r| == |motions|
    ensures forall k :: 0 <= k < |motions| ==> r[k] == Euler(motions[k], stepSeconds)
  {
    if motions == [] then []
    else AdvanceAll(motions[..|motions| - 1], stepSeconds) + [Euler(motions[|motions| - 1], stepSeconds)]
  }
}
