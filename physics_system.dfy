/**
 * The discrete part of the physics frame step: explicit Euler integration of
 * every motion, then the all-pairs collision scan that appends collision
 * events to the registry.
 */
module PhysicsSystem {
  import opened Geometry
  import opened Components
  import opened CollisionScan

  /**
   * What one collision scan with the bounding-circle test records: two
   * events per distinct colliding ordered pair, and exactly the events that
   * name the entities of such a pair.
   */
  lemma FrameCollisionEvents(es: seq<Entity>, ms: seq<Motion>)
    requires |es| == |ms|
    ensures |Events(es, ms, Collides)| == 2 * |CollidingPairs(ms, Collides)|
    ensures forall ev :: ev in Events(es, ms, Collides) <==> FromCollidingPair(es, ms, Collides, ev)
  {
    CollidesSymmetric();
    forall ev ensures ev in Events(es, ms, Collides) <==> FromCollidingPair(es, ms, Collides, ev) {
      EventIffCollidingPair(es, ms, Collides, ev);
    }
  }

  /**
   * A single motion records no event, even when it overlaps itself: the
   * scan skips the pair (i, i).
   */
  lemma SingleMotionNoEvents(e: Entity, m: Motion)
    ensures Events([e], [m], Collides) == []
  {
    assert RowEvents([e], [m], Collides, 0, 0) == [];
    assert RowEvents([e], [m], Collides, 0, 1) == [];
    assert ScanEvents([e], [m], Collides, 0) == [];
    assert ScanEvents([e], [m], Collides, 1) == [];
  }

  /**
   * The part of the entity registry the frame step touches: the motion
   * container (parallel arrays of entities and their motions) and the
   * insertion-ordered, duplicate-permitting collision event list.
   */
  class Registry {
    var entities: array<Entity>
    var motions: array<Motion>
    var collisions: seq<Event>

    /** The container's two arrays run in parallel. */
    ghost predicate Valid()
      reads this
    {
      entities.Length == motions.Length
    }

    constructor (es: seq<Entity>, ms: seq<Motion>)
      requires |es| == |ms|
      ensures Valid() && fresh(entities) && fresh(motions)
      ensures entities[..] == es && motions[..] == ms && collisions == []
    {
      entities := new Entity[|es|](k requires 0 <= k < |es| => es[k]);
      motions := new Motion[|ms|](k requires 0 <= k < |ms| => ms[k]);
      collisions := [];
    }

    /**
     * Moves every motion by its velocity times the elapsed time in seconds,
     * in place; entities, velocities, scales, angles and the container size
     * are left as they were.
     */
    method Integrate(elapsedMs: real)
      requires Valid()
      modifies motions
      ensures Valid()
      ensures motions[..] == AdvanceAll(old(motions[..]), StepSeconds(elapsedMs))
      ensures entities[..] == old(entities[..])
    {
      for i := 0 to motions.Length
        invariant forall k :: 0 <= k < i ==> motions[k] == Euler(old(motions[k]), StepSeconds(elapsedMs))
        invariant forall k :: i <= k < motions.Length ==> motions[k] == old(motions[k])
      {
        var motion := motions[i];
        var stepSeconds := 1.0 * (elapsedMs / 1000.0);
        motions[i] := motion.(position := Add(motion.position, Mul(motion.velocity, stepSeconds)));
      }
      assert forall k :: 0 <= k < motions.Length ==>
        motions[..][k] == AdvanceAll(old(motions[..]), StepSeconds(elapsedMs))[k];
    }

    /**
     * Visits every ordered pair of distinct indices, row by row, and for each
     * colliding pair (i, j) appends (entity i, entity j) then (entity j,
     * entity i). The events already recorded stay as a prefix; the motion
     * container is not changed.
     */
    method DetectCollisions()
      requires Valid()
      modifies this`collisions
      ensures Valid()
      ensures collisions == old(collisions) + Events(entities[..], motions[..], Collides)
      ensures entities[..] == old(entities[..]) && motions[..] == old(motions[..])
    {
      var n := motions.Length;
      for i := 0 to n
        invariant collisions == old(collisions) + ScanEvents(entities[..], motions[..], Collides, i)
      {
        ScanRow(i);
      }
    }

    /**
     * One pass of the inner loop: visits the columns j of row i in order,
     * skips j == i, and for each colliding pair appends (entity i, entity j)
     * then (entity j, entity i).
     */
    method ScanRow(i: nat)
      requires Valid() && i < motions.Length
      modifies this`collisions
      ensures Valid()
      ensures collisions == old(collisions) + RowEvents(entities[..], motions[..], Collides, i, motions.Length)
    {
      ghost var es, ms := entities[..], motions[..];
      var n := motions.Length;
      var motionI := motions[i];
      var entityI := entities[i];
      for j := 0 to n
        invariant collisions == old(collisions) + RowEvents(es, ms, Collides, i, j)
      {
        RowStep(es, ms, Collides, i, j);
        if i == j {
          continue;
        }
        var motionJ := motions[j];
        if Collides(motionI, motionJ) {
          var entityJ := entities[j];
          collisions := collisions + [(entityI, entityJ)];
          collisions := collisions + [(entityJ, entityI)];
        }
      }
    }

    /**
     * One frame of the discrete physics: integrate, then scan the moved
     * motions for collisions. The window size is accepted and not used.
     */
    method Step(elapsedMs: real, windowWidthPx: real, windowHeightPx: real)
      requires Valid()
      modifies motions, this`collisions
      ensures Valid()
      ensures motions[..] == AdvanceAll(old(motions[..]), StepSeconds(elapsedMs))
      ensures entities[..] == old(entities[..])
      ensures collisions == old(collisions) + Events(entities[..], motions[..], Collides)
    {
      Integrate(elapsedMs);
      DetectCollisions();
    }
  }
}
