/**
 * Specification of the all-pairs collision scan of the frame step: the
 * sequence of collision events it appends, written as functions that follow
 * the nested loops (rows i, columns j), and what that sequence contains.
 *
 * The scan is stated for any pairwise test `collides`; the frame step uses
 * `Components.Collides`. The lemmas about which events occur, and
 * `FourEventsPerPair`, need symmetry of the test, which
 * `Components.CollidesSymmetric` provides; the lemmas about event order and
 * count do not.
 */
module CollisionScan {
  import opened Components

  /** A collision event: (subject, other). */
  type Event = (Entity, Entity)

  /** A pairwise overlap test on motions. */
  type CollisionTest = (Motion, Motion) -> bool

  /**
   * The two events recorded for a colliding ordered pair (i, j): entity i
   * as subject first, then the same event with subject and other swapped.
   */
  function PairEvents(es: seq<Entity>, i: nat, j: nat): (r: seq<Event>)
    requires i < |es| && j < |es|
    ensures |r| == 2 && r[0].0 == es[i] && r[1] == (r[0].1, r[0].0)
  {
    [(es[i], es[j]), (es[j], es[i])]
  }

  /** Events of row `i` over the columns `0 .. j-1`, in column order: at most two per column. */
  function RowEvents(es: seq<Entity>, ms: seq<Motion>, collides: CollisionTest, i: nat, j: nat): (r: seq<Event>)
    requires |es| == |ms| && i < |ms| && j <= |ms|
    ensures |r| <= 2 * j
  {
    if j == 0 then []
    else
      RowEvents(es, ms, collides, i, j - 1) +
      (if i != j - 1 && collides(ms[i], ms[j - 1]) then PairEvents(es, i, j - 1) else [])
  }

  /** Events of the rows `0 .. i-1`, in row order. */
  function ScanEvents(es: seq<Entity>, ms: seq<Motion>, collides: CollisionTest, i: nat): (r: seq<Event>)
    requires |es| == |ms| && i <= |ms|
  {
    if i == 0 then []
    else ScanEvents(es, ms, collides, i - 1) + RowEvents(es, ms, collides, i - 1, |ms|)
  }

  /**
   * All events one scan over parallel entity and motion sequences appends:
   * two per distinct colliding ordered pair of indices.
   */
  function Events(es: seq<Entity>, ms: seq<Motion>, collides: CollisionTest): (r: seq<Event>)
    requires |es| == |ms|
    ensures |r| == 2 * |CollidingPairs(ms, collides)|
  {
    EventCount(es, ms, collides);
    ScanEvents(es, ms, collides, |ms|)
  }

  /** The ordered index pair (a, b) is a distinct colliding pair. */
  ghost predicate CollidingPair(ms: seq<Motion>, collides: CollisionTest, a: nat, b: nat) {
    a < |ms| && b < |ms| && a != b && collides(ms[a], ms[b])
  }

  /** All distinct colliding ordered index pairs. */
  ghost function CollidingPairs(ms: seq<Motion>, collides: CollisionTest): set<(nat, nat)> {
    set a: nat, b: nat | a < |ms| && b < |ms| && CollidingPair(ms, collides, a, b) :: (a, b)
  }

  /**
   * The colliding ordered pairs the scan visits before (i, j): every pair of
   * an earlier row, and the pairs of row i with a smaller column.
   */
  ghost function PairsBefore(ms: seq<Motion>, collides: CollisionTest, i: nat, j: nat): set<(nat, nat)> {
    set a: nat, b: nat | a < |ms| && b < |ms| && CollidingPair(ms, collides, a, b) && (a < i || (a == i && b < j)) :: (a, b)
  }

  /** An event names the entities of some distinct colliding ordered pair. */
  ghost predicate FromCollidingPair(es: seq<Entity>, ms: seq<Motion>, collides: CollisionTest, ev: Event)
    requires |es| == |ms|
  {
    exists a: nat, b: nat :: CollidingPair(ms, collides, a, b) && ev == (es[a], es[b])
  }

  /** The events of the rows and columns before (i, j) number twice the colliding pairs before it. */
  lemma {:induction false} CountBefore(es: seq<Entity>, ms: seq<Motion>, collides: CollisionTest, i: nat, j: nat)
    requires |es| == |ms| && i < |ms| && j <= |ms|
    ensures |ScanEvents(es, ms, collides, i)| + |RowEvents(es, ms, collides, i, j)| == 2 * |PairsBefore(ms, collides, i, j)|
    decreases i, j
  {
    if j == 0 {
      if i == 0 {
        assert PairsBefore(ms, collides, 0, 0) == {};
      } else {
        CountBefore(es, ms, collides, i - 1, |ms|);
        assert PairsBefore(ms, collides, i, 0) == PairsBefore(ms, collides, i - 1, |ms|);
      }
    } else {
      CountBefore(es, ms, collides, i, j - 1);
      var earlier := PairsBefore(ms, collides, i, j - 1);
      if CollidingPair(ms, collides, i, j - 1) {
        assert PairsBefore(ms, collides, i, j) == earlier + {(i, j - 1)};
        assert (i, j - 1) !in earlier;
      } else {
        assert PairsBefore(ms, collides, i, j) == earlier;
      }
    }
  }

  /**
   * The rows of the whole scan hold exactly two events per distinct colliding
   * ordered pair of indices.
   */
  lemma {:induction false} EventCount(es: seq<Entity>, ms: seq<Motion>, collides: CollisionTest)
    requires |es| == |ms|
    ensures |ScanEvents(es, ms, collides, |ms|)| == 2 * |CollidingPairs(ms, collides)|
  {
    var n := |ms|;
    if n == 0 {
      assert CollidingPairs(ms, collides) == {};
    } else {
      CountBefore(es, ms, collides, n - 1, n);
      assert PairsBefore(ms, collides, n - 1, n) == CollidingPairs(ms, collides);
    }
  }

  /** One column more: the row's events so far, then the pair's events if (i, j) is a distinct colliding pair. */
  lemma {:induction false} RowStep(es: seq<Entity>, ms: seq<Motion>, collides: CollisionTest, i: nat, j: nat)
    requires |es| == |ms| && i < |ms| && j < |ms|
    ensures RowEvents(es, ms, collides, i, j + 1) ==
            RowEvents(es, ms, collides, i, j) + (if CollidingPair(ms, collides, i, j) then PairEvents(es, i, j) else [])
  {
  }

  /** One row more: the scan's events so far, then the events of row i. */
  lemma {:induction false} ScanStep(es: seq<Entity>, ms: seq<Motion>, collides: CollisionTest, i: nat)
    requires |es| == |ms| && i < |ms|
    ensures ScanEvents(es, ms, collides, i + 1) == ScanEvents(es, ms, collides, i) + RowEvents(es, ms, collides, i, |ms|)
  {
  }

  /**
   * Every distinct colliding ordered pair (i, j) contributes the events
   * (entity i, entity j) and (entity j, entity i), adjacent and in that
   * order, at the position fixed by the number of colliding pairs the
   * row-major scan visits before it.
   */
  lemma {:induction false} EventsAt(es: seq<Entity>, ms: seq<Motion>, collides: CollisionTest, i: nat, j: nat)
    requires |es| == |ms| && CollidingPair(ms, collides, i, j)
    ensures var p := 2 * |PairsBefore(ms, collides, i, j)|;
            p + 1 < |Events(es, ms, collides)| &&
            Events(es, ms, collides)[p] == (es[i], es[j]) &&
            Events(es, ms, collides)[p + 1] == (es[j], es[i])
  {
    CountBefore(es, ms, collides, i, j);
    PairAt(es, ms, collides, i, j);
  }

  /**
   * The pair's two events end up in the scan's events right after the rows
   * before i and the columns of row i before j.
   */
  lemma {:induction false} PairAt(es: seq<Entity>, ms: seq<Motion>, collides: CollisionTest, i: nat, j: nat)
    requires |es| == |ms| && CollidingPair(ms, collides, i, j)
    ensures var p := |ScanEvents(es, ms, collides, i)| + |RowEvents(es, ms, collides, i, j)|;
            p + 1 < |Events(es, ms, collides)| &&
            Events(es, ms, collides)[p] == (es[i], es[j]) &&
            Events(es, ms, collides)[p + 1] == (es[j], es[i])
  {
    var u := |RowEvents(es, ms, collides, i, j)|;
    PairInRow(es, ms, collides, i, j);
    RowInScan(es, ms, collides, i, u, (es[i], es[j]));
    RowInScan(es, ms, collides, i, u + 1, (es[j], es[i]));
  }

  /** The pair's two events sit right after the columns before j in row i. */
  lemma {:induction false} PairInRow(es: seq<Entity>, ms: seq<Motion>, collides: CollisionTest, i: nat, j: nat)
    requires |es| == |ms| && CollidingPair(ms, collides, i, j)
    ensures var p := |RowEvents(es, ms, collides, i, j)|;
            p + 1 < |RowEvents(es, ms, collides, i, |ms|)| &&
            RowEvents(es, ms, collides, i, |ms|)[p] == (es[i], es[j]) &&
            RowEvents(es, ms, collides, i, |ms|)[p + 1] == (es[j], es[i])
  {
    var row := (k: nat) => if k <= |ms| then RowEvents(es, ms, collides, i, k) else [];
    var cell := (k: nat) => if k < |ms| && CollidingPair(ms, collides, i, k) then PairEvents(es, i, k) else [];
    forall k: nat | k < |ms|
      ensures row(k + 1) == row(k) + cell(k)
    {
      RowStep(es, ms, collides, i, k);
    }
    PartInWhole(row, cell, |ms|, j, 0);
    PartInWhole(row, cell, |ms|, j, 1);
  }

  /**
   * In a sequence built by appending part(0), part(1), ... in turn, element u
   * of part(i) sits right after acc(i) in acc(n).
   */
  lemma {:induction false} PartInWhole<T>(acc: nat -> seq<T>, part: nat -> seq<T>, n: nat, i: nat, u: nat)
    requires forall k: nat :: k < n ==> acc(k + 1) == acc(k) + part(k)
    requires i < n && u < |part(i)|
    ensures |acc(i)| + u < |acc(n)| && acc(n)[|acc(i)| + u] == part(i)[u]
    decreases n
  {
    if n == i + 1 {
      assert acc(n) == acc(i) + part(i);
    } else {
      PartInWhole(acc, part, n - 1, i, u);
      assert acc(n) == acc(n - 1) + part(n - 1);
    }
  }

  /** Event u of row i sits right after the rows before i in the scan's events. */
  lemma {:induction false} RowInScan(es: seq<Entity>, ms: seq<Motion>, collides: CollisionTest, i: nat, u: nat, ev: Event)
    requires |es| == |ms| && i < |ms| && u < |RowEvents(es, ms, collides, i, |ms|)|
    requires RowEvents(es, ms, collides, i, |ms|)[u] == ev
    ensures var p := |ScanEvents(es, ms, collides, i)| + u;
            p < |Events(es, ms, collides)| && Events(es, ms, collides)[p] == ev
  {
    var scan := (k: nat) => if k <= |ms| then ScanEvents(es, ms, collides, k) else [];
    var row := (k: nat) => if k < |ms| then RowEvents(es, ms, collides, k, |ms|) else [];
    forall k: nat | k < |ms|
      ensures scan(k + 1) == scan(k) + row(k)
    {
      ScanStep(es, ms, collides, k);
    }
    PartInWhole(scan, row, |ms|, i, u);
  }

  /** Every event of a row names a distinct colliding ordered pair. */
  lemma {:induction false} RowEventsFromCollidingPairs(es: seq<Entity>, ms: seq<Motion>, collides: CollisionTest, i: nat, j: nat, ev: Event)
    requires |es| == |ms| && i < |ms| && j <= |ms|
    requires forall a, b :: collides(a, b) == collides(b, a)
    requires ev in RowEvents(es, ms, collides, i, j)
    ensures FromCollidingPair(es, ms, collides, ev)
    decreases j
  {
    if ev in RowEvents(es, ms, collides, i, j - 1) {
      RowEventsFromCollidingPairs(es, ms, collides, i, j - 1, ev);
    } else if ev == (es[i], es[j - 1]) {
      assert CollidingPair(ms, collides, i, j - 1);
    } else {
      assert ev == (es[j - 1], es[i]);
      assert CollidingPair(ms, collides, j - 1, i);
    }
  }

  /** Every event of the scan names a distinct colliding ordered pair. */
  lemma {:induction false} ScanEventsFromCollidingPairs(es: seq<Entity>, ms: seq<Motion>, collides: CollisionTest, i: nat, ev: Event)
    requires |es| == |ms| && i <= |ms|
    requires forall a, b :: collides(a, b) == collides(b, a)
    requires ev in ScanEvents(es, ms, collides, i)
    ensures FromCollidingPair(es, ms, collides, ev)
    decreases i
  {
    assert i != 0;
    if ev in ScanEvents(es, ms, collides, i - 1) {
      ScanEventsFromCollidingPairs(es, ms, collides, i - 1, ev);
    } else {
      RowEventsFromCollidingPairs(es, ms, collides, i - 1, |ms|, ev);
    }
  }

  /**
   * For a symmetric test, an event is recorded exactly when it names the
   * entities of a distinct colliding ordered pair of indices.
   */
  lemma {:induction false} EventIffCollidingPair(es: seq<Entity>, ms: seq<Motion>, collides: CollisionTest, ev: Event)
    requires |es| == |ms|
    requires forall a, b :: collides(a, b) == collides(b, a)
    ensures ev in Events(es, ms, collides) <==> FromCollidingPair(es, ms, collides, ev)
  {
    if ev in Events(es, ms, collides) {
      ScanEventsFromCollidingPairs(es, ms, collides, |ms|, ev);
    }
    if FromCollidingPair(es, ms, collides, ev) {
      var a: nat, b: nat :| CollidingPair(ms, collides, a, b) && ev == (es[a], es[b]);
      EventsAt(es, ms, collides, a, b);
    }
  }

  /**
   * With entity handles that are pairwise distinct, no event has an entity
   * colliding with itself: the scan never pairs an index with itself.
   */
  lemma {:induction false} NoSelfEvents(es: seq<Entity>, ms: seq<Motion>, collides: CollisionTest)
    requires |es| == |ms|
    requires forall a, b :: 0 <= a < b < |es| ==> es[a] != es[b]
    requires forall a, b :: collides(a, b) == collides(b, a)
    ensures forall ev :: ev in Events(es, ms, collides) ==> ev.0 != ev.1
  {
    forall ev | ev in Events(es, ms, collides)
      ensures ev.0 != ev.1
    {
      EventIffCollidingPair(es, ms, collides, ev);
      var a: nat, b: nat :| CollidingPair(ms, collides, a, b) && ev == (es[a], es[b]);
      if a < b {
        assert es[a] != es[b];
      } else {
        assert es[b] != es[a];
      }
    }
  }

  /** A pair visited earlier in the row-major scan has fewer colliding pairs before it. */
  lemma {:induction false} PairsBeforeGrows(ms: seq<Motion>, collides: CollisionTest, i: nat, j: nat, k: nat, l: nat)
    requires CollidingPair(ms, collides, i, j) && (i < k || (i == k && j < l))
    ensures |PairsBefore(ms, collides, i, j)| < |PairsBefore(ms, collides, k, l)|
  {
    var small := PairsBefore(ms, collides, i, j);
    var large := PairsBefore(ms, collides, k, l);
    assert small <= large;
    assert (i, j) in large - small;
    assert large == small + (large - small);
    assert |large - small| >= 1;
  }

  /**
   * For a symmetric test, each colliding unordered pair {i, j} yields four
   * events: (entity i, entity j) then (entity j, entity i) when the scan is at
   * (i, j), and again (entity j, entity i) then (entity i, entity j) at (j, i),
   * at four distinct positions.
   */
  lemma {:induction false} FourEventsPerPair(es: seq<Entity>, ms: seq<Motion>, collides: CollisionTest, i: nat, j: nat)
    requires |es| == |ms| && CollidingPair(ms, collides, i, j)
    requires forall a, b :: collides(a, b) == collides(b, a)
    ensures var e := Events(es, ms, collides);
            var p := 2 * |PairsBefore(ms, collides, i, j)|;
            var q := 2 * |PairsBefore(ms, collides, j, i)|;
            p != q && p + 1 < |e| && q + 1 < |e| &&
            e[p] == e[q + 1] == (es[i], es[j]) &&
            e[p + 1] == e[q] == (es[j], es[i])
  {
    assert CollidingPair(ms, collides, j, i);
    EventsAt(es, ms, collides, i, j);
    EventsAt(es, ms, collides, j, i);
    if i < j {
      PairsBeforeGrows(ms, collides, i, j, j, i);
    } else {
      PairsBeforeGrows(ms, collides, j, i, i, j);
    }
  }
}
