/**
 * `getQueuePriorityOrder` run on the queue `priorityQueueFromPolygon` builds:
 * what the whole computation gives a polygon's first ring.
 */
module PriorityOrders {
  import opened Points
  import opened HeapOrder
  import opened QueueSpec
  import opened QueueHeap
  import opened QueueElim
  import opened QueueInit

  /** With two vertices queued, they are the endpoints. */
  lemma TwoLeftAreEndpoints(q: Queue, n: nat)
    requires ElimInv(q, n) && |q.slots| == 2 && n >= 3
    ensures forall id :: id in q.slots ==> id == 0 || id == n - 1
  {
    SlotsDistinct(q, 0, 1);
  }

  /** Some interior vertex of an n-vertex chain scores c / n. */
  ghost predicate InteriorScored(r: seq<real>, c: nat, n: nat)
    requires |r| == n > 0
  {
    exists i :: 0 < i < n - 1 && r[i] == Score(c, n)
  }

  /** The scores left by the elimination loop once two vertices remain. */
  lemma ScoresAfterElimination(q: Queue, r: seq<real>, n: nat)
    requires n >= 3 && ElimInv(q, n) && |q.slots| == 2 && OrderInv(q, r, 2, n)
    ensures r[0] == 0.0 && r[n - 1] == 0.0
    ensures forall i :: 0 < i < n - 1 ==> ScoredAbove(r, i, 2, n)
    ensures forall c: nat :: 3 <= c <= n ==> InteriorScored(r, c, n)
    ensures forall i, j :: 0 < i < n - 1 && 0 < j < n - 1 && i != j ==> r[i] != r[j]
  {
    TwoLeftAreEndpoints(q, n);
    forall i | 0 < i < n - 1 ensures ScoredAbove(r, i, 2, n) {
      assert i !in q.slots;
    }
    forall c: nat | 3 <= c <= n ensures InteriorScored(r, c, n) {
      assert ScoreGiven(q, r, c, n);
      var i :| 0 <= i < n && i !in q.slots && r[i] == Score(c, n);
      assert 0 < i < n - 1 && r[i] == Score(c, n);
    }
  }

  /** The queue after the first loop on the queue built from a polygon. */
  lemma AfterFirstLoop(polygon: seq<seq<Coord>>)
    requires |polygon| >= 1
    ensures var n := |polygon[0]|; var q1 := InitAreas(BuildQueue(polygon), 0);
      InitInv(q1, n, n) && AreasFrom(q1, polygon[0], n)
  {
    BuildEstablishesInitInv(polygon);
    InitAreasCorrect(BuildQueue(polygon), polygon[0], 0, |polygon[0]|);
  }

  /** The queue and order array after the first loop, from which elimination starts. */
  lemma EliminationStart(polygon: seq<seq<Coord>>)
    requires |polygon| >= 1 && |polygon[0]| > 0
    ensures var n := |polygon[0]|; var q1 := InitAreas(BuildQueue(polygon), 0);
      ElimInv(q1, n) && |q1.slots| == n && OrderInv(q1, seq(n, _ => 0.0), n, n)
  {
    AfterFirstLoop(polygon);
    InitEstablishesElimInv(InitAreas(BuildQueue(polygon), 0), |polygon[0]|);
  }

  /**
   * What an order array for a chain of n vertices holds: both endpoints
   * score 0; with fewer than three vertices every vertex scores 0; otherwise
   * each interior vertex scores c / n for some c in 3 .. n, and each of those
   * scores goes to exactly one interior vertex.
   */
  ghost predicate VertexScores(r: seq<real>, n: nat) {
    |r| == n &&
    (n > 0 ==> r[0] == 0.0 && r[n - 1] == 0.0) &&
    (n < 3 ==> forall i :: 0 <= i < n ==> r[i] == 0.0) &&
    (forall i :: 0 < i < n - 1 ==> ScoredAbove(r, i, 2, n)) &&
    (forall c: nat :: 3 <= c <= n ==> InteriorScored(r, c, n)) &&
    (forall i, j :: 0 < i < n - 1 && 0 < j < n - 1 && i != j ==> r[i] != r[j])
  }

  /** `getQueuePriorityOrder` on the queue built from a polygon scores its first ring's vertices. */
  lemma PriorityOrderScores(polygon: seq<seq<Coord>>)
    requires |polygon| >= 1
    ensures VertexScores(PriorityOrder(polygon), |polygon[0]|)
  {
    var n := |polygon[0]|;
    if n > 0 {
      EliminationStart(polygon);
      var q1 := InitAreas(BuildQueue(polygon), 0);
      var zeros := seq(n, _ => 0.0);
      EliminateCorrect(q1, zeros, n, n);
      var (qe, r) := Eliminate(q1, zeros, n, n);
      assert r == PriorityOrder(polygon);
      if n >= 3 {
        ScoresAfterElimination(qe, r, n);
      } else {
        forall i | 0 <= i < n ensures r[i] == 0.0 {
          assert i in qe.slots;
        }
      }
    }
  }

  /** Rings after the first do not change the order array. */
  lemma OnlyFirstRingCounts(p: seq<seq<Coord>>, p': seq<seq<Coord>>)
    requires |p| >= 1 && |p'| >= 1 && p[0] == p'[0]
    ensures PriorityOrder(p) == PriorityOrder(p')
  {
    assert BuildQueue(p) == BuildQueue(p');
  }

  /**
   * After the first loop every interior vertex holds the area of the
   * triangle it makes with its two ring neighbours, and both endpoints hold
   * `+Inf`.
   */
  lemma InitialAreas(polygon: seq<seq<Coord>>)
    requires |polygon| >= 1
    ensures var ring := polygon[0]; var q1 := InitAreas(BuildQueue(polygon), 0);
      |q1.points| == |ring| &&
      (forall id :: 0 < id < |ring| - 1 ==> q1.points[id].currentArea == Finite(RingArea(ring, id))) &&
      (|ring| > 0 ==> q1.points[0].currentArea == Infinite && q1.points[|ring| - 1].currentArea == Infinite)
  {
    AfterFirstLoop(polygon);
  }

  /**
   * The vertex scored 1.0 is the first one popped: an interior vertex whose
   * ring triangle is no larger than any other interior vertex's. With at
   * least three vertices there is one.
   */
  lemma FirstPopIsFlattest(polygon: seq<seq<Coord>>)
    requires |polygon| >= 1
    ensures var ring := polygon[0]; var r := PriorityOrder(polygon);
      forall i :: 0 <= i < |ring| && r[i] == 1.0 ==>
        0 < i < |ring| - 1 && forall j :: 0 < j < |ring| - 1 ==> RingArea(ring, i) <= RingArea(ring, j)
    ensures |polygon[0]| >= 3 ==> exists i :: 0 <= i < |polygon[0]| && PriorityOrder(polygon)[i] == 1.0
  {
    var n := |polygon[0]|;
    var r := PriorityOrder(polygon);
    PriorityOrderScores(polygon);
    if n >= 3 {
      var id0 := FirstPopped(polygon);
      ScoreOneIsUnique(r, n, id0);
    } else {
      NoScoreOneInShortChain(r, n);
    }
  }

  /** An interior vertex scoring 1.0 is the only vertex that does. */
  lemma ScoreOneIsUnique(r: seq<real>, n: nat, id0: nat)
    requires VertexScores(r, n) && 0 < id0 < n - 1 && r[id0] == 1.0
    ensures forall i :: 0 <= i < n && r[i] == 1.0 ==> i == id0
  {
  }

  /** A chain of fewer than three vertices has no vertex scoring 1.0. */
  lemma NoScoreOneInShortChain(r: seq<real>, n: nat)
    requires VertexScores(r, n) && n < 3
    ensures forall i :: 0 <= i < n ==> r[i] != 1.0
  {
  }

  /** The first vertex the elimination loop pops, with what makes it special. */
  lemma FirstPopped(polygon: seq<seq<Coord>>) returns (id0: nat)
    requires |polygon| >= 1 && |polygon[0]| >= 3
    ensures var ring := polygon[0];
      0 < id0 < |ring| - 1 && PriorityOrder(polygon)[id0] == 1.0 &&
      forall j :: 0 < j < |ring| - 1 ==> RingArea(ring, id0) <= RingArea(ring, j)
  {
    var n := |polygon[0]|;
    var q1 := InitAreas(BuildQueue(polygon), 0);
    AfterFirstLoop(polygon);
    InitEstablishesElimInv(q1, n);
    id0 := PopMin(q1).1;
    FirstPopScore(q1, seq(n, _ => 0.0), n);
    FirstPopMin(q1, polygon[0]);
  }

  /** The vertex popped first from a full queue of n >= 3 vertices is interior and scores n / n. */
  lemma FirstPopScore(q1: Queue, order: seq<real>, n: nat)
    requires ElimInv(q1, n) && |q1.slots| == n >= 3 && |order| == n
    ensures var id := PopMin(q1).1;
      0 < id < n - 1 && Eliminate(q1, order, n, n).1[id] == 1.0
  {
    PoppedScoreFinal(q1, order, n, n);
    ScoreOfFullQueue(n);
  }

  /**
   * From a heap holding every vertex of the ring, each interior one at its
   * ring triangle area, `heap.Pop` takes, if it takes an interior vertex,
   * one of least ring area.
   */
  lemma FirstPopMin(q1: Queue, ring: seq<Coord>)
    requires WF(q1) && IsHeap(Keys(q1)) && |q1.slots| > 0 && AreasFrom(q1, ring, |ring|)
    requires forall id :: 0 <= id < |ring| ==> id in q1.slots
    ensures var id := PopMin(q1).1;
      0 < id < |ring| - 1 ==> forall j :: 0 < j < |ring| - 1 ==> RingArea(ring, id) <= RingArea(ring, j)
  {
    PopMinIsMin(q1);
    var id := PopMin(q1).1;
    forall j | 0 < j < |ring| - 1 ensures 0 < id < |ring| - 1 ==> RingArea(ring, id) <= RingArea(ring, j) {
      assert j in q1.slots;
      var k :| 0 <= k < |q1.slots| && q1.slots[k] == j;
      assert Le(q1.points[id].currentArea, Keys(q1)[k]);
    }
  }

  /** A vertex whose ring triangle is strictly the smallest among the interior vertices scores 1.0. */
  lemma UniqueFlattestScoresOne(polygon: seq<seq<Coord>>, i: nat)
    requires |polygon| >= 1 && 0 < i < |polygon[0]| - 1
    requires forall j :: 0 < j < |polygon[0]| - 1 && j != i ==> RingArea(polygon[0], i) < RingArea(polygon[0], j)
    ensures PriorityOrder(polygon)[i] == 1.0
  {
    var id0 := FirstPopped(polygon);
    assert RingArea(polygon[0], id0) <= RingArea(polygon[0], i);
  }

  /**
   * On a four-vertex line whose first interior vertex is flat (area 0) and
   * whose second spans area 2.5, as for (0,0), (1,0), (2,0), (3,5), vertex 1
   * is removed first and scores 1.0.
   */
  lemma FlatVertexOfFourScoresOne(polygon: seq<seq<Coord>>)
    requires |polygon| >= 1 && |polygon[0]| == 4
    requires RingArea(polygon[0], 1) == 0.0 && RingArea(polygon[0], 2) == 2.5
    ensures PriorityOrder(polygon)[1] == 1.0
  {
    UniqueFlattestScoresOne(polygon, 1);
  }
}
