/**
 * The first loop of `getQueuePriorityOrder`: every vertex gets the area of
 * its ring triangle, and the queue ends as a heap.
 *
 * The range loop reads the live slot k after earlier `heap.Fix` calls have
 * swapped slots around. Slot k still holds vertex k when it is read: slots
 * from k on are untouched because their vertices all have area `+Inf`, so the
 * sift-down at k never moves and the sift-up only touches slots up to k. So
 * every vertex gets its area computed exactly once.
 */
module QueueInit {
  import opened Options
  import opened Points
  import opened HeapOrder
  import opened QueueSpec
  import opened QueueHeap
  import opened QueueElim

  /** The ids 0 .. n - 1 in order: the slots of a fresh queue. */
  function Iota(n: nat): (s: seq<nat>)
    ensures |s| == n && forall i :: 0 <= i < n ==> s[i] == i
  {
    seq(n, i => i)
  }

  /** The chain as built: alive vertices linked to their id neighbours. */
  ghost predicate InitChain(q: Queue, n: nat) {
    |q.points| == n &&
    forall id :: 0 <= id < n ==>
      q.points[id].alive &&
      q.points[id].left == (if id > 0 then Some(id - 1) else None) &&
      q.points[id].right == (if id < n - 1 then Some(id + 1) else None)
  }

  /**
   * The invariant of the first loop before slot k is read: a heap over all n
   * vertices whose slots from k on hold their own vertex, where exactly the
   * interior vertices below k have a finite area.
   */
  ghost predicate InitInv(q: Queue, k: nat, n: nat) {
    WF(q) && IndexMap(q) && IsHeap(Keys(q)) && InitChain(q, n) &&
    |q.slots| == n && k <= n && multiset(q.slots) == multiset(Iota(n)) &&
    (forall s :: k <= s < n ==> q.slots[s] == s) &&
    (forall id :: 0 <= id < n ==> (q.points[id].currentArea.Finite? <==> 0 < id < n - 1 && id < k))
  }

  /** The queue `priorityQueueFromPolygon` builds satisfies the invariant at slot 0. */
  lemma BuildEstablishesInitInv(polygon: seq<seq<Coord>>)
    requires |polygon| >= 1
    ensures InitInv(BuildQueue(polygon), 0, |polygon[0]|)
  {
    var q := BuildQueue(polygon);
    var n := |polygon[0]|;
    assert q.slots == Iota(n);
    forall id | 0 <= id < n ensures q.points[id] == ChainPoint(polygon[0], id) {
    }
    forall k | 0 <= k < |q.slots| ensures Keys(q)[k] == Infinite {
      assert q.points[q.slots[k]] == ChainPoint(polygon[0], k);
    }
  }

  /** With infinite areas below slot k, sifting slot k down does not move it. */
  lemma DownNoMove(q: Queue, k: nat)
    requires WF(q) && k < |q.slots|
    requires forall s :: k < s < |q.slots| ==> Key(q, s) == Infinite
    ensures Down(q, k, |q.slots|) == (q, k)
  {
    var j1 := 2 * k + 1;
    if j1 < |q.slots| {
      var j := if j1 + 1 < |q.slots| && Less(q, j1 + 1, j1) then j1 + 1 else j1;
      assert Key(q, j) == Infinite;
      assert !Less(q, j, k);
    }
  }

  /** The area computed for slot k's vertex. */
  lemma GetPointAreaStep(q: Queue, k: nat, n: nat)
    requires InitInv(q, k, n) && k < n
    ensures var q1 := GetPointArea(q, k);
      IndexMap(q1) && AlmostHeap(Keys(q1), k) && q1.points[k].index == k &&
      SameButIndex(q, q1.(points := q1.points[k := q.points[k]])) &&
      (q1.points[k].currentArea.Finite? <==> 0 < k < n - 1) &&
      forall id :: 0 <= id < n && id != k ==> q1.points[id] == q.points[id]
  {
    assert q.slots[k] == k;
    assert q.points[k].index == k;
    var q1 := GetPointArea(q, k);
    AreaChangeAlmostHeap(q, q1, k);
  }

  /** `heap.Fix` of slot k with only infinite areas after it is a sift-up that leaves the later slots alone. */
  lemma FixBeforeInfiniteTail(q: Queue, k: nat)
    requires WF(q) && IndexMap(q) && k < |q.slots| && AlmostHeap(Keys(q), k)
    requires forall s :: k < s < |q.slots| ==> Key(q, s) == Infinite
    ensures var r := Fix(q, k);
      SameButIndex(q, r) && multiset(r.slots) == multiset(q.slots) &&
      IndexMap(r) && IsHeap(Keys(r)) && (forall s :: k < s < |q.slots| ==> r.slots[s] == q.slots[s])
  {
    DownNoMove(q, k);
    assert Fix(q, k) == Up(q, k);
    UpFrame(q, k);
    FixRestores(q, k);
  }

  /** What one iteration of the first loop does to the slots. */
  lemma InitFixFrame(q: Queue, k: nat, n: nat)
    requires InitInv(q, k, n) && k < n
    ensures var q1 := GetPointArea(q, k); var r := InitStep(q, k);
      SameButIndex(q1, r) && multiset(r.slots) == multiset(q.slots) &&
      IndexMap(r) && IsHeap(Keys(r)) && (forall s :: k < s < n ==> r.slots[s] == s)
  {
    var q1 := GetPointArea(q, k);
    GetPointAreaStep(q, k, n);
    assert q.slots[k] == k;
    forall s | k < s < |q1.slots| ensures Key(q1, s) == Infinite {
      assert q1.slots[s] == s;
    }
    assert InitStep(q, k) == Fix(q1, k);
    FixBeforeInfiniteTail(q1, k);
  }

  /** One iteration of the first loop keeps its invariant, reading vertex k. */
  lemma InitStepKeepsInv(q: Queue, k: nat, n: nat)
    requires InitInv(q, k, n) && k < n
    ensures q.slots[k] == k && InitInv(InitStep(q, k), k + 1, n)
  {
    var q1 := GetPointArea(q, k);
    GetPointAreaStep(q, k, n);
    InitFixFrame(q, k, n);
    var r := InitStep(q, k);
    forall id | 0 <= id < n
      ensures r.points[id].alive && r.points[id].left == q.points[id].left && r.points[id].right == q.points[id].right
      ensures r.points[id].currentArea == q1.points[id].currentArea
    {
      assert r.points[id] == q1.points[id].(index := r.points[id].index);
      if id != k {
        assert q1.points[id] == q.points[id];
      }
    }
  }

  /**
   * The vertices still sit at the coordinates of `ring`, and every interior
   * vertex below k holds its ring triangle's area.
   */
  ghost predicate AreasFrom(q: Queue, ring: seq<Coord>, k: nat) {
    |q.points| == |ring| &&
    (forall id :: 0 <= id < |ring| ==> q.points[id].x == ring[id].x && q.points[id].y == ring[id].y) &&
    (forall id :: 0 < id < |ring| - 1 && id < k ==> q.points[id].currentArea == Finite(RingArea(ring, id)))
  }

  /** Storing vertex k's ring triangle area, then moving slots, extends `AreasFrom` to k + 1. */
  lemma StoreRingArea(q: Queue, q1: Queue, r: Queue, ring: seq<Coord>, k: nat)
    requires AreasFrom(q, ring, k) && k < |ring|
    requires 0 < k < |ring| - 1 ==> q1.points == SetArea(q.points, k, k - 1, k + 1)
    requires !(0 < k < |ring| - 1) ==> q1.points == q.points
    requires SameButIndex(q1, r)
    ensures AreasFrom(r, ring, k + 1)
  {
    forall id | 0 <= id < |ring|
      ensures r.points[id].x == ring[id].x && r.points[id].y == ring[id].y
      ensures 0 < id < |ring| - 1 && id < k + 1 ==> r.points[id].currentArea == Finite(RingArea(ring, id))
    {
      assert r.points[id] == q1.points[id].(index := r.points[id].index);
    }
  }

  /** One iteration of the first loop stores vertex k's ring triangle area and moves no coordinate. */
  lemma InitStepAreas(q: Queue, ring: seq<Coord>, k: nat, n: nat)
    requires InitInv(q, k, n) && k < n && AreasFrom(q, ring, k)
    ensures AreasFrom(InitStep(q, k), ring, k + 1)
  {
    InitFixFrame(q, k, n);
    assert q.slots[k] == k;
    StoreRingArea(q, GetPointArea(q, k), InitStep(q, k), ring, k);
  }

  /**
   * The first loop, from slot k on, ends with the invariant at n: every
   * interior vertex holds the area of its ring triangle, both endpoints keep
   * `+Inf`, and the queue is a heap over all n vertices.
   */
  lemma {:induction false} InitAreasCorrect(q: Queue, ring: seq<Coord>, k: nat, n: nat)
    requires InitInv(q, k, n) && AreasFrom(q, ring, k)
    ensures InitInv(InitAreas(q, k), n, n) && AreasFrom(InitAreas(q, k), ring, n)
    decreases n - k
  {
    if k < n {
      InitStepKeepsInv(q, k, n);
      InitStepAreas(q, ring, k, n);
      assert InitAreas(q, k) == InitAreas(InitStep(q, k), k + 1);
      InitAreasCorrect(InitStep(q, k), ring, k + 1, n);
    }
  }

  /** A queued vertex of the invariant is one of 0 .. n - 1, and every one of them is queued. */
  lemma QueuedAreIds(q: Queue, n: nat, id: nat)
    requires |q.slots| == n && multiset(q.slots) == multiset(Iota(n))
    ensures id in q.slots <==> id < n
  {
    assert id in q.slots <==> id in multiset(q.slots);
    if id < n {
      assert Iota(n)[id] == id;
    }
  }

  /** After the first loop the queue satisfies the elimination invariant, all vertices queued. */
  lemma InitEstablishesElimInv(q: Queue, n: nat)
    requires InitInv(q, n, n)
    ensures ElimInv(q, n) && forall id :: 0 <= id < n ==> id in q.slots
  {
    forall id | 0 <= id < n ensures id in q.slots {
      QueuedAreIds(q, n, id);
    }
  }
}
