/**
 * The priority queue of pkg/viswal/queue.go as values: the arena of vertices
 * (`points`, addressed by id) and the heap slice (`slots`, the id held in each
 * slot). Every function here is one operation of queue.go or of Go's
 * container/heap as queue.go uses it, step for step; the class
 * `PriorityQueues.PriorityQueue` runs the same operations in place and is proved equal
 * to these functions.
 */
module QueueSpec {
  import opened Options
  import opened Points
  import opened HeapOrder

  datatype Queue = Queue(points: seq<Point>, slots: seq<nat>)

  ghost predicate LinkIn(link: Option<nat>, n: nat) {
    link.Some? ==> link.value < n
  }

  /** Slots and links name vertices of the arena; each vertex sits at its id. */
  ghost predicate WF(q: Queue) {
    (forall k :: 0 <= k < |q.slots| ==> q.slots[k] < |q.points|) &&
    (forall id :: 0 <= id < |q.points| ==>
      q.points[id].id == id && LinkIn(q.points[id].left, |q.points|) && LinkIn(q.points[id].right, |q.points|))
  }

  /** `index` is the slot map: a queued vertex knows its slot, and a vertex whose index is a live slot is there. */
  ghost predicate IndexMap(q: Queue) {
    (forall k :: 0 <= k < |q.slots| ==> q.slots[k] < |q.points| && q.points[q.slots[k]].index == k) &&
    (forall id :: 0 <= id < |q.points| && q.points[id].index < |q.slots| ==> q.slots[q.points[id].index] == id)
  }

  /** r differs from q at most in the `index` fields of its vertices. */
  ghost predicate SameButIndex(q: Queue, r: Queue) {
    |r.points| == |q.points| &&
    forall id :: 0 <= id < |q.points| ==> r.points[id] == q.points[id].(index := r.points[id].index)
  }

  /** The key of slot k. */
  function Key(q: Queue, k: nat): Area
    requires WF(q) && k < |q.slots|
  {
    q.points[q.slots[k]].currentArea
  }

  /** The keys of all slots, in slot order. */
  ghost function Keys(q: Queue): (keys: seq<Area>)
    requires WF(q)
    ensures |keys| == |q.slots|
    ensures forall k :: 0 <= k < |q.slots| ==> keys[k] == q.points[q.slots[k]].currentArea
  {
    seq(|q.slots|, k requires 0 <= k < |q.slots| => Key(q, k))
  }

  /** `Len`. */
  function Len(q: Queue): (n: nat)
    ensures WF(q) ==> n == |Keys(q)|
  {
    |q.slots|
  }

  /** `Less`: false unless both slots are in the queue, else `<` on the keys. */
  predicate Less(q: Queue, i: nat, j: nat)
    requires WF(q)
    ensures Less(q, i, j) ==> i < Len(q) && j < Len(q)
  {
    if i < Len(q) && j < Len(q) then Lt(Key(q, i), Key(q, j)) else false
  }

  /** `Swap`: exchange two slots and record each vertex's new slot. */
  function Swap(q: Queue, i: nat, j: nat): (r: Queue)
    requires WF(q) && i < |q.slots| && j < |q.slots|
    ensures WF(r) && |r.points| == |q.points|
    ensures r.slots == q.slots[i := q.slots[j]][j := q.slots[i]]
  {
    var slots := q.slots[i := q.slots[j]][j := q.slots[i]];
    var pts := q.points[slots[i] := q.points[slots[i]].(index := i)];
    var pts' := pts[slots[j] := pts[slots[j]].(index := j)];
    Queue(pts', slots)
  }

  /** `Push`: append a vertex and give it the old length as its slot. */
  function Push(q: Queue, id: nat): (r: Queue)
    requires WF(q) && id < |q.points|
    ensures WF(r)
  {
    Queue(q.points[id := q.points[id].(index := |q.slots|)], q.slots + [id])
  }

  /** `Pop` (the heap.Interface method): remove and return the last slot. */
  function PopLast(q: Queue): (r: (Queue, nat))
    requires WF(q) && |q.slots| > 0
    ensures WF(r.0)
  {
    (Queue(q.points, q.slots[..|q.slots| - 1]), q.slots[|q.slots| - 1])
  }

  /**
   * container/heap's `down(h, i, n)`: sift slot i down within the first n
   * slots. Returns the new queue and the slot where the sifted vertex ended.
   */
  function Down(q: Queue, i: nat, n: nat): (r: (Queue, nat))
    requires WF(q) && n <= |q.slots|
    ensures WF(r.0) && |r.0.points| == |q.points| && |r.0.slots| == |q.slots|
    ensures r.1 >= i && (r.1 == i ==> r.0 == q)
    decreases n - i
  {
    var j1 := 2 * i + 1;
    if j1 >= n then (q, i)
    else
      var j := SmallerChild(q, i, n);
      if !Less(q, j, i) then (q, i)
      else Down(Swap(q, i, j), j, n)
  }

  /** The child `down` compares slot i with: the right one if it is the smaller, else the left. */
  function SmallerChild(q: Queue, i: nat, n: nat): (j: nat)
    requires WF(q)
    ensures j == 2 * i + 1 || (j == 2 * i + 2 && j < n)
  {
    var j1 := 2 * i + 1;
    if j1 + 1 < n && Less(q, j1 + 1, j1) then j1 + 1 else j1
  }

  /** container/heap's `up(h, j)`: sift slot j up towards the root. */
  function Up(q: Queue, j: nat): (r: Queue)
    requires WF(q)
    ensures WF(r) && |r.points| == |q.points| && |r.slots| == |q.slots|
    decreases j
  {
    if j == 0 then q
    else
      var i := (j - 1) / 2;
      if !Less(q, j, i) then q else Up(Swap(q, i, j), i)
  }

  /** `heap.Fix(h, i)`: sift down, and sift up if down did not move slot i. */
  function Fix(q: Queue, i: nat): (r: Queue)
    requires WF(q)
    ensures WF(r) && |r.points| == |q.points| && |r.slots| == |q.slots|
  {
    var (q1, i1) := Down(q, i, |q.slots|);
    if i1 > i then q1 else Up(q1, i)
  }

  /** `heap.Pop(h)`: move the root to the end, sift the new root down, then `Pop`. */
  function PopMin(q: Queue): (r: (Queue, nat))
    requires WF(q) && |q.slots| > 0
    ensures WF(r.0) && |r.0.points| == |q.points| && |r.0.slots| == |q.slots| - 1
  {
    var n := |q.slots| - 1;
    var q1 := Swap(q, 0, n);
    var q2 := Down(q1, 0, n).0;
    PopLast(q2)
  }

  /** `p2.area(p1, p3)` on the arena: overwrite vertex i2's area, nothing else. */
  function SetArea(pts: seq<Point>, i2: nat, i1: nat, i3: nat): (r: seq<Point>)
    requires i1 < |pts| && i2 < |pts| && i3 < |pts|
    ensures |r| == |pts| && r[i2] == pts[i2].(currentArea := Finite(TriangleArea(pts[i1], pts[i2], pts[i3])))
    ensures forall id :: 0 <= id < |pts| && id != i2 ==> r[id] == pts[id]
  {
    pts[i2 := pts[i2].(currentArea := Finite(TriangleArea(pts[i1], pts[i2], pts[i3])))]
  }

  /** `getPointArea`: compute the area only when both neighbours exist. */
  function GetPointArea(q: Queue, id: nat): (r: Queue)
    requires WF(q) && id < |q.points|
    ensures WF(r) && r.slots == q.slots && |r.points| == |q.points|
    ensures q.points[id].left.Some? && q.points[id].right.Some? ==>
      r.points == SetArea(q.points, id, q.points[id].left.value, q.points[id].right.value)
    ensures q.points[id].left.None? || q.points[id].right.None? ==> r == q
  {
    var p := q.points[id];
    if p.left.Some? && p.right.Some? then Queue(SetArea(q.points, id, p.left.value, p.right.value), q.slots)
    else q
  }

  ghost predicate LinksIn(pts: seq<Point>) {
    forall id :: 0 <= id < |pts| ==> LinkIn(pts[id].left, |pts|) && LinkIn(pts[id].right, |pts|)
  }

  /**
   * `for !leftNode.alive { leftNode = leftNode.leftPoint }`. The walk stops at
   * a live vertex; it also stops where Go would follow a nil link or a link
   * that does not lead to a smaller id.
   */
  function WalkLeft(pts: seq<Point>, id: nat): (r: nat)
    requires id < |pts| && LinksIn(pts)
    ensures r < |pts| && r <= id && (pts[id].alive ==> r == id)
    decreases id
  {
    if pts[id].alive then id
    else match pts[id].left
      case Some(l) => if l < id then WalkLeft(pts, l) else id
      case None => id
  }

  /** The rightward walk of `update`, stopping as `WalkLeft` does. */
  function WalkRight(pts: seq<Point>, id: nat): (r: nat)
    requires id < |pts| && LinksIn(pts)
    ensures r < |pts| && r >= id && (pts[id].alive ==> r == id)
    decreases |pts| - id
  {
    if pts[id].alive then id
    else match pts[id].right
      case Some(r) => if id < r then WalkRight(pts, r) else id
      case None => id
  }

  /**
   * The in-place part of `update(point)` once the neighbours l and r are
   * found: recompute the vertex's area against them, then link them to each
   * other.
   */
  function Relink(q: Queue, id: nat, l: nat, r: nat): (q': Queue)
    requires WF(q) && id < |q.points| && l < |q.points| && r < |q.points|
    ensures WF(q') && q'.slots == q.slots && |q'.points| == |q.points|
    ensures q'.points[id].currentArea == Finite(TriangleArea(q.points[l], q.points[id], q.points[r]))
    ensures q'.points[l].right == Some(r) && q'.points[r].left == Some(l)
    ensures forall x :: 0 <= x < |q.points| && x != id && x != l && x != r ==> q'.points[x] == q.points[x]
  {
    var pts1 := SetArea(q.points, id, l, r);
    var pts2 := pts1[l := pts1[l].(right := Some(r))];
    var pts3 := pts2[r := pts2[r].(left := Some(l))];
    Queue(pts3, q.slots)
  }

  /**
   * `update(point)`: with both neighbours present, walk past dead vertices,
   * `Relink`, and `heap.Fix` the vertex's slot.
   */
  function Update(q: Queue, id: nat): (r: Queue)
    requires WF(q) && id < |q.points|
    ensures WF(r) && |r.points| == |q.points| && |r.slots| == |q.slots|
    ensures q.points[id].left.None? || q.points[id].right.None? ==> r == q
  {
    var p := q.points[id];
    if p.left.None? || p.right.None? then q
    else
      var l := WalkLeft(q.points, p.left.value);
      var r := WalkRight(q.points, p.right.value);
      var q' := Relink(q, id, l, r);
      Fix(q', q'.points[id].index)
  }

  /** `pq.update(link)` for a neighbour link; a nil link (Go: nil dereference) changes nothing. */
  function UpdateLink(q: Queue, link: Option<nat>): (r: Queue)
    requires WF(q) && LinkIn(link, |q.points|)
    ensures WF(r) && |r.points| == |q.points| && |r.slots| == |q.slots|
    ensures link.None? ==> r == q
  {
    match link
    case Some(id) => Update(q, id)
    case None => q
  }

  /**
   * The first loop of `getQueuePriorityOrder`, from slot k on: the vertex read
   * is the one in slot k at that moment, since `Swap` rewrites the slice the
   * range loop walks.
   */
  function InitAreas(q: Queue, k: nat): (r: Queue)
    requires WF(q) && k <= |q.slots|
    ensures WF(r) && |r.points| == |q.points| && |r.slots| == |q.slots|
    decreases |q.slots| - k
  {
    if k == |q.slots| then q
    else InitAreas(InitStep(q, k), k + 1)
  }

  /** One pass of that loop: `getPointArea` on the vertex in slot k, then `heap.Fix` of its slot. */
  function InitStep(q: Queue, k: nat): (r: Queue)
    requires WF(q) && k < |q.slots|
    ensures WF(r) && |r.points| == |q.points| && |r.slots| == |q.slots|
  {
    var q1 := GetPointArea(q, q.slots[k]);
    Fix(q1, q1.points[q.slots[k]].index)
  }

  /** The score of a vertex popped while `dropped` of `count` vertices remain. */
  function Score(dropped: nat, count: nat): (r: real)
    requires count > 0
    ensures r * count as real == dropped as real
    ensures 0.0 <= r && (dropped <= count ==> r <= 1.0)
  {
    dropped as real / count as real
  }

  /**
   * The elimination loop: while more than two vertices are queued, pop the
   * smallest area, score it, and update its left and then its right neighbour.
   */
  function Eliminate(q: Queue, order: seq<real>, dropped: nat, count: nat): (r: (Queue, seq<real>))
    requires WF(q) && |order| == |q.points| && |q.slots| == dropped <= count
    ensures WF(r.0) && |r.0.points| == |q.points| && |r.1| == |order|
    ensures |r.0.slots| == if dropped <= 2 then dropped else 2
    decreases dropped
  {
    if dropped <= 2 then (q, order)
    else
      var (q1, id) := PopMin(q);
      var order1 := order[q1.points[id].id := Score(dropped, count)];
      var q2 := UpdateLink(q1, q1.points[id].left);
      var q3 := UpdateLink(q2, q2.points[id].right);
      Eliminate(q3, order1, dropped - 1, count)
  }

  /** `getQueuePriorityOrder`: the final queue and the order array, indexed by vertex id. */
  function GetQueuePriorityOrder(q: Queue): (r: (Queue, seq<real>))
    requires WF(q) && |q.slots| == |q.points|
    ensures |r.1| == |q.points|
    ensures |r.0.slots| == if |q.slots| <= 2 then |q.slots| else 2
  {
    var count := |q.slots|;
    var q1 := InitAreas(q, 0);
    Eliminate(q1, seq(count, _ => 0.0), count, count)
  }

  /** The vertex the ring builder puts at position i of a ring of n coordinates. */
  function ChainPoint(ring: seq<Coord>, i: nat): Point
    requires i < |ring|
  {
    NewPoint(i, ring[i].x, ring[i].y).(
      left := if i > 0 then Some(i - 1) else None,
      right := if i < |ring| - 1 then Some(i + 1) else None)
  }

  /** The area vertex i of a ring gets from its two ring neighbours. */
  function RingArea(ring: seq<Coord>, i: nat): (a: real)
    requires 0 < i < |ring| - 1
    ensures a >= 0.0
  {
    TriangleArea(ChainPoint(ring, i - 1), ChainPoint(ring, i), ChainPoint(ring, i + 1))
  }

  /** `priorityQueueFromPolygon`: one vertex per coordinate of the first ring, chained in order. */
  function BuildQueue(polygon: seq<seq<Coord>>): (q: Queue)
    requires |polygon| >= 1
    ensures WF(q) && |q.points| == |q.slots| == |polygon[0]|
    ensures forall i :: 0 <= i < |polygon[0]| ==>
      q.slots[i] == i && q.points[i].id == i &&
      q.points[i].x == polygon[0][i].x && q.points[i].y == polygon[0][i].y
  {
    var ring := polygon[0];
    Queue(seq(|ring|, i requires 0 <= i < |ring| => ChainPoint(ring, i)), seq(|ring|, i => i))
  }

  /** The order array one polygon (or line, as a one-ring polygon) yields. */
  function PriorityOrder(polygon: seq<seq<Coord>>): (order: seq<real>)
    requires |polygon| >= 1
    ensures |order| == |polygon[0]|
  {
    GetQueuePriorityOrder(BuildQueue(polygon)).1
  }
}
