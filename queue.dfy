/**
 * The Go `PriorityQueue` as a class: a slice of slots over an arena of
 * vertices, with the heap.Interface methods, the container/heap routines the
 * package calls, and the queue's own algorithm. Every method is proved to
 * leave the queue as the matching function of `QueueSpec` says, so what is
 * proved there about those functions holds of these methods.
 */
module PriorityQueues {
  import opened Options
  import opened Points
  import QueueSpec

  class PriorityQueue {
    /** The vertices, addressed by id: the `Point`s the slice's pointers reach. */
    var points: seq<Point>
    /** The slice itself: slot k holds the id of the vertex `pq[k]` points to. */
    var slots: seq<nat>

    /** The queue as a value. */
    function Model(): QueueSpec.Queue
      reads this
    {
      QueueSpec.Queue(points, slots)
    }

    /** Slots and links name vertices of the arena; each vertex sits at its id. */
    ghost predicate Valid()
      reads this
    {
      QueueSpec.WF(Model())
    }

    /** `priorityQueueFromPolygon`: one fresh vertex per coordinate of the first ring, then the links. */
    constructor FromPolygon(polygon: seq<seq<Coord>>)
      requires |polygon| >= 1
      ensures Valid() && Model() == QueueSpec.BuildQueue(polygon)
    {
      var ring := polygon[0];
      var n := |ring|;
      var pts: seq<Point> := [];
      var i := 0;
      while i < n
        invariant i <= n && |pts| == i
        invariant forall k :: 0 <= k < i ==> pts[k] == NewPoint(k, ring[k].x, ring[k].y)
      {
        pts := pts + [NewPoint(i, ring[i].x, ring[i].y)];
        i := i + 1;
      }
      i := 0;
      while i < n
        invariant i <= n && |pts| == n
        invariant forall k :: 0 <= k < i ==> pts[k] == QueueSpec.ChainPoint(ring, k)
        invariant forall k :: i <= k < n ==> pts[k] == NewPoint(k, ring[k].x, ring[k].y)
      {
        if i > 0 {
          pts := pts[i := pts[i].(left := Some(i - 1))];
        }
        if i < n - 1 {
          pts := pts[i := pts[i].(right := Some(i + 1))];
        }
        i := i + 1;
      }
      points := pts;
      slots := seq(n, k => k);
    }

    /** `Swap(i, j)`: exchange two slots and record each vertex's new slot. */
    method Swap(i: nat, j: nat)
      requires Valid() && i < |slots| && j < |slots|
      modifies this
      ensures Valid() && Model() == QueueSpec.Swap(old(Model()), i, j)
    {
      slots := slots[i := slots[j]][j := slots[i]];
      points := points[slots[i] := points[slots[i]].(index := i)];
      points := points[slots[j] := points[slots[j]].(index := j)];
    }

    /** `Push(x)`: append a vertex, giving it the old length as its slot. */
    method Push(id: nat)
      requires Valid() && id < |points|
      modifies this
      ensures Valid() && Model() == QueueSpec.Push(old(Model()), id)
    {
      points := points[id := points[id].(index := |slots|)];
      slots := slots + [id];
    }

    /** `Pop()`: remove and return the last slot. */
    method Pop() returns (id: nat)
      requires Valid() && |slots| > 0
      modifies this
      ensures Valid() && (Model(), id) == QueueSpec.PopLast(old(Model()))
    {
      id := slots[|slots| - 1];
      slots := slots[..|slots| - 1];
    }

    /** container/heap's `down`: returns the slot where the sifted vertex stopped. */
    method Down(i0: nat, n: nat) returns (i: nat)
      requires Valid() && n <= |slots|
      modifies this
      ensures Valid() && (Model(), i) == QueueSpec.Down(old(Model()), i0, n)
    {
      ghost var len := |slots|;
      i := i0;
      while true
        invariant Valid() && |slots| == len && n <= len
        invariant QueueSpec.Down(Model(), i, n) == QueueSpec.Down(old(Model()), i0, n)
        decreases n - i
      {
        var j1 := 2 * i + 1;
        if j1 >= n {
          return;
        }
        var j := j1;
        if j1 + 1 < n && QueueSpec.Less(Model(), j1 + 1, j1) {
          j := j1 + 1;
        }
        DownUnfold(Model(), i, j, n);
        if !QueueSpec.Less(Model(), j, i) {
          return;
        }
        Swap(i, j);
        i := j;
      }
    }

    /** container/heap's `up`. */
    method Up(j0: nat)
      requires Valid()
      modifies this
      ensures Valid() && Model() == QueueSpec.Up(old(Model()), j0)
    {
      var j := j0;
      while j > 0
        invariant Valid() && QueueSpec.Up(Model(), j) == QueueSpec.Up(old(Model()), j0)
        decreases j
      {
        var i := (j - 1) / 2;
        if !QueueSpec.Less(Model(), j, i) {
          return;
        }
        Swap(i, j);
        j := i;
      }
    }

    /** `heap.Fix(pq, i)`. */
    method Fix(i: nat)
      requires Valid()
      modifies this
      ensures Valid() && Model() == QueueSpec.Fix(old(Model()), i)
    {
      var i1 := Down(i, |slots|);
      if i1 <= i {
        Up(i);
      }
    }

    /** `heap.Pop(pq)`: the id of the vertex that was at the root. */
    method HeapPop() returns (id: nat)
      requires Valid() && |slots| > 0
      modifies this
      ensures Valid() && (Model(), id) == QueueSpec.PopMin(old(Model()))
    {
      var n := |slots| - 1;
      Swap(0, n);
      var _ := Down(0, n);
      id := Pop();
    }

    /** `p2.area(p1, p3)` on the arena: overwrite vertex i2's area. */
    method Area(i2: nat, i1: nat, i3: nat)
      requires Valid() && i1 < |points| && i2 < |points| && i3 < |points|
      modifies this
      ensures Valid() && slots == old(slots) && points == QueueSpec.SetArea(old(points), i2, i1, i3)
    {
      points := points[i2 := points[i2].(currentArea := Finite(TriangleArea(points[i1], points[i2], points[i3])))];
    }

    /** `getPointArea(point)`. */
    method GetPointArea(id: nat)
      requires Valid() && id < |points|
      modifies this
      ensures Valid() && Model() == QueueSpec.GetPointArea(old(Model()), id)
    {
      var p := points[id];
      if p.left.Some? && p.right.Some? {
        Area(id, p.left.value, p.right.value);
      }
    }

    /** `update(point)`. */
    method Update(id: nat)
      requires Valid() && id < |points|
      modifies this
      ensures Valid() && Model() == QueueSpec.Update(old(Model()), id)
    {
      var p := points[id];
      if p.left.Some? && p.right.Some? {
        assert QueueSpec.LinksIn(points);
        var l: nat := p.left.value;
        while !points[l].alive && points[l].left.Some? && points[l].left.value < l
          invariant l < |points| && QueueSpec.WalkLeft(points, l) == QueueSpec.WalkLeft(points, p.left.value)
          decreases l
        {
          l := points[l].left.value;
        }
        var r: nat := p.right.value;
        while !points[r].alive && points[r].right.Some? && r < points[r].right.value
          invariant r < |points| && QueueSpec.WalkRight(points, r) == QueueSpec.WalkRight(points, p.right.value)
          decreases |points| - r
        {
          r := points[r].right.value;
        }
        ghost var m := Model();
        Area(id, l, r);
        points := points[l := points[l].(right := Some(r))];
        points := points[r := points[r].(left := Some(l))];
        assert Model() == QueueSpec.Relink(m, id, l, r);
        Fix(points[id].index);
      }
    }

    /** `pq.update(link)` for a neighbour link of a popped vertex. */
    method UpdateLink(link: Option<nat>)
      requires Valid() && QueueSpec.LinkIn(link, |points|)
      modifies this
      ensures Valid() && Model() == QueueSpec.UpdateLink(old(Model()), link)
    {
      if link.Some? {
        Update(link.value);
      }
    }

    /** The body of the first loop: the area of the vertex in slot k, then `heap.Fix` of its slot. */
    method AssignAreaAt(k: nat)
      requires Valid() && k < |slots|
      modifies this
      ensures Valid() && Model() == QueueSpec.InitStep(old(Model()), k)
    {
      var id := slots[k];
      GetPointArea(id);
      Fix(points[id].index);
    }

    /** The first loop of `getQueuePriorityOrder`: assign the area of every vertex, slot by slot. */
    method AssignAreas()
      requires Valid()
      modifies this
      ensures Valid() && Model() == QueueSpec.InitAreas(old(Model()), 0)
    {
      var count := |slots|;
      var k := 0;
      while k < count
        invariant Valid() && |slots| == count && k <= count
        invariant QueueSpec.InitAreas(Model(), k) == QueueSpec.InitAreas(old(Model()), 0)
        decreases count - k
      {
        InitAreasUnfold(Model(), k);
        AssignAreaAt(k);
        k := k + 1;
      }
    }

    /**
     * The second loop of `getQueuePriorityOrder`: pop and score vertices
     * until two remain.
     */
    method ReduceToEndpoints(priorityOrder: array<real>)
      requires Valid() && priorityOrder.Length == |points| > 0 && |slots| <= |points|
      modifies this, priorityOrder
      ensures Valid() &&
        (Model(), priorityOrder[..]) == QueueSpec.Eliminate(old(Model()), old(priorityOrder[..]), |old(slots)|, |old(points)|)
    {
      var count := |points|;
      var dropped := |slots|;
      while dropped > 2
        invariant Valid() && |points| == count == priorityOrder.Length && |slots| == dropped <= count
        invariant QueueSpec.Eliminate(Model(), priorityOrder[..], dropped, count) ==
          QueueSpec.Eliminate(old(Model()), old(priorityOrder[..]), |old(slots)|, count)
        decreases dropped
      {
        var id := HeapPop();
        priorityOrder[points[id].id] := QueueSpec.Score(dropped, count);
        UpdateLink(points[id].left);
        UpdateLink(points[id].right);
        dropped := dropped - 1;
      }
    }

    /** `getQueuePriorityOrder()`: the order array, indexed by vertex id. */
    method GetQueuePriorityOrder() returns (order: seq<real>)
      requires Valid() && |slots| == |points|
      modifies this
      ensures Valid() && (Model(), order) == QueueSpec.GetQueuePriorityOrder(old(Model()))
    {
      var count := |slots|;
      var priorityOrder := new real[count](_ => 0.0);
      assert priorityOrder[..] == seq(count, _ => 0.0);
      AssignAreas();
      if count > 0 {
        ReduceToEndpoints(priorityOrder);
      }
      order := priorityOrder[..];
    }
  }

  /** One step of `down`, once the smaller child j of slot i is chosen. */
  lemma DownUnfold(q: QueueSpec.Queue, i: nat, j: nat, n: nat)
    requires QueueSpec.WF(q) && n <= |q.slots| && 2 * i + 1 < n
    requires j == QueueSpec.SmallerChild(q, i, n)
    ensures QueueSpec.Down(q, i, n) ==
      if QueueSpec.Less(q, j, i) then QueueSpec.Down(QueueSpec.Swap(q, i, j), j, n) else (q, i)
  {
  }

  /** One step of the first loop. */
  lemma InitAreasUnfold(q: QueueSpec.Queue, k: nat)
    requires QueueSpec.WF(q) && k < |q.slots|
    ensures QueueSpec.InitAreas(q, k) == QueueSpec.InitAreas(QueueSpec.InitStep(q, k), k + 1)
  {
  }

  /** A fresh queue for the polygon, run to its order array. */
  method PolygonOrder(polygon: seq<seq<Coord>>) returns (order: seq<real>)
    requires |polygon| >= 1
    ensures order == QueueSpec.PriorityOrder(polygon)
  {
    var pq := new PriorityQueue.FromPolygon(polygon);
    order := pq.GetQueuePriorityOrder();
  }
}
