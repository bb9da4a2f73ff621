/**
 * What `getQueuePriorityOrder` computes. The first loop gives every vertex
 * with two neighbours a finite area and leaves a heap; the second pops n - 2
 * vertices, never an endpoint, and gives the k-th popped vertex the score
 * (n - k) / n.
 */
module QueueElim {
  import opened Options
  import opened Points
  import opened HeapOrder
  import opened QueueSpec
  import opened QueueHeap

  /** Links point to smaller ids on the left and larger ids on the right. */
  ghost predicate Ordered(p: Point) {
    (p.left.Some? ==> p.left.value < p.id) && (p.right.Some? ==> p.id < p.right.value)
  }

  /**
   * The shape of the chain during elimination: every vertex alive with
   * id-ordered links, interior vertices with two neighbours and a finite
   * area, the endpoints without their outer link and with area `+Inf`.
   */
  ghost predicate ChainShape(q: Queue, n: nat) {
    |q.points| == n &&
    (forall id :: 0 <= id < n ==> q.points[id].alive && Ordered(q.points[id])) &&
    (forall id :: 0 < id < n - 1 ==>
      q.points[id].left.Some? && q.points[id].right.Some? && q.points[id].currentArea.Finite?) &&
    (n > 0 ==>
      q.points[0].left == None && q.points[0].currentArea == Infinite &&
      q.points[n - 1].right == None && q.points[n - 1].currentArea == Infinite)
  }

  /** The invariant of the elimination loop. */
  ghost predicate ElimInv(q: Queue, n: nat) {
    WF(q) && IndexMap(q) && IsHeap(Keys(q)) && ChainShape(q, n) &&
    (n > 0 ==> 0 in q.slots && n - 1 in q.slots)
  }

  lemma ChainShapeIgnoresIndex(q: Queue, r: Queue, n: nat)
    requires SameButIndex(q, r) && ChainShape(q, n)
    ensures ChainShape(r, n)
  {
    forall id | 0 <= id < n ensures r.points[id].alive && Ordered(r.points[id]) {
      assert r.points[id] == q.points[id].(index := r.points[id].index);
    }
  }

  /** An unqueued vertex has its index at or past the end of the queue. */
  lemma UnqueuedIndexPastEnd(q: Queue, id: nat)
    requires WF(q) && IndexMap(q) && id < |q.points| && id !in q.slots
    ensures q.points[id].index >= |q.slots|
  {
  }

  /** A vertex whose index is past the end of the queue is not queued. */
  lemma StaleIndexNotQueued(q: Queue, id: nat)
    requires WF(q) && IndexMap(q) && id < |q.points| && q.points[id].index >= |q.slots|
    ensures id !in q.slots
  {
    forall k | 0 <= k < |q.slots| ensures q.slots[k] != id {
      assert q.points[q.slots[k]].index == k;
    }
  }

  /** With an exact slot map, no vertex sits in two slots. */
  lemma SlotsDistinct(q: Queue, a: nat, b: nat)
    requires WF(q) && IndexMap(q) && a < |q.slots| && b < |q.slots| && a != b
    ensures q.slots[a] != q.slots[b]
  {
    assert q.points[q.slots[a]].index == a && q.points[q.slots[b]].index == b;
  }

  /**
   * Changing the area of one vertex (and its neighbours' links) leaves the
   * keys broken at most at that vertex's slot; a vertex no longer queued
   * leaves them unchanged.
   */
  lemma AreaChangeAlmostHeap(q: Queue, q': Queue, id: nat)
    requires WF(q) && WF(q') && IndexMap(q) && IsHeap(Keys(q))
    requires q'.slots == q.slots && |q'.points| == |q.points| && id < |q.points|
    requires forall x :: 0 <= x < |q.points| ==> q'.points[x].index == q.points[x].index
    requires forall x :: 0 <= x < |q.points| && x != id ==> q'.points[x].currentArea == q.points[x].currentArea
    ensures IndexMap(q') && AlmostHeap(Keys(q'), q'.points[id].index)
  {
    var i := q.points[id].index;
    if i < |q.slots| {
      assert q.slots[i] == id;
      assert Keys(q') == Keys(q)[i := q'.points[id].currentArea];
      ChangeKey(Keys(q), i, q'.points[id].currentArea);
    } else {
      StaleIndexNotQueued(q, id);
      assert Keys(q') == Keys(q);
      HeapIsAlmostHeap(Keys(q), i);
    }
  }

  /**
   * `update` on an interior vertex: its area is recomputed against its own
   * neighbours and the two neighbours are linked to each other, bypassing the
   * vertex itself; nothing else changes except slots.
   */
  lemma UpdateRelinksAroundItself(q: Queue, id: nat, n: nat)
    requires ElimInv(q, n) && 0 < id < n - 1
    ensures var p := q.points[id];
      var l, rt := p.left.value, p.right.value;
      SameButIndex(Relink(q, id, l, rt), Update(q, id)) &&
      Relink(q, id, l, rt).points ==
        q.points[id := p.(currentArea := Finite(TriangleArea(q.points[l], p, q.points[rt])))]
                [l := q.points[l].(right := Some(rt))]
                [rt := q.points[rt].(left := Some(l))]
  {
    var p := q.points[id];
    var l, rt := p.left.value, p.right.value;
    assert l < id < rt;
    var q' := Relink(q, id, l, rt);
    FixFrame(q', q'.points[id].index);
  }

  /**
   * `update` on a vertex popped in an earlier round re-scores it and relinks
   * around it, and its `heap.Fix` does nothing: the queue is just `Relink`'s.
   */
  lemma UpdatePoppedOnlyRelinks(q: Queue, id: nat, n: nat)
    requires ElimInv(q, n) && 0 < id < n - 1 && id !in q.slots
    ensures var p := q.points[id];
      Update(q, id) == Relink(q, id, p.left.value, p.right.value) &&
      Update(q, id).slots == q.slots
  {
    var p := q.points[id];
    var l, rt := p.left.value, p.right.value;
    assert l < id < rt;
    UnqueuedIndexPastEnd(q, id);
    var q' := Relink(q, id, l, rt);
    assert q'.points[id].index == p.index;
    FixPastEndIsNoop(q', q'.points[id].index);
  }

  /** `update` on an endpoint changes nothing. */
  lemma UpdateEndpointIsNoop(q: Queue, id: nat, n: nat)
    requires ElimInv(q, n) && n > 0 && (id == 0 || id == n - 1)
    ensures Update(q, id) == q
  {
  }

  /** `Relink` around an interior vertex, before `heap.Fix`. */
  lemma RelinkKeepsShape(q: Queue, id: nat, n: nat)
    requires ElimInv(q, n) && 0 < id < n - 1
    ensures var q' := Relink(q, id, q.points[id].left.value, q.points[id].right.value);
      IndexMap(q') && AlmostHeap(Keys(q'), q'.points[id].index) && ChainShape(q', n)
  {
    var p := q.points[id];
    var l, r := p.left.value, p.right.value;
    assert l < id < r;
    var q' := Relink(q, id, l, r);
    assert q'.points[id] == p.(currentArea := Finite(TriangleArea(q.points[l], p, q.points[r])));
    assert q'.points[l] == q.points[l].(right := Some(r));
    assert q'.points[r] == q.points[r].(left := Some(l));
    assert forall x :: 0 <= x < n && x != id && x != l && x != r ==> q'.points[x] == q.points[x];
    AreaChangeAlmostHeap(q, q', id);
    ChainShapeAfterRelink(q, q', id, l, r, n);
  }

  /** `heap.Fix` of the one slot out of order restores the invariant. */
  lemma FixKeepsInv(q: Queue, i: nat, n: nat)
    requires WF(q) && IndexMap(q) && AlmostHeap(Keys(q), i) && ChainShape(q, n)
    requires n > 0 ==> 0 in q.slots && n - 1 in q.slots
    ensures ElimInv(Fix(q, i), n) && multiset(Fix(q, i).slots) == multiset(q.slots)
  {
    FixRestores(q, i);
    FixFrame(q, i);
    var r := Fix(q, i);
    ChainShapeIgnoresIndex(q, r, n);
    if n > 0 {
      assert 0 in multiset(q.slots) && n - 1 in multiset(q.slots);
      assert 0 in multiset(r.slots) && n - 1 in multiset(r.slots);
    }
  }

  /** `update` keeps the elimination invariant and the set of queued vertices. */
  lemma UpdateKeepsInv(q: Queue, id: nat, n: nat)
    requires ElimInv(q, n) && id < n
    ensures ElimInv(Update(q, id), n)
    ensures multiset(Update(q, id).slots) == multiset(q.slots)
  {
    var p := q.points[id];
    if p.left.Some? && p.right.Some? {
      assert 0 < id < n - 1;
      var l, r := p.left.value, p.right.value;
      assert WalkLeft(q.points, l) == l && WalkRight(q.points, r) == r;
      var q' := Relink(q, id, l, r);
      assert Update(q, id) == Fix(q', q'.points[id].index);
      RelinkKeepsShape(q, id, n);
      FixKeepsInv(q', q'.points[id].index, n);
    }
  }

  lemma ChainShapeAfterRelink(q: Queue, q': Queue, id: nat, l: nat, r: nat, n: nat)
    requires ChainShape(q, n) && WF(q) && |q'.points| == n && l < id < r < n
    requires q.points[id].left == Some(l) && q.points[id].right == Some(r)
    requires q'.points[id] == q.points[id].(currentArea := Finite(TriangleArea(q.points[l], q.points[id], q.points[r])))
    requires q'.points[l] == q.points[l].(right := Some(r))
    requires q'.points[r] == q.points[r].(left := Some(l))
    requires forall x :: 0 <= x < n && x != id && x != l && x != r ==> q'.points[x] == q.points[x]
    ensures ChainShape(q', n)
  {
    assert 0 < id < n - 1;
  }

  /** With more than two vertices queued, `heap.Pop` returns an interior vertex. */
  lemma PoppedIsInterior(q: Queue, n: nat)
    requires ElimInv(q, n) && |q.slots| > 2
    ensures 0 < q.slots[0] < n - 1
  {
    SlotsDistinct(q, 0, 1);
    SlotsDistinct(q, 0, 2);
    SlotsDistinct(q, 1, 2);
    var k: nat := if q.slots[0] != 0 && q.slots[0] != n - 1 then 0
                  else if q.slots[1] != 0 && q.slots[1] != n - 1 then 1
                  else 2;
    var s := q.slots[k];
    assert 0 < s < n - 1;
    assert Keys(q)[k].Finite?;
    RootIsMin(Keys(q), k);
    assert Keys(q)[0].Finite?;
  }

  /** `heap.Pop` in the elimination loop: an interior vertex leaves the queue, the invariant stays. */
  lemma PopStepInv(q: Queue, n: nat)
    requires ElimInv(q, n) && |q.slots| > 2
    ensures var (q1, id) := PopMin(q);
      id == q.slots[0] && 0 < id < n - 1 && q1.points[id].id == id &&
      ElimInv(q1, n) && |q1.slots| == |q.slots| - 1 &&
      (forall x :: x in q1.slots <==> x in q.slots && x != id)
  {
    PoppedIsInterior(q, n);
    PopMinFrame(q);
    PopMinIsMin(q);
    var (q1, id) := PopMin(q);
    StaleIndexNotQueued(q1, id);
    ChainShapeIgnoresIndex(q, q1, n);
    forall x ensures x in q1.slots <==> x in q.slots && x != id {
      assert x in q.slots <==> x in multiset(q.slots);
      assert x in q1.slots <==> x in multiset(q1.slots);
    }
  }

  /** The two `update` calls after a pop keep the invariant and the queued vertices. */
  lemma UpdatesStepInv(q1: Queue, id: nat, n: nat)
    requires ElimInv(q1, n) && 0 < id < n - 1
    ensures var q2 := UpdateLink(q1, q1.points[id].left);
      var q3 := UpdateLink(q2, q2.points[id].right);
      ElimInv(q3, n) && |q3.slots| == |q1.slots| && (forall x :: x in q3.slots <==> x in q1.slots)
  {
    var l := q1.points[id].left.value;
    UpdateKeepsInv(q1, l, n);
    var q2 := Update(q1, l);
    var rt := q2.points[id].right.value;
    UpdateKeepsInv(q2, rt, n);
    var q3 := Update(q2, rt);
    forall x ensures x in q3.slots <==> x in q1.slots {
      assert x in q3.slots <==> x in multiset(q3.slots);
      assert x in q1.slots <==> x in multiset(q1.slots);
      assert x in q2.slots <==> x in multiset(q2.slots);
    }
  }

  /** One pass of the elimination loop body, for the queue alone. */
  lemma EliminateStepInv(q: Queue, n: nat)
    requires ElimInv(q, n) && |q.slots| > 2
    ensures var (q1, id) := PopMin(q);
      var q2 := UpdateLink(q1, q1.points[id].left);
      var q3 := UpdateLink(q2, q2.points[id].right);
      id == q.slots[0] && 0 < id < n - 1 && q1.points[id].id == id &&
      ElimInv(q3, n) && |q3.slots| == |q.slots| - 1 &&
      (forall x :: x in q3.slots <==> x in q.slots && x != id)
  {
    PopStepInv(q, n);
    var (q1, id) := PopMin(q);
    UpdatesStepInv(q1, id, n);
  }

  lemma ScoreInjective(a: nat, b: nat, count: nat)
    requires count > 0 && Score(a, count) == Score(b, count)
    ensures a == b
  {
    assert Score(a, count) * count as real == a as real;
    assert Score(b, count) * count as real == b as real;
  }

  /** The first vertex popped, with all `count` queued, scores 1. */
  lemma ScoreOfFullQueue(count: nat)
    requires count > 0
    ensures Score(count, count) == 1.0
  {
  }

  /** Vertex id scores c / count for some c above `dropped`. */
  ghost predicate ScoredAbove(order: seq<real>, id: nat, dropped: nat, count: nat)
    requires count > 0 && id < |order|
  {
    exists c: nat :: dropped < c <= count && order[id] == Score(c, count)
  }

  /** Some vertex no longer queued scores c / count. */
  ghost predicate ScoreGiven(q: Queue, order: seq<real>, c: nat, count: nat)
    requires count > 0 && |order| == count
  {
    exists id :: 0 <= id < count && id !in q.slots && order[id] == Score(c, count)
  }

  /**
   * The scores written so far: queued vertices still score 0; every popped
   * vertex is interior and scores c / count for a distinct c above `dropped`;
   * and each such c has been given out.
   */
  ghost predicate OrderInv(q: Queue, order: seq<real>, dropped: nat, count: nat) {
    count > 0 && |order| == count &&
    (forall id :: 0 <= id < count && id in q.slots ==> order[id] == 0.0) &&
    (forall id :: 0 <= id < count && id !in q.slots ==>
      0 < id < count - 1 && ScoredAbove(order, id, dropped, count)) &&
    (forall c: nat :: dropped < c <= count ==> ScoreGiven(q, order, c, count)) &&
    (forall i, j :: 0 <= i < count && 0 <= j < count && i != j && i !in q.slots && j !in q.slots ==>
      order[i] != order[j])
  }

  /** Scoring the popped vertex keeps the score invariant, one step lower. */
  lemma EliminateStepOrder(q: Queue, q3: Queue, order: seq<real>, id: nat, dropped: nat, count: nat)
    requires OrderInv(q, order, dropped, count) && 0 < dropped <= count
    requires id in q.slots && 0 < id < count - 1
    requires forall x :: x in q3.slots <==> x in q.slots && x != id
    ensures OrderInv(q3, order[id := Score(dropped, count)], dropped - 1, count)
  {
    var o := order[id := Score(dropped, count)];
    forall x | 0 <= x < count && x !in q3.slots
      ensures 0 < x < count - 1 && ScoredAbove(o, x, dropped - 1, count)
    {
      if x == id {
        assert dropped - 1 < dropped <= count && o[x] == Score(dropped, count);
      } else {
        assert ScoredAbove(order, x, dropped, count);
        var c: nat :| dropped < c <= count && order[x] == Score(c, count);
        assert dropped - 1 < c <= count && o[x] == Score(c, count);
      }
    }
    forall c: nat | dropped - 1 < c <= count
      ensures ScoreGiven(q3, o, c, count)
    {
      if c == dropped {
        assert o[id] == Score(c, count);
      } else {
        assert ScoreGiven(q, order, c, count);
        var x :| 0 <= x < count && x !in q.slots && order[x] == Score(c, count);
        assert o[x] == Score(c, count);
      }
    }
    forall i, j | 0 <= i < count && 0 <= j < count && i != j && i !in q3.slots && j !in q3.slots
      ensures o[i] != o[j]
    {
      if i == id || j == id {
        var x := if i == id then j else i;
        assert ScoredAbove(order, x, dropped, count);
        var c: nat :| dropped < c <= count && order[x] == Score(c, count);
        if o[i] == o[j] {
          ScoreInjective(c, dropped, count);
        }
      }
    }
  }

  /**
   * The elimination loop from `dropped` queued vertices ends with two queued
   * vertices (or as many as it started with, if no more than two) and the
   * score invariant at that count.
   */
  lemma {:induction false} EliminateCorrect(q: Queue, order: seq<real>, dropped: nat, count: nat)
    requires ElimInv(q, count) && |q.slots| == dropped <= count && OrderInv(q, order, dropped, count)
    ensures var (r, o) := Eliminate(q, order, dropped, count);
      var left := if dropped <= 2 then dropped else 2;
      ElimInv(r, count) && |r.slots| == left && OrderInv(r, o, left, count)
    decreases dropped
  {
    if dropped > 2 {
      EliminateStepInv(q, count);
      var (q1, id) := PopMin(q);
      var q2 := UpdateLink(q1, q1.points[id].left);
      var q3 := UpdateLink(q2, q2.points[id].right);
      EliminateStepOrder(q, q3, order, id, dropped, count);
      EliminateCorrect(q3, order[id := Score(dropped, count)], dropped - 1, count);
    }
  }

  /** The vertex a round pops is interior, and the score it gets there is its final score. */
  lemma PoppedScoreFinal(q: Queue, order: seq<real>, dropped: nat, count: nat)
    requires ElimInv(q, count) && |q.slots| == dropped <= count && dropped > 2 && |order| == count
    ensures var id := PopMin(q).1;
      0 < id < count - 1 && Eliminate(q, order, dropped, count).1[id] == Score(dropped, count)
  {
    EliminateStepInv(q, count);
    EliminateUnfold(q, order, dropped, count);
    var (q1, id) := PopMin(q);
    var q2 := UpdateLink(q1, q1.points[id].left);
    var q3 := UpdateLink(q2, q2.points[id].right);
    EliminateKeepsScores(q3, order[id := Score(dropped, count)], dropped - 1, count);
    assert id !in q3.slots;
  }

  /** One round of the elimination loop, unfolded. */
  lemma EliminateUnfold(q: Queue, order: seq<real>, dropped: nat, count: nat)
    requires WF(q) && |order| == |q.points| && |q.slots| == dropped <= count && dropped > 2
    ensures var (q1, id) := PopMin(q);
      var q2 := UpdateLink(q1, q1.points[id].left);
      var q3 := UpdateLink(q2, q2.points[id].right);
      Eliminate(q, order, dropped, count) ==
        Eliminate(q3, order[q1.points[id].id := Score(dropped, count)], dropped - 1, count)
  {
  }

  /**
   * A score, once written, is final: the elimination loop writes only the
   * entries of vertices it pops, and a vertex no longer queued is never
   * popped again.
   */
  lemma {:induction false} EliminateKeepsScores(q: Queue, order: seq<real>, dropped: nat, count: nat)
    requires ElimInv(q, count) && |q.slots| == dropped <= count && |order| == count
    ensures forall x :: 0 <= x < count && x !in q.slots ==> Eliminate(q, order, dropped, count).1[x] == order[x]
    decreases dropped
  {
    if dropped > 2 {
      EliminateStepInv(q, count);
      var (q1, id) := PopMin(q);
      var q2 := UpdateLink(q1, q1.points[id].left);
      var q3 := UpdateLink(q2, q2.points[id].right);
      var order1 := order[id := Score(dropped, count)];
      assert Eliminate(q, order, dropped, count) == Eliminate(q3, order1, dropped - 1, count);
      EliminateKeepsScores(q3, order1, dropped - 1, count);
    }
  }
}
