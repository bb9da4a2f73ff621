/**
 * What the heap operations of QueueSpec guarantee: they only move vertices
 * between slots (the slot map stays exact), `heap.Fix` restores heap order
 * after one area changes, and `heap.Pop` returns a vertex of smallest area.
 */
module QueueHeap {
  import opened Points
  import opened HeapOrder
  import opened QueueSpec

  lemma SameButIndexTrans(a: Queue, b: Queue, c: Queue)
    requires SameButIndex(a, b) && SameButIndex(b, c)
    ensures SameButIndex(a, c)
  {
  }

  /** `Less` compares only slots inside the queue, and never a slot with itself. */
  lemma LessIsStrict(q: Queue, i: nat, j: nat)
    requires WF(q)
    ensures Less(q, i, j) <==> i < Len(q) && j < Len(q) && Lt(Key(q, i), Key(q, j))
    ensures !Less(q, i, i)
    ensures Less(q, i, j) ==> !Less(q, j, i)
  {
  }

  /** `Swap` exchanges the two slots, keeps the slot map exact and changes nothing else. */
  lemma SwapFrame(q: Queue, i: nat, j: nat)
    requires WF(q) && i < |q.slots| && j < |q.slots|
    ensures var r := Swap(q, i, j);
      SameButIndex(q, r) && multiset(r.slots) == multiset(q.slots) &&
      (IndexMap(q) ==> IndexMap(r))
  {
    SwapMoves(q, i, j);
    if IndexMap(q) {
      SwapIndexMap(q, i, j);
    }
  }

  lemma SwapMoves(q: Queue, i: nat, j: nat)
    requires WF(q) && i < |q.slots| && j < |q.slots|
    ensures var r := Swap(q, i, j);
      SameButIndex(q, r) && multiset(r.slots) == multiset(q.slots)
  {
  }

  lemma SwapIndexMap(q: Queue, i: nat, j: nat)
    requires WF(q) && IndexMap(q) && i < |q.slots| && j < |q.slots|
    ensures IndexMap(Swap(q, i, j))
  {
    var r := Swap(q, i, j);
    var a, b := q.slots[i], q.slots[j];
    forall k | 0 <= k < |r.slots| ensures r.slots[k] < |r.points| && r.points[r.slots[k]].index == k {
      if k != i && k != j {
        assert r.slots[k] == q.slots[k];
        assert q.slots[k] != a && q.slots[k] != b;
      }
    }
    forall id | 0 <= id < |r.points| && r.points[id].index < |r.slots|
      ensures r.slots[r.points[id].index] == id
    {
      if id != a && id != b {
        var x := q.points[id].index;
        assert r.points[id].index == x;
        assert x != i && x != j;
      }
    }
  }

  /** The keys after `Swap` are the keys before with slots i and j exchanged. */
  lemma SwapKeys(q: Queue, i: nat, j: nat)
    requires WF(q) && i < |q.slots| && j < |q.slots|
    ensures Keys(Swap(q, i, j)) == Keys(q)[i := Keys(q)[j]][j := Keys(q)[i]]
  {
    SwapFrame(q, i, j);
  }

  /** Sift-down moves vertices only within the first n slots and changes only their `index`. */
  lemma {:induction false} DownFrame(q: Queue, i: nat, n: nat)
    requires WF(q) && n <= |q.slots|
    ensures var r := Down(q, i, n).0;
      SameButIndex(q, r) && multiset(r.slots) == multiset(q.slots) &&
      (forall k :: n <= k < |q.slots| ==> r.slots[k] == q.slots[k]) &&
      (IndexMap(q) ==> IndexMap(r))
    decreases n - i
  {
    DownMoves(q, i, n);
    if IndexMap(q) {
      DownIndexMap(q, i, n);
    }
  }

  lemma {:induction false} DownMoves(q: Queue, i: nat, n: nat)
    requires WF(q) && n <= |q.slots|
    ensures var r := Down(q, i, n).0;
      SameButIndex(q, r) && multiset(r.slots) == multiset(q.slots) &&
      (forall k :: n <= k < |q.slots| ==> r.slots[k] == q.slots[k])
    decreases n - i
  {
    var j1 := 2 * i + 1;
    if j1 < n {
      var j := SmallerChild(q, i, n);
      if Less(q, j, i) {
        var q' := Swap(q, i, j);
        assert Down(q, i, n) == Down(q', j, n);
        SwapMoves(q, i, j);
        DownMoves(q', j, n);
        SameButIndexTrans(q, q', Down(q', j, n).0);
      }
    }
  }

  lemma {:induction false} DownIndexMap(q: Queue, i: nat, n: nat)
    requires WF(q) && n <= |q.slots| && IndexMap(q)
    ensures IndexMap(Down(q, i, n).0)
    decreases n - i
  {
    var j1 := 2 * i + 1;
    if j1 < n {
      var j := SmallerChild(q, i, n);
      if Less(q, j, i) {
        var q' := Swap(q, i, j);
        assert Down(q, i, n) == Down(q', j, n);
        SwapIndexMap(q, i, j);
        DownIndexMap(q', j, n);
      }
    }
  }

  /** Sift-up moves vertices only within the first j + 1 slots and changes only their `index`. */
  lemma UpFrame(q: Queue, j: nat)
    requires WF(q)
    ensures var r := Up(q, j);
      SameButIndex(q, r) && multiset(r.slots) == multiset(q.slots) &&
      (forall k :: j < k < |q.slots| ==> r.slots[k] == q.slots[k]) &&
      (IndexMap(q) ==> IndexMap(r))
  {
    UpMoves(q, j);
    if IndexMap(q) {
      UpIndexMap(q, j);
    }
  }

  lemma {:induction false} UpMoves(q: Queue, j: nat)
    requires WF(q)
    ensures var r := Up(q, j);
      SameButIndex(q, r) && multiset(r.slots) == multiset(q.slots) &&
      (forall k :: j < k < |q.slots| ==> r.slots[k] == q.slots[k])
    decreases j
  {
    if j > 0 {
      var i := (j - 1) / 2;
      if Less(q, j, i) {
        var q' := Swap(q, i, j);
        assert Up(q, j) == Up(q', i);
        SwapMoves(q, i, j);
        UpMoves(q', i);
        SameButIndexTrans(q, q', Up(q', i));
      }
    }
  }

  lemma {:induction false} UpIndexMap(q: Queue, j: nat)
    requires WF(q) && IndexMap(q)
    ensures IndexMap(Up(q, j))
    decreases j
  {
    if j > 0 {
      var i := (j - 1) / 2;
      if Less(q, j, i) {
        var q' := Swap(q, i, j);
        assert Up(q, j) == Up(q', i);
        SwapIndexMap(q, i, j);
        UpIndexMap(q', i);
      }
    }
  }

  /** `heap.Fix` keeps the vertices, their fields other than `index`, and the slot map. */
  lemma FixFrame(q: Queue, i: nat)
    requires WF(q)
    ensures var r := Fix(q, i);
      SameButIndex(q, r) && multiset(r.slots) == multiset(q.slots) && (IndexMap(q) ==> IndexMap(r))
  {
    DownFrame(q, i, |q.slots|);
    var (q1, i1) := Down(q, i, |q.slots|);
    if i1 <= i {
      UpFrame(q1, i);
    }
  }

  /**
   * `heap.Pop` removes exactly the root's vertex; the slot map stays exact and
   * the removed vertex keeps a stale index equal to the new length.
   */
  lemma PopMinFrame(q: Queue)
    requires WF(q) && |q.slots| > 0
    ensures var (r, id) := PopMin(q);
      id == q.slots[0] && SameButIndex(q, r) &&
      multiset(r.slots) + multiset{id} == multiset(q.slots) &&
      (IndexMap(q) ==> IndexMap(r) && r.points[id].index == |r.slots|)
  {
    var n := |q.slots| - 1;
    var q1 := Swap(q, 0, n);
    var q2 := Down(q1, 0, n).0;
    assert PopMin(q) == PopLast(q2);
    PopMinSlots(q);
    if IndexMap(q) {
      TruncateIndexMap(q2, n);
    }
  }

  /** The queue before the final `Pop` of `heap.Pop`: the old root sits in the last slot. */
  lemma PopMinSlots(q: Queue)
    requires WF(q) && |q.slots| > 0
    ensures var n := |q.slots| - 1; var q2 := Down(Swap(q, 0, n), 0, n).0;
      q2.slots[n] == q.slots[0] && SameButIndex(q, q2) &&
      multiset(q2.slots[..n]) + multiset{q.slots[0]} == multiset(q.slots) &&
      (IndexMap(q) ==> IndexMap(q2))
  {
    var n := |q.slots| - 1;
    var q1 := Swap(q, 0, n);
    SwapFrame(q, 0, n);
    DownFrame(q1, 0, n);
    var q2 := Down(q1, 0, n).0;
    SameButIndexTrans(q, q1, q2);
    assert q1.slots[n] == q.slots[0];
    assert q2.slots[n] == q1.slots[n];
    MultisetLast(q2.slots);
  }

  lemma MultisetLast(s: seq<nat>)
    requires |s| > 0
    ensures multiset(s) == multiset(s[..|s| - 1]) + multiset{s[|s| - 1]}
  {
    assert s == s[..|s| - 1] + [s[|s| - 1]];
  }

  /** Dropping the last slot of a queue with an exact slot map leaves it exact. */
  lemma TruncateIndexMap(q: Queue, n: nat)
    requires WF(q) && IndexMap(q) && n + 1 == |q.slots|
    ensures IndexMap(Queue(q.points, q.slots[..n]))
    ensures q.points[q.slots[n]].index == n
  {
    var r := Queue(q.points, q.slots[..n]);
    forall k | 0 <= k < |r.slots| ensures r.slots[k] < |r.points| && r.points[r.slots[k]].index == k {
      assert r.slots[k] == q.slots[k];
    }
    forall x | 0 <= x < |r.points| && r.points[x].index < |r.slots|
      ensures r.slots[r.points[x].index] == x
    {
      assert q.slots[q.points[x].index] == x;
    }
  }

  /** `Pop` undoes `Push`: it returns the pushed vertex and restores the slots. */
  lemma PushThenPop(q: Queue, id: nat)
    requires WF(q) && id < |q.points|
    ensures var (r, popped) := PopLast(Push(q, id));
      popped == id && r.slots == q.slots &&
      r.points == q.points[id := q.points[id].(index := |q.slots|)]
  {
    var p := Push(q, id);
    assert p.slots[..|p.slots| - 1] == q.slots;
  }

  lemma KeysPrefix(q: Queue, n: nat)
    requires WF(q) && n <= |q.slots|
    ensures WF(Queue(q.points, q.slots[..n]))
    ensures Keys(Queue(q.points, q.slots[..n])) == Keys(q)[..n]
  {
  }

  /** The keys of the first n slots after a `Swap` inside them. */
  lemma SwapKeysPrefix(q: Queue, i: nat, j: nat, n: nat)
    requires WF(q) && i < n && j < n && n <= |q.slots|
    ensures Keys(Swap(q, i, j))[..n] == Keys(q)[..n][i := Keys(q)[..n][j]][j := Keys(q)[..n][i]]
  {
    SwapKeys(q, i, j);
  }

  /** The child sift-down picks within the first n slots is a smallest child of i. */
  lemma SmallerChildIsMin(q: Queue, i: nat, n: nat)
    requires WF(q) && n <= |q.slots| && 2 * i + 1 < n
    ensures var j := SmallerChild(q, i, n);
      var keys := Keys(q)[..n];
      0 < j < n && Parent(j) == i &&
      (forall c :: 0 < c < n && Parent(c) == i ==> Le(keys[j], keys[c])) &&
      (Less(q, j, i) <==> Lt(keys[j], keys[i]))
  {
    var keys := Keys(q)[..n];
    var j1 := 2 * i + 1;
    assert forall c :: 0 < c < n && Parent(c) == i ==> c == j1 || c == j1 + 1;
  }

  /**
   * Sift-down from slot i within the first n slots: if it moved the vertex,
   * those slots are heap ordered; if not, slot i is below its children.
   */
  lemma {:induction false} DownRestores(q: Queue, i: nat, n: nat)
    requires WF(q) && n <= |q.slots| && AlmostHeap(Keys(q)[..n], i)
    ensures var (r, c) := Down(q, i, n);
      (c == i ==> ChildrenOk(Keys(q)[..n], i)) && (c > i ==> IsHeap(Keys(r)[..n]))
    decreases n - i
  {
    var keys := Keys(q)[..n];
    var j1 := 2 * i + 1;
    if j1 < n {
      var j := SmallerChild(q, i, n);
      SmallerChildIsMin(q, i, n);
      if !Less(q, j, i) {
        DownStop(keys, i, j);
      } else {
        var q' := Swap(q, i, j);
        assert Down(q, i, n) == Down(q', j, n);
        SwapKeysPrefix(q, i, j, n);
        DownStep(keys, i, j);
        DownRestores(q', j, n);
        if Down(q', j, n).1 == j {
          AlmostHeapComplete(Keys(q')[..n], j);
        }
      }
    } else {
      assert forall c :: 0 < c < n ==> Parent(c) != i;
    }
  }

  /** Sift-up from a slot whose children are in order restores heap order. */
  lemma {:induction false} UpRestores(q: Queue, j: nat)
    requires WF(q) && AlmostHeap(Keys(q), j) && ChildrenOk(Keys(q), j)
    ensures IsHeap(Keys(Up(q, j)))
    decreases j
  {
    var keys := Keys(q);
    if j >= |keys| {
      AlmostHeapPastEnd(keys, j);
    } else if j == 0 {
      AlmostHeapComplete(keys, j);
    } else {
      var i := (j - 1) / 2;
      if !Less(q, j, i) {
        AlmostHeapComplete(keys, j);
      } else {
        SwapKeys(q, i, j);
        UpStep(keys, j);
        UpRestores(Swap(q, i, j), i);
      }
    }
  }

  /** `heap.Fix(h, i)` turns a heap broken only at slot i into a heap. */
  lemma FixRestores(q: Queue, i: nat)
    requires WF(q) && AlmostHeap(Keys(q), i)
    ensures IsHeap(Keys(Fix(q, i)))
  {
    assert Keys(q)[..|q.slots|] == Keys(q);
    DownRestores(q, i, |q.slots|);
    var (q1, i1) := Down(q, i, |q.slots|);
    if i1 > i {
      assert Keys(q1)[..|q.slots|] == Keys(q1);
    } else {
      UpRestores(q1, i);
    }
  }

  /** `heap.Fix` on a slot past the end, such as a popped vertex's stale index, does nothing. */
  lemma FixPastEndIsNoop(q: Queue, i: nat)
    requires WF(q) && i >= |q.slots|
    ensures Fix(q, i) == q
  {
  }

  /** After `Swap(0, n)` on a heap, the first n slots are a heap broken only at the root. */
  lemma SwapRootAlmostHeap(q: Queue, n: nat)
    requires WF(q) && IsHeap(Keys(q)) && n + 1 == |q.slots|
    ensures AlmostHeap(Keys(Swap(q, 0, n))[..n], 0)
  {
    var keys := Keys(q);
    if n > 0 {
      SwapKeysPrefix(q, 0, n, n + 1);
      HeapPrefix(keys, n);
      assert Keys(Swap(q, 0, n))[..n] == keys[..n][0 := keys[n]];
      ChangeKey(keys[..n], 0, keys[n]);
    }
  }

  /** `heap.Pop` on a heap leaves a heap. */
  lemma PopMinKeepsHeap(q: Queue)
    requires WF(q) && |q.slots| > 0 && IsHeap(Keys(q))
    ensures IsHeap(Keys(PopMin(q).0))
  {
    var n := |q.slots| - 1;
    var q1 := Swap(q, 0, n);
    SwapRootAlmostHeap(q, n);
    DownRestores(q1, 0, n);
    var (q2, c) := Down(q1, 0, n);
    if c == 0 {
      AlmostHeapComplete(Keys(q1)[..n], 0);
    }
    KeysPrefix(q2, n);
    assert PopMin(q).0 == Queue(q2.points, q2.slots[..n]);
  }

  /**
   * `heap.Pop` on a heap returns a vertex whose area is no larger than any
   * queued area, and leaves a heap.
   */
  lemma PopMinIsMin(q: Queue)
    requires WF(q) && |q.slots| > 0 && IsHeap(Keys(q))
    ensures var (r, id) := PopMin(q);
      IsHeap(Keys(r)) && id == q.slots[0] &&
      forall k :: 0 <= k < |q.slots| ==> Le(q.points[id].currentArea, Keys(q)[k])
  {
    var keys := Keys(q);
    forall k | 0 <= k < |q.slots| ensures Le(keys[0], keys[k]) {
      RootIsMin(keys, k);
    }
    PopMinKeepsHeap(q);
    PopMinFrame(q);
  }
}
