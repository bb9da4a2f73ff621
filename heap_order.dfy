/**
 * Binary min-heap order over the keys of a priority queue, slot by slot.
 * Slot k > 0 has parent (k - 1) / 2, as in Go's container/heap.
 *
 * These are the facts behind `heap.Fix` and `heap.Pop`: after one key
 * changes, the order is broken only around that slot (`AlmostHeap`), and
 * one swap of sift-down or sift-up moves the break one level.
 */
module HeapOrder {
  import opened Points

  function Parent(k: nat): nat
    requires k > 0
  {
    (k - 1) / 2
  }

  /** Every slot's key is at least its parent's. */
  ghost predicate IsHeap(keys: seq<Area>) {
    forall k :: 0 < k < |keys| ==> Le(keys[Parent(k)], keys[k])
  }

  /**
   * Heap order holds on every edge that does not touch slot i, and i's parent
   * is no larger than i's children.
   */
  ghost predicate AlmostHeap(keys: seq<Area>, i: nat) {
    (forall k :: 0 < k < |keys| && k != i && Parent(k) != i ==> Le(keys[Parent(k)], keys[k])) &&
    (0 < i < |keys| ==> forall k :: 0 < k < |keys| && Parent(k) == i ==> Le(keys[Parent(i)], keys[k]))
  }

  /** Slot i's key is at most each of its children's keys. */
  ghost predicate ChildrenOk(keys: seq<Area>, i: nat) {
    forall k :: 0 < k < |keys| && Parent(k) == i ==> Le(keys[i], keys[k])
  }

  /** The edge from slot i to its parent is in order. */
  ghost predicate EdgeOk(keys: seq<Area>, i: nat) {
    0 < i < |keys| ==> Le(keys[Parent(i)], keys[i])
  }

  lemma LeTransitive(a: Area, b: Area, c: Area)
    requires Le(a, b) && Le(b, c)
    ensures Le(a, c)
  {
  }

  /** A heap is almost a heap at any slot, also at a slot past its end. */
  lemma HeapIsAlmostHeap(keys: seq<Area>, i: nat)
    requires IsHeap(keys)
    ensures AlmostHeap(keys, i)
  {
    if 0 < i < |keys| {
      forall k | 0 < k < |keys| && Parent(k) == i
        ensures Le(keys[Parent(i)], keys[k])
      {
        LeTransitive(keys[Parent(i)], keys[i], keys[k]);
      }
    }
  }

  /** A slot past the end breaks nothing: there, almost a heap is a heap. */
  lemma AlmostHeapPastEnd(keys: seq<Area>, i: nat)
    requires i >= |keys| && AlmostHeap(keys, i)
    ensures IsHeap(keys)
  {
  }

  /** Changing one key of a heap leaves a heap broken only at that slot. */
  lemma ChangeKey(keys: seq<Area>, i: nat, v: Area)
    requires IsHeap(keys) && i < |keys|
    ensures AlmostHeap(keys[i := v], i)
  {
    HeapIsAlmostHeap(keys, i);
  }

  /** Almost a heap at i, with both of i's edges in order, is a heap. */
  lemma AlmostHeapComplete(keys: seq<Area>, i: nat)
    requires AlmostHeap(keys, i) && EdgeOk(keys, i) && ChildrenOk(keys, i)
    ensures IsHeap(keys)
  {
  }

  /** A prefix of a heap is a heap. */
  lemma HeapPrefix(keys: seq<Area>, n: nat)
    requires IsHeap(keys) && n <= |keys|
    ensures IsHeap(keys[..n])
  {
    forall k | 0 < k < n ensures Le(keys[..n][Parent(k)], keys[..n][k]) {
      assert keys[..n][k] == keys[k] && keys[..n][Parent(k)] == keys[Parent(k)];
    }
  }

  /** The root of a heap holds a smallest key. */
  lemma {:induction false} RootIsMin(keys: seq<Area>, k: nat)
    requires IsHeap(keys) && k < |keys|
    ensures Le(keys[0], keys[k])
    decreases k
  {
    if k > 0 {
      RootIsMin(keys, Parent(k));
      LeTransitive(keys[0], keys[Parent(k)], keys[k]);
    }
  }

  /**
   * One step of sift-down: swapping slot i with its smaller child j, whose key
   * is below i's, moves the break to j and leaves the edge into j in order.
   */
  lemma DownStep(keys: seq<Area>, i: nat, j: nat)
    requires AlmostHeap(keys, i) && j < |keys| && j > 0 && Parent(j) == i
    requires forall c :: 0 < c < |keys| && Parent(c) == i ==> Le(keys[j], keys[c])
    requires Lt(keys[j], keys[i])
    ensures AlmostHeap(keys[i := keys[j]][j := keys[i]], j)
    ensures EdgeOk(keys[i := keys[j]][j := keys[i]], j)
  {
    var s := keys[i := keys[j]][j := keys[i]];
    assert s[i] == keys[j] && s[j] == keys[i];
    forall k | 0 < k < |s| && k != j && Parent(k) != j
      ensures Le(s[Parent(k)], s[k])
    {
      if k == i {
        assert Le(keys[Parent(i)], keys[j]);
      } else if Parent(k) == i {
        assert Le(keys[j], keys[k]);
      } else {
        assert s[k] == keys[k] && s[Parent(k)] == keys[Parent(k)];
      }
    }
    forall k | 0 < k < |s| && Parent(k) == j
      ensures Le(s[Parent(j)], s[k])
    {
      assert k != i && k != j;
      assert Le(keys[j], keys[k]);
    }
  }

  /** Sift-down stops when the smaller child is not below slot i. */
  lemma DownStop(keys: seq<Area>, i: nat, j: nat)
    requires j < |keys| && j > 0 && Parent(j) == i
    requires forall c :: 0 < c < |keys| && Parent(c) == i ==> Le(keys[j], keys[c])
    requires !Lt(keys[j], keys[i])
    ensures ChildrenOk(keys, i)
  {
    forall k | 0 < k < |keys| && Parent(k) == i ensures Le(keys[i], keys[k]) {
      LeTransitive(keys[i], keys[j], keys[k]);
    }
  }

  /**
   * One step of sift-up: swapping slot j with its parent p, whose key is above
   * j's, moves the break to p and keeps p's children in order.
   */
  lemma UpStep(keys: seq<Area>, j: nat)
    requires AlmostHeap(keys, j) && ChildrenOk(keys, j) && 0 < j < |keys|
    requires Lt(keys[j], keys[Parent(j)])
    ensures AlmostHeap(keys[Parent(j) := keys[j]][j := keys[Parent(j)]], Parent(j))
    ensures ChildrenOk(keys[Parent(j) := keys[j]][j := keys[Parent(j)]], Parent(j))
  {
    var p := Parent(j);
    var s := keys[p := keys[j]][j := keys[p]];
    assert s[p] == keys[j] && s[j] == keys[p];
    forall k | 0 < k < |s| && Parent(k) == p
      ensures Le(s[p], s[k])
    {
      if k != j {
        LeTransitive(keys[j], keys[p], keys[k]);
      }
    }
    forall k | 0 < k < |s| && k != p && Parent(k) != p
      ensures Le(s[Parent(k)], s[k])
    {
      if Parent(k) == j {
        assert Le(keys[p], keys[k]);
      } else {
        assert k != j;
        assert s[k] == keys[k] && s[Parent(k)] == keys[Parent(k)];
      }
    }
    if 0 < p {
      forall k | 0 < k < |s| && Parent(k) == p
        ensures Le(s[Parent(p)], s[k])
      {
        assert Le(keys[Parent(p)], keys[p]);
        if k != j {
          LeTransitive(keys[Parent(p)], keys[p], keys[k]);
        }
      }
    }
  }
}
