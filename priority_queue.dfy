/** The task-scheduling priority queue of priorityQ.py: a binary min-heap of tasks kept in a
    list, ordered by priority alone. The heap repairs are stated as functions on sequences
    (SiftUp, SiftDown), their properties are lemmas, and the class PriorityQueue performs
    the same steps in place on its list and is proved equal to those functions. */
module PriorityQ {
  import opened ImplicitTree

  /** A schedulable unit of work; arrival and deadline are carried but never compared. */
  datatype Task = Task(id: int, priority: int, arrival: int, deadline: int)
  {
    /** Task.__lt__: a task precedes another exactly when its priority value is smaller. */
    predicate Less(other: Task)
      ensures Less(other) ==> this != other
    {
      priority < other.priority
    }
  }

  /** __lt__ is a strict order that looks at priorities only: tasks of equal priority precede
      each other in neither direction, whatever their ids, arrivals and deadlines. */
  lemma LessOrdersByPriority(a: Task, b: Task, c: Task)
    ensures !a.Less(a)
    ensures a.Less(b) ==> !b.Less(a)
    ensures a.Less(b) && b.Less(c) ==> a.Less(c)
    ensures a.priority == b.priority ==> !a.Less(b) && !b.Less(a)
    ensures a.priority == b.priority ==> (a.Less(c) <==> b.Less(c)) && (c.Less(a) <==> c.Less(b))
    ensures a.Less(b) || b.Less(a) || a.priority == b.priority
  {
  }

  /** What extract_min hands back: None for an empty queue, the minimum task, or the
      IndexError raised on a one-element queue (see ExtractMinAsWritten). */
  datatype ExtractResult = NoTask | Min(task: Task) | IndexError

  /** Min-heap order: no node has a smaller priority than its parent. */
  ghost predicate IsMinHeap(h: seq<Task>)
  {
    forall k :: 0 < k < |h| ==> h[Parent(k)].priority <= h[k].priority
  }

  /** Min-heap order for every parent-child pair whose parent lies in the subtree of r,
      except the pairs whose parent is `skip` (pass -1 to skip nothing). */
  ghost predicate SubtreeOrderedExcept(h: seq<Task>, r: nat, skip: int)
  {
    forall k :: 0 < k < |h| && InSubtree(r, Parent(k)) && Parent(k) != skip ==>
      h[Parent(k)].priority <= h[k].priority
  }

  /** The state _heapify_up repairs: min-heap order everywhere except between `hole` and its
      parent, and the parent of `hole` is no larger than the children of `hole`. */
  ghost predicate HeapExceptUp(h: seq<Task>, hole: nat)
    requires hole < |h|
  {
    && (forall k :: 0 < k < |h| && k != hole ==> h[Parent(k)].priority <= h[k].priority)
    && (hole > 0 ==> forall k :: 0 < k < |h| && Parent(k) == hole ==>
                       h[Parent(hole)].priority <= h[k].priority)
  }

  /** The task at position i with its priority replaced (the key-adjustment assignment). */
  function WithPriority(h: seq<Task>, i: nat, p: int): (r: seq<Task>)
    requires i < |h|
    ensures |r| == |h|
    ensures r[i].id == h[i].id && r[i].arrival == h[i].arrival && r[i].deadline == h[i].deadline
    ensures r[i].priority == p
    ensures forall k :: 0 <= k < |h| && k != i ==> r[k] == h[k]
    ensures multiset(r) == multiset(h) - multiset{h[i]} + multiset{h[i].(priority := p)}
  {
    var r := h[i := h[i].(priority := p)];
    assert h == h[..i] + [h[i]] + h[i + 1..];
    assert r == h[..i] + [r[i]] + h[i + 1..];
    r
  }

  // ---------------------------------------------------------------------------------------
  // _heapify_up

  /** _heapify_up: swap the task at i with its parent while it is strictly smaller. */
  function SiftUp(h: seq<Task>, i: nat): (r: seq<Task>)
    requires i < |h|
    ensures |r| == |h|
    decreases i
  {
    if i > 0 && h[i].Less(h[Parent(i)]) then SiftUp(Swap(h, i, Parent(i)), Parent(i)) else h
  }

  /** Sift-up only permutes, and only the tasks on the path from i up to the root move. */
  lemma {:induction false} SiftUpPermutes(h: seq<Task>, i: nat)
    requires i < |h|
    ensures multiset(SiftUp(h, i)) == multiset(h)
    ensures forall k :: 0 <= k < |h| && !InSubtree(k, i) ==> SiftUp(h, i)[k] == h[k]
    decreases i
  {
    if i > 0 && h[i].Less(h[Parent(i)]) {
      var p := Parent(i);
      SiftUpPermutes(Swap(h, i, p), p);
    }
  }

  /** Sift-up stops at the root or at the first parent that is not strictly larger, and it
      then leaves a min-heap. */
  lemma {:induction false} SiftUpRestoresHeap(h: seq<Task>, i: nat)
    requires i < |h| && HeapExceptUp(h, i)
    ensures IsMinHeap(SiftUp(h, i))
    decreases i
  {
    if i > 0 && h[i].Less(h[Parent(i)]) {
      var p := Parent(i);
      var t := Swap(h, i, p);
      forall k | 0 < k < |t| && k != p ensures t[Parent(k)].priority <= t[k].priority {
        if k == i {
        } else if Parent(k) == p {
          assert h[p].priority <= h[k].priority;
        } else if Parent(k) == i {
          assert h[p].priority <= h[k].priority;
        } else {
          assert k != p && Parent(k) != i;
        }
      }
      if p > 0 {
        forall k | 0 < k < |t| && Parent(k) == p ensures t[Parent(p)].priority <= t[k].priority {
          assert h[Parent(p)].priority <= h[p].priority;
          if k != i {
            assert h[p].priority <= h[k].priority;
          }
        }
      }
      SiftUpRestoresHeap(t, p);
    } else {
      forall k | 0 < k < |h| ensures h[Parent(k)].priority <= h[k].priority {
        if k == i {
          assert !h[i].Less(h[Parent(i)]);
        }
      }
    }
  }

  // ---------------------------------------------------------------------------------------
  // _heapify_down

  /** The index _heapify_down moves towards: it starts at i, moves to the left child only if
      that child is strictly smaller, then to the right child only if it is strictly smaller
      than the current choice. */
  function Smallest(h: seq<Task>, i: nat): (m: nat)
    requires i < |h|
    ensures m == i || (m == Left(i) && m < |h|) || (m == Right(i) && m < |h|)
    ensures h[m].priority <= h[i].priority
    ensures Left(i) < |h| ==> h[m].priority <= h[Left(i)].priority
    ensures Right(i) < |h| ==> h[m].priority <= h[Right(i)].priority
    ensures m != i ==> h[m].priority < h[i].priority
    ensures m == Right(i) ==> h[m].priority < h[Left(i)].priority
  {
    var s := if Left(i) < |h| && h[Left(i)].Less(h[i]) then Left(i) else i;
    if Right(i) < |h| && h[Right(i)].Less(h[s]) then Right(i) else s
  }

  /** _heapify_down: swap the task at i with its smallest child while that child is
      strictly smaller, following it down. */
  function SiftDown(h: seq<Task>, i: nat): (r: seq<Task>)
    requires i < |h|
    ensures |r| == |h|
    decreases |h| - i
  {
    var m := Smallest(h, i);
    if m == i then h else SiftDown(Swap(h, i, m), m)
  }

  /** Sift-down only permutes, and only inside the subtree of i. */
  lemma {:induction false} SiftDownPermutes(h: seq<Task>, i: nat)
    requires i < |h|
    ensures multiset(SiftDown(h, i)) == multiset(h)
    ensures forall k :: 0 <= k < |h| && !InSubtree(i, k) ==> SiftDown(h, i)[k] == h[k]
    decreases |h| - i
  {
    var m := Smallest(h, i);
    if m != i {
      ChildrenOf(i);
      SiftDownPermutes(Swap(h, i, m), m);
      forall k | 0 <= k < |h| && !InSubtree(i, k) ensures SiftDown(h, i)[k] == h[k] {
        if InSubtree(m, k) {
          SubtreeTransitive(i, m, k);
        }
      }
    }
  }

  /** What ends up at position i is what Smallest selected. */
  lemma SiftDownTop(h: seq<Task>, i: nat)
    requires i < |h|
    ensures SiftDown(h, i)[i] == h[Smallest(h, i)]
  {
    var m := Smallest(h, i);
    if m != i {
      SiftDownPermutes(Swap(h, i, m), m);
      assert !InSubtree(m, i);
    }
  }

  /** After the swap with the smaller child m, the subtree at m is ordered except below m. */
  lemma SwapDownOrdered(h: seq<Task>, i: nat)
    requires i < |h| && SubtreeOrderedExcept(h, i, i) && Smallest(h, i) != i
    ensures SubtreeOrderedExcept(Swap(h, i, Smallest(h, i)), Smallest(h, i), Smallest(h, i))
  {
    var m := Smallest(h, i);
    var t := Swap(h, i, m);
    ChildrenOf(i);
    forall k | 0 < k < |t| && InSubtree(m, Parent(k)) && Parent(k) != m
      ensures t[Parent(k)].priority <= t[k].priority
    {
      SubtreeTransitive(i, m, Parent(k));
    }
  }

  /** Once the subtree at the smaller child m is a heap again, so is the subtree at i. */
  lemma SwapDownJoin(h: seq<Task>, i: nat)
    requires i < |h| && SubtreeOrderedExcept(h, i, i) && Smallest(h, i) != i
    requires SubtreeOrderedExcept(SiftDown(Swap(h, i, Smallest(h, i)), Smallest(h, i)), Smallest(h, i), -1)
    ensures SubtreeOrderedExcept(SiftDown(h, i), i, -1)
  {
    var m := Smallest(h, i);
    var t := Swap(h, i, m);
    ChildrenOf(i);
    SiftDownPermutes(t, m);
    SiftDownTop(t, m);
    var r := SiftDown(t, m);
    assert r == SiftDown(h, i);
    forall k | 0 < k < |r| && InSubtree(i, Parent(k)) ensures r[Parent(k)].priority <= r[k].priority {
      var p := Parent(k);
      if InSubtree(m, p) {
      } else if p == i {
        assert r[i] == h[m];
        if k == m {
          var c := Smallest(t, m);
          ChildrenOf(m);
          if c != m {
            assert InSubtree(i, Parent(c));
          }
        } else {
          ParentOf(k);
          assert !InSubtree(m, k);
        }
      } else {
        assert !InSubtree(m, k);
      }
    }
  }

  /** If both subtrees below i are heaps, the subtree at i is a heap after sift-down. */
  lemma {:induction false} SiftDownFixesSubtree(h: seq<Task>, i: nat)
    requires i < |h| && SubtreeOrderedExcept(h, i, i)
    ensures SubtreeOrderedExcept(SiftDown(h, i), i, -1)
    decreases |h| - i
  {
    var m := Smallest(h, i);
    if m == i {
      ChildrenOf(i);
      forall k | 0 < k < |h| && InSubtree(i, Parent(k)) ensures h[Parent(k)].priority <= h[k].priority {
        if Parent(k) == i {
          ParentOf(k);
        }
      }
    } else {
      SwapDownOrdered(h, i);
      SiftDownFixesSubtree(Swap(h, i, m), m);
      SwapDownJoin(h, i);
    }
  }

  /** The root of a min-heap has the smallest priority. */
  lemma {:induction false} MinAtRoot(h: seq<Task>, k: nat)
    requires IsMinHeap(h) && k < |h|
    ensures h[0].priority <= h[k].priority
    decreases k
  {
    if k > 0 {
      MinAtRoot(h, Parent(k));
    }
  }

  lemma HeapIsRootSubtree(h: seq<Task>)
    ensures IsMinHeap(h) <==> SubtreeOrderedExcept(h, 0, -1)
  {
    forall k | 0 < k < |h| ensures InSubtree(0, Parent(k)) {
      UnderRoot(Parent(k));
    }
  }

  // ---------------------------------------------------------------------------------------
  // The public operations on heap values

  /** insert: the new task is appended as a leaf and sifted up. */
  lemma InsertKeepsHeap(h: seq<Task>, task: Task)
    requires IsMinHeap(h)
    ensures var r := SiftUp(h + [task], |h|);
      && IsMinHeap(r)
      && |r| == |h| + 1
      && multiset(r) == multiset(h) + multiset{task}
  {
    var t := h + [task];
    forall k | 0 < k < |t| && Parent(k) == |h| ensures false {
    }
    SiftUpRestoresHeap(t, |h|);
    SiftUpPermutes(t, |h|);
  }

  /** decrease_key that lowers the key: only that task's priority changes, then sift-up. */
  lemma DecreaseKeyKeepsHeap(h: seq<Task>, i: nat, p: int)
    requires IsMinHeap(h) && i < |h| && p < h[i].priority
    ensures var r := SiftUp(WithPriority(h, i, p), i);
      && IsMinHeap(r)
      && |r| == |h|
      && multiset(r) == multiset(h) - multiset{h[i]} + multiset{h[i].(priority := p)}
  {
    var t := WithPriority(h, i, p);
    forall k | 0 < k < |t| && k != i ensures t[Parent(k)].priority <= t[k].priority {
      assert h[Parent(k)].priority <= h[k].priority;
    }
    if i > 0 {
      forall k | 0 < k < |t| && Parent(k) == i ensures t[Parent(i)].priority <= t[k].priority {
        assert h[Parent(i)].priority <= h[i].priority <= h[k].priority;
      }
    }
    SiftUpRestoresHeap(t, i);
    SiftUpPermutes(t, i);
  }

  /** increase_key that raises the key: only that task's priority changes, then sift-down. */
  lemma IncreaseKeyKeepsHeap(h: seq<Task>, i: nat, p: int)
    requires IsMinHeap(h) && i < |h| && p > h[i].priority
    ensures var r := SiftDown(WithPriority(h, i, p), i);
      && IsMinHeap(r)
      && |r| == |h|
      && multiset(r) == multiset(h) - multiset{h[i]} + multiset{h[i].(priority := p)}
  {
    var t := WithPriority(h, i, p);
    forall k | 0 < k < |t| && InSubtree(i, Parent(k)) && Parent(k) != i
      ensures t[Parent(k)].priority <= t[k].priority
    {
      assert h[Parent(k)].priority <= h[k].priority;
    }
    SiftDownFixesSubtree(t, i);
    SiftDownPermutes(t, i);
    SiftDownTop(t, i);
    var r := SiftDown(t, i);
    forall k | 0 < k < |r| ensures r[Parent(k)].priority <= r[k].priority {
      var q := Parent(k);
      if InSubtree(i, q) {
      } else if k == i {
        var c := Smallest(t, i);
        ChildrenOf(i);
        assert h[q].priority <= h[i].priority;
        if c != i {
          assert InSubtree(i, Parent(c));
          assert h[i].priority <= h[c].priority;
        }
      } else {
        assert !InSubtree(i, k);
        assert h[q].priority <= h[k].priority;
      }
    }
  }

  /** extract_min exactly as written: `self.heap[0] = self.heap.pop()` pops first, so on a
      one-element queue the assignment indexes an empty list and raises IndexError after the
      only task has already been removed. */
  function ExtractMinAsWritten(h: seq<Task>): (r: (ExtractResult, seq<Task>))
    ensures r.0 == NoTask <==> |h| == 0
    ensures r.0 == IndexError <==> |h| == 1
    ensures |h| <= 1 ==> r.1 == []
    ensures |h| >= 2 ==> r.0 == Min(h[0]) && |r.1| == |h| - 1
    ensures |h| >= 2 ==> multiset(r.1) == multiset(h) - multiset{h[0]}
  {
    if |h| == 0 then (NoTask, [])
    else if |h| == 1 then (IndexError, [])
    else
      var t := h[..|h| - 1][0 := h[|h| - 1]];
      RefillRootPermutes(h);
      SiftDownPermutes(t, 0);
      (Min(h[0]), SiftDown(t, 0))
  }

  /** extract_min as its documentation describes it: a one-element queue yields its task. */
  function ExtractMinIntended(h: seq<Task>): (r: (ExtractResult, seq<Task>))
    ensures |h| == 0 <==> r.0 == NoTask
    ensures |h| > 0 ==> r.0 == Min(h[0]) && |r.1| == |h| - 1
    ensures |h| > 0 ==> multiset(r.1) == multiset(h) - multiset{h[0]}
  {
    if |h| == 1 then (Min(h[0]), []) else ExtractMinAsWritten(h)
  }

  /** The discrepancy: on a one-element queue the code as written loses the task and raises,
      where the intended operation returns it. */
  lemma ExtractSingletonFails(t: Task)
    ensures ExtractMinAsWritten([t]) == (IndexError, [])
    ensures ExtractMinIntended([t]) == (Min(t), [])
  {
  }

  /** The multiset after moving the last task over the root: the root is gone. */
  lemma RefillRootPermutes(h: seq<Task>)
    requires |h| >= 2
    ensures multiset(h[..|h| - 1][0 := h[|h| - 1]]) == multiset(h) - multiset{h[0]}
  {
    var n := |h|;
    assert h == h[..n - 1] + [h[n - 1]];
    assert h[..n - 1][0] == h[0];
  }

  /** Moving the last task to the root of a heap of at least two tasks and sifting it down
      leaves a heap of the other tasks. */
  lemma RefillRootKeepsHeap(h: seq<Task>)
    requires IsMinHeap(h) && |h| >= 2
    ensures var r := SiftDown(h[..|h| - 1][0 := h[|h| - 1]], 0);
      && IsMinHeap(r)
      && |r| == |h| - 1
      && multiset(r) == multiset(h) - multiset{h[0]}
  {
    var n := |h|;
    var t := h[..n - 1][0 := h[n - 1]];
    forall k | 0 < k < |t| && InSubtree(0, Parent(k)) && Parent(k) != 0
      ensures t[Parent(k)].priority <= t[k].priority
    {
      assert h[Parent(k)].priority <= h[k].priority;
    }
    SiftDownFixesSubtree(t, 0);
    SiftDownPermutes(t, 0);
    HeapIsRootSubtree(SiftDown(t, 0));
    RefillRootPermutes(h);
  }

  /** Extraction from a heap: nothing from an empty queue; otherwise the root, which has the
      smallest priority, and a heap of the remaining tasks. The code as written agrees except
      on a one-element queue. */
  lemma ExtractMinCorrect(h: seq<Task>)
    requires IsMinHeap(h)
    ensures var (res, rest) := ExtractMinIntended(h);
      && (|h| == 0 ==> res == NoTask && rest == [])
      && (|h| > 0 ==> res == Min(h[0]) && |rest| == |h| - 1
                      && (forall k :: 0 <= k < |h| ==> h[0].priority <= h[k].priority)
                      && multiset(rest) == multiset(h) - multiset{h[0]}
                      && IsMinHeap(rest))
    ensures |h| != 1 ==> ExtractMinAsWritten(h) == ExtractMinIntended(h)
  {
    forall k | 0 <= k < |h| ensures h[0].priority <= h[k].priority {
      MinAtRoot(h, k);
    }
    if |h| >= 2 {
      RefillRootKeepsHeap(h);
    } else if |h| == 1 {
      assert multiset(h) - multiset{h[0]} == multiset{};
    }
  }

  /** Non-decreasing priority order. */
  ghost predicate PrioritySorted(s: seq<Task>)
  {
    forall i, j :: 0 <= i < j < |s| ==> s[i].priority <= s[j].priority
  }

  lemma PrioritySortedCons(t: Task, s: seq<Task>)
    requires PrioritySorted(s) && forall j :: 0 <= j < |s| ==> t.priority <= s[j].priority
    ensures PrioritySorted([t] + s)
  {
    var u := [t] + s;
    forall i, j | 0 <= i < j < |u| ensures u[i].priority <= u[j].priority {
      assert u[j] == s[j - 1];
      if i > 0 {
        assert u[i] == s[i - 1];
      }
    }
  }

  /** Repeated extraction until the queue is empty, using the intended extraction. */
  function Drain(h: seq<Task>): (r: seq<Task>)
    ensures |r| == |h|
    ensures multiset(r) == multiset(h)
    decreases |h|
  {
    var (res, rest) := ExtractMinIntended(h);
    if res.Min? then [res.task] + Drain(rest) else []
  }

  /** Draining a heap yields every task once, in non-decreasing priority order. */
  lemma {:induction false} DrainSorted(h: seq<Task>)
    requires IsMinHeap(h)
    ensures multiset(Drain(h)) == multiset(h)
    ensures PrioritySorted(Drain(h))
    decreases |h|
  {
    if |h| > 0 {
      ExtractMinCorrect(h);
      var rest := ExtractMinIntended(h).1;
      DrainSorted(rest);
      var d := Drain(rest);
      assert Drain(h) == [h[0]] + d;
      assert multiset(h) == multiset{h[0]} + multiset(rest);
      forall j | 0 <= j < |d| ensures h[0].priority <= d[j].priority {
        assert d[j] in multiset(h);
      }
      PrioritySortedCons(h[0], d);
    }
  }

  // ---------------------------------------------------------------------------------------
  // The queue object

  class PriorityQueue {
    var heap: seq<Task>

    ghost predicate Valid()
      reads this
    {
      IsMinHeap(heap)
    }

    constructor ()
      ensures Valid() && heap == []
    {
      heap := [];
    }

    /** insert: append, then _heapify_up from the new leaf. */
    method Insert(task: Task)
      modifies this
      ensures old(Valid()) ==> Valid()
      ensures heap == SiftUp(old(heap) + [task], |old(heap)|)
      ensures |heap| == |old(heap)| + 1
      ensures multiset(heap) == multiset(old(heap)) + multiset{task}
    {
      if Valid() {
        InsertKeepsHeap(heap, task);
      }
      SiftUpPermutes(heap + [task], |heap|);
      heap := heap + [task];
      HeapifyUp(|heap| - 1);
    }

    method HeapifyUp(index: nat)
      requires index < |heap|
      modifies this
      ensures heap == SiftUp(old(heap), index)
    {
      var i: nat := index;
      var parent: int := (i - 1) / 2;
      while i > 0 && heap[i].Less(heap[parent])
        invariant i < |heap| && parent == (i - 1) / 2
        invariant SiftUp(heap, i) == SiftUp(old(heap), index)
        decreases i
      {
        heap := Swap(heap, i, parent);
        i := parent;
        parent := (i - 1) / 2;
      }
    }

    /** extract_min, including the IndexError of a one-element queue. */
    method ExtractMin() returns (r: ExtractResult)
      modifies this
      ensures old(Valid()) ==> Valid()
      ensures (r, heap) == ExtractMinAsWritten(old(heap))
      ensures |old(heap)| <= 1 ==> heap == []
      ensures |old(heap)| >= 2 ==> r == Min(old(heap)[0]) && |heap| == |old(heap)| - 1
      ensures |old(heap)| >= 2 ==> multiset(heap) == multiset(old(heap)) - multiset{old(heap)[0]}
    {
      if Valid() {
        ExtractMinCorrect(heap);
      }
      if |heap| == 0 {
        return NoTask;
      }
      var minTask := heap[0];
      var last := heap[|heap| - 1];
      heap := heap[..|heap| - 1];
      if |heap| == 0 {
        return IndexError;
      }
      heap := heap[0 := last];
      HeapifyDown(0);
      r := Min(minTask);
    }

    method HeapifyDown(index: nat)
      requires index < |heap|
      modifies this
      ensures heap == SiftDown(old(heap), index)
      decreases |heap| - index
    {
      var smallest := index;
      var left := 2 * index + 1;
      var right := 2 * index + 2;
      if left < |heap| && heap[left].Less(heap[smallest]) {
        smallest := left;
      }
      if right < |heap| && heap[right].Less(heap[smallest]) {
        smallest := right;
      }
      if smallest != index {
        heap := Swap(heap, index, smallest);
        HeapifyDown(smallest);
      }
    }

    /** decrease_key: a new priority that is not strictly smaller is ignored. */
    method DecreaseKey(index: nat, newPriority: int)
      requires index < |heap|
      modifies this
      ensures old(Valid()) ==> Valid()
      ensures newPriority >= old(heap[index].priority) ==> heap == old(heap)
      ensures newPriority < old(heap[index].priority) ==>
                heap == SiftUp(WithPriority(old(heap), index, newPriority), index)
      ensures newPriority < old(heap[index].priority) ==>
                multiset(heap) == multiset(old(heap)) - multiset{old(heap[index])}
                                  + multiset{old(heap[index]).(priority := newPriority)}
      ensures |heap| == |old(heap)|
    {
      if newPriority >= heap[index].priority {
        return;
      }
      if Valid() {
        DecreaseKeyKeepsHeap(heap, index, newPriority);
      }
      SiftUpPermutes(WithPriority(heap, index, newPriority), index);
      heap := heap[index := heap[index].(priority := newPriority)];
      HeapifyUp(index);
    }

    /** increase_key: a new priority that is not strictly larger is ignored. */
    method IncreaseKey(index: nat, newPriority: int)
      requires index < |heap|
      modifies this
      ensures old(Valid()) ==> Valid()
      ensures newPriority <= old(heap[index].priority) ==> heap == old(heap)
      ensures newPriority > old(heap[index].priority) ==>
                heap == SiftDown(WithPriority(old(heap), index, newPriority), index)
      ensures newPriority > old(heap[index].priority) ==>
                multiset(heap) == multiset(old(heap)) - multiset{old(heap[index])}
                                  + multiset{old(heap[index]).(priority := newPriority)}
      ensures |heap| == |old(heap)|
    {
      if newPriority <= heap[index].priority {
        return;
      }
      if Valid() {
        IncreaseKeyKeepsHeap(heap, index, newPriority);
      }
      SiftDownPermutes(WithPriority(heap, index, newPriority), index);
      heap := heap[index := heap[index].(priority := newPriority)];
      HeapifyDown(index);
    }

    method IsEmpty() returns (empty: bool)
      ensures empty <==> |heap| == 0
    {
      empty := |heap| == 0;
    }
  }

  // The tasks of the script scenario of priorityQ.py and the heaps it passes through.
  const Task1 := Task(1, 5, 0, 10)
  const Task2 := Task(2, 3, 1, 15)
  const Task3 := Task(3, 4, 2, 20)
  const Task4 := Task(4, 1, 3, 25)

  lemma DemoFirstInserts()
    ensures SiftUp([Task1], 0) == [Task1]
    ensures SiftUp([Task1, Task2], 1) == [Task2, Task1]
    ensures SiftUp([Task2, Task1, Task3], 2) == [Task2, Task1, Task3]
  {
    assert Swap([Task1, Task2], 1, 0) == [Task2, Task1];
  }

  lemma DemoFourthInsertLeaf()
    ensures SiftUp([Task2, Task1, Task3, Task4], 3) == SiftUp([Task2, Task4, Task3, Task1], 1)
  {
    assert Swap([Task2, Task1, Task3, Task4], 3, 1) == [Task2, Task4, Task3, Task1];
  }

  lemma DemoFourthInsert()
    ensures SiftUp([Task2, Task1, Task3, Task4], 3) == [Task4, Task2, Task3, Task1]
  {
    DemoFourthInsertLeaf();
    assert Swap([Task2, Task4, Task3, Task1], 1, 0) == [Task4, Task2, Task3, Task1];
  }

  lemma DemoFirstExtract()
    ensures ExtractMinAsWritten([Task4, Task2, Task3, Task1]) == (Min(Task4), [Task2, Task1, Task3])
  {
    assert [Task4, Task2, Task3, Task1][..3][0 := Task1] == [Task1, Task2, Task3];
    assert Smallest([Task1, Task2, Task3], 0) == 1;
    assert Swap([Task1, Task2, Task3], 0, 1) == [Task2, Task1, Task3];
    assert SiftDown([Task2, Task1, Task3], 1) == [Task2, Task1, Task3];
  }

  lemma DemoDecreaseKey()
    ensures SiftUp(WithPriority([Task2, Task1, Task3], 1, 0), 1) == [Task1.(priority := 0), Task2, Task3]
  {
    var lowered := Task1.(priority := 0);
    assert WithPriority([Task2, Task1, Task3], 1, 0) == [Task2, lowered, Task3];
    assert Swap([Task2, lowered, Task3], 1, 0) == [lowered, Task2, Task3];
  }

  lemma DemoSecondExtract()
    ensures ExtractMinAsWritten([Task1.(priority := 0), Task2, Task3]) == (Min(Task1.(priority := 0)), [Task2, Task3])
  {
    assert [Task1.(priority := 0), Task2, Task3][..2][0 := Task3] == [Task3, Task2];
    assert Smallest([Task3, Task2], 0) == 1;
    assert Swap([Task3, Task2], 0, 1) == [Task2, Task3];
    assert SiftDown([Task2, Task3], 1) == [Task2, Task3];
  }

  /** The four insertions of the script scenario. */
  method DemoFill() returns (pq: PriorityQueue)
    ensures fresh(pq) && pq.Valid() && pq.heap == [Task4, Task2, Task3, Task1]
  {
    pq := new PriorityQueue();
    DemoFirstInserts();
    pq.Insert(Task1);
    pq.Insert(Task2);
    pq.Insert(Task3);
    assert pq.heap == [Task2, Task1, Task3];
    DemoFourthInsert();
    pq.Insert(Task4);
  }

  /** The script scenario of priorityQ.py: four tasks in, extract, lower the key at index 1,
      extract again. After the first extraction the list is [task 2, task 1, task 3], so index 1
      holds task 1 and the second extraction returns task 1 with its priority lowered to 0. */
  method DemoScenario() returns (first: ExtractResult, second: ExtractResult, empty: bool)
    ensures first == Min(Task(4, 1, 3, 25))
    ensures second == Min(Task(1, 0, 0, 10))
    ensures !empty
  {
    var pq := DemoFill();
    DemoFirstExtract();
    first := pq.ExtractMin();
    DemoDecreaseKey();
    pq.DecreaseKey(1, 0);
    DemoSecondExtract();
    second := pq.ExtractMin();
    empty := pq.IsEmpty();
  }
}
