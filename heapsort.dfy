/** The in-place heapsort of heapsort.py over an array of integers: max_heapify sifts a value
    down inside the first n cells, build_max_heap heapifies every internal node bottom-up, and
    heapsort repeatedly moves the maximum behind a shrinking heap. The sift-down is stated as
    a function on sequences (SiftDownMax) whose properties are lemmas; the array methods are
    proved against it and carry the loop invariants of the two loops. */
module HeapSorting {
  import opened ImplicitTree
  import opened SortedSeqs

  /** Max-heap order for every parent-child pair inside the first n cells whose parent is at
      least lo: the nodes from lo onwards all head max-heaps. */
  ghost predicate MaxHeapFrom(s: seq<int>, n: nat, lo: nat)
    requires n <= |s|
  {
    forall k :: 0 < k < n && lo <= Parent(k) ==> s[Parent(k)] >= s[k]
  }

  /** The first n cells form a max-heap. */
  ghost predicate IsMaxHeap(s: seq<int>, n: nat)
    requires n <= |s|
  {
    MaxHeapFrom(s, n, 0)
  }

  /** Max-heap order for every parent-child pair inside the first n cells whose parent lies
      in the subtree of r, except the pairs whose parent is `skip` (pass -1 to skip nothing). */
  ghost predicate SubtreeOrderedExcept(s: seq<int>, n: nat, r: nat, skip: int)
    requires n <= |s|
  {
    forall k :: 0 < k < n && InSubtree(r, Parent(k)) && Parent(k) != skip ==> s[Parent(k)] >= s[k]
  }

  /** The index max_heapify moves towards: it starts at i, moves to the left child only if
      that child is strictly greater, then to the right child only if it is strictly greater
      than the current choice; children at n or beyond do not count. */
  function Largest(s: seq<int>, n: nat, i: nat): (m: nat)
    requires i < n <= |s|
    ensures m == i || (m == Left(i) && m < n) || (m == Right(i) && m < n)
    ensures s[m] >= s[i]
    ensures Left(i) < n ==> s[m] >= s[Left(i)]
    ensures Right(i) < n ==> s[m] >= s[Right(i)]
    ensures m != i ==> s[m] > s[i]
    ensures m == Right(i) ==> s[m] > s[Left(i)]
  {
    var l := if Left(i) < n && s[Left(i)] > s[i] then Left(i) else i;
    if Right(i) < n && s[Right(i)] > s[l] then Right(i) else l
  }

  /** max_heapify(arr, n, i) on the value of arr. */
  function SiftDownMax(s: seq<int>, n: nat, i: nat): (r: seq<int>)
    requires i < n <= |s|
    ensures |r| == |s|
    decreases n - i
  {
    var m := Largest(s, n, i);
    if m == i then s else SiftDownMax(Swap(s, i, m), n, m)
  }

  /** max_heapify only permutes, and only cells below n inside the subtree of i. */
  lemma {:induction false} SiftDownMaxPermutes(s: seq<int>, n: nat, i: nat)
    requires i < n <= |s|
    ensures multiset(SiftDownMax(s, n, i)) == multiset(s)
    ensures forall k :: 0 <= k < |s| && (n <= k || !InSubtree(i, k)) ==> SiftDownMax(s, n, i)[k] == s[k]
    decreases n - i
  {
    var m := Largest(s, n, i);
    if m != i {
      ChildrenOf(i);
      SiftDownMaxPermutes(Swap(s, i, m), n, m);
      forall k | 0 <= k < |s| && (n <= k || !InSubtree(i, k)) ensures SiftDownMax(s, n, i)[k] == s[k] {
        if InSubtree(m, k) {
          SubtreeTransitive(i, m, k);
        }
      }
    }
  }

  /** max_heapify leaves the first n cells a permutation of themselves. */
  lemma SiftDownMaxPrefix(s: seq<int>, n: nat, i: nat)
    requires i < n <= |s|
    ensures multiset(SiftDownMax(s, n, i)[..n]) == multiset(s[..n])
    ensures SiftDownMax(s, n, i)[n..] == s[n..]
  {
    var r := SiftDownMax(s, n, i);
    SiftDownMaxPermutes(s, n, i);
    assert r[n..] == s[n..];
    PrefixPermutes(r, s, n);
  }

  /** What ends up at position i is what Largest selected. */
  lemma SiftDownMaxTop(s: seq<int>, n: nat, i: nat)
    requires i < n <= |s|
    ensures SiftDownMax(s, n, i)[i] == s[Largest(s, n, i)]
  {
    var m := Largest(s, n, i);
    if m != i {
      SiftDownMaxPermutes(Swap(s, i, m), n, m);
      assert !InSubtree(m, i);
    }
  }

  /** If the subtrees rooted at both children of i are max-heaps within the first n cells,
      the subtree at i is one after max_heapify. */
  lemma {:induction false} SiftDownMaxFixesSubtree(s: seq<int>, n: nat, i: nat)
    requires i < n <= |s| && SubtreeOrderedExcept(s, n, i, i)
    ensures SubtreeOrderedExcept(SiftDownMax(s, n, i), n, i, -1)
    decreases n - i
  {
    var m := Largest(s, n, i);
    ChildrenOf(i);
    if m == i {
      forall k | 0 < k < n && InSubtree(i, Parent(k)) ensures s[Parent(k)] >= s[k] {
        if Parent(k) == i {
          ParentOf(k);
        }
      }
    } else {
      var t := Swap(s, i, m);
      forall k | 0 < k < n && InSubtree(m, Parent(k)) && Parent(k) != m
        ensures t[Parent(k)] >= t[k]
      {
        SubtreeTransitive(i, m, Parent(k));
      }
      SiftDownMaxFixesSubtree(t, n, m);
      SiftDownMaxPermutes(t, n, m);
      SiftDownMaxTop(t, n, m);
      var r := SiftDownMax(t, n, m);
      assert r == SiftDownMax(s, n, i);
      forall k | 0 < k < n && InSubtree(i, Parent(k)) ensures r[Parent(k)] >= r[k] {
        var p := Parent(k);
        if InSubtree(m, p) {
        } else if p == i {
          assert r[i] == s[m];
          if k == m {
            var c := Largest(t, n, m);
            ChildrenOf(m);
            if c != m {
              assert InSubtree(i, Parent(c));
            }
          } else {
            ParentOf(k);
            assert !InSubtree(m, k);
          }
        } else {
          assert !InSubtree(m, k);
        }
      }
    }
  }

  /** One step of build_max_heap: once every node after i heads a max-heap, heapifying i
      makes every node from i onwards head one. */
  lemma BuildStep(s: seq<int>, n: nat, i: nat)
    requires i < n <= |s| && MaxHeapFrom(s, n, i + 1)
    ensures MaxHeapFrom(SiftDownMax(s, n, i), n, i)
    ensures multiset(SiftDownMax(s, n, i)) == multiset(s)
  {
    forall k | 0 < k < n && InSubtree(i, Parent(k)) && Parent(k) != i ensures s[Parent(k)] >= s[k] {
    }
    SiftDownMaxFixesSubtree(s, n, i);
    SiftDownMaxPermutes(s, n, i);
    var r := SiftDownMax(s, n, i);
    forall k | 0 < k < n && i <= Parent(k) ensures r[Parent(k)] >= r[k] {
      if !InSubtree(i, Parent(k)) {
        assert !InSubtree(i, k);
      }
    }
  }

  /** The root of a max-heap is its largest element. */
  lemma {:induction false} MaxAtRoot(s: seq<int>, n: nat, k: nat)
    requires n <= |s| && IsMaxHeap(s, n) && k < n
    ensures s[0] >= s[k]
    decreases k
  {
    if k > 0 {
      MaxAtRoot(s, n, Parent(k));
    }
  }

  /** The cells lo..n are sorted and no cell before lo exceeds a cell from lo on. */
  ghost predicate SortedSuffix(s: seq<int>, lo: nat, n: nat)
    requires lo <= n <= |s|
  {
    && (forall p, q :: lo <= p < q < n ==> s[p] <= s[q])
    && (forall p, q :: 0 <= p < lo <= q < n ==> s[p] <= s[q])
  }

  /** Swapping the root of a max-heap of i + 1 cells to position i, in front of a sorted tail
      of larger values, extends the sorted tail to start at i and leaves the first i cells
      ordered everywhere except below the root. */
  lemma SwapRoot(s: seq<int>, i: nat)
    requires 0 < i < |s| && IsMaxHeap(s, i + 1) && SortedSuffix(s, i + 1, |s|)
    ensures SubtreeOrderedExcept(Swap(s, i, 0), i, 0, 0)
    ensures SortedSuffix(Swap(s, i, 0), i, |s|)
  {
    var t := Swap(s, i, 0);
    forall k | 0 <= k < i + 1 ensures s[k] <= s[0] {
      MaxAtRoot(s, i + 1, k);
    }
    forall k | 0 < k < i && InSubtree(0, Parent(k)) && Parent(k) != 0 ensures t[Parent(k)] >= t[k] {
    }
  }

  /** Sifting down inside the first i cells keeps a sorted tail that starts at i. */
  lemma SiftKeepsTail(t: seq<int>, i: nat)
    requires 0 < i < |t| && SortedSuffix(t, i, |t|)
    ensures SortedSuffix(SiftDownMax(t, i, 0), i, |t|)
  {
    SiftDownMaxPrefix(t, i, 0);
    var r := SiftDownMax(t, i, 0);
    assert forall q :: i <= q < |t| ==> r[q] == r[i..][q - i] == t[i..][q - i] == t[q];
    assert AllAtMost(t[..i], t[i]) by {
      forall x | x in t[..i] ensures x <= t[i] {
        var p :| 0 <= p < i && t[p] == x;
      }
    }
    BoundsByMultiset(r[..i], t[..i], t[i]);
    forall p, q | 0 <= p < i <= q < |t| ensures r[p] <= r[q] {
      assert r[p] in r[..i];
    }
  }

  /** One step of heapsort's extraction loop: with a max-heap of i + 1 cells in front of a
      sorted tail of larger values, swapping the root to position i and heapifying the first
      i cells leaves a max-heap of i cells in front of a sorted tail that starts at i. */
  lemma ExtractStep(s: seq<int>, i: nat)
    requires 0 < i < |s| && IsMaxHeap(s, i + 1) && SortedSuffix(s, i + 1, |s|)
    ensures var r := SiftDownMax(Swap(s, i, 0), i, 0);
      && IsMaxHeap(r, i) && SortedSuffix(r, i, |s|) && multiset(r) == multiset(s)
  {
    var t := Swap(s, i, 0);
    SwapRoot(s, i);
    SiftKeepsTail(t, i);
    SiftDownMaxFixesSubtree(t, i, 0);
    SiftDownMaxPermutes(t, i, 0);
    var r := SiftDownMax(t, i, 0);
    forall k | 0 < k < i ensures r[Parent(k)] >= r[k] {
      UnderRoot(Parent(k));
    }
  }

  /** max_heapify(arr, n, i): recursive, as in the source. */
  method MaxHeapify(a: array<int>, n: nat, i: nat)
    requires i < n <= a.Length
    modifies a
    ensures a[..] == SiftDownMax(old(a[..]), n, i)
    decreases n - i
  {
    var largest := i;
    var left := 2 * i + 1;
    var right := 2 * i + 2;
    if left < n && a[left] > a[largest] {
      largest := left;
    }
    if right < n && a[right] > a[largest] {
      largest := right;
    }
    if largest != i {
      a[i], a[largest] := a[largest], a[i];
      assert a[..] == Swap(old(a[..]), i, largest);
      MaxHeapify(a, n, largest);
    }
  }

  /** build_max_heap(arr): heapify the internal nodes from n/2 - 1 down to 0. */
  method BuildMaxHeap(a: array<int>)
    modifies a
    ensures IsMaxHeap(a[..], a.Length)
    ensures multiset(a[..]) == multiset(old(a[..]))
  {
    var n := a.Length;
    var i := n / 2 - 1;
    while i >= 0
      invariant -1 <= i <= n / 2 - 1
      invariant MaxHeapFrom(a[..], n, i + 1)
      invariant multiset(a[..]) == multiset(old(a[..]))
    {
      BuildStep(a[..], n, i);
      MaxHeapify(a, n, i);
      i := i - 1;
    }
  }

  /** heapsort(arr): sorts arr in place into non-decreasing order. */
  method HeapSort(a: array<int>)
    modifies a
    ensures Sorted(a[..])
    ensures multiset(a[..]) == multiset(old(a[..]))
    ensures a.Length <= 1 ==> a[..] == old(a[..])
  {
    var n := a.Length;
    BuildMaxHeap(a);
    var i := n - 1;
    while i > 0
      invariant -1 <= i < n && (n > 0 ==> 0 <= i)
      invariant IsMaxHeap(a[..], i + 1)
      invariant SortedSuffix(a[..], i + 1, n)
      invariant multiset(a[..]) == multiset(old(a[..]))
    {
      ExtractStep(a[..], i);
      a[i], a[0] := a[0], a[i];
      MaxHeapify(a, i, 0);
      i := i - 1;
    }
    if n <= 1 {
      SortedUnique(a[..], old(a[..]));
    }
  }
}
