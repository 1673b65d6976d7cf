/** The sorting baselines of heap_comparison.py: its copy of heapsort, a three-way quicksort
    built from list comprehensions, and a top-down merge sort with a two-index merge loop.
    All three produce the unique sorted permutation of their input, so they agree. */
module HeapComparison {
  import opened SortedSeqs
  import HeapSorting

  /** [x for x in s if keep(x)]: the elements of s that satisfy keep, in order. */
  function Filter(s: seq<int>, keep: int -> bool): (r: seq<int>)
    ensures |r| <= |s|
    ensures forall x :: x in r ==> keep(x)
    ensures forall x :: multiset(r)[x] == if keep(x) then multiset(s)[x] else 0
  {
    if s == [] then []
    else
      assert s == [s[0]] + s[1..];
      (if keep(s[0]) then [s[0]] else []) + Filter(s[1..], keep)
  }

  /** [x for x in arr if x < pivot]: every smaller element, as often as in arr. */
  function Below(s: seq<int>, pivot: int): (r: seq<int>)
    ensures forall x :: multiset(r)[x] == if x < pivot then multiset(s)[x] else 0
  {
    Filter(s, x => x < pivot)
  }

  /** [x for x in arr if x == pivot]: every copy of the pivot. */
  function Equal(s: seq<int>, pivot: int): (r: seq<int>)
    ensures forall x :: multiset(r)[x] == if x == pivot then multiset(s)[x] else 0
  {
    Filter(s, x => x == pivot)
  }

  /** [x for x in arr if x > pivot]: every larger element, as often as in arr. */
  function Above(s: seq<int>, pivot: int): (r: seq<int>)
    ensures forall x :: multiset(r)[x] == if x > pivot then multiset(s)[x] else 0
  {
    Filter(s, x => x > pivot)
  }

  /** The partition of quicksort: every element of s goes to exactly one of the three lists,
      `Equal` is not empty when the pivot is taken from s, so the other two are shorter than s. */
  lemma Partition(s: seq<int>, pivot: int)
    requires pivot in s
    ensures multiset(Below(s, pivot)) + multiset(Equal(s, pivot)) + multiset(Above(s, pivot)) == multiset(s)
    ensures |Below(s, pivot)| + |Equal(s, pivot)| + |Above(s, pivot)| == |s|
    ensures |Equal(s, pivot)| > 0
    ensures |Below(s, pivot)| < |s| && |Above(s, pivot)| < |s|
    ensures forall x :: x in Below(s, pivot) ==> x < pivot
    ensures forall x :: x in Equal(s, pivot) ==> x == pivot
    ensures forall x :: x in Above(s, pivot) ==> x > pivot
  {
    var lo, eq, hi := Below(s, pivot), Equal(s, pivot), Above(s, pivot);
    assert multiset(lo) + multiset(eq) + multiset(hi) == multiset(s) by {
      forall x ensures (multiset(lo) + multiset(eq) + multiset(hi))[x] == multiset(s)[x] {
      }
    }
    assert |multiset(lo)| + |multiset(eq)| + |multiset(hi)| == |multiset(s)|;
    assert pivot in multiset(s);
    assert pivot in multiset(eq);
  }

  /** Values below p, then values equal to p, then values above p, each part sorted. */
  lemma SortedJoin(lo: seq<int>, eq: seq<int>, hi: seq<int>, p: int)
    requires Sorted(lo) && Sorted(hi)
    requires AllAtMost(lo, p - 1) && (forall x :: x in eq ==> x == p) && AllAtLeast(hi, p + 1)
    ensures Sorted(lo + eq + hi)
  {
    var s := lo + eq + hi;
    forall i, j | 0 <= i < j < |s| ensures s[i] <= s[j] {
      if i < |lo| {
        assert s[i] == lo[i] && s[i] in lo;
      } else if i < |lo| + |eq| {
        assert s[i] == eq[i - |lo|] && s[i] in eq;
      } else {
        assert s[i] == hi[i - |lo| - |eq|];
      }
      if j < |lo| {
        assert s[j] == lo[j];
      } else if j < |lo| + |eq| {
        assert s[j] == eq[j - |lo|] && s[j] in eq;
      } else {
        assert s[j] == hi[j - |lo| - |eq|] && s[j] in hi;
      }
    }
  }

  /** quicksort(arr): returns a new list, sorted, with the elements of arr. */
  function QuickSort(s: seq<int>): (r: seq<int>)
    ensures Sorted(r) && multiset(r) == multiset(s)
    ensures |s| <= 1 ==> r == s
    decreases |s|
  {
    if |s| <= 1 then s
    else
      var pivot := s[|s| / 2];
      Partition(s, pivot);
      var lo, eq, hi := QuickSort(Below(s, pivot)), Equal(s, pivot), QuickSort(Above(s, pivot));
      BoundsByMultiset(lo, Below(s, pivot), pivot - 1);
      BoundsByMultiset(hi, Above(s, pivot), pivot + 1);
      SortedJoin(lo, eq, hi, pivot);
      lo + eq + hi
  }

  /** merge(left, right) as a value: the smaller head goes first, and on equal heads the head
      of `right` goes first because `left` is taken only when strictly smaller. */
  function Merged(left: seq<int>, right: seq<int>): (m: seq<int>)
    ensures |m| == |left| + |right|
    ensures multiset(m) == multiset(left) + multiset(right)
    decreases |left| + |right|
  {
    if left == [] then right
    else if right == [] then left
    else if left[0] < right[0] then
      assert left == [left[0]] + left[1..];
      [left[0]] + Merged(left[1..], right)
    else
      assert right == [right[0]] + right[1..];
      [right[0]] + Merged(left, right[1..])
  }

  /** Merging two sorted lists gives a sorted list. */
  lemma {:induction false} MergedSorted(left: seq<int>, right: seq<int>)
    requires Sorted(left) && Sorted(right)
    ensures Sorted(Merged(left, right))
    decreases |left| + |right|
  {
    if left != [] && right != [] {
      if left[0] < right[0] {
        SortedTail(left);
        MergedSorted(left[1..], right);
        MergedHead(left[0], Merged(left[1..], right), left[1..], right);
        assert [left[0]] + left[1..] == left;
      } else {
        SortedTail(right);
        MergedSorted(left, right[1..]);
        MergedHead(right[0], Merged(left, right[1..]), right[1..], left);
        assert [right[0]] + right[1..] == right;
      }
    }
  }

  /** The head x of a sorted list [x] + u, no larger than the head of a sorted v, bounds
      everything merged from u and v. */
  lemma MergedHead(x: int, rest: seq<int>, u: seq<int>, v: seq<int>)
    requires multiset(rest) == multiset(u) + multiset(v)
    requires Sorted([x] + u) && Sorted(v) && Sorted(rest)
    requires v != [] ==> x <= v[0]
    ensures Sorted([x] + rest)
  {
    SortedHead([x] + u);
    if v != [] {
      SortedHead(v);
    }
    forall y | y in rest ensures x <= y {
      assert y in multiset(rest);
      assert y in u ==> y in [x] + u;
    }
    SortedCons(x, rest);
  }

  lemma DropOne(s: seq<int>, k: nat)
    requires k < |s|
    ensures s[k..][0] == s[k] && s[k..][1..] == s[k + 1..]
  {
  }

  lemma Regroup(p: seq<int>, x: int, q: seq<int>)
    ensures p + ([x] + q) == (p + [x]) + q
  {
  }

  /** Merged on two non-empty lists takes one head and merges the rest. */
  lemma MergedCons(l: seq<int>, r: seq<int>)
    requires l != [] && r != []
    ensures l[0] < r[0] ==> Merged(l, r) == [l[0]] + Merged(l[1..], r)
    ensures l[0] >= r[0] ==> Merged(l, r) == [r[0]] + Merged(l, r[1..])
  {
  }

  /** A turn of the merge loop that takes from `left` keeps `result` a prefix of the merged list. */
  lemma MergeTakeLeft(left: seq<int>, right: seq<int>, i: nat, j: nat, result: seq<int>)
    requires i < |left| && j < |right| && left[i] < right[j]
    requires result + Merged(left[i..], right[j..]) == Merged(left, right)
    ensures (result + [left[i]]) + Merged(left[i + 1..], right[j..]) == Merged(left, right)
  {
    DropOne(left, i);
    MergedCons(left[i..], right[j..]);
    Regroup(result, left[i], Merged(left[i + 1..], right[j..]));
  }

  /** A turn of the merge loop that takes from `right` keeps `result` a prefix of the merged list. */
  lemma MergeTakeRight(left: seq<int>, right: seq<int>, i: nat, j: nat, result: seq<int>)
    requires i < |left| && j < |right| && left[i] >= right[j]
    requires result + Merged(left[i..], right[j..]) == Merged(left, right)
    ensures (result + [right[j]]) + Merged(left[i..], right[j + 1..]) == Merged(left, right)
  {
    DropOne(right, j);
    MergedCons(left[i..], right[j..]);
    Regroup(result, right[j], Merged(left[i..], right[j + 1..]));
  }

  /** Once one list is used up, the merged list ends with what is left of both. */
  lemma MergeFinish(left: seq<int>, right: seq<int>, i: nat, j: nat, result: seq<int>)
    requires i <= |left| && j <= |right| && (i == |left| || j == |right|)
    requires result + Merged(left[i..], right[j..]) == Merged(left, right)
    ensures result + left[i..] + right[j..] == Merged(left, right)
  {
    if i == |left| {
      assert left[i..] == [];
      assert Merged(left[i..], right[j..]) == right[j..];
      assert result + left[i..] == result;
    } else {
      assert right[j..] == [];
      assert Merged(left[i..], right[j..]) == left[i..];
      assert result + left[i..] + right[j..] == result + left[i..];
    }
  }

  /** merge(left, right): the two-index loop, proved to compute Merged. */
  method Merge(left: seq<int>, right: seq<int>) returns (result: seq<int>)
    ensures result == Merged(left, right)
  {
    result := [];
    var i, j := 0, 0;
    assert left[0..] == left && right[0..] == right;
    while i < |left| && j < |right|
      invariant 0 <= i <= |left| && 0 <= j <= |right|
      invariant result + Merged(left[i..], right[j..]) == Merged(left, right)
      decreases |left| - i + |right| - j
    {
      if left[i] < right[j] {
        MergeTakeLeft(left, right, i, j, result);
        result := result + [left[i]];
        i := i + 1;
      } else {
        MergeTakeRight(left, right, i, j, result);
        result := result + [right[j]];
        j := j + 1;
      }
    }
    MergeFinish(left, right, i, j, result);
    result := result + left[i..];
    result := result + right[j..];
  }

  /** merge_sort(arr): split at len // 2, sort both halves, merge. */
  function MergeSort(s: seq<int>): (r: seq<int>)
    ensures Sorted(r) && multiset(r) == multiset(s)
    ensures |s| <= 1 ==> r == s
    decreases |s|
  {
    if |s| <= 1 then s
    else
      var mid := |s| / 2;
      assert s == s[..mid] + s[mid..];
      MergedSorted(MergeSort(s[..mid]), MergeSort(s[mid..]));
      Merged(MergeSort(s[..mid]), MergeSort(s[mid..]))
  }

  /** quicksort and merge_sort return the same list on every input. */
  lemma SortsAgree(s: seq<int>)
    ensures QuickSort(s) == MergeSort(s)
  {
    SortedUnique(QuickSort(s), MergeSort(s));
  }

  /** heapsort(arr) of heap_comparison.py: the same code as heapsort.py except that it reads
      len(arr) after building the heap, which the heap build does not change. Its in-place
      result is the list merge_sort and quicksort return. */
  method HeapSort(a: array<int>)
    modifies a
    ensures a[..] == MergeSort(old(a[..]))
    ensures a[..] == QuickSort(old(a[..]))
  {
    HeapSorting.HeapSort(a);
    SortedUnique(a[..], MergeSort(old(a[..])));
    SortsAgree(old(a[..]));
  }
}
