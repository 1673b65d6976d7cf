/** Sortedness and bounds over integer sequences, shared by the sorting routines. */
module SortedSeqs {

  /** Non-decreasing order. */
  predicate Sorted(s: seq<int>)
  {
    forall p, q :: 0 <= p < q < |s| ==> s[p] <= s[q]
  }

  /** Every element of s is at least b. */
  predicate AllAtLeast(s: seq<int>, b: int)
  {
    forall x :: x in s ==> b <= x
  }

  /** Every element of s is at most b. */
  predicate AllAtMost(s: seq<int>, b: int)
  {
    forall x :: x in s ==> x <= b
  }

  /** Bounds depend only on the multiset of elements. */
  lemma BoundsByMultiset(s: seq<int>, t: seq<int>, b: int)
    requires multiset(s) == multiset(t)
    ensures AllAtLeast(s, b) == AllAtLeast(t, b)
    ensures AllAtMost(s, b) == AllAtMost(t, b)
  {
    forall x ensures x in s <==> x in t {
      assert x in s <==> x in multiset(s);
      assert x in t <==> x in multiset(t);
    }
  }

  /** Putting a lower bound of a sorted sequence in front keeps it sorted. */
  lemma SortedCons(x: int, t: seq<int>)
    requires Sorted(t) && AllAtLeast(t, x)
    ensures Sorted([x] + t)
  {
    var s := [x] + t;
    forall p, q | 0 <= p < q < |s| ensures s[p] <= s[q] {
      if p == 0 {
        assert s[q] == t[q - 1] && s[q] in t;
      } else {
        assert s[p] == t[p - 1] && s[q] == t[q - 1];
      }
    }
  }

  /** The head of a non-empty sorted sequence is a lower bound of it. */
  lemma SortedHead(s: seq<int>)
    requires Sorted(s) && |s| > 0
    ensures AllAtLeast(s, s[0])
  {
    forall x | x in s ensures s[0] <= x {
      var i :| 0 <= i < |s| && s[i] == x;
      assert i == 0 || s[0] <= s[i];
    }
  }

  lemma SortedTail(s: seq<int>)
    requires Sorted(s) && |s| > 0
    ensures Sorted(s[1..])
  {
    forall p, q | 0 <= p < q < |s| - 1 ensures s[1..][p] <= s[1..][q] {
      assert s[1..][p] == s[p + 1] && s[1..][q] == s[q + 1];
    }
  }

  lemma MultisetTail(a: seq<int>, b: seq<int>)
    requires |a| > 0 && |b| > 0 && a[0] == b[0] && multiset(a) == multiset(b)
    ensures multiset(a[1..]) == multiset(b[1..])
  {
    assert a == [a[0]] + a[1..];
    assert b == [b[0]] + b[1..];
    assert multiset(a[1..]) == multiset(a) - multiset{a[0]};
    assert multiset(b[1..]) == multiset(b) - multiset{b[0]};
  }

  /** Two sorted sequences with the same elements are equal: a sorted permutation is unique. */
  lemma {:induction false} SortedUnique(a: seq<int>, b: seq<int>)
    requires Sorted(a) && Sorted(b) && multiset(a) == multiset(b)
    ensures a == b
    decreases |a|
  {
    assert |a| == |multiset(a)| == |multiset(b)| == |b|;
    if |a| > 0 {
      assert a[0] == b[0] by {
        SortedHead(a);
        SortedHead(b);
        BoundsByMultiset(a, b, a[0]);
        BoundsByMultiset(a, b, b[0]);
        assert a[0] in a && b[0] in b;
      }
      MultisetTail(a, b);
      SortedTail(a);
      SortedTail(b);
      SortedUnique(a[1..], b[1..]);
      assert a == [a[0]] + a[1..];
      assert b == [b[0]] + b[1..];
    }
  }

  /** Two permutations of each other that agree from n on are permutations before n. */
  lemma PrefixPermutes<T>(r: seq<T>, s: seq<T>, n: nat)
    requires n <= |r| == |s| && multiset(r) == multiset(s) && r[n..] == s[n..]
    ensures multiset(r[..n]) == multiset(s[..n])
  {
    assert r == r[..n] + r[n..];
    assert s == s[..n] + s[n..];
    assert multiset(r[..n]) == multiset(r) - multiset(r[n..]);
  }
}
