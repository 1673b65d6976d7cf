/** The implicit binary tree that both heaps lay out in a flat sequence:
    node i has children 2i+1 and 2i+2, and node k > 0 has parent (k-1)/2. */
module ImplicitTree {

  function Parent(k: nat): nat
    requires k > 0
  {
    (k - 1) / 2
  }

  function Left(i: nat): nat { 2 * i + 1 }

  function Right(i: nat): nat { 2 * i + 2 }

  /** Node k lies in the subtree rooted at node r (r itself included). */
  ghost predicate InSubtree(r: nat, k: nat)
    decreases k
  {
    k == r || (k > r && InSubtree(r, Parent(k)))
  }

  /** Exchange of the elements at positions i and j. */
  function Swap<T>(s: seq<T>, i: nat, j: nat): (r: seq<T>)
    requires i < |s| && j < |s|
    ensures |r| == |s| && r[i] == s[j] && r[j] == s[i]
    ensures forall k :: 0 <= k < |s| && k != i && k != j ==> r[k] == s[k]
    ensures multiset(r) == multiset(s)
  {
    s[i := s[j]][j := s[i]]
  }

  lemma ChildrenOf(i: nat)
    ensures Parent(Left(i)) == i && Parent(Right(i)) == i
    ensures InSubtree(i, Left(i)) && InSubtree(i, Right(i))
  {
    assert InSubtree(i, Parent(Left(i)));
    assert InSubtree(i, Parent(Right(i)));
  }

  /** A node with parent p is the left or the right child of p. */
  lemma ParentOf(k: nat)
    requires k > 0
    ensures k == Left(Parent(k)) || k == Right(Parent(k))
  {
  }

  /** Every node lies in the subtree of the root. */
  lemma {:induction false} UnderRoot(k: nat)
    ensures InSubtree(0, k)
    decreases k
  {
    if k > 0 {
      UnderRoot(Parent(k));
    }
  }

  /** A subtree of a node of the subtree of a is itself inside the subtree of a. */
  lemma {:induction false} SubtreeTransitive(a: nat, b: nat, k: nat)
    requires InSubtree(a, b) && InSubtree(b, k)
    ensures InSubtree(a, k)
    decreases k
  {
    if k != b {
      SubtreeTransitive(a, b, Parent(k));
    }
  }
}
