/** The script at the end of heapsort.py: [12, 11, 13, 5, 6, 7] sorted in place. */
module HeapSortScript {
  import opened SortedSeqs
  import HeapSorting

  /** The expected output is in order. */
  lemma ExampleSorted()
    ensures Sorted([5, 6, 7, 11, 12, 13])
  {
  }

  /** The expected output holds the same numbers as the input. */
  lemma ExamplePermutes()
    ensures multiset([12, 11, 13, 5, 6, 7]) == multiset([5, 6, 7, 11, 12, 13])
  {
  }

  method HeapSortExample() returns (sorted: seq<int>)
    ensures sorted == [5, 6, 7, 11, 12, 13]
  {
    var a := new int[6];
    a[0], a[1], a[2], a[3], a[4], a[5] := 12, 11, 13, 5, 6, 7;
    assert a[..] == [12, 11, 13, 5, 6, 7];
    HeapSorting.HeapSort(a);
    sorted := a[..];
    ExampleSorted();
    ExamplePermutes();
    SortedUnique(sorted, [5, 6, 7, 11, 12, 13]);
  }
}
