# Heaps, a task priority queue and three sorts, in Dafny

This project models three Python files:

- `priorityQ.py` holds a task-scheduling priority queue. It is a binary min-heap of `Task` records kept in a list, and tasks are ordered by their `priority` field alone.
- `heapsort.py` holds an in-place max-heap heapsort.
- `heap_comparison.py` holds the sorting baselines that the heapsort is compared with: a copy of the heapsort, a three-way quicksort built from list comprehensions, and a top-down merge sort with a two-index merge loop.

Both heaps use the same implicit binary tree. Node `i` has children `2i+1` and `2i+2`, and node `k > 0` has parent `(k-1)//2`. Module `ImplicitTree` (`implicit_tree.dfy`) states this layout once. It defines `InSubtree(r, k)`, which says that node `k` lies in the subtree rooted at `r`, and the sift-down lemmas use it to say exactly which positions a repair may touch.

## How the model is built

Each heap repair is written twice:

- as a function on sequences: `SiftUp` and `SiftDown` for the priority queue, and `SiftDownMax` for heapsort. These functions follow the branches of the Python code exactly, and the lemmas state their properties.
- as imperative code that does the same steps in place. `PriorityQ.PriorityQueue` is a class whose field `heap` its methods reassign. `HeapSorting` works on an `array<int>`. Each method's postcondition says that its new state equals the function applied to the old state. Each loop carries the invariants the proof needs: the heap-building invariant, and the sorted-suffix invariant of the extraction loop.

The sorts in `heap_comparison.py` are pure functions:

- `QuickSort` uses `Filter` for the three comprehensions.
- `MergeSort` uses `Merged`, the merge stated as a value.

`Merge` is the two-index loop, proved equal to `Merged`. `SortedSeqs.SortedUnique` proves that a sorted permutation is unique. With it, quicksort, merge sort and the in-place heapsort are proved to return the same list.

Ordering follows `Task.__lt__`, which compares priorities only (`Task.Less`). Every comparison in the code is strict, so equal priorities never cause a swap, and the lemmas about `Smallest` and `Largest` state this tie-break. Each queue method preserves the min-heap invariant (`Valid`): it is stated as `old(Valid()) ==> Valid()`, with no precondition, because the Python methods accept any list. Each queue method also states its length and multiset effect, on any list and not only on a heap.

The script at the end of `priorityQ.py` is `PriorityQ.DemoScenario`. The comment at `priorityQ.py:124` says the second extraction returns task 2. The code returns task 1, and the model follows the code. After the first extraction the list is `[task 2, task 1, task 3]`, so `decrease_key(1, 0)` lowers task 1, which is then extracted with priority 0.

## Model

| member | source | states |
|---|---|---|
| ImplicitTree.ChildrenOf | priorityQ.py:65-67 | the parent formula `(k-1)//2` inverts both child formulas, and both children lie in the subtree of their parent |
| ImplicitTree.ParentOf | priorityQ.py:43 | every node `k > 0` is the left or the right child of `(k-1)//2` |
| PriorityQ.Task.Less | priorityQ.py:17-22 | `__lt__` compares priorities only; a task never precedes itself |
| PriorityQ.LessOrdersByPriority | priorityQ.py:17-22 | `__lt__` is irreflexive, asymmetric and transitive; tasks of equal priority precede each other in neither direction and are interchangeable in every comparison, whatever their id, arrival and deadline |
| PriorityQ.WithPriority | priorityQ.py:84 | the assignment `self.heap[index].priority = new_priority`: same length, only that slot changes, and it keeps its id, arrival and deadline; the multiset loses the old task and gains the re-prioritised one |
| PriorityQ.SiftUp | priorityQ.py:43-48 | `_heapify_up` as a function on the list: swap with the parent while strictly smaller, stop at the root; keeps the length |
| PriorityQ.SiftUpPermutes | priorityQ.py:43-48 | `_heapify_up` only permutes the list, and every position that is not an ancestor of the start index keeps its task |
| PriorityQ.SiftUpRestoresHeap | priorityQ.py:38-48 | if the list is a min-heap except between the start index and its parent (and that parent is no larger than the start index's children), then after `_heapify_up` it is a min-heap |
| PriorityQ.Smallest | priorityQ.py:65-73 | `smallest` is the index or one of its existing children; it moves to the left child only if strictly smaller, and to the right child only if strictly smaller than the current choice; the chosen priority is minimal among the three |
| PriorityQ.SiftDown | priorityQ.py:64-78 | `_heapify_down` as a function on the list: swap with the child `Smallest` picks while that is not the index itself, and follow it down; keeps the length |
| PriorityQ.SiftDownPermutes | priorityQ.py:64-78 | `_heapify_down` only permutes the list, and every position outside the subtree of the index keeps its task |
| PriorityQ.SiftDownFixesSubtree | priorityQ.py:64-78 | if the subtree at the index is ordered everywhere except below the index itself, it is a min-heap afterwards |
| PriorityQ.MinAtRoot | priorityQ.py:54 | in a min-heap the root has the smallest priority |
| PriorityQ.InsertKeepsHeap | priorityQ.py:34-36 | append then `_heapify_up` on a min-heap gives a min-heap one longer, with the old multiset plus the task |
| PriorityQ.DecreaseKeyKeepsHeap | priorityQ.py:84-85 | lowering one priority and sifting up keeps a min-heap of the same length; the only change to the multiset is that this task is replaced by the re-prioritised one |
| PriorityQ.IncreaseKeyKeepsHeap | priorityQ.py:93-94 | raising one priority and sifting down keeps a min-heap of the same length; the only change to the multiset is that this task is replaced by the re-prioritised one |
| PriorityQ.ExtractMinAsWritten | priorityQ.py:51-57 | `extract_min` as written: None exactly on an empty list, IndexError exactly on one task (and the list is then empty); from two tasks on, the root, and a list one shorter holding exactly the other tasks |
| PriorityQ.ExtractSingletonFails | priorityQ.py:55 | on a one-element list the code as written loses the task and raises IndexError, whereas the intended operation returns the task |
| PriorityQ.ExtractMinIntended | priorityQ.py:51-57 | the result is None exactly for an empty queue; otherwise it is the root, and the list is one shorter and holds exactly the other tasks |
| PriorityQ.RefillRootKeepsHeap | priorityQ.py:54-56 | moving the last task over the root of a min-heap of two or more tasks and sifting it down gives a min-heap of the other tasks |
| PriorityQ.ExtractMinCorrect | priorityQ.py:51-57 | from a min-heap: None and an empty list when empty; otherwise the root (smallest priority), and a min-heap of the remaining tasks one shorter; the code as written agrees everywhere except on one task |
| PriorityQ.Drain | priorityQ.py:51-57 | calling the intended extraction until it yields None returns as many tasks as the list held, and exactly those tasks |
| PriorityQ.DrainSorted | priorityQ.py:51-57 | extracting until empty yields every task exactly once, in non-decreasing priority order |
| PriorityQ.PriorityQueue.constructor | priorityQ.py:30-31 | a new queue holds an empty list, which is a min-heap |
| PriorityQ.PriorityQueue.Insert | priorityQ.py:34-36 | the new list is SiftUp of the old list plus the task; it is one longer, holds the old tasks plus the new one, and is a min-heap if the old one was |
| PriorityQ.PriorityQueue.HeapifyUp | priorityQ.py:38-48 | the while loop computes SiftUp from the given index |
| PriorityQ.PriorityQueue.ExtractMin | priorityQ.py:51-57 | result and new list are ExtractMinAsWritten of the old list: None on empty, IndexError and an empty list on one task; from two tasks on, the old root, with the list one shorter and holding the old tasks minus the root; the min-heap is kept |
| PriorityQ.PriorityQueue.HeapifyDown | priorityQ.py:64-78 | the recursive swaps compute SiftDown from the given index |
| PriorityQ.PriorityQueue.DecreaseKey | priorityQ.py:81-85 | a new priority that is not strictly smaller leaves the list unchanged; otherwise the list is SiftUp of the list with that priority replaced, and its multiset has the old task replaced by the re-prioritised one; same length; min-heap kept |
| PriorityQ.PriorityQueue.IncreaseKey | priorityQ.py:87-94 | a new priority that is not strictly larger leaves the list unchanged; otherwise the list is SiftDown of the list with that priority replaced, and its multiset has the old task replaced by the re-prioritised one; same length; min-heap kept |
| PriorityQ.PriorityQueue.IsEmpty | priorityQ.py:98-101 | true exactly when the list is empty |
| PriorityQ.DemoFirstInserts | priorityQ.py:114-116 | inserting priorities 5, 3, 4 leaves the list [task 2, task 1, task 3] |
| PriorityQ.DemoFourthInsert | priorityQ.py:117 | inserting task 4 (priority 1) sifts it to the root: [task 4, task 2, task 3, task 1] |
| PriorityQ.DemoFirstExtract | priorityQ.py:120 | the first extraction returns task 4 and leaves [task 2, task 1, task 3] |
| PriorityQ.DemoDecreaseKey | priorityQ.py:123 | `decrease_key(1, 0)` lowers task 1, which rises to the root |
| PriorityQ.DemoSecondExtract | priorityQ.py:124 | the second extraction returns task 1 with priority 0 |
| PriorityQ.DemoFill | priorityQ.py:105-117 | the four insertions give a valid queue with list [task 4, task 2, task 3, task 1] |
| PriorityQ.DemoScenario | priorityQ.py:103-127 | the script returns task 4, then task 1 with priority 0, and the queue is not empty |
| HeapSorting.Largest | heapsort.py:8-18 | `largest` is i or an existing child below n; it moves to the left child only if strictly greater, and to the right only if strictly greater than the current choice; the chosen value is maximal among the three |
| HeapSorting.SiftDownMax | heapsort.py:1-24 | `max_heapify` as a function on the list: swap with the child `Largest` picks while that is not i, and follow it down; keeps the length |
| HeapSorting.SiftDownMaxPermutes | heapsort.py:13-24 | max_heapify only permutes; positions at or beyond n and outside the subtree of i are unchanged |
| HeapSorting.SiftDownMaxPrefix | heapsort.py:13-24 | the first n cells are permuted among themselves and `arr[n:]` is untouched |
| HeapSorting.SiftDownMaxFixesSubtree | heapsort.py:1-24 | if the subtree at i is a max-heap within the first n cells everywhere except below i, it is a max-heap afterwards |
| HeapSorting.BuildStep | heapsort.py:33-34 | heapifying node i when every later node heads a max-heap makes every node from i on head one, as a permutation |
| HeapSorting.MaxAtRoot | heapsort.py:48 | the root of a max-heap is its largest element |
| HeapSorting.SwapRoot | heapsort.py:49 | swapping the root of a max-heap of i+1 cells behind it extends the sorted, dominating tail to start at i |
| HeapSorting.SiftKeepsTail | heapsort.py:51 | max_heapify on the first i cells keeps the sorted tail from i on and its dominance over the prefix |
| HeapSorting.ExtractStep | heapsort.py:47-51 | one turn of the extraction loop keeps a max-heap of the first i cells, a sorted tail from i on whose every element is at least every earlier one, and the multiset |
| HeapSorting.MaxHeapify | heapsort.py:1-24 | the recursive in-place swaps compute SiftDownMax on the array's contents |
| HeapSorting.BuildMaxHeap | heapsort.py:26-34 | the whole array becomes a max-heap and is a permutation of its input |
| HeapSorting.HeapSort | heapsort.py:36-51 | the array ends sorted non-decreasing, as a permutation of its input; arrays of length 0 or 1 are unchanged |
| HeapSortScript.HeapSortExample | heapsort.py:54-58 | [12, 11, 13, 5, 6, 7] is sorted into [5, 6, 7, 11, 12, 13] |
| HeapComparison.Filter | heap_comparison.py:40-42 | a comprehension keeps exactly the elements satisfying its condition, each as often as in the input, and is no longer than the input |
| HeapComparison.Below | heap_comparison.py:40 | `left` holds every element smaller than the pivot, as often as the input does, and nothing else |
| HeapComparison.Equal | heap_comparison.py:41 | `middle` holds every copy of the pivot, and nothing else |
| HeapComparison.Above | heap_comparison.py:42 | `right` holds every element larger than the pivot, as often as the input does, and nothing else |
| HeapComparison.Partition | heap_comparison.py:39-42 | left, middle and right hold exactly the elements below, equal to and above the pivot; together they make up the input; middle is non-empty, so left and right are strictly shorter |
| HeapComparison.SortedJoin | heap_comparison.py:43 | sorted smaller elements, then copies of the pivot, then sorted larger elements, form a sorted list |
| HeapComparison.QuickSort | heap_comparison.py:36-43 | the result is sorted and a permutation of the argument; lists of length at most 1 come back unchanged |
| HeapComparison.Merged | heap_comparison.py:55-67 | merging gives a list of length `len(left)+len(right)` that is a permutation of `left + right` |
| HeapComparison.MergedSorted | heap_comparison.py:55-67 | merging two sorted lists gives a sorted list |
| HeapComparison.MergeTakeLeft | heap_comparison.py:59-61 | appending `left[i]` when it is strictly smaller keeps `result` a prefix of the merged list |
| HeapComparison.MergeTakeRight | heap_comparison.py:62-64 | appending `right[j]` on ties or when smaller keeps `result` a prefix of the merged list |
| HeapComparison.MergeFinish | heap_comparison.py:65-66 | once either list is used up, extending by both remainders completes the merged list |
| HeapComparison.Merge | heap_comparison.py:55-67 | the two-index loop returns exactly Merged(left, right) |
| HeapComparison.MergeSort | heap_comparison.py:46-53 | the result is sorted and a permutation of the argument; lists of length at most 1 come back unchanged |
| HeapComparison.SortsAgree | heap_comparison.py:36-53 | quicksort and merge_sort return the same list on every input |
| HeapComparison.HeapSort | heap_comparison.py:28-33 | the copied heapsort leaves the array equal to both merge_sort and quicksort of its old contents |

## Left out

- The benchmark harness of `heap_comparison.py` (`test_sorting_algorithms`, the `distributions`, `sizes` and the module-level run) is not modelled. It consists of wall-clock timing, random inputs and formatted printing, with no functional result.
- The `print` calls of both scripts are left out. Only the values they would print are stated, in `PriorityQ.DemoScenario` and `HeapSortScript.HeapSortExample`.
- The copies of `max_heapify` and `build_max_heap` at `heap_comparison.py:10-26` are the same code as `heapsort.py:1-34`, so they are modelled once, in `HeapSorting`. `HeapComparison.HeapSort` calls `HeapSorting.HeapSort`. The copy reads `len(arr)` after building the heap rather than before, which makes no difference, because building does not change the length.
- `Task` objects are immutable values here. `decrease_key` and `increase_key` change a shared `Task` object in place, and any other reference to that object sees the change. The model replaces the task in one slot of the list, so this aliasing is not captured, not even inside the queue itself. If one task object is inserted twice, both slots change together. For example, tasks a(1), t(5), b(6) and t again give the list `[a, t, b, t]`. `decrease_key(3, 0)` then lowers both copies of t, and `_heapify_up` stops at once because `t < t` is false. The list left behind, with priorities `[1, 0, 6, 0]`, is not a heap.
- PriorityQ.PriorityQueue.DecreaseKey: the claim `old(Valid()) ==> Valid()` assumes that no task object is stored in the list twice; the aliasing line above shows the case it does not cover.
- PriorityQ.PriorityQueue.IncreaseKey: the claim `old(Valid()) ==> Valid()` assumes that no task object is stored in the list twice, for the same reason.
- PriorityQ.PriorityQueue.DecreaseKey: requires `index < |heap|`. The Python method raises IndexError for an index at or past the end, and negative indices wrap around, so neither case is modelled.
- PriorityQ.PriorityQueue.IncreaseKey: requires `index < |heap|`, for the same reason.
- PriorityQ.PriorityQueue.HeapifyUp: requires `index < |heap|`. The private helper is only called with such indices.
- PriorityQ.PriorityQueue.HeapifyDown: requires `index < |heap|`, for the same reason.
- Priorities and array elements are mathematical integers. Python's comparison of arbitrary or floating-point values, and of mixed types, is not modelled.
- `merge` puts the head of `right` first on equal values. `Merged` follows this, but with integer elements the choice cannot be observed in the result, so no lemma states it.
- The complexity claims in the comments are not modelled.

## Findings

| source | as written | input that shows it | evidently intended | confidence | as-written member | corrected member |
|---|---|---|---|---|---|---|
| priorityQ.py:55 | `self.heap[0] = self.heap.pop()` pops before it assigns, so with one task the list is already empty when `heap[0]` is assigned | a queue holding one task: `extract_min()` removes the task and raises IndexError instead of returning it | return the only task and leave the queue empty | high (not executed) | PriorityQ.ExtractMinAsWritten, with PriorityQ.ExtractSingletonFails | PriorityQ.ExtractMinIntended, with PriorityQ.ExtractMinCorrect and PriorityQ.DrainSorted |

`PriorityQ.PriorityQueue.ExtractMin` keeps the behaviour as written. `PriorityQ.Drain`, which models extracting until the queue is empty, uses the corrected operation.
