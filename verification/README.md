# rtw containers and algorithms in Dafny

This project models the sequential core of `rtw`, a from-scratch
reimplementation of part of the C++ standard library, and proves what its
containers and algorithms promise. The library has two generations of
headers: the newer one under `include/rtw/...` and the older one under
`include/container/...` and `include/algorithm/...`. Both are modelled where
they differ. Where the older header takes the same steps, the newer
header's member models both. In `include/container/vector.hpp` these are:

- `reserve` (444-451);
- `at` (361-372);
- `emplace_back` / `push_back` (537-551);
- the forward move of `no_reallocate_emplace` (290-295);
- `emplace` (500-515);
- `insert(count)` (472-496);
- `erase` (516-524, 525-536);
- `resize` (259-273).

The older insertion sort (`include/algorithm/insertion_sort.hpp:8-32`) and
partition (`include/algorithm/quick_sort.hpp:8-27`) are likewise modelled by
`InsertionSort.InsertionSort` and `QuickSort.Partition`.

Modelling conventions:

- An iterator is an `int` index into the sequence. A range `[first, last)` is a
  pair of indices `lo, hi`. A heap operation takes the length `n` of the
  prefix it works on.
- A comparator is a parameter `lt: (T, T) -> bool`. Where the algorithm needs
  it, `Order.StrictWeakOrder(lt)` is a precondition, so `std::less` and
  `std::greater` are both covered.
- In-place algorithms are methods that take a sequence and return the
  rearranged one. "Only elements in `[lo, hi)` move" is the predicate
  `Order.PermutedWithin(s, r, lo, hi)`: same length, same prefix and suffix,
  and the same multiset inside the range.
- The vector is `Vector.Vector(elems, capacity)`, with `|elems| <= capacity` as
  its invariant. Its operations are functions. Their bodies do the element
  moves of `vector.hpp` through the primitives of `Storage`:
  - `std::move`;
  - `std::move_backward` / `std::copy_backward`;
  - `std::fill`;
  - `std::copy`.
  The contracts state the resulting splice and the capacity policy.
- An exception is the `Fail` case of `Vector.Outcome`.
- The queue, stack and priority queue adapters are datatypes over the sequence
  of their underlying container. The priority queue also carries its
  comparator, because `swap` exchanges it.

Modules and files:

- `order.dfy` — strict weak orders, sortedness, range splits and permutation within a range.
- `storage.dfy` — element moves inside a buffer.
- `lexicographic.dfy` — `std::lexicographical_compare` and the comparison operators derived from it.
- `vector.dfy` — the newer `rtw::vector`.
- `legacy_vector.dfy` — where the older vector differs.
- `heap.dfy` — adjust_heap, make_heap, sort_heap, and push_heap/pop_heap as the priority queue uses them.
- `priority_queue.dfy`, `queue.dfy`, `stack.dfy` — the adapters.
- `binary_search.dfy`, `legacy_binary_search.dfy`, `linear_search.dfy` — searching.
- `insertion_sort.dfy`, `quick_sort.dfy`, `legacy_quick_sort.dfy`, `intro_sort.dfy`, `merge_sort.dfy`, `partial_sort.dfy` — sorting.
- `order_statistic.dfy` — min, max, minmax and nth_element.
- `rank.dfy` — filtering and the link between an element's position and its rank in the sorted order.
- `tim_sort.dfy` — the two tim-sort helpers.

## Model

| member | source | states |
|---|---|---|
| Vector.ConstructorsSpec | include/rtw/container/vector.hpp:313-397 | the count constructors give size == capacity == count, all slots equal to the value; the range constructor holds exactly the range; a copy has the source's elements and capacity; a move takes elements and capacity and leaves the source empty with no buffer; move assignment exchanges; swapping twice restores both |
| Vector.Reserve | include/rtw/container/vector.hpp:590-597 | length_error exactly when n exceeds max_size; otherwise the elements are untouched, capacity never shrinks, and it becomes exactly n only when n exceeds the old capacity |
| Vector.ReserveIdempotent | include/rtw/container/vector.hpp:590-597 | a second reserve of the same amount changes nothing |
| Vector.ShrinkToFit | include/rtw/container/vector.hpp:601-603 | the elements stay and capacity equals size |
| Vector.ShrinkToFitSpec | include/rtw/container/vector.hpp:601-603 | shrinking is idempotent, and reserving the old capacity afterwards restores the original vector |
| Vector.AtAsWritten | include/rtw/container/vector.hpp:507-518 | the guard as written: out_of_range only for a position greater than size, so position == size passes |
| Vector.At | include/rtw/container/vector.hpp:507-518 | the corrected access: out_of_range exactly when the position is not below size, otherwise the element at that position |
| Vector.AtGuards | include/rtw/container/vector.hpp:507-518 | the two guards agree on every position except size, where the guard as written lets an access one past the end through |
| Vector.EmplaceBack | include/rtw/container/vector.hpp:714-722 | one element more, the new one last, earlier ones unchanged; capacity unchanged unless full, then 0 becomes 1 and c becomes 2c |
| Vector.PushBackPopBack | include/rtw/container/vector.hpp:708-726 | pop_back undoes push_back on the elements, and on the whole vector when no reallocation happened |
| Vector.PushAll | include/rtw/container/vector.hpp:708-722 | a run of push_backs appends the values in order |
| Vector.PushGrowth | include/rtw/container/vector.hpp:253-256 | after n pushes into a new vector the capacity is the least power of two not below n |
| Vector.PushWithinCapacity | include/rtw/container/vector.hpp:250-256 | pushes that fit in the spare capacity never reallocate |
| Vector.ShiftEmplace | include/rtw/container/vector.hpp:298-303 | the corrected non-reallocating insertion: a backward move of the tail gives old[..p] + [x] + old[p..] in the same buffer |
| Vector.ShiftEmplaceAsWritten | include/rtw/container/vector.hpp:298-303 | the forward move as written copies old[p] into every slot after p |
| Vector.EmplaceAsWrittenExample | include/rtw/container/vector.hpp:298-303 | {1, 2, 3} with a spare slot and 9 inserted at the front gives {9, 1, 1, 1} as written and {9, 1, 2, 3} as corrected |
| Vector.Emplace | include/rtw/container/vector.hpp:671-686 | emplace/insert at p as intended, with the backward shift of the Findings table: old[..p] + [x] + old[p..], returning p; capacity grows by the push_back policy only when the vector was full |
| Vector.EmplaceAsWritten | include/rtw/container/vector.hpp:671-686 | emplace with the forward shift as written: one element more, the prefix kept, x at p and, when no reallocation happens and p is inside, old[p] in every later slot; at the end or when full it is Vector.Emplace |
| Vector.EmplaceAsWrittenAgrees | include/rtw/container/vector.hpp:298-304 | the written emplace gives the intended vector exactly when p is the end, the vector is full, or every element from p on equals old[p] |
| Vector.ReallocateEmplace | include/rtw/container/vector.hpp:282-297 | insertion into a full vector: a buffer of the next capacity holding old[..p], then x, then old[p..] |
| Vector.Clear | include/rtw/container/vector.hpp:605-608 | clear leaves no elements and keeps the buffer's capacity |
| Vector.PopBack | include/rtw/container/vector.hpp:723-726 | pop_back removes exactly the last element and keeps the capacity |
| Vector.InsertFill | include/rtw/container/vector.hpp:615-639 | count copies are spliced at p and p is returned; capacity is kept if the new size fits, otherwise it becomes exactly the new size |
| Vector.InsertRange | include/rtw/container/vector.hpp:640-667 | the range is spliced at p and p is returned, with the same capacity rule |
| Vector.Erase | include/rtw/container/vector.hpp:687-695 | exactly the element at p goes, p is returned and capacity is kept |
| Vector.EraseRange | include/rtw/container/vector.hpp:696-707 | exactly [f, l) goes, f is returned and capacity is kept; an empty range changes nothing |
| Vector.InsertErase | include/rtw/container/vector.hpp:609-707 | erasing what emplace, insert(count) or insert(range) put in gives back the original elements |
| Vector.Resize | include/rtw/container/vector.hpp:267-281 | shrinking keeps the prefix and the capacity; growing appends copies of the value and reallocates to exactly count only when count exceeds capacity |
| Vector.ResizeRoundTrip | include/rtw/container/vector.hpp:727-732 | resizing to the current size is a no-op, and growing then shrinking back restores the elements |
| Vector.AssignRange | include/rtw/container/vector.hpp:479-498 | the contents become the range; capacity becomes its length only if that exceeds the old capacity |
| Vector.AssignFill | include/rtw/container/vector.hpp:459-478 | the contents become count copies of the value, with the same capacity rule |
| Vector.CopyAssign | include/rtw/container/vector.hpp:407-436 | the contents become the other's, with the same capacity rule |
| Vector.CopyAssignEqual | include/rtw/container/vector.hpp:407-436 | after copy assignment the two vectors compare equal |
| Vector.ElementsEqualSpec | include/rtw/container/vector.hpp:742-745 | the front-to-back element comparison holds exactly when the sequences are equal |
| Vector.ComparisonsSpec | include/rtw/container/vector.hpp:742-765 | == compares elements and ignores capacity; equal vectors are neither less nor greater; < is asymmetric and implies !=; <= is total |
| Vector.RemoveIf | include/rtw/container/vector.hpp:776-779 | one remove_if pass leaves exactly the kept elements, in order, in front of the returned index |
| Vector.EraseIf | include/rtw/container/vector.hpp:776-779 | erase_if keeps exactly the elements failing the predicate, in order, and keeps capacity |
| Vector.EraseValue | include/rtw/container/vector.hpp:772-775 | erase(container, value) removes every copy of value and leaves the count of every other value unchanged |
| LegacyVector.FillConstruct | include/container/vector.hpp:309-322 | the older count constructors give size == capacity == count with every element equal to the value |
| LegacyVector.FillConstructAgrees | include/container/vector.hpp:309-322 | going through resize gives the same vector as the newer direct construction |
| LegacyVector.ClearSpec | include/container/vector.hpp:459-465 | the older clear leaves size 0 and capacity 0 and is idempotent, and the next push allocates one slot; the newer clear keeps the buffer |
| Storage.MoveForward | include/rtw/container/vector.hpp:687-707 | the forward move erase uses: with the destination below the source every moved slot receives its source element, and nothing outside the destination changes |
| Storage.MoveBackward | include/rtw/container/vector.hpp:631-636 | the backward copy insert uses: with the destination above the source every moved slot receives its source element, and nothing outside the destination changes |
| Storage.MoveForwardOverlap | include/rtw/container/vector.hpp:298-303 | a forward move by one slot onto an overlapping range fills the destination with copies of the first source element |
| Lexicographic.LexLessSpec | include/rtw/container/vector.hpp:750-753 | lexicographical_compare holds exactly when at some position the prefixes before it are equivalent and either a is exhausted while b is not, or a's element is less than b's |
| Lexicographic.LexLessIrreflexive | include/rtw/container/vector.hpp:750-753 | no sequence is less than itself |
| Lexicographic.LexLessAsymmetric | include/rtw/container/vector.hpp:750-753 | two sequences are never each less than the other |
| Lexicographic.LexTrichotomy | include/rtw/container/vector.hpp:750-765 | neither is less exactly when both have the same length and equivalent elements |
| Lexicographic.DerivedComparisons | include/rtw/container/vector.hpp:754-765 | <= is < or equivalence, > is the negation of <=, and >= is <= reversed |
| Lexicographic.ContainerComparisons | include/rtw/container/queue.hpp:104-137 | for the adapters' comparisons (also include/rtw/container/stack.hpp:98-131): < is asymmetric; neither is less exactly when the sizes match and the elements are equivalent; equal contents are not less |
| Lexicographic.LexExamples | include/rtw/container/vector.hpp:750-753 | {1, 2} < {1, 3}; a proper prefix is less; {2} is not less than {1, 5} |
| Queue.Push | include/rtw/container/queue.hpp:79-88 | push puts the value at the back and keeps the front, unless the queue was empty |
| Queue.Pop | include/rtw/container/queue.hpp:89-91 | pop removes exactly the front: the old front followed by the new contents is the old contents; the back is kept |
| Queue.PushPopCommute | include/rtw/container/queue.hpp:79-91 | on a non-empty queue, push and pop commute |
| Queue.Fifo | include/rtw/container/queue.hpp:61-91 | reading front-then-pop after pushing xs yields the old contents and then xs in push order |
| Queue.DrainPush | include/rtw/container/queue.hpp:79-91 | a pushed value is read after everything already in the queue |
| Queue.DrainIsContents | include/rtw/container/queue.hpp:61-91 | reading front-then-pop until empty yields the contents front to back |
| Queue.QueueExample | include/rtw/container/queue.hpp:61-91 | pushing 1, 3, 2 gives size 3, front 1 and back 2; after a pop, size 2, front 3 and back 2 |
| Queue.ComparisonsSpec | include/rtw/container/queue.hpp:104-137 | the queue's operators compare the underlying containers, so Lexicographic.ContainerComparisons carries over; swap exchanges the contents |
| Stack.Push | include/rtw/container/stack.hpp:73-82 | push makes the value the top and adds one element |
| Stack.Pop | include/rtw/container/stack.hpp:83-85 | pop removes exactly the top: pushing the old top back gives the old stack |
| Stack.PushPop | include/rtw/container/stack.hpp:73-85 | pop undoes push, leaving everything below the top as it was |
| Stack.Lifo | include/rtw/container/stack.hpp:61-85 | reading top-then-pop after pushing xs yields xs reversed and then the old contents |
| Stack.StackExample | include/rtw/container/stack.hpp:61-85 | pushing 1, 3, 2 gives size 3 and top 2; after a pop, size 2 and top 3 |
| Stack.ComparisonsSpec | include/rtw/container/stack.hpp:98-131 | the stack's operators compare the underlying containers, so Lexicographic.ContainerComparisons carries over; swap exchanges the contents |
| Heap.HeapRootIsMax | include/algorithm/heap.hpp:8-27 | in a heap no element is greater than the root |
| Heap.AdjustHeap | include/algorithm/heap.hpp:8-27 | when both subtrees below parent are heaps, sift-down makes the subtree of parent a heap by permuting [parent, last); only slots of that subtree change, and when every edge above parent already held, the heap from parent on holds |
| Heap.MakeHeap | include/algorithm/heap.hpp:29-40 | the result is a heap and a permutation of the range; a range shorter than 2 is untouched |
| Heap.SortHeap | include/algorithm/heap.hpp:56-64 | a heap becomes a sorted permutation of itself |
| Heap.PushHeap | include/container/priority_queue.hpp:115-127 | a heap of n-1 slots plus a new last slot becomes a heap of n slots, permuting only that prefix |
| Heap.PopHeap | include/container/priority_queue.hpp:128-131 | the root moves to the last slot, the rest stays a heap, and the moved element is a greatest one |
| PriorityQueue.Construct | include/container/priority_queue.hpp:34-44 | construction from a container heapifies its elements, keeping their multiset |
| PriorityQueue.ConstructFromRange | include/container/priority_queue.hpp:83-97 | the range is appended to the container and the whole is heapified |
| PriorityQueue.RangeConstructExample | include/container/priority_queue.hpp:83-97 | {3, 1, 2} with {4, 5} appended under less-than holds five elements with top 5 |
| PriorityQueue.TopIsMaximum | include/container/priority_queue.hpp:106-114 | top, the front of the container, is a greatest element |
| PriorityQueue.Push | include/container/priority_queue.hpp:115-127 | one element more, the heap is restored, and the new top is not less than the old top or the value |
| PriorityQueue.Pop | include/container/priority_queue.hpp:128-131 | exactly one copy of the old top goes and the heap is restored |
| PriorityQueue.SwapSpec | include/container/priority_queue.hpp:132-136 | swap exchanges contents and comparators, both stay heaps, and swapping back restores them |
| BinarySearch.LowerBound | include/rtw/algorithm/binary_search.hpp:9-28 | the result lies in [first, last]; on a range partitioned by "less than value" it is the first index whose element is not less than the value |
| BinarySearch.UpperBound | include/rtw/algorithm/binary_search.hpp:37-56 | the result lies in [first, last]; on a range partitioned by "value less than" it is the first index whose element the value is less than |
| BinarySearch.EqualRangeSpec | include/rtw/algorithm/binary_search.hpp:79-83 | between the two bounds lie exactly the elements equivalent to the value, and lower <= upper |
| BinarySearch.EqualRange | include/rtw/algorithm/binary_search.hpp:79-83 | on a sorted range the returned pair brackets exactly the elements equivalent to the value |
| BinarySearch.BinarySearch | include/rtw/algorithm/binary_search.hpp:65-70 | on a sorted range the answer is true exactly when some element is equivalent to the value |
| BinarySearch.SearchExamples | include/rtw/algorithm/binary_search.hpp:37-56 | in {1, 2, 2, 2, 5} the bounds of 2 are 1 and 4; in {5, 4, 3, 2, 1} under greater the lower bound of 2 is 3 |
| LegacyBinarySearch.BinarySearch | include/algorithm/binary_search.hpp:8-48 | a returned position holds an element the value is not less than; on a range partitioned by "less than value" it is equivalent to the value with only smaller elements before it; on a sorted range it is the first equivalent element, or last when there is none |
| LegacyBinarySearch.LegacyExamples | include/algorithm/binary_search.hpp:8-27 | in {1, 2, 2, 2, 5} the value 2 is found at index 1; 4 is not found in {1, 3, 5, 7, 9} |
| LinearSearch.FirstSpec | include/algorithm/linear_search.hpp:18-28 | the reference search: the first index satisfying the predicate, no earlier index satisfying it |
| LinearSearch.FirstUnique | include/algorithm/linear_search.hpp:18-28 | any index with those two properties is that first index |
| LinearSearch.LinearSearchIf | include/algorithm/linear_search.hpp:18-28 | the first index whose element satisfies the predicate, or last |
| LinearSearch.LinearSearch | include/algorithm/linear_search.hpp:6-16 | the first index holding the value, every earlier element different; last exactly when the value is absent |
| InsertionSort.Insert | include/rtw/algorithm/insertion_sort.hpp:16-32 | one outer step: the prefix one slot longer is sorted, a permutation of the old prefix, and keeps the order of equivalent elements |
| InsertionSort.FindSlot | include/rtw/algorithm/insertion_sort.hpp:18-30 | the slot where the value lands: every element of the sorted prefix before it is not greater than the value, every one from it on is greater, so the value goes after its equivalents |
| InsertionSort.InsertionSort | include/rtw/algorithm/insertion_sort.hpp:9-33 | a sorted permutation in which equivalent elements keep their order; a range of length at most 1 is untouched |
| QuickSort.MedianIndex | include/rtw/algorithm/quick_sort.hpp:8-31 | picks one of the three positions, and its element is a median of the three |
| QuickSort.MoveMedianToFirst | include/rtw/algorithm/quick_sort.hpp:8-31 | swaps a median of the three elements into result; nothing else changes |
| QuickSort.Partition | include/rtw/algorithm/quick_sort.hpp:33-52 | a permutation of the range with a cut after first, strictly before last for two or more slots; nothing before the cut is greater than the pivot and nothing after it is less |
| QuickSort.PartitionPivot | include/rtw/algorithm/quick_sort.hpp:54-60 | partitions around a median of first, middle and last-1, with the cut strictly inside |
| QuickSort.QuickSort | include/rtw/algorithm/quick_sort.hpp:62-70 | a sorted permutation of the range; ranges of length at most 1 are untouched |
| LegacyQuickSort.QuickSort | include/algorithm/quick_sort.hpp:29-37 | the doubly recursive quick sort yields a sorted permutation |
| IntroSort.HeapSort | include/rtw/algorithm/intro_sort.hpp:25-29 | the make_heap + sort_heap fallback sorts the block and permutes only it |
| IntroSort.IntroSortLoop | include/rtw/algorithm/intro_sort.hpp:21-35 | a permutation of the range in which any two slots 32 or more apart are in order; with depth 0 a long range is heap-sorted; ranges of at most 32 slots are untouched |
| IntroSort.IntroSort | include/rtw/algorithm/intro_sort.hpp:37-49 | a sorted permutation for every depth budget |
| MergeSort.MergeSeqPermutes | include/rtw/algorithm/merge_sort.hpp:11-32 | the merged run is a permutation of the two runs |
| MergeSort.MergeSeqSorted | include/rtw/algorithm/merge_sort.hpp:11-32 | merging two sorted runs gives a sorted run |
| MergeSort.MergeTieTakesRight | include/rtw/algorithm/merge_sort.hpp:20-27 | on equivalent heads the right run's element is emitted first |
| MergeSort.MergeIsNotStable | include/rtw/algorithm/merge_sort.hpp:20-27 | merging (1,0) with (1,1) by first component reverses their order |
| MergeSort.Merge | include/rtw/algorithm/merge_sort.hpp:11-32 | the range becomes the merge of its two halves; the buffer is used only up to the range's length |
| MergeSort.MergeRuns | include/rtw/algorithm/merge_sort.hpp:19-31 | the two-cursor loop produces the merge of the two runs |
| MergeSort.MergeHeadsLoop | include/rtw/algorithm/merge_sort.hpp:19-28 | while both runs are non-empty the loop emits the head the merge picks; it stops with one run exhausted, and what it emitted followed by the merge of the leftovers is the merge of the whole runs |
| MergeSort.MergeSort | include/rtw/algorithm/merge_sort.hpp:34-43 | a sorted permutation of the range; length at most 1 untouched |
| MergeSort.Sort | include/rtw/algorithm/merge_sort.hpp:45-60 | the top-level sort with a buffer of the range's length yields a sorted permutation |
| PartialSort.Step | include/rtw/algorithm/partial_sort.hpp:12-17 | one scan step keeps the prefix a heap and nothing scanned so far below anything in it |
| PartialSort.PartialSort | include/rtw/algorithm/partial_sort.hpp:8-19 | a permutation whose prefix is sorted and no greater than anything after it |
| PartialSort.PartialSortAgrees | include/rtw/algorithm/partial_sort.hpp:8-19 | the prefix is equivalent, slot by slot, to the prefix of the fully sorted range |
| OrderStatistic.MinElement | include/algorithm/order_statistic.hpp:11-33 | the first index of a minimum; first on an empty range |
| OrderStatistic.FirstMinimumUnique | include/algorithm/order_statistic.hpp:11-33 | the first minimum is unique |
| OrderStatistic.MaxElement | include/algorithm/order_statistic.hpp:35-57 | the first index of a maximum; first on an empty range |
| OrderStatistic.FirstMaximumUnique | include/algorithm/order_statistic.hpp:35-57 | the first maximum is unique |
| OrderStatistic.UpdateExtremes | include/algorithm/order_statistic.hpp:78-109 | one pairwise step keeps the candidates a minimum and a maximum of what has been scanned |
| OrderStatistic.MinMaxElement | include/algorithm/order_statistic.hpp:60-117 | (first, first) for fewer than two elements; otherwise a minimum and a maximum |
| OrderStatistic.NthElement | include/algorithm/order_statistic.hpp:119-131 | a permutation in which nothing before nth is greater and nothing after it is less than the element at nth; length at most 1 untouched |
| OrderStatistic.NthElementAgrees | include/algorithm/order_statistic.hpp:119-131 | the element at nth is equivalent to the nth element of the sorted range |
| Rank.RankAgrees | include/algorithm/order_statistic.hpp:119-131 | an element with nothing greater before it and nothing less after it is equivalent to the sorted element at its index |
| Rank.SortedPrefixAgrees | include/rtw/algorithm/partial_sort.hpp:8-19 | a sorted prefix no greater than the rest agrees slot by slot with the sorted range |
| TimSort.MergeComputeMinrun | include/rtw/algorithm/tim_sort.hpp:13-24 | n below 64 is returned unchanged; otherwise n shifted right by the least shift bringing it below 64, plus one if a shifted-out bit was set, which lies in [32, 64] |
| TimSort.MinrunShiftUnique | include/rtw/algorithm/tim_sort.hpp:13-24 | that least shift is unique |
| TimSort.MinrunExamples | include/rtw/algorithm/tim_sort.hpp:13-24 | 2112 gives 33 and 256 gives 32 |
| TimSort.CountRun | include/rtw/algorithm/tim_sort.hpp:27-58 | one element gives 1 and ascending; otherwise the longest prefix of length at least 2 that is strictly descending when the second element is less than the first, and non-descending otherwise |

## Left out

- Allocators: allocator objects, propagation traits, allocator-extended constructors and `get_allocator` are left out; the buffer is a sequence plus a capacity.
- Raw memory: both headers assign into unconstructed slots past the end. The newer one does it with `std::move` in `no_reallocate_emplace` and with `std::copy_backward` in both in-place `insert` overloads; the older vector moves into uninitialised storage. All of these are modelled as ordinary element moves.
- Vector.InsertFill / Vector.EraseValue / Vector.EmplaceBack / Vector.Emplace / Vector.Resize: value arguments are modelled as copies taken before the call. A value passed by reference that names one of the vector's own elements is out of scope. `insert(pos, count, value)` would fill from the already shifted slot; `erase(c, value)` hands the reference to `std::remove`, which can overwrite it. `push_back`, `emplace_back` and `resize` on a full vector would read it after the old buffer is freed, which is undefined behaviour.
- Exception safety and allocation failure are left out; the code has no handling for them.
- `max_size` is a parameter of `Vector.Reserve`, not the allocator's value.
- `size_type` is unbounded here. Overflow of `size() + count`, and of `2 * capacity`, is left out.
- `front`, `back`, `operator[]`, `data`, the iterator accessors, `empty`, `size` and `capacity` are plain reads of the sequence. They appear only inside other contracts.
- The self-assignment check of `operator=` is left out, because assigning a vector its own elements gives the same elements.
- `std::remove_if` moving an element onto itself is modelled as a copy.
- Default-comparator overloads are left out; they are the comparator overloads with `lt` as less-than.
- The introsort depth budget `intro_sort_depth_limit` computes `2 * log2(n)` in floating point. Here it is an arbitrary `nat` parameter.
- Vector.Emplace: models the intended backward shift, not the forward move as written; Vector.EmplaceAsWritten models the written one and Vector.EmplaceAsWrittenAgrees says when they agree.
- IntroSort.IntroSortLoop: states that the whole range is presorted. This is weaker than the block decomposition the loop produces, and it is enough for the final insertion sort pass.
- `tim_sort` in include/rtw/algorithm/tim_sort.hpp is unfinished, so its body is left out; only `merge_compute_minrun` and `count_run` are modelled.
- TimSort.CountRun: requires a non-empty range, as every caller passes one.
- MergeSort.Sort: merge sort is not stable (ties take the right half), so no stability is claimed. MergeSort.MergeIsNotStable exhibits the reordering.
- OrderStatistic.MinMaxElement: states that a minimum and a maximum are returned, not which of several equivalent ones.
- PriorityQueue.Push: states that the new top is not less than the old top or the value, not which of several equivalent elements sits at the root.
- `push_heap` and `pop_heap`, which the priority queue calls, are not part of the shown headers. Heap.PushHeap and Heap.PopHeap are a sift-up and a swap-then-sift-down with the contracts the priority queue needs.
- `set_heap_key` is not part of this model.
- Complexity claims are left out.
- The socket wrappers, the observer pattern and the benchmark driver are outside the modelled core.

## Findings

| source | as written | input that shows it | evidently intended | confidence | as-written member | corrected member |
|---|---|---|---|---|---|---|
| include/rtw/container/vector.hpp:507-518 | `at` throws out_of_range only when the position is greater than size (also include/container/vector.hpp:361-372) | a vector of size 3 and position 3: the guard passes and the element one past the end is returned | out_of_range for every position not below size | not executed | Vector.AtAsWritten | Vector.At |
| include/rtw/container/vector.hpp:298-303 | `no_reallocate_emplace` shifts the tail with a forward `std::move` onto an overlapping destination one slot higher (also include/container/vector.hpp:290-295) | {1, 2, 3} with capacity 4, emplace 9 at position 0: the element-by-element forward move gives {9, 1, 1, 1}. A memmove for trivially copyable types hides it: the `int` case of test/test_vector.cpp (InsertLvalue) expects the spliced result, which a standard library that moves `int` with memmove delivers; with element-wise move assignment of a type whose move leaves the source intact (such as `int`), every later slot receives old[p]; for a type whose move empties the source (such as `std::string`), slots p+1 to n-1 hold moved-from values and only slot n holds old[p]. Vector.ShiftEmplaceAsWritten models the first reading | a backward move (`std::move_backward`), giving {9, 1, 2, 3} | not executed | Vector.ShiftEmplaceAsWritten | Vector.ShiftEmplace |
