# Priority queues of `gkimfl.util` in Dafny

This project models three in-memory priority-queue structures from the Java package `gkimfl.util`:

- **`Heap`**: an array-backed binary min-heap. It keeps a caller-owned position tracker (`MutableInt`) up to date, so that `removeElem` can find an element in constant time.
- **`IntervalHeap`**: a double-ended priority queue packed into one array.
  - The even slots form a min-heap and the odd slots a max-heap.
  - Each pair of slots `(2k, 2k+1)` is an interval, with its low end not above its high end.
  - A lone last slot must also not lie above its max-heap parent.
- **`DualQueue`**: a double-ended queue made of two single-ended queues, `fore` and `back`, that always hold the same elements.

Elements are `Elem(id, key)`:

- The comparator is comparison of `key`s. This is a total preorder, so several elements may compare equal.
- The `id` gives each element an identity. The position tracker is keyed by that identity.

Modules:

| module | file | models |
|---|---|---|
| `Elements` | `elements.dfy` | elements, the comparator, and the list primitives `Collections.swap` and "move the last element into slot `i`" |
| `IntervalIndex` | `interval_index.dfy` | the shift-and-mask parent arithmetic of the interval heap |
| `IntervalHeap` | `interval_heap.dfy` | the interval heap: `lessSwap`, the four sift routines, `offer`, the peeks and polls, `removeElem`, `size`, `isEmpty`, `clear`, and the proofs that the invariants survive |
| `IntervalHeapify` | `interval_heapify.dfy` | `heapify` as written and why it can fail, the corrected rebuild, and `addAll` |
| `IntervalScenarios` | `interval_scenarios.dfy` | draining from either end, and the library's own test data |
| `Heap` | `heap.dfy` | the binary heap, with loop-based `pullUp`/`pushDown` that keep the source's "hole" technique and the tracker updates |
| `HeapScenarios` | `heap_scenarios.dfy` | the binary heap on the library's test data |
| `DualQueues` | `dual_queue.dfy` | the dual queue over two abstract components |

In the interval heap, the sift routines are tail-recursive functions that follow the Java loops step by step. Their contracts have the form "if the heap was in the state this routine expects, then afterwards ...". The routines therefore apply to any input, and the as-written `heapify` runs the very same definitions.

## Model

| member | source | states |
|---|---|---|
| IntervalIndex.MinParent | src/gkimfl/util/IntervalHeap.java:261-270 | for an even slot `i >= 2`, `((i>>1)-1)&~1` is an even slot below `i`, and `i` is one of its two min-heap children `2p+2`, `2p+4`; so `pullUpMin` climbs strictly and ends at slot 0 |
| IntervalIndex.MaxParent | src/gkimfl/util/IntervalHeap.java:250-259 | for a slot `i >= 2`, `((i>>1)-1)\|1` is an odd slot below `i`, and `i` lies among its children `2p .. 2p+3`; so `pullUpMax` climbs strictly and ends at slot 1 |
| IntervalIndex.MinChildren | src/gkimfl/util/IntervalHeap.java:294-311 | the child formula `(i<<1)+2` of `pushDownMin` and its right neighbour are exactly the slots whose min-heap parent is `i` (both directions) |
| IntervalIndex.MaxChildren | src/gkimfl/util/IntervalHeap.java:272-292 | the child formula `(i<<1)+1` of `pushDownMax` and the slots up to three further are exactly the slots whose max-heap parent is `i` (both directions) |
| IntervalIndex.ParentsOfInterval | src/gkimfl/util/IntervalHeap.java:250-270 | the two ends of an interval hang below the same parent interval |
| IntervalHeap.LessSwap | src/gkimfl/util/IntervalHeap.java:242-248 | it reports a swap exactly when the slot meant to be greater was less; afterwards the `iMin` slot is not above the `iMax` slot |
| IntervalHeap.LessSwapPermutes | src/gkimfl/util/IntervalHeap.java:242-248 | `lessSwap` keeps the stored multiset |
| IntervalHeap.PullUpMin | src/gkimfl/util/IntervalHeap.java:261-270 | from a heap that is valid except that slot `i` may be below its min-heap parent, the climb yields a heap satisfying all three invariants |
| IntervalHeap.PullUpMax | src/gkimfl/util/IntervalHeap.java:250-259 | from a heap that is valid except that slot `i` may be above its max-heap parent, the climb yields a heap satisfying all three invariants |
| IntervalHeap.PushDownMin | src/gkimfl/util/IntervalHeap.java:294-311 | from a heap whose slot `i` may be above its children, the descent stops at an even slot at or below `i`; both heap orders then hold, and only the interval at the stopping slot may be reversed, which happens only when that slot has no min-heap children |
| IntervalHeap.PushDownMax | src/gkimfl/util/IntervalHeap.java:272-292 | from a heap whose slot `i` may be below its children, the descent stops at an odd slot at or below `i`; both heap orders then hold, the interval there may be reversed only at a max-heap leaf, and a lone child is not above it (the assertion at lines 277-279) |
| IntervalHeap.PullUpMinPermutes | src/gkimfl/util/IntervalHeap.java:261-270 | `pullUpMin` keeps the stored multiset |
| IntervalHeap.PullUpMaxPermutes | src/gkimfl/util/IntervalHeap.java:250-259 | `pullUpMax` keeps the stored multiset |
| IntervalHeap.PushDownMinPermutes | src/gkimfl/util/IntervalHeap.java:294-311 | `pushDownMin` keeps the stored multiset |
| IntervalHeap.PushDownMaxPermutes | src/gkimfl/util/IntervalHeap.java:272-292 | `pushDownMax` keeps the stored multiset |
| IntervalHeap.LeastAtFront | src/gkimfl/util/IntervalHeap.java:141-143 | in a valid interval heap no stored element is below slot 0 |
| IntervalHeap.GreatestAtBack | src/gkimfl/util/IntervalHeap.java:149-154 | in a valid interval heap no stored element is above slot 1 (slot 0 when one element is stored) |
| IntervalHeap.PeekFirst | src/gkimfl/util/IntervalHeap.java:141-143 | on a valid heap the answer is a least stored element |
| IntervalHeap.PeekLast | src/gkimfl/util/IntervalHeap.java:149-154 | on a valid heap the answer is a greatest stored element |
| IntervalHeap.Offer | src/gkimfl/util/IntervalHeap.java:116-135 | the heap grows by one and exactly one occurrence of `e` is added |
| IntervalHeap.OfferLoneValid | src/gkimfl/util/IntervalHeap.java:119-122 | a new element in a lone slot is pulled up the max-heap and then the min-heap, which keeps all three invariants |
| IntervalHeap.OfferPairValid | src/gkimfl/util/IntervalHeap.java:123-133 | a new element that completes an interval is ordered with its partner, pulled up both heaps and re-checked, which keeps all three invariants |
| IntervalHeap.OfferValid | src/gkimfl/util/IntervalHeap.java:116-135 | `offer` keeps all three invariants |
| IntervalHeap.RepairFirstValid | src/gkimfl/util/IntervalHeap.java:169-173 | after `pushDownMin`, swapping a reversed interval and pulling its high end up the max-heap restores all three invariants |
| IntervalHeap.PollFirst | src/gkimfl/util/IntervalHeap.java:160-178 | the answer is the front of the heap, and exactly one occurrence of it is removed |
| IntervalHeap.PollFirstLeaf | src/gkimfl/util/IntervalHeap.java:169-173 | the assertion holds: when the interval where `pushDownMin` stopped is reversed, that slot has no min-heap children |
| IntervalHeap.PollFirstValid | src/gkimfl/util/IntervalHeap.java:160-178 | on a valid heap the answer is a least element and the remaining heap is valid |
| IntervalHeap.RepairLastValid | src/gkimfl/util/IntervalHeap.java:196-200 | after `pushDownMax`, swapping a reversed interval and pulling its low end up the min-heap restores all three invariants |
| IntervalHeap.PollLast | src/gkimfl/util/IntervalHeap.java:184-205 | the answer is the back of the heap, and exactly one occurrence of it is removed |
| IntervalHeap.PollLastLeaf | src/gkimfl/util/IntervalHeap.java:196-200 | the assertion holds: when `lessSwap(i, i - 1)` swaps, slot `i` has no max-heap children |
| IntervalHeap.PollLastLoneChild | src/gkimfl/util/IntervalHeap.java:277-279 | the assertion in `pushDownMax` holds during `pollLast`: when the only child is the lone last slot, the pushed element is not below it |
| IntervalHeap.PollLastValid | src/gkimfl/util/IntervalHeap.java:184-205 | on a valid heap the answer is a greatest element and the remaining heap is valid |
| IntervalHeap.RemoveElem | src/gkimfl/util/IntervalHeap.java:211-213 | removal is always refused with an error, whatever the element |
| IntervalHeap.Size | src/gkimfl/util/IntervalHeap.java:219-221 | the number of stored elements, counting repeats, which is zero exactly when `isEmpty` holds |
| IntervalHeap.IsEmpty | src/gkimfl/util/IntervalHeap.java:80-82 | true exactly when nothing is stored |
| IntervalHeap.Clear | src/gkimfl/util/IntervalHeap.java:72-74 | the result stores nothing and satisfies the invariants |
| IntervalHeapify.HeapifyAsWritten | src/gkimfl/util/IntervalHeap.java:223-236 | the as-written rebuild keeps the size and the stored multiset |
| IntervalHeapify.AsWrittenBreaksPair | src/gkimfl/util/IntervalHeap.java:223-236 | on keys [0, 0, 1, 1] the as-written rebuild leaves keys [0, 1, 1, 0]: both heap orders hold, but the interval at slots 2-3 is reversed, so the result is not a valid interval heap |
| IntervalHeapify.AsWrittenPollsWrongMax | src/gkimfl/util/IntervalHeap.java:184-205 | on that result, with Java assertions disabled, the second `pollLast` answers key 0 while an element with key 1 is still stored |
| IntervalHeapify.BrokenPollLastAssert | src/gkimfl/util/IntervalHeap.java:195-196 | in the first `pollLast` on that result, `pushDownMax(1)` stops at slot 1 whose only child is the lone last slot, and that child is greater: the assertion in `pushDownMax` (line 279) is false there |
| IntervalHeapify.AsWrittenBreaksRegression | test/gkimfl/util/IntervalHeapRegressionTest.java:114-119 | the list of the regression test `testHeapify1`, added to an empty heap by the bulk branch of `addAll`, comes out of the as-written `heapify` with the interval at slots 6-7 reversed (92 above 85) and the lone slot 10 above its max-heap parent at slot 5 (53 above 47), so the result is not a valid interval heap; whether the test's `assertIsHeap`, which is not part of this model, detects it is not known |
| IntervalHeapify.RegressionLoneAssert | src/gkimfl/util/IntervalHeap.java:277-279 | during that `heapify`, `pushDownMax(5)` stops at slot 5 whose only child is the lone last slot, and that child is greater: the assertion in `pushDownMax` is false there |
| IntervalHeapify.RebuildByOffers | src/gkimfl/util/IntervalHeap.java:223-236 | the corrected rebuild (offering the elements one at a time) keeps the size and the stored multiset |
| IntervalHeapify.RebuildByOffersValid | src/gkimfl/util/IntervalHeap.java:223-236 | the corrected rebuild yields a valid interval heap for every input, with no precondition |
| IntervalHeapify.OfferAll | src/gkimfl/util/IntervalHeap.java:107-108 | offering a collection element by element adds exactly its multiset |
| IntervalHeapify.OfferAllValid | src/gkimfl/util/IntervalHeap.java:107-108 | offering element by element keeps the invariants |
| IntervalHeapify.AddAll | src/gkimfl/util/IntervalHeap.java:99-110 | on either branch (append and the as-written `heapify`, or one `offer` per element) the result holds the old multiset plus the incoming one |
| IntervalHeapify.AddAllValid | src/gkimfl/util/IntervalHeap.java:99-110 | on the offer branch a valid heap stays valid |
| IntervalHeapify.AddAllBulkBreaks | src/gkimfl/util/IntervalHeap.java:103-104 | on the bulk branch, adding keys 0, 0, 1, 1 to an empty heap leaves keys 0, 1, 1, 0, which is not a valid interval heap |
| IntervalScenarios.DrainFirst | src/gkimfl/util/IntervalHeap.java:160-178 | repeated `pollFirst` hands out every stored element exactly once |
| IntervalScenarios.DrainLast | src/gkimfl/util/IntervalHeap.java:184-205 | repeated `pollLast` hands out every stored element exactly once |
| IntervalScenarios.DrainFirstAscending | test/gkimfl/util/IntervalHeapTest.java:51-62 | repeated `pollFirst` on a valid heap answers in non-decreasing key order |
| IntervalScenarios.DrainLastDescending | test/gkimfl/util/IntervalHeapTest.java:64-75 | repeated `pollLast` on a valid heap answers in non-increasing key order |
| IntervalScenarios.DrainFirstSorted | test/gkimfl/util/IntervalHeapTest.java:51-62 | when stored keys are distinct, repeated `pollFirst` yields exactly the sorted contents |
| IntervalScenarios.DrainLastSorted | test/gkimfl/util/IntervalHeapTest.java:64-75 | when stored keys are distinct, repeated `pollLast` yields exactly the sorted contents, last to first |
| IntervalScenarios.TestDataHeapValid | test/gkimfl/util/IntervalHeapTest.java:14-33 | the constructor's as-written `heapify` turns the test values 1, 7, 5, 3, 8, 2, 4, 6, 0 into keys 0, 8, 1, 6, 2, 7, 4, 5, 3, which satisfy all three invariants, so the test's min-heap and max-heap checks hold |
| IntervalScenarios.TestDataScenario | test/gkimfl/util/IntervalHeapTest.java:51-75 | that heap answers `pollFirst` with 0, 1, ..., 8 and `pollLast` with 8, 7, ..., 0 |
| IntervalScenarios.CraftedOffersScenario | test/gkimfl/util/IntervalHeapRegressionTest.java:99-112 | offering 0, 100, 1, 40, 2, 50, 60 leaves a valid heap, which polls 100, 60, 50, 40, 2, 1, 0 from the high end |
| Elements.RefillRemoves | src/gkimfl/util/Heap.java:134 | moving the last element into slot `i` removes exactly one occurrence of the element that was at `i`; the same step serves `Heap.poll` (Heap.java line 162) and both interval-heap polls (IntervalHeap.java lines 168 and 195) |
| Heap.PullUp | src/gkimfl/util/Heap.java:190-205 | the sift keeps the multiset and stops at or above its start. If only the start slot was out of order, then either it moved and the heap is ordered, or it stayed and the heap is ready for `pushDown` from there, which is why `removeElem` calls `pushDown(pullUp(i))`. The start slot, every slot whose content changed, and every slot recorded before are recorded in the tracker |
| Heap.PushDown | src/gkimfl/util/Heap.java:207-234 | the sift keeps the multiset and stops at or below its start. If every parent at or beyond `lo` was ordered except at the start slot, then afterwards every parent at or beyond `lo` is ordered. This is what lets `heapify` work from the last slot to the first. Tracker as for `pullUp` |
| Heap.Offer | src/gkimfl/util/Heap.java:142-147 | one more element, exactly one occurrence of `e` added, heap order kept, and an accurate tracker stays accurate for a new identity |
| Heap.Peek | src/gkimfl/util/Heap.java:150-152 | the answer is a stored element, and on an ordered heap it is a least one |
| Heap.Poll | src/gkimfl/util/Heap.java:155-167 | the answer is the root, which on an ordered heap is a least element; exactly one occurrence is removed; order and tracker accuracy are kept |
| Heap.RemoveElem | src/gkimfl/util/Heap.java:124-139 | with an accurate tracker, exactly one occurrence of `e` is removed, the tracker stays accurate, heap order is kept even when the moved last element must sift up or down, and the answer is `true` |
| Heap.Heapify | src/gkimfl/util/Heap.java:179-184 | pushing down every slot from last to first orders any sequence, keeps its multiset, and records every element in the tracker when identities are distinct |
| Heap.AddAll | src/gkimfl/util/Heap.java:110-121 | on either branch the result holds the old multiset plus the incoming one and is heap-ordered (the offer branch needs an ordered heap to start from); the tracker stays accurate when identities are distinct |
| Heap.Size | src/gkimfl/util/Heap.java:175-177 | the number of stored elements, counting repeats |
| Heap.Clear | src/gkimfl/util/Heap.java:105-107 | nothing is stored, the empty heap is ordered, and the caller's tracker is untouched |
| Heap.PollAll | test/gkimfl/util/HeapTest.java:91-102 | polling an ordered heap until it is empty hands out every element once, in non-decreasing order |
| HeapScenarios.PollInOrder | test/gkimfl/util/HeapTest.java:91-102 | when stored keys are distinct, polling yields the keys in sorted order |
| HeapScenarios.PollScenario | test/gkimfl/util/HeapTest.java:91-102 | the heap built from the test items 4, 1, 5, 7, 3, 8, 6, 2, 0 polls keys 0 through 8 |
| HeapScenarios.OfferScenario | test/gkimfl/util/HeapTest.java:104-118 | offering the test items one by one leaves an ordered heap with every position recorded |
| DualQueues.Offer | src/gkimfl/util/DualQueue.java:27-32 | both components gain exactly one occurrence of `e`, so equal components stay equal |
| DualQueues.PeekFirst | src/gkimfl/util/DualQueue.java:34-37 | the front of `fore`, which is stored in both components, and is least when `fore` is least-first |
| DualQueues.PeekLast | src/gkimfl/util/DualQueue.java:39-42 | the front of `back`, which is stored in both components, and is greatest when `back` is greatest-first |
| DualQueues.PollFirst | src/gkimfl/util/DualQueue.java:44-49 | answers `fore`'s front, removes exactly that element from both components, and keeps them equal |
| DualQueues.PollLast | src/gkimfl/util/DualQueue.java:51-56 | answers `back`'s front, removes exactly that element from both components, and keeps them equal |
| DualQueues.RemoveElem | src/gkimfl/util/DualQueue.java:73-78 | one occurrence of `e` leaves both components, if present; the answer is always true |
| DualQueues.Size | src/gkimfl/util/DualQueue.java:68-71 | `fore`'s count, which equals `back`'s when the components agree |
| DualQueues.IsEmpty | src/gkimfl/util/DualQueue.java:63-66 | empty exactly when `fore` is, and then `back` is too when the components agree |
| DualQueues.Clear | src/gkimfl/util/DualQueue.java:80-84 | both components end up empty |
| DualQueues.DoubleEndedPriority | src/gkimfl/util/DualQueue.java:8-10 | with a least-first `fore` and a greatest-first `back` holding the same elements, `pollFirst` answers a least and `pollLast` a greatest element of the whole queue |

## Left out

- Constructors, iterators and capacity hints are plumbing over `ArrayList` and are not modelled. A constructor that takes a collection copies it and runs `heapify` (IntervalHeap.java lines 46-56); that is `HeapifyAsWritten` applied to the collection, as the test-data scenario does.
- The comparator is modelled as comparison of integer keys. `NaturalComparator` and arbitrary `Comparator`s are not modelled.
- The size test in `addAll` (`n <= k * log(n) / log(2)`) uses floating point. It is the boolean parameter `bulk`, and both branches are modelled.
- `MutableInt` is not part of this model. It is a `map` from element identity to slot, passed in and returned by every `Heap` operation.
- `AbstractQueue` and `AbstractDequeue` are not part of this model.
  - Their `addAll` is modelled as one `offer` per element.
  - `DualQueue`'s components are modelled abstractly: a bag plus a selector naming the element `peek`/`poll` would answer.
- Peeking or polling an empty queue throws in Java. Here it is excluded by a precondition.
- Heap.RemoveElem: requires an accurate tracker and a stored `e`, because the source reads a stale or missing position without checking.
- Heap.AddAll: guarantees heap order on the offer branch only when the heap was ordered before, which the class maintains anyway.
- `IntervalHeap.fromRaw` and `assertIsHeap` are used by the tests but are not part of this model.
- Java's 32-bit `int` arithmetic is modelled on unbounded integers, so the model covers heaps of fewer than 2^30 elements. From slot 2^30 on, the child index `(i << 1) + 1` (Heap.java line 211, IntervalHeap.java line 275) or `(i << 1) + 2` (IntervalHeap.java line 297) overflows to a negative `int`, the bound test `iBound <= iDown` no longer stops the loop, and `queue.get` throws. `Heap.heapify` pushes down every slot, so any such list reaches this.
- Concurrency is not modelled. The classes are single-threaded.
- Java `assert` statements (IntervalHeap.java lines 172, 199 and 279) are modelled as disabled, which is the JVM default: each is a no-op. `PollFirstLeaf`, `PollLastLeaf` and `PollLastLoneChild` prove that they hold on valid heaps. On the broken heaps of the Findings they do not hold. With assertions enabled (`-ea`), the line 279 assertion throws `AssertionError` in the first `pollLast` on keys [0, 1, 1, 0] (`BrokenPollLastAssert`) and during the as-written `heapify` of the `testHeapify1` list (`RegressionLoneAssert`).
- IntervalHeapify.RebuildByOffers: this corrected rebuild offers the elements one at a time. It is not the source's pair-by-pair sweep, which can leave the invariants broken (see Findings). The sweep itself is `HeapifyAsWritten`, and the constructor and `addAll` use that.
- IntervalHeapify.AddAllValid: promises validity only on the offer branch. The bulk branch runs the as-written `heapify`, which can break the invariants (`AddAllBulkBreaks`).

## Findings

The rebuild routine `heapify` can leave an interval heap that breaks its own invariants. The library expects otherwise: its regression test `testHeapify1` (IntervalHeapRegressionTest.java lines 114-119) checks the heap right after a bulk `addAll`. Its own assertion in `pushDownMax` (IntervalHeap.java line 279) is also false on the broken states below. By the same reading of the sweep, the lists of `testHeapify2`, `testHeapify3` and `testHeapify4` (lines 121-142) also come out invalid: slot 18 sits above its max-heap parent, the interval at slot 8 is reversed, and slot 14 sits above its max-heap parent. Those three are not proved in the model. The model follows the code: the constructor and the bulk branch of `addAll` run `HeapifyAsWritten`.

| source | as written | input that shows it | evidently intended | confidence | as-written member | corrected member |
|---|---|---|---|---|---|---|
| src/gkimfl/util/IntervalHeap.java:223-236 | each interval is ordered before its high end is pushed down the max-heap, but the interval where that element comes to rest is never re-ordered; a lone last slot is compared with the slot before it, not with its max-heap parent | keys [0, 0, 1, 1] become [0, 1, 1, 0]: the interval at slots 2-3 is reversed, and, with Java assertions disabled, a second `pollLast` then answers 0 while 1 is still stored (with them enabled, the first `pollLast` fails the line 279 assertion); the regression list 92, 100, 71, 85, 47, 42, 85, 51, 41, 102, 53 comes out with slots 6-7 reversed and the lone slot 10 above its max-heap parent (`AsWrittenBreaksRegression`) | `heapify` yields a valid interval heap holding the same elements | not executed | IntervalHeapify.AsWrittenBreaksPair | IntervalHeapify.RebuildByOffersValid |
