# es6-heap in Dafny

A model of `heap.js` from the es6-heap repository. That file holds an array-backed binary heap whose order comes from a
caller-supplied three-way comparator, plus an optional key validator. The model covers these parts of it:

- the index helpers `getLeftChildIndex`, `getRightChildIndex` and `getParentIndex`, and `swap`;
- the `Heap` class: construction, `buildHeap`, `bubbleDown`, `bubbleUp`, `peek`, `extract`, `insert` and `size`;
- the static checker `isHeap`.

Elements are of any type `T`, with a comparator `cmp: (T, T) -> int`. A negative result puts the first argument
nearer the root. The heap's one mutable field `this.arr` is a `seq<T>` field that each method reassigns. The
recursive `bubbleDown` and `bubbleUp` become `while` loops that make the same swaps.

Module layout:

- `index.dfy` (`HeapIndex`): the tree's index arithmetic, subtrees, and the `swap` exchange.
- `order.dfy` (`HeapOrder`): the comparator contract `IsComparator`. Under it, the sign of `cmp(a, b)` is opposite
  to that of `cmp(b, a)`, and "compares at most zero" is transitive. The module also holds the non-strict heap
  property `HeapOrdered` that the sift operations establish, and the strict relation that `isHeap` tests.
- `heap.dfy` (`BinaryHeap`): the `Heap` class and the sift-step lemmas.
- `presets.dfy` (`HeapPresets`): the numeric comparator presets on integers, and the default validator.
- `findings.dfy` (`HeapAsWritten`): `isHeap` exactly as heap.js writes it (see Findings).
- `scenarios.dfy` (`HeapScenarios`): what heap.test.js checks, stated and proved over the model.

The heap property the operations promise is the non-strict one: no element compares below its parent. `isHeap`
tests a stricter relation: every parent compares strictly below each child. The two agree when no two keys
compare equal (`OrderedDistinctIsStrict`, `StrictIsOrdered`, `Heap.PassesIsHeap`).

The class invariant `Valid()` has three parts: the comparator contract, the heap property, and that every stored
value passes the key validator (both `buildHeap` and `insert` validate). Every operation preserves it.

The tests in heap.test.js:150-220 call `updateKey`, read a `keyMap` field and expect `Duplicate key` errors.
heap.js has none of these. The model follows heap.js:

- there is no position index and no key update;
- duplicate keys are allowed;
- `peek` and `extract` on an empty heap give `undefined` (here `None`) and change nothing;
- the operations guarantee only the non-strict heap property.

## Model

| member | source | states |
|---|---|---|
| HeapIndex.LeftChild | heap.js:2 | the left child's index is greater than `i`, and its parent is `i` |
| HeapIndex.RightChild | heap.js:5 | the right child's index is greater than `i`, is the left child's plus one, and its parent is `i` |
| HeapIndex.Parent | heap.js:8 | for `i > 0` the parent lies in `[0, i)` and `i` is one of its two children; the root's parent is -1, as `Math.floor(-1/2)` gives |
| HeapIndex.RootSubtreeIsAll | heap.js:2-8 | every slot lies in the tree below the root |
| HeapIndex.SubtreeSplit | heap.js:89-95 | below its root, a subtree is exactly the union of its two children's subtrees |
| HeapIndex.Swap | heap.js:11-17 | slots `i` and `j` exchange values, every other slot and the length stay the same, and the multiset of values is unchanged |
| HeapOrder.FirstInvalid | heap.js:54-58 | `None` exactly when every value passes the validator; otherwise the index of the first value the validator rejects |
| HeapOrder.IsHeap | heap.js:78-101 | fails with the first invalid key when a value fails the validator; otherwise true exactly when, inside the subtree of `rootIndex`, every parent compares strictly below its child |
| HeapOrder.IsHeapAt | heap.js:88-100 | a root past the end of the array passes; a passing root compares strictly below each of its existing children (the full characterization is IsHeapAtSubtree) |
| HeapOrder.IsHeapAtSubtree | heap.js:88-100 | the recursive check at `root` holds iff every edge of the subtree at `root` goes from a parent strictly below its child |
| HeapOrder.IsHeapAtRoot | heap.js:88-100 | at the root, the check is "every non-root `c` has `cmp(arr[parent(c)], arr[c]) < 0`" |
| HeapOrder.StrictIsOrdered | heap.js:93-94 | whatever `isHeap` accepts satisfies the heap property |
| HeapOrder.OrderedDistinctIsStrict | heap.js:93-94 | with keys that never compare equal, the heap property implies that `isHeap` accepts |
| HeapOrder.RootIsMinimum | heap.js:146-148 | in a heap, no element compares below the root |
| HeapOrder.RootIsMinimumOf | heap.js:146-148 | no value of a heap's contents compares below the root |
| BinaryHeap.ChildToSwap | heap.js:113-123 | the chosen child compares below the current value, and its sibling does not compare below it (the smaller child); `None` only when no child compares below the current value |
| BinaryHeap.SwapDownEdges | heap.js:114-122 | swapping a slot with a child that compares below it and not above its sibling moves the subtree's only possibly violated edges from that slot to the child |
| BinaryHeap.SiftDownStep | heap.js:114-122 | one downward swap keeps every edge in order except the ones leaving the new position, and keeps the moved value's children not below its new parent |
| BinaryHeap.SiftDownDone | heap.js:114-123 | when no swap is chosen, the whole subtree is in order |
| BinaryHeap.SiftUpStep | heap.js:136-138 | one upward swap keeps every edge in order except the one entering the new position |
| BinaryHeap.SwapUpEdges | heap.js:136-138 | swapping a slot with its parent when it compares below the parent moves the only possibly violated edge from the slot to the parent |
| BinaryHeap.Heap.constructor | heap.js:41-43 | an empty valid heap holding the given comparator and validator |
| BinaryHeap.Heap.Create | heap.js:41-45 | fails with the first invalid key exactly when one exists; otherwise a fresh valid heap whose contents are a permutation of the input |
| BinaryHeap.Heap.BuildHeap | heap.js:51-68 | rejects the first invalid key and leaves `arr` unchanged; otherwise `arr` becomes a permutation of the input with the heap property |
| BinaryHeap.Heap.PassesIsHeap | heap.js:78-101 | with distinct keys, the contents of a valid heap pass `isHeap` under the heap's own comparator and validator |
| BinaryHeap.Heap.BubbleDown | heap.js:107-124 | if both subtrees below `i` are heaps, the subtree at `i` becomes one; length and multiset are kept, and no slot outside that subtree changes |
| BinaryHeap.Heap.BubbleUp | heap.js:130-141 | if the array is a heap except that `arr[i]` may compare below its ancestors, it becomes a heap; length and multiset are kept, and only slots on the path from `i` to the root change |
| BinaryHeap.Heap.Peek | heap.js:146-148 | returns `arr[0]` (or `None` when empty) without change, and no element compares below it |
| BinaryHeap.Heap.Extract | heap.js:153-164 | on a non-empty heap, returns the old root, shrinks the size by one and removes exactly that value from the multiset, leaving no remaining element below it and keeping the heap valid; on an empty heap returns `None` and changes nothing |
| BinaryHeap.Heap.Insert | heap.js:170-183 | an invalid key is refused and `arr` is unchanged; otherwise size grows by one, the multiset gains `v`, the heap stays valid, and a `v` below every element becomes the root |
| BinaryHeap.Heap.Size | heap.js:185-187 | the number of elements held |
| HeapPresets.MinComparator | heap.js:20 | `a - b` is negative exactly when `a < b` and zero exactly when `a == b` |
| HeapPresets.MaxComparator | heap.js:23 | `b - a` is negative exactly when `a > b` and zero exactly when `a == b` |
| HeapPresets.AcceptAll | heap.js:32 | the default validator accepts every key |
| HeapPresets.MinComparatorIsComparator | heap.js:20 | `(a, b) => a - b` on integers meets the comparator contract |
| HeapPresets.MaxComparatorIsComparator | heap.js:23 | `(a, b) => b - a` on integers meets the comparator contract |
| HeapAsWritten.IsHeapAsWritten | heap.js:78-101 | fails exactly when some value fails the validator, with the first such value; acceptance implies that the root compares strictly below each of its existing children under the caller's comparator |
| HeapAsWritten.AsWrittenAgreesForMin | heap.js:95 | with the default comparator, the check as written and the intended check agree |
| HeapAsWritten.AsWrittenRejectsMaxHeap | heap.js:95 | `[5, 4, 3, 2, 1]` passes the intended check under `MAX_COMPARATOR` and fails the check as written |
| HeapScenarios.IsHeapAcceptsTrivial | heap.test.js:4-10 | the empty and the one-element array are heaps |
| HeapScenarios.IsHeapAcceptsThree | heap.test.js:12-15 | `[1, 2, 3]` is a heap |
| HeapScenarios.IsHeapAcceptsFive | heap.test.js:17-20 | `[1, 2, 3, 4, 6]` is a heap |
| HeapScenarios.IsHeapAcceptsSix | heap.test.js:22-25 | `[0, 1, 2, 3, 4, 5]` is a heap |
| HeapScenarios.IsHeapRejects | heap.test.js:27-40 | `[3, 2, 6]`, `[3, 2, 1]` and `[0, 1, 2, 3, 4, 5, -1]` are not heaps |
| HeapScenarios.CreateAndPeek | heap.test.js:44-66 | for an array without repeated values and a comparator that compares only equal values as equal, the heap built from it passes `isHeap`, and peek returns the array's least element |
| HeapScenarios.MinCreationScenario | heap.test.js:44-48 | the heap built from `[0, 1, 2, 3, 4, 5, -1, -7]` under `a - b` passes `isHeap`, and peek gives -7 |
| HeapScenarios.MinCreationScenarioTwo | heap.test.js:50-54 | the heap built from `[9, 8, 7, 6, 5, 4]` under `a - b` passes `isHeap`, and peek gives 4 |
| HeapScenarios.MaxCreationScenario | heap.test.js:56-60 | the heap built from `[0, 1, 2, 3, 4, 5, -1, -7]` under `b - a` passes `isHeap` with `MAX_COMPARATOR`, and peek gives 5 |
| HeapScenarios.MaxCreationScenarioTwo | heap.test.js:62-66 | the heap built from `[8, 4, 7, 5, 1, 10, 6]` under `b - a` passes `isHeap` with `MAX_COMPARATOR`, and peek gives 10 |
| HeapScenarios.ExtractInsertScenario | heap.test.js:104-114 | building from `[0, 1, 2, 3, 4, 5, -1, -7]`, extraction gives -7, peek -1, extraction -1, peek 0, and after inserting -5 peek gives -5 |
| HeapScenarios.ExtractTwice | heap.js:153-164 | two extractions in a row come out in comparator order, and an empty heap stays empty |
| HeapScenarios.ExtractScenario | heap.test.js:117-124 | building from `[8, 7, 6, 3, 10, 2, 11]`, extraction gives 2, 3, 6, and then peek gives 7 |
| HeapScenarios.InsertScenario | heap.test.js:126-133 | continuing, insert -5 and peek -5, insert 0 and peek -5, extract -5, peek 0 |

## Left out

- `updateKey`, the `keyMap` field and `Duplicate key` errors: heap.js does not have them. The tests that use them
  (heap.test.js:150-220) exercise code that is not part of this model.
- `MIN_STRING_COMPARATOR` and `MAX_STRING_COMPARATOR` (heap.js:26-29): `localeCompare` is locale-dependent and not
  modelled.
- The numeric presets in `presets.dfy` work on unbounded integers. The JavaScript presets work on doubles, so the
  model has no NaN, no infinities and no rounding.
- Default arguments (heap.js:41, 78): the model's callers always pass the comparator and the validator explicitly.
- `BinaryHeap.Heap.Create`, `BinaryHeap.Heap.constructor`: these require the comparator to meet `IsComparator`.
  The JavaScript accepts any function, but with an inconsistent comparator it promises nothing about order.
- BinaryHeap.Heap.BubbleDown, BinaryHeap.Heap.BubbleUp: they promise the heap property only under their stated
  preconditions. Those are the conditions under which heap.js calls them. `bubbleUp` is also required to get an
  index inside the array.
- `swap`'s return value `j` is not modelled as a result. Callers assign the child or parent index themselves,
  which is what `i = swap(...)` does in heap.js.
- Error messages are not modelled. A rejected key is reported as the offending value (`buildHeap`, `isHeap`) or
  as `false` (`insert`).
- Aliasing: `buildHeap` keeps the caller's array object (heap.js:60). The model takes the value and does not
  track a caller who still holds the array.
- `extract` on an empty heap: the model changes nothing. The stray `"-1"` property that `swap(arr, 0, -1)` leaves
  on the JavaScript array object is not modelled.
- The tests at heap.test.js:59, 65, 72 and 79 pass the comparator as `rootIndex`, so those `isHeap` calls are
  vacuously true. The model states the intended checks instead.
- The string and object creation tests (heap.test.js:68-98) are not restated: they rely on `localeCompare` and on a
  validator over JavaScript objects.
- `examples/dijkstra.js` and `examples/prim.js` are not part of this model. They are clients that rely on the
  missing `updateKey`.

## Findings

| source | as written | input that shows it | evidently intended | confidence | as-written member | corrected member |
|---|---|---|---|---|---|---|
| heap.js:95 | the recursive calls `this.isHeap(arr, leftChildIndex)` and `this.isHeap(arr, rightChildIndex)` pass no comparator or validator, so below the root they fall back to `a - b` and accept-all | `isHeap([5, 4, 3, 2, 1], 0, MAX_COMPARATOR)` returns false for a valid max-heap | pass the caller's comparator and validator at every level | high, not executed | HeapAsWritten.AsWrittenRejectsMaxHeap | HeapOrder.IsHeap |
