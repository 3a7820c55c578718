# Min3Heap in Dafny

A model of the `Min3Heap` engine: a bounded ternary min-heap of `long`
values kept in a fixed array. The model covers bottom-up construction
from a queue or an array, `insert` with heapify-up, `deleteMin`, and the
three additions `deleteMax` (which scans only the leaves), `search` (a
recursive descent that prunes subtrees whose root exceeds the target) and
`remove` (which deletes every copy of a value).

The implicit tree lies over the live prefix `heapArray[0 .. numNodes)`.
The parent of slot `i` is `(i-1)/3`. Its children are `3i+1`, `3i+2` and
`3i+3`, each one live only while it is below the count.

Files:

- `heap_index.dfy` (module `HeapIndex`): the index arithmetic. This is
  `getParent`, `isParent`, `nthChildExists`, `getNthChild` and
  `lastParentIndex` with C++ truncating division. It also holds `pow` and
  the level layout that `levelOrderDisplay` walks.
- `heap_order.dfy` (module `HeapOrder`): heap order stated on sequences.
  It holds the partial orders that hold while a value sinks or rises, the
  child-selection rule of `findSmallestChildIndex` as a specification
  function, and one lemma for each step of each repair.
- `min3heap.dfy` (module `TernaryHeap`): the class `Min3Heap`. It has
  `const capacity` (`mSIZE`), `const heapArray` (`mHeapArray`, a pointer
  that is never reassigned) and `var numNodes` (`mNumNodes`).
  - The class invariant `Valid()` is `0 <= numNodes <= capacity`, heap
    order over the live prefix, and no live `-1`.
  - `Contents()` is the live multiset. Each mutating operation states
    exactly which values it adds or removes.

Four methods factor code that the source writes inline, so that each proof
stays small:

- `MoveLastInto`: moving the last value into a slot, in `deleteMin`,
  `deleteMax` and `remove`.
- `BuildHeap`: the sift-down loop shared by both bulk constructors.
- `DeleteLeaf`: the branch of `deleteMax` for two or more nodes.
- `RemoveAt`: the branch of `remove` for a copy found below the root.

`HeapifyDown` carries a ghost bound `lo`. Bottom-up construction needs
heap order only on the edges below the slot being sifted (`lo` = that
slot). Deletion needs it everywhere (`lo` = 0).

`isEmpty` is modelled as written. It returns `mNumNodes > 0`, which is
true when the heap is NOT empty. This is the opposite of its header
comment (Min3Heap.h:157-161). The model follows the code. Nothing in the
engine calls it.

## Model

| member | source | states |
|---|---|---|
| HeapIndex.CDiv3 | Min3Heap.cpp:379 | division by 3 truncates toward zero: `3q <= a < 3q+3` for non-negative `a`, `3q-3 < a <= 3q` for negative `a` |
| HeapIndex.GetParent | Min3Heap.cpp:303-313 | for `i > 0` the parent is a smaller slot of which `i` is a child; for the root (or below) it is -1 |
| HeapIndex.NthChildExists | Min3Heap.cpp:316-319 | child k of i is live exactly when its slot 3i+k is below the count |
| HeapIndex.LiveChildrenFirst | Min3Heap.cpp:316-319 | when child k of a node is live, so is every child before it: the live children fill the slots from the first |
| HeapIndex.GetNthChild | Min3Heap.cpp:321-332 | -1 exactly when child k is not live; otherwise child number k itself, slot 3i+k, live and with parent i |
| HeapIndex.IsParent | Min3Heap.cpp:296-300 | `3i < count-1` holds exactly when the first child of i is live |
| HeapIndex.IsParentIffSomeChild | Min3Heap.cpp:297-300 | a node is a parent exactly when one of its three child slots is live |
| HeapIndex.LastParentIndex | Min3Heap.cpp:377-380 | 0 when fewer than two nodes are live (truncation, not -1); otherwise a live parent after which no slot is a parent |
| HeapIndex.EmptyBuildVisitsSlotZero | Min3Heap.cpp:27-29 | as written, with no live node the constructors' countdown still starts at slot 0, outside the live prefix |
| HeapIndex.FirstSiftIndex | Min3Heap.cpp:47-49 | the corrected starting slot of the constructors' countdown: a live slot (or -1 when empty) at or after every parent, so every parent is sifted and nothing outside the live prefix is; for every non-empty heap it is exactly lastParentIndex |
| HeapIndex.Pow | Min3Heap.cpp:335-352 | the accumulating loop returns 3 to the power e for e >= 0, and 1 for a negative exponent (the loop is not entered) |
| HeapIndex.LevelLayout | Min3Heap.cpp:142-150 | level L holds 3^L slots, and the next level starts at the first child of the first slot of level L |
| HeapOrder.OrderedIffOrderedByChild | Min3Heap.cpp:405-414 | links the two standard ways of writing heap order: per parent edge, as the model states it, and "each node is at most each of its live children", the comparison findSmallestChildIndex makes |
| HeapOrder.RootDescends | Min3Heap.cpp:61-75 | every slot lies in the subtree of the root, where the public search starts |
| HeapOrder.DescendsViaChild | Min3Heap.cpp:239-245 | a slot of r's subtree other than r lies in the subtree of one of r's children, so recursing into the three children covers the subtree |
| HeapOrder.SubtreeAtLeastRoot | Min3Heap.cpp:223-247 | in a heap no slot of a subtree holds less than the subtree's root, so pruning at a root larger than the target is sound |
| HeapOrder.RootIsMinimum | Min3Heap.cpp:167-180 | the root of a heap is at most every live value |
| HeapOrder.LeafAtLeast | Min3Heap.cpp:182-184 | below every live slot there is a leaf holding at least its value, so the maximum sits on a leaf |
| HeapOrder.SmallerChild | Min3Heap.cpp:383-429 | the selected child is -1 or a live child of i holding a value other than -1 and smaller than the value to move |
| HeapOrder.SmallerChildIsLeast | Min3Heap.cpp:403-423 | the selection is -1 exactly when no child is smaller than the value; otherwise it is no larger than any live child and strictly smaller than every live child before it (the first of the least) |
| HeapOrder.SwapDownOrder | Min3Heap.cpp:256 | moving the smallest child up into the hole keeps every edge outside the new hole |
| HeapOrder.SwapDownBridge | Min3Heap.cpp:256 | after that move the children of the new hole are no smaller than the value moved up |
| HeapOrder.SiftDownStep | Min3Heap.cpp:252-261 | one heapify-down step keeps the sink invariant at the chosen child and keeps the multiset of values |
| HeapOrder.SiftDownDone | Min3Heap.cpp:262-270 | when no child is smaller, writing the value into the hole gives heap order on every edge from lo on |
| HeapOrder.BuildStepReady | Min3Heap.cpp:27-30 | once every edge below slot i holds, the value already at i may sink |
| HeapOrder.SiftUpStep | Min3Heap.cpp:280-284 | moving a larger parent down into the hole moves the hole to the parent and keeps the sift-up invariant and the values |
| HeapOrder.SiftUpDone | Min3Heap.cpp:285-293 | when the parent is no larger (or there is none), writing the value restores heap order |
| HeapOrder.MoveLastMultiset | Min3Heap.cpp:172-174 | moving the last value over slot i removes exactly one copy of the value at i and introduces no -1 |
| HeapOrder.MoveLastEdges | Min3Heap.cpp:114-117 | after the move every edge not touching slot i still holds, and the children of i are at least the removed value |
| HeapOrder.MovedLast | Min3Heap.cpp:121 | when the removed slot was the last one, dropping it keeps heap order with no repair |
| HeapOrder.MovedToRoot | Min3Heap.cpp:172-175 | the last value moved to the root breaks order only below the root and may sink from there |
| HeapOrder.MovedSmaller | Min3Heap.cpp:123-126 | a moved value smaller than its new parent breaks order only on the edge above it, so heapify-up applies |
| HeapOrder.MovedLarger | Min3Heap.cpp:127-130 | a moved value larger than its new parent breaks order only below it, so heapify-down from that slot applies |
| HeapOrder.MovedEqual | Min3Heap.cpp:121-131 | a moved value equal to its new parent needs no repair: the parent is at most the removed value, which was at most each child |
| HeapOrder.MovedOntoLeaf | Min3Heap.cpp:205-216 | a value moved onto a leaf and no smaller than its parent needs no repair, so deleteMax never sifts down |
| TernaryHeap.Min3Heap.constructor | Min3Heap.cpp:5-10 | an empty, valid heap over a fresh array of aSize cells |
| TernaryHeap.Min3Heap.FromQueue | Min3Heap.cpp:16-31 | a valid heap of capacity aSize holding exactly the queued values |
| TernaryHeap.Min3Heap.FromArray | Min3Heap.cpp:37-51 | a valid heap of capacity aSize holding exactly `values[0 .. valuesSize)` |
| TernaryHeap.Min3Heap.BuildHeap | Min3Heap.cpp:27-30 | sifting down from the last parent back to the root turns any live prefix without -1 into a heap of the same values |
| TernaryHeap.Min3Heap.BottomUpInsert | Min3Heap.cpp:79-83 | appends the value after the live prefix and leaves the cells after it unchanged; there is no capacity check |
| TernaryHeap.Min3Heap.Insert | Min3Heap.cpp:86-94 | on a full heap nothing changes; otherwise one more node, the value added to the multiset, heap order kept |
| TernaryHeap.Min3Heap.MoveLastInto | Min3Heap.cpp:172-174 | the live prefix becomes MoveLastTo of the old one, the count drops by one, and the vacated cell holds -1 |
| TernaryHeap.Min3Heap.DeleteMin | Min3Heap.cpp:167-180 | -1 and no change exactly when empty; otherwise returns the old root, which is the minimum, and removes one copy of it with heap order kept |
| TernaryHeap.Min3Heap.DeleteMax | Min3Heap.cpp:185-221 | -1 and no change exactly when empty; otherwise returns a live value no smaller than any other and removes one copy of it with heap order kept |
| TernaryHeap.Min3Heap.DeleteLeaf | Min3Heap.cpp:199-216 | removing the value on a leaf with only the upward repair keeps heap order and removes exactly that value |
| TernaryHeap.Min3Heap.FindMaxIndex | Min3Heap.cpp:361-374 | returns a leaf (after lastParentIndex) holding the maximum live value, and the first such leaf |
| TernaryHeap.Min3Heap.Search | Min3Heap.cpp:61-75 | -1 exactly when the value is not live; otherwise a live slot holding it |
| TernaryHeap.Min3Heap.SearchFrom | Min3Heap.cpp:226-247 | an earlier find is kept; a fresh search returns -1 exactly when the subtree of aIndex does not hold the value, and otherwise a slot of that subtree holding it |
| TernaryHeap.Min3Heap.Remove | Min3Heap.cpp:97-136 | returns true exactly when the value was live; afterwards no copy is left, every other value keeps its multiplicity, heap order holds, and the loop ends because each pass that finds a copy shrinks the heap; when the value is absent the count and the whole array are left untouched |
| TernaryHeap.Min3Heap.RemoveAt | Min3Heap.cpp:111-131 | deleting below the root by moving the last value in and going up, down or nowhere removes exactly the value there and keeps heap order |
| TernaryHeap.Min3Heap.HeapifyDown | Min3Heap.cpp:250-271 | from the sink invariant, leaves the same values with heap order on every edge from lo on, and writes only inside the subtree of aIndex |
| TernaryHeap.Min3Heap.HeapifyUp | Min3Heap.cpp:274-294 | from the rise invariant, leaves the same values in heap order and writes only aIndex and its ancestors |
| TernaryHeap.Min3Heap.FindSmallestChildIndex | Min3Heap.cpp:383-429 | the two loops over the copied child values compute SmallerChild of the live prefix |
| TernaryHeap.Min3Heap.IsEmpty | Min3Heap.cpp:355-358 | as written: true exactly when the heap holds at least one value |

## Left out

- main.cpp is not part of this model. It reads a data file and runs a console menu that only calls the public methods.
- The printing in `levelOrderDisplay` (Min3Heap.cpp:138-164) is console output and is left out. Only `pow` and the level layout it relies on are modelled.
- `Queue<long>` (Queue.h) is not part of this model. The queue constructor takes a `seq<int>` consumed front to back, and draining the caller's queue is not modelled.
- Allocation and the destructor's `delete[]` are not modelled: Dafny arrays are allocated and collected implicitly.
- `long` overflow is not modelled. Values, indices and `pow`'s product are unbounded integers.
- TernaryHeap.Min3Heap.Insert, FromQueue and FromArray require their values to differ from -1 (payloads are non-negative in this engine). `findSmallestChildIndex` skips a child holding -1 as if it were missing, so a live -1 would break heap order.
- TernaryHeap.Min3Heap.BuildHeap starts its countdown at FirstSiftIndex, not at `lastParentIndex()`. For an empty heap it sifts nothing, where the source sifts at slot 0 (see "## Findings"). For every non-empty heap the two starts are the same.
- TernaryHeap.Min3Heap.HeapifyDown: its frame is the whole subtree of aIndex, not the single leaf-ward path it actually follows.
- The cells at or after the count are not described by any invariant. The -1 written into vacated cells is stated by MoveLastInto and nowhere else.

## Findings

| source | as written | input that shows it | evidently intended | confidence | as-written member | corrected member |
|---|---|---|---|---|---|---|
| Min3Heap.cpp:27-29, 47-49 | both bulk constructors count down from `lastParentIndex()`, which is `(0 - 2) / 3 == 0` for an empty heap, so they call `heapifyDown(mHeapArray[0], 0)` | `Min3Heap(0, values, 0)` or `Min3Heap(0, emptyQueue)`: reads and writes `mHeapArray[0]` of a zero-length array; with a larger array it reads an uninitialised cell | an empty heap sifts nothing | not executed; medium | HeapIndex.EmptyBuildVisitsSlotZero | HeapIndex.FirstSiftIndex |
