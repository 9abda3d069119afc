# Indexed Fibonacci min-priority queue

A Dafny model of the indexed Fibonacci min-priority queue in
`index_fibonacci_min_pq.go`. The queue holds at most one key per client
index `0 .. max-1`. The source documents constant time for Insert and
the queries, amortized constant time for DecreaseKey, and amortized
logarithmic time for DelMin, Delete, IncreaseKey and ChangeKey. DelMin and
Delete restructure the heap.

The Go nodes are heap objects that point at each other. Here they live in
parallel arrays indexed by the client's index: `key`, `order`, `parent`,
`child`, `prev`, `next`, `mark`, plus `present` for `nodes[i] != nil`. A nil
pointer is the handle -1. Every pointer-rewriting step of the source
(insertNode, cutNode, meld, link, cut, the walk and the rebuild of
consolidate, the parent-clearing loops of DelMin and Delete) is a method
over these arrays. It makes the same writes as the source, reordered only
where no read comes between the moved writes:

- The scalar fields `head` and `min` (and `length` in `AddNode`) are kept
  in locals and written once, at the end of the step, by `SetFields`,
  `SetCut`, `SetRoots` or `SetRing`. The source writes them as it goes:
  - `AddNode`: the source increments `length` (line 100 of
    index_fibonacci_min_pq.go) before `insertNode` (101) and sets `min`
    after it (102-107). The model chooses the minimum before the key write
    and writes all three after the splice.
  - `CutOne`: the source writes `pq.head` (289) before flipping the
    parent's mark (290); the model writes `head` after the flip.
  - `Unroot`: the source writes `pq.head` after cutNode and again after
    meld (136 and 144 in DelMin, 248 and 257 in Delete); the model writes
    it once, after both.
  - `Rebuild` and `Reroot`: the source writes `pq.min` and `pq.head` in
    every pass of the rebuild loop (325-329); the model keeps them in
    locals and `SetRing` writes them after the loop.
- `Adopt` clears the removed node's `child` before the parent-clearing loop
  and the meld, as Delete does (line 251). DelMin clears it after the meld
  (line 145), and its loop test reads `pq.min.child` (line 140); the model
  reads the saved first child instead.

The abstract state of the class `IndexFibonacciMinPQ` is the ghost map
`Contents` from indices to keys. Three more ghost fields describe the
shape:

- `roots` is the root ring, read from `head`.
- `kids[x]` is the child ring of `x`, read from `child[x]`.
- `height` is a rank that is strictly smaller at a child than at its parent.

`Valid()` ties the arrays to these views (`QueueInvariant.Inv`):

- The nodes of `Contents` form a forest in heap order (`HeapForest.Forest`).
- Every ring is a well-formed circular doubly linked list (`CircularList.Ring`).
- `min` is a root whose key is the smallest key of the queue.
- `length` counts the contents.

Each public method preserves `Valid()`. Its contract states the new
`Contents` and the error it returns. The step lemmas of `QueueInvariant`
and `HeapForest` carry the invariant across each physical step.

Modules:

- `Errors`: the error values of the source.
- `CircularList`: rings, and the list orders that insertNode, cutNode and meld leave.
- `CascadingCut`: what a cascade of `cut` calls does to the parent and mark fields.
- `HeapForest`: the forest predicate and one step lemma per pointer operation.
- `QueueInvariant`: the class invariant over values, with one lemma per public operation.
- `FibonacciHeap`: the class and the constructor function.
- `Findings`: two departures of the code from its evident intent.
- `Scenarios`: the three tests of `index_fibonacci_min_pq_test.go`, with keys scaled by 100.

Keys are `float32` in the source and `int` here. The source only compares
keys with `>`, so any totally ordered key type behaves the same.

## Model

| member | source | states |
|---|---|---|
| FibonacciHeap.NewIndexFibonacciMinPQ | index_fibonacci_min_pq.go:54-63 | fails with NegativeSize exactly when `max < 0`; otherwise a fresh, valid, empty queue for `max` indices |
| FibonacciHeap.IndexFibonacciMinPQ.constructor | index_fibonacci_min_pq.go:58-62 | all slots empty, no root, no minimum, length 0, and the invariant holds |
| FibonacciHeap.IndexFibonacciMinPQ.IsEmpty | index_fibonacci_min_pq.go:67-69 | true exactly when the contents are empty |
| FibonacciHeap.IndexFibonacciMinPQ.Contains | index_fibonacci_min_pq.go:73-78 | true exactly when `i` has a key; indices out of range are never contained |
| FibonacciHeap.IndexFibonacciMinPQ.Len | index_fibonacci_min_pq.go:82-84 | the number of indices in the queue |
| FibonacciHeap.IndexFibonacciMinPQ.MinIndex | index_fibonacci_min_pq.go:114-119 | EmptyQueue exactly when empty; otherwise an index in the queue whose key is no greater than any key |
| FibonacciHeap.IndexFibonacciMinPQ.MinKey | index_fibonacci_min_pq.go:123-128 | EmptyQueue exactly when empty; otherwise a key of the queue that is no greater than any key |
| FibonacciHeap.IndexFibonacciMinPQ.KeyOf | index_fibonacci_min_pq.go:159-167 | IllegalArgument out of range, NotInQueue for an absent index, otherwise the index's key |
| FibonacciHeap.IndexFibonacciMinPQ.Insert | index_fibonacci_min_pq.go:88-110 | IllegalArgument out of range, AlreadyInQueue for a present index, and no change on error; otherwise `Contents[i := k]`, the invariant kept, and `i` is the new minimum when the queue was empty or `k` is smaller than the old minimum |
| FibonacciHeap.IndexFibonacciMinPQ.AddNode | index_fibonacci_min_pq.go:95-109 | the fresh node (order 0, no parent, no child, unmarked) is stored, becomes the head of the root ring `[i] + roots`, and the count and minimum are updated as the source does |
| FibonacciHeap.IndexFibonacciMinPQ.DelMin | index_fibonacci_min_pq.go:132-155 | EmptyQueue and no change when empty; otherwise returns the index that `MinIndex` named before the call, which has a smallest key, and removes exactly that index (the test at index_fibonacci_min_pq_test.go:26-64 relies on this order) |
| FibonacciHeap.IndexFibonacciMinPQ.Drop | index_fibonacci_min_pq.go:136-152 | the root leaves the forest and the count drops by one; then either nothing is left (no root, no minimum) or the remaining roots are consolidated around a true minimum |
| FibonacciHeap.IndexFibonacciMinPQ.Delete | index_fibonacci_min_pq.go:237-267 | IllegalArgument, NotInQueue, no change on error; otherwise exactly `i` is removed and the invariant holds |
| FibonacciHeap.IndexFibonacciMinPQ.Evict | index_fibonacci_min_pq.go:244-265 | a node with a parent is cut first, so it is a root when it is dropped; same result as Drop |
| FibonacciHeap.IndexFibonacciMinPQ.DecreaseKey | index_fibonacci_min_pq.go:193-212 | IllegalArgument, NotInQueue, NotDecrease when `k` is greater, no change on error; otherwise `Contents[i := k]`, the invariant kept, and `MinIndex` moves to `i` only when the old minimum's key is strictly greater than `k` (a tie keeps the old minimum) |
| FibonacciHeap.IndexFibonacciMinPQ.Lower | index_fibonacci_min_pq.go:202-211 | new key stored; `i` becomes the minimum when its key is smaller than the minimum's; heap order restored; either nothing moved (no parent, or a parent with a key no greater than `k`) or `i` became a root and every old root stayed one |
| FibonacciHeap.IndexFibonacciMinPQ.SetKey | index_fibonacci_min_pq.go:202-206 | after the key write the forest is in heap order except possibly on the edge into `i`, and wholly in order when `i` has no parent or its parent's key is no greater |
| FibonacciHeap.IndexFibonacciMinPQ.IncreaseKey | index_fibonacci_min_pq.go:216-233 | IllegalArgument, NotInQueue, NotIncrease when the old key is greater, no change on error; otherwise `Contents[i := k]` |
| FibonacciHeap.IndexFibonacciMinPQ.Replace | index_fibonacci_min_pq.go:226-231 | the Delete and the Insert both succeed, and together they replace the key of `i` |
| FibonacciHeap.Overwrite | index_fibonacci_min_pq.go:226-231 | deleting the key of `i` and then inserting `k` for `i` gives `Contents[i := k]` |
| FibonacciHeap.IndexFibonacciMinPQ.ChangeKey | index_fibonacci_min_pq.go:172-189 | IllegalArgument, NotInQueue, no change on error; otherwise `Contents[i := k]` whether the key rises or falls; when it does not rise, `MinIndex` follows DecreaseKey's strict-greater rule |
| FibonacciHeap.IndexFibonacciMinPQ.Slice | index_fibonacci_min_pq.go:383-391 | exactly the indices in the queue, strictly ascending, as many as there are keys |
| FibonacciHeap.IndexFibonacciMinPQ.InsertNode | index_fibonacci_min_pq.go:334-345 | `x` is spliced in before the head and becomes the head of the ring `[x] + L`; only `x` and the ring's two ends change links |
| FibonacciHeap.IndexFibonacciMinPQ.CutNode | index_fibonacci_min_pq.go:348-363 | the ring without the node at position `p`, headed by the next node when `x` was the head, empty when `x` was alone; `x`'s links are nil; only `x` and its neighbours change |
| FibonacciHeap.IndexFibonacciMinPQ.Meld | index_fibonacci_min_pq.go:366-378 | the two disjoint rings become the ring `MeldSeq(X, Y)` headed by `x` (or by `y` when `x` is nil); only the four end nodes change |
| FibonacciHeap.IndexFibonacciMinPQ.Link | index_fibonacci_min_pq.go:275-279 | root `a` becomes the head of `b`'s child ring, `b`'s order grows by one, the heap order and the forest are kept with `a` no longer a root |
| FibonacciHeap.IndexFibonacciMinPQ.Cut | index_fibonacci_min_pq.go:283-294 | the nodes cut, in order, are a cascade (`CascadingCut.Cascade`): they became roots in front of the old root ring, and the marks changed as the source flips them; heap order is restored |
| FibonacciHeap.IndexFibonacciMinPQ.CutOne | index_fibonacci_min_pq.go:284-290 | one round of cut: `x` is removed from its position in the parent's child ring, the parent's order drops by one and no other order changes, `x` joins the root ring as head, and the parent's mark flips |
| FibonacciHeap.IndexFibonacciMinPQ.Unhook | index_fibonacci_min_pq.go:286-288 | the parent's child ring loses `x`, `x`'s parent is nil and the parent's order drops by one |
| FibonacciHeap.IndexFibonacciMinPQ.Rehead | index_fibonacci_min_pq.go:289-290 | `x` becomes the head of the root ring and the parent's mark flips |
| FibonacciHeap.IndexFibonacciMinPQ.Consolidate | index_fibonacci_min_pq.go:297-331 | afterwards the forest is unchanged in nodes and heap order, no two roots have the same order, and `min` is a root with the smallest key |
| FibonacciHeap.IndexFibonacciMinPQ.Walk | index_fibonacci_min_pq.go:305-323 | the walk over the root ring ends with a table holding one root per order, and those roots are the forest's roots |
| FibonacciHeap.IndexFibonacciMinPQ.Visit | index_fibonacci_min_pq.go:306-322 | one root of the ring is absorbed into the table; the successor was read before any link and is the next ring position; visited and unvisited roots stay apart |
| FibonacciHeap.IndexFibonacciMinPQ.Absorb | index_fibonacci_min_pq.go:309-320 | links equal orders until the table has a free slot for the survivor; the table stays one root per order and roots outside the linked ones are untouched |
| FibonacciHeap.IndexFibonacciMinPQ.LinkSameOrder | index_fibonacci_min_pq.go:310-317 | when `x`'s key is greater than that of the table's root `z` of the same order, `x` is linked under `z`; otherwise, ties included, `z` is linked under `x`; the loser's parent is the survivor, it heads the survivor's child ring, the survivor's order rises by one, and the survivor goes on |
| FibonacciHeap.IndexFibonacciMinPQ.Reroot | index_fibonacci_min_pq.go:324-330 | the table's roots become the new root ring and `min` a root with the smallest key |
| FibonacciHeap.IndexFibonacciMinPQ.Rebuild | index_fibonacci_min_pq.go:324-330 | the new ring holds exactly the table's roots; the chosen minimum is the `greater` fold over the roots in the order they were taken, and so one of them with the smallest key |
| FibonacciHeap.IndexFibonacciMinPQ.RebuildStep | index_fibonacci_min_pq.go:325-329 | the taken root becomes the head, in front of the ring built so far; the minimum becomes that root exactly when the old one is nil or has a greater key |
| FibonacciHeap.IndexFibonacciMinPQ.Unroot | index_fibonacci_min_pq.go:136-146 | the root `x` leaves the forest; the new root ring is the old one without `x` melded with `x`'s children, and the forest over the remaining nodes is intact |
| FibonacciHeap.IndexFibonacciMinPQ.Excise | index_fibonacci_min_pq.go:248-258 | the pointer writes of removing a root, in the model's order: cutNode; then, when there is a child, the child pointer cleared, the children's parents cleared and the child ring melded; with the frames each leaves |
| FibonacciHeap.IndexFibonacciMinPQ.Adopt | index_fibonacci_min_pq.go:249-258 | `x` loses its child, every child's parent becomes nil, and the child ring is melded into the root ring; nothing happens without a child |
| FibonacciHeap.IndexFibonacciMinPQ.ClearParents | index_fibonacci_min_pq.go:140-143 | the loop over the child ring clears the parent of every child and of nothing else, stopping when back at the first child |
| FibonacciHeap.IndexFibonacciMinPQ.Release | index_fibonacci_min_pq.go:153 | the slot of `x` is freed and `x` leaves the contents |
| FibonacciHeap.SelectMin | index_fibonacci_min_pq.go:324-329 | the minimum choice of the rebuild loop |
| FibonacciHeap.SelectMinSnoc | index_fibonacci_min_pq.go:325-327 | taking one more root replaces the running minimum exactly when it is nil or has a greater key |
| FibonacciHeap.PickedStep | index_fibonacci_min_pq.go:324-329 | one round of the rebuild keeps the minimum equal to the fold over the roots taken so far |
| FibonacciHeap.SelectMinIsMin | index_fibonacci_min_pq.go:324-329 | started from nil, the choice is a member with the smallest key |
| CircularList.RingCons | index_fibonacci_min_pq.go:339-343 | the four writes of insertNode turn the ring `L` into the ring `[x] + L` |
| CircularList.RingRemove | index_fibonacci_min_pq.go:353-357 | the two writes of cutNode turn the ring into the ring without the node at `p` |
| CircularList.RingMeld | index_fibonacci_min_pq.go:373-376 | the four writes of meld turn two disjoint rings into the ring `MeldSeq(X, Y)` |
| CircularList.SelfLoopIffSingleton | index_fibonacci_min_pq.go:349 | a node is its own successor exactly when it is alone on its ring |
| CircularList.MeldMembers | index_fibonacci_min_pq.go:366-378 | melding keeps exactly the nodes of both rings, each once |
| CircularList.WithoutMembers | index_fibonacci_min_pq.go:348-363 | cutting a node keeps every other node once |
| CircularList.DistinctCard | index_fibonacci_min_pq.go:383-391 | a list without repeats has as many distinct members as it is long |
| CascadingCut.CascadeStop | index_fibonacci_min_pq.go:290-293 | a cut whose parent ends marked, or has no parent, stops: only `x`'s parent and its parent's mark change |
| CascadingCut.CascadeMore | index_fibonacci_min_pq.go:290-293 | a cut whose parent was marked and has a parent goes on with the parent, and the whole sequence is a cascade |
| CascadingCut.Reversed | index_fibonacci_min_pq.go:289 | the k-th node on the ring is the k-th cut counted from the last |
| CascadingCut.ReversedCons | index_fibonacci_min_pq.go:289 | each cut puts its node in front of the root ring, so the ring ends with the cut nodes in reverse order |
| HeapForest.LinkUnder | index_fibonacci_min_pq.go:275-279 | linking root `a` under root `b` with no smaller key keeps heap order, with `a` in front of `b`'s children |
| HeapForest.Detach | index_fibonacci_min_pq.go:286-288 | a node leaving its parent's child ring becomes a root of the forest |
| HeapForest.CutStep | index_fibonacci_min_pq.go:284-290 | after one round of cut the forest has `x` among its roots and heap order holds again |
| HeapForest.Decrease | index_fibonacci_min_pq.go:202 | lowering a key breaks heap order at most on the edge into that node, and not at all when the parent's key is no greater |
| HeapForest.Lowered | index_fibonacci_min_pq.go:202-210 | the same, plus the parent handle is nil or a different node in range |
| HeapForest.Healed | index_fibonacci_min_pq.go:208-210 | once the lowered node is a root, heap order holds everywhere |
| HeapForest.InsertStep | index_fibonacci_min_pq.go:95-103 | a fresh node spliced in front of the root ring joins the forest as a root |
| HeapForest.MinOfRootsIsMin | index_fibonacci_min_pq.go:324-330 | a key no greater than every root's key is no greater than every key |
| HeapForest.RootsIffNodes | index_fibonacci_min_pq.go:147-152 | the root ring is empty exactly when there are no nodes, which is what testing `length` relies on |
| HeapForest.RootIn | index_fibonacci_min_pq.go:244-248 | a node without a parent is on the root ring, so cutNode can run on it |
| HeapForest.ConsolidateEnd | index_fibonacci_min_pq.go:324-330 | the rebuilt ring and the chosen minimum make a consolidated heap |
| HeapForest.RebuildStepInv | index_fibonacci_min_pq.go:325-329 | each round of the rebuild keeps the new ring, the taken roots and the running minimum consistent |
| HeapForest.DrainedAll | index_fibonacci_min_pq.go:324-330 | once every order is visited every root of the table is on the new ring |
| HeapForest.TableOrdersDistinct | index_fibonacci_min_pq.go:318-321 | roots held in the table have pairwise distinct orders |
| HeapForest.LinkBookkeeping | index_fibonacci_min_pq.go:309-319 | the table after one link: the loser is gone, the survivor carries on, and the table shrinks |
| HeapForest.TourOf | index_fibonacci_min_pq.go:305-308 | the root ring the walk follows, by positions |
| HeapForest.WalkEnter | index_fibonacci_min_pq.go:306-307 | the successor the walk reads is still the original ring's next position |
| HeapForest.WalkLeave | index_fibonacci_min_pq.go:305-323 | the walk's loop test `x != head` fails exactly after the last original root |
| HeapForest.UnrootStep | index_fibonacci_min_pq.go:136-146 | after the root `x` leaves, its children become roots and the forest over the other nodes is intact on the melded ring |
| HeapForest.UnrootParents | index_fibonacci_min_pq.go:140-143 | clearing the parents of `x`'s children makes them roots of the forest without `x` |
| HeapForest.UnrootMembers | index_fibonacci_min_pq.go:144 | the melded ring holds the other roots and the children of `x` |
| HeapForest.UnrootFacts | index_fibonacci_min_pq.go:136-139 | the removed root is in the forest, its children form a ring separate from the root ring |
| HeapForest.ClearAll | index_fibonacci_min_pq.go:140-143 | clearing the parent fields of all children of a removed node at once makes each a root |
| QueueInvariant.EmptyInv | index_fibonacci_min_pq.go:54-63 | the empty queue satisfies the invariant |
| QueueInvariant.InsertInv | index_fibonacci_min_pq.go:88-110 | Insert keeps the invariant |
| QueueInvariant.InsertMin | index_fibonacci_min_pq.go:103-109 | the minimum update of Insert yields a smallest key |
| QueueInvariant.RemoveInv | index_fibonacci_min_pq.go:132-155 | removing a root keeps the invariant, whether or not anything is left |
| QueueInvariant.DecreaseInv | index_fibonacci_min_pq.go:202-211 | DecreaseKey keeps the invariant, including that `min` is a root with the smallest key |
| QueueInvariant.TabledInsert | index_fibonacci_min_pq.go:95-96 | storing a node in its slot and counting it keeps contents, slots and count in step |
| QueueInvariant.TabledRemove | index_fibonacci_min_pq.go:147-153 | freeing a slot and uncounting it keeps contents, slots and count in step |
| QueueInvariant.TabledRekey | index_fibonacci_min_pq.go:202 | writing a new key into a node keeps contents and nodes in step |
| Findings.StaleHeadKept | index_fibonacci_min_pq.go:303 | as written: a start no greater than every root's key is never replaced |
| Findings.StaleHeadExample | index_fibonacci_min_pq.go:303-330 | as written: the old head 1, linked under root 0 of equal key, stays the minimum although it is not a root |
| Findings.CorrectedMinIsRoot | index_fibonacci_min_pq.go:324-330 | corrected: started from nil, the choice is one of the new roots, with the smallest key |
| Findings.SoleDeleteAsWritten | index_fibonacci_min_pq.go:259-265 | as written: deleting the only index leaves an empty root ring yet consolidates |
| Findings.DeleteConsolidatesIff | index_fibonacci_min_pq.go:259-265 | corrected: with the count decremented first, Delete consolidates exactly when roots are left |
| Scenarios.InsertTwo | index_fibonacci_min_pq_test.go:5-24 | two inserts into a queue for 10 indices succeed; then `Len` is 2 and `IsEmpty` is false |
| Scenarios.Filled | index_fibonacci_min_pq_test.go:31-49 | inserting the nine test pairs, in the test's order, succeeds and leaves index `j` with key `10 j` for j = 1..9 |
| Scenarios.DecreaseToTie | index_fibonacci_min_pq.go:205-207 | lowering index 1 to the minimum's key 5 leaves index 0 as `MinIndex`, since only a strictly greater minimum key moves `min` |
| Scenarios.DrainInOrder | index_fibonacci_min_pq_test.go:26-64 | after the inserts `Len` is 9, and `DelMin` until empty returns 1, 2, …, 9 |
| Scenarios.Drain | index_fibonacci_min_pq_test.go:54-63 | repeated `DelMin` on the keys `10 j` returns the indices in key order, until the queue is empty |
| Scenarios.DecreaseThenDelete | index_fibonacci_min_pq_test.go:66-102 | lowering index i+1 to the smallest key succeeds, and the next `DelMin` returns i+1, for i = 0..8 |

## Left out

- `String()` of the queue and of a node (index_fibonacci_min_pq.go:44-50): formatting only.
- `maxOrder` in consolidate (index_fibonacci_min_pq.go:302, 320-322) is computed and never read.
- The `table` field of the Go struct is a local of `Consolidate` here. Its iteration order in the rebuild is Go's unspecified map order. `Rebuild` picks the next order key with `:|`, so the model covers every order.
- Struct-value comparisons (`*x != *pq.head`) are modelled as handle equality. Two distinct nodes never have equal fields because their indices differ.
- Keys are `int` rather than `float32`. NaN and rounding are not modelled.
- Garbage collection, the amortised time bounds, and the allocation of a fresh node by Insert: the model reuses the index's slot, which is what `nodes[i] = x` makes observable.
- link does not clear the mark of the node it links (index_fibonacci_min_pq.go:275-279). The model follows the code. No invariant about marks is claimed beyond what `Cut` states.
- IncreaseKey: the error returns after Delete and Insert (index_fibonacci_min_pq.go:226-231) are unreachable. The model proves that both calls succeed instead of branching on them.
- Delete: the model decrements the count before the emptiness test (see Findings). The as-written order makes Go dereference nil when the last index is deleted.
- Evict: Delete's removal, with the corrected order of the count and the emptiness test.
- Drop: the removal shared by DelMin and Delete, with the count decremented before the emptiness test; this order is DelMin's as written and Delete's corrected.
- IncreaseKey: reaches Delete through `Replace`, so it inherits the corrected order; the source's Delete dereferences nil when the index is the only one.
- Replace: Delete then Insert, with Delete's corrected order.
- ChangeKey: its IncreaseKey branch reaches Delete, with the corrected order; which index `MinIndex` names after a raise is left open, because consolidate's choice between equal keys depends on Go's map order.
- Consolidate: the model starts the minimum search at nil (see Findings), not at the old head.
- Rebuild: the running minimum `m` starts at -1 (nil), where the source starts `pq.min` at `pq.head` (line 303).
- Reroot: the minimum it installs is the one `Rebuild` chose from the nil start.
- DelMin: runs the corrected consolidate, so the source's nil dereference on the second DelMin of the Findings input is not reproduced; the model's second DelMin returns one of the two indices of key 5.

## Findings

| source | as written | input that shows it | evidently intended | confidence | as-written member | corrected member |
|---|---|---|---|---|---|---|
| index_fibonacci_min_pq.go:303 | consolidate starts the minimum search at the old head, which the walk may already have linked below another root | Insert(0,5), Insert(1,5), Insert(2,1), DelMin, DelMin: after the first DelMin `min` is 1, a child of 0; the second DelMin cuts 1 from 0's child ring, `head` becomes nil and consolidate dereferences it | start from nil, so that `min` is one of the new roots | not executed | Findings.StaleHeadExample | Findings.CorrectedMinIsRoot |
| index_fibonacci_min_pq.go:259-265 | Delete tests `IsEmpty()` before `length--` | Insert(0,1), Delete(0): the root ring is empty, yet consolidate runs and dereferences the nil head | decrement first, as DelMin does at lines 147-148 | not executed | Findings.SoleDeleteAsWritten | Findings.DeleteConsolidatesIff |
