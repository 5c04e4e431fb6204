# mrulist in Dafny

This project models the Go package `mrulist`: a bounded doubly-linked list
that backs a most-recently-used eviction policy. Nodes are appended at the
tail (`last`). A lookup moves the matching node one position toward the
head (`root`). A list holding `size` nodes evicts its tail before the next
insertion and hands the evicted node back, so a cache built on top can drop
its own entry for it.

The project has three modules:

- `ListSpec` (`listspec.dfy`) is the abstract view. A list is the sequence
  of its payloads from root to last. The module defines what each operation
  does to that sequence and proves the properties of those definitions:
  - `Added` is an insertion with tail eviction.
  - `DropLast` removes the tail.
  - `SwapUp` and `Promoted` move an element one step toward the root.
  - `Accessed` is a lookup.
  - `InsertAll` is a run of insertions into a fresh list.
- `MruList` (`mrulist.dfy`) holds the heap implementation, written the way the
  Go code is. It has classes `Node` and `MruList` with the same fields, and
  the methods do the same pointer rewrites. Each list carries a ghost
  sequence `nodes` of its nodes from root to last:
  - `Valid()` ties `root`, `last`, `count` and every `prev`/`next` link to
    `nodes`.
  - `Add`, `LinkAtTail`, `RemoveLast`, `MoveUp` and `Get` are proved to
    keep `Valid()`. Each states its effect on `nodes` and on the payloads
    `Values(nodes)`. `Add`, `RemoveLast`, `MoveUp` and `Get` do so through
    `Added`, `DropLast`, `Promoted` and `Accessed`; `LinkAtTail` states it
    as an append.
  - `GetRoot` and `GetLast` change nothing. `Relink` is the pointer
    rewrite inside `MoveUp`; its contract gives the new links of the four
    nodes it touches, and `MoveUp` re-establishes `Valid()` after it.
  - The frame of a list is `this` plus the nodes in `nodes`.
- `Scenarios` (`scenarios.dfy`) covers the package tests:
  - It walks the links forward and backward, as the tests' traversal check
    does.
  - It restates the test scenarios, with their outcomes as postconditions.

The payload is a type parameter `T(==)`. Go compares `interface{}` values
with `==`, and the type parameter makes that comparison well defined.

Behaviour of the code that a reader of the package comment
(`mrulist.go:4-7`) might not expect, and that the model states as the code
does:

- **Eviction.** The package comment says the list backs a cache that
  "evicts the least recently used entry" (`mrulist.go:4-5`). The code
  evicts `last`, whichever node is at the tail (`mrulist.go:48-50`,
  `mrulist.go:87-88`). After promotions this need not be the most recently
  appended node, and in general it is not the least recently used one
  (`EvictsTailAfterPromotions`).
  `TestAdd` checks root `0` and last `9` after inserting 0..9 with
  capacity 5 (`mrulist_test.go:15-21`). The full resulting list,
  `[0, 1, 2, 3, 9]`, is the model's own result (`InsertAllFromEmpty`,
  `TenIntoFive`).
- **Capacity.** `NewMruList` accepts any `size` (`mrulist.go:27-32`).
  - With `size < 0`, `count == size` never holds, so nothing is ever
    evicted and the list grows without bound.
  - With `size == 0`, the first `Add` takes the eviction branch on the
    empty list. `RemoveLast` returns nil there and removes nothing, and the
    list then grows without bound as well.
  - The model states both cases through `Full` and `Added`. Only a positive
    capacity bounds `count` in `Valid()`.
- **Insert then remove.** Removing the tail right after an insertion
  restores the list only when the insertion evicted nothing (`!Full`).
  Otherwise the old tail is already gone.
- **Promotion.** The package comment says an accessed entry moves "to the
  top" (`mrulist.go:6-7`). The code moves it one position
  (`mrulist.go:115-143`), and the tests expect exactly that.

## Model

| member | source | states |
|---|---|---|
| ListSpec.FirstIndex | mrulist.go:145-157 | the position where a scan from the root stops: the first element equal to `x`, or the length when there is none; no earlier element matches |
| ListSpec.FirstIndexBefore | mrulist.go:148-156 | a position holding `x` with no match before it is the position the scan returns |
| ListSpec.Evicted | mrulist.go:48-50 | an insertion evicts at most one payload, and it does so exactly when the list is full (`Full`: it holds `size` payloads and is not empty, the case in which the `count == size` test removes a node); what it evicts is the tail |
| ListSpec.Added | mrulist.go:44-69 | an insertion puts the new payload at the tail and keeps every other position up to the tail in order; the list grows by one, less what was evicted, so the old tail is dropped exactly when the list was full |
| ListSpec.Promoted | mrulist.go:115-143 | a promotion of position `k` puts its element at `k - 1` and the predecessor at `k`, or changes nothing at the root; every other position keeps its element |
| ListSpec.Accessed | mrulist.go:145-157 | a lookup keeps the length, and a miss changes nothing |
| ListSpec.InsertAll | mrulist_test.go:10-13 | after a run of insertions into a fresh list, the kept and the evicted payloads together are as many as were inserted, and the last one inserted is at the tail |
| ListSpec.DropLast | mrulist.go:72-91 | removing the tail leaves a prefix one shorter; the empty list stays empty |
| ListSpec.SwapUp | mrulist.go:121-134 | the element at `k` and its predecessor change places; every other position keeps its element |
| ListSpec.AddedBounded | mrulist.go:44-54 | with a positive capacity an insertion grows the list by one until it is full, then keeps it at capacity |
| ListSpec.AddedThenDropLast | mrulist.go:72-91 | when an insertion evicts nothing (the list is not full), removing the tail afterwards gives back the previous list |
| ListSpec.InsertAllFromEmpty | mrulist.go:44-70 | inserting `xs` into a fresh list of capacity `C` leaves the first `C - 1` payloads followed by the latest one; the payloads in between were evicted, in insertion order |
| ListSpec.AddedKeepsOrEvicts | mrulist.go:44-69 | one insertion loses nothing: the new list and the evictions so far hold the old list's payloads, the earlier evictions and the new payload, each as often as before |
| ListSpec.InsertAllKeepsOrEvicts | mrulist_test.go:10-13 | a run of insertions loses nothing: every payload inserted is either still in the list or among the evicted ones, as often as it was inserted |
| ListSpec.InsertAllCounts | mrulist.go:44-70 | after `N` insertions into a fresh list of capacity `C`, it holds `min(N, C)` payloads and `max(0, N - C)` were evicted |
| ListSpec.SwapUpPermutes | mrulist.go:121-134 | exchanging neighbours keeps the same elements with the same multiplicities |
| ListSpec.SwapUpTwice | mrulist.go:121-134 | exchanging the same neighbours twice restores the list |
| ListSpec.PromotedPermutes | mrulist.go:115-143 | a promotion, including the no-op at the root, never adds or removes an element |
| ListSpec.AccessedPermutes | mrulist.go:145-157 | a lookup never adds or removes a payload |
| ListSpec.AccessedMovesFirstMatchOneStep | mrulist.go:145-157 | a hit moves the first match from position `k` to `k - 1`, or leaves it at the root, so the next lookup of the same payload finds it there |
| ListSpec.PromotedRepeatedlyMovesToFront | mrulist.go:6-7 | reaching the top from position `k`, as the package comment describes, takes `k` promotions; every other element keeps its relative order |
| MruList.Node.constructor | mrulist.go:52-53 | a new node carries its payload and no links |
| MruList.LinkedAfterSwapUp | mrulist.go:121-134 | when the two exchanged nodes and their outer neighbours are relinked as the code does, and all other links are unchanged, the chain is doubly linked in the swapped order |
| MruList.LinkedNoRepeat | mrulist.go:14-18 | in a chain linked both ways whose head has no back link, no node occurs at two positions |
| MruList.LinkedOnlyAt | mrulist.go:14-18 | in such a chain, the node at position `k` occurs nowhere else |
| MruList.ValuesPromoted | mrulist.go:145-157 | promoting nodes promotes their payloads |
| MruList.ValuesAdded | mrulist.go:44-70 | inserting a node inserts its payload |
| MruList.MruList.constructor | mrulist.go:27-32 | a new list is empty (`count` 0, no root, no last) with the given capacity, and satisfies the invariant for every capacity |
| MruList.MruList.GetRoot | mrulist.go:34-36 | returns the first node, or null on an empty list; the first node has no back link |
| MruList.MruList.GetLast | mrulist.go:38-40 | returns the last node, or null on an empty list; the last node has no forward link |
| MruList.MruList.Add | mrulist.go:44-70 | keeps the invariant; the node sequence becomes `Added(old, newNode, size)`; the new node is fresh and carries `data`; the payloads become `Added(old payloads, data, size)`; the evicted node is the old `last` exactly when the list was full, and null otherwise; the evicted node leaves the list with no forward link and its old back link; `count` grows by one unless the list was full |
| MruList.MruList.LinkAtTail | mrulist.go:52-69 | given room, it appends the node at the tail (as root and last of an empty list), so its payload becomes the last payload; it increments `count` and keeps the invariant |
| MruList.MruList.RemoveLast | mrulist.go:72-91 | keeps the invariant; returns the old `last`, or null on an empty list; the node sequence and the payload sequence lose their tail; `count` drops by one unless the list was empty; the removed node has no forward link but keeps a back link to the new tail |
| MruList.MruList.MoveUp | mrulist.go:115-143 | keeps the invariant and `count`; null or the root changes nothing; otherwise the node changes places with its predecessor (`Promoted`), in the nodes and in the payloads; it becomes `root` when its predecessor was the root; its predecessor becomes `last` when the node was the last |
| MruList.MruList.Relink | mrulist.go:124-134 | the node's new links go to its old predecessor's predecessor and its old predecessor; the predecessor's links go to the node and the old successor; the outer neighbours, when present, point back at the exchanged pair |
| MruList.MruList.ValidAfterExchange | mrulist.go:136-142 | after the exchange, with `root` and `last` moved to the new ends, the list satisfies the invariant again |
| MruList.MruList.Get | mrulist.go:145-157 | keeps the invariant and `count`; on a hit it returns the first node from the root carrying `data` and promotes it one step; on a miss it returns null and leaves the nodes unchanged; the payloads become `Accessed(old payloads, data)` |
| Scenarios.Forward | mrulist_test.go:29-53 | walking forward links from the root visits exactly the payloads from root to last |
| Scenarios.Backward | mrulist_test.go:29-53 | walking back links from the last node visits the payloads in reverse order |
| Scenarios.TenIntoFive | mrulist_test.go:9-22 | inserting 0..9 into a fresh list of capacity 5 leaves the payloads [0, 1, 2, 3, 9] |
| Scenarios.AddTenToCapacityFive | mrulist_test.go:9-22 | inserting 0..9 with capacity 5 leaves 0 at the root and 9 at the tail |
| Scenarios.AddThenRemoveLast | mrulist.go:44-91 | on a list that is not full, removing the tail right after an insertion returns the inserted node and restores the nodes and the count |
| Scenarios.TwoElementTrace | mrulist_test.go:55-79 | for the payloads [1, 2], a hit on 1 changes nothing and a hit on 2 gives [2, 1], whose reverse is [1, 2] |
| Scenarios.MoveUpWithTwoElements | mrulist_test.go:55-79 | on a list of capacity 5 holding 1, 2: after `Get(1)` the root holds 1 and the last holds 2; after `Get(2)` the root holds 2 and the last holds 1, and the forward and backward walks read [2, 1] and [1, 2] |
| Scenarios.EvictsTailAfterPromotions | mrulist.go:44-50 | with capacity 3, inserting 1, 2, 3 and looking up 3 twice gives [3, 1, 2]; the next insertion evicts the tail 2, not 1 (used least recently) nor 3 (inserted last), and leaves [3, 1, 4] |
| Scenarios.MoveUpWithThreeElements | mrulist_test.go:81-114 | hits on 3, 3, 2, 2, 3 take [1, 2, 3] through [1, 3, 2], [3, 1, 2], [3, 2, 1] and [2, 3, 1] back to [3, 2, 1], with the stated backward orders |

## Left out

- `Dump` and `DumpR` (`mrulist.go:93-112`) only print the list, so they are not modelled.
- The example cache in the test file (`mrulist_test.go:117-175`) composes the list with a Go map, so it is not modelled. `TestCache` is not restated.
- Go's dynamic `interface{}` equality can panic on values that cannot be compared, and it is not reflexive for a NaN `float64`, so `Get` never finds a NaN payload (`mrulist.go:149`). The model uses a type parameter with equality instead, which is reflexive and never panics.
- The model is sequential. The package has no locking, and concurrent use is out of scope.
- `count` is a Go `int`, while the model uses unbounded integers. An overflow would need more than 2^63 nodes.
- MoveUp: requires that `n` belongs to this list. The code does not check this. A node with a nil back link makes it panic (`mrulist.go:122`). Any other foreign or previously evicted node is relinked, leaving `root`, `last` and `count` out of step with the links.
- Node payloads are written only when a node is created, so `data` is a constant field. The model leaves out client code that assigns `Data` afterwards.
- Add and RemoveLast: the node the list hands back as evicted or removed keeps its back link (`mrulist.go:87-88`). Their contracts state where that link points; they do not treat the node as detached.
- Scenarios.MoveUpWithThreeElements: states the three-element test on the payload sequences, not on a list in the heap. Five lookups with traversals on one heap list exceed a verification resource limit of 2,000,000. The heap-level `Get` contract and `Forward`/`Backward` connect these sequences to the list.
