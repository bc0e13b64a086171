# Dijkstra over an indexed binary min-heap

This project models the two classes of the PHP repository Algoritmo_Dijkstra and proves
properties about them.

- **`PriorityQueue`** is an indexed binary min-heap. Its entries sit in 1-based slots: the
  parent of slot `i` is `i / 2`, and its children are `2i` and `2i + 1`. A position index
  maps each element to the slot that holds it. The operations are `push`, `pop`,
  `change_priority`, `contains`, `isEmpty`, `count` and `purge`, built on the private
  `up_heap` and `down_heap`.
- **`Dijkstra`** is an eager engine. Its constructor:
  - gives every graph node distance `INT_MAX` (`0x7FFFFFFF`) and no predecessor, except the
    source, which gets distance 0;
  - queues every node;
  - pops whatever `pop` returns until the queue is empty, relaxing the edges that
    `getNeighbors` hands back (an undirected graph keeps only neighbours that are still
    queued).

  With a correct queue, `pop` returns the closest queued node. The code's `pop` does not
  always do so (Findings, row 1), and on some graphs the code settles a node at a distance
  that is too large (Findings, row 4). The engine here drives the corrected queue.

  Afterwards, `shortestPathTo`, `getDistances` and `getPrevious` query the result.

Files:

| file | contents |
|---|---|
| `wrappers.dfy` | `Option` and `Result` |
| `heap.dfy` | slot arithmetic and heap-order predicates; a sift step moves a single "hole" (`HeapExceptUp`, `HeapExceptDown`) |
| `priority_queue.dfy` | the queue as a value: slots, index and count. The operations take a queue and return the new one. They follow the code with the three corrections listed under Findings |
| `as_written.dfy` | literal transcriptions of `push`, `up_heap`, `down_heap`, `pop` and `change_priority`, with concrete inputs where they go wrong |
| `graph.dfy` | graphs as maps of weighted adjacency maps; walks and their weights; feasible distance maps bound every walk |
| `dijkstra.dfy` | the engine: initialisation, relaxation, the main loop and its invariant, path reconstruction, accessors, and optimality of the result |
| `dijkstra_as_written.dfy` | the constructor driving the queue as written, traced on one four-node graph where it settles a node too early |

Abstract view of the queue. `Valid(q)` is the class invariant: index consistency
(`Indexed`) plus heap order (`HeapOrdered`). `Contents(q)` maps each indexed element to the
priority in its slot. Queue contracts are stated against `Contents`.

Invariant of the main loop (`Settling`). Settled nodes carry a ghost `rank`, their pop
order, and `level` is the distance of the last popped node. The invariant says:
- settled distances are at most `level`, and queued distances are at least `level`;
- every predecessor link is a tight edge (`dist[v] == dist[u] + w`) from a node settled
  earlier;
- no edge out of a settled node can be relaxed.

At the end, the invariant gives `Converged` and `PathsFound`:
- `Converged`: the final maps cover the graph, every link is tight, and no edge can be
  relaxed;
- `PathsFound`: `shortestPathTo` succeeds exactly below `INT_MAX`.

Three lemmas then give optimality:
- `DistanceIsOptimal`: every distance is a lower bound on the weight of any walk from the
  source;
- `PathWeighsDistance`: the path that `shortestPathTo` reports weighs exactly that
  distance;
- `Construct`, through `PathsFound`: that path is found exactly for the nodes whose
  distance is below `INT_MAX`.

How the model treats three points of the code:
- **Duplicate push.** The code never checks whether a pushed element is already queued.
  `Push` requires the element to be absent.
- **Unreached sentinel.** Unreached nodes keep the code's sentinel `INT_MAX` as their
  distance; there is no optional distance.
- **`change_priority`.** `ChangePriority` keeps the code's five cases and stores the new
  priority in all of them (see Findings).

## Model

| member | source | states |
|---|---|---|
| PriorityQueue.NewQueue | src/PriorityQueue.php:44-50 | a new queue satisfies the class invariant and holds nothing |
| PriorityQueue.IsEmpty | src/PriorityQueue.php:62-65 | for a valid queue, isEmpty is true exactly when the queue holds no element |
| PriorityQueue.Contains | src/PriorityQueue.php:78-81 | for a valid queue, the index lookup agrees with a scan of the occupied slots: true exactly when some slot 1..count holds the element |
| PriorityQueue.Count | src/PriorityQueue.php:264-267 | for a valid queue, count equals the number of distinct indexed elements |
| PriorityQueue.IndexSize | src/PriorityQueue.php:264-267 | in an index-consistent queue the index has exactly count entries |
| PriorityQueue.Purge | src/PriorityQueue.php:249-255 | after purge the queue is valid, has count 0, holds nothing and has an empty index |
| PriorityQueue.SwapSlots | src/PriorityQueue.php:299-300 | moving an entry between two slots and rewriting both index entries keeps the index consistent and the contents unchanged |
| PriorityQueue.SetPriority | src/PriorityQueue.php:314-316 | writing a new priority into a slot changes the contents only at that slot's element |
| PriorityQueue.SiftUp | src/PriorityQueue.php:335-359 | lifting an entry from a heap that is ordered except between that slot and its parent restores heap order, keeps the index consistent and leaves count, indexed elements and contents unchanged |
| PriorityQueue.SiftDown | src/PriorityQueue.php:283-320 | pushing an entry down from a heap that is ordered except below that slot restores heap order with the same guarantees; a child in the last slot, whether a lone left child or the smaller right child, is compared and entered |
| PriorityQueue.Push | src/PriorityQueue.php:99-121 | push of an absent element answers true, keeps the invariant, raises count by one, adds exactly that element with that priority, and on an empty queue puts it in slot 1 with index 1 |
| PriorityQueue.Pop | src/PriorityQueue.php:135-155 | on an empty queue, fails with EmptyQueue and leaves the queue unchanged; otherwise returns the element of slot 1, whose priority is minimal, lowers count by one, removes exactly that element and keeps the invariant |
| PriorityQueue.ChangePriority | src/PriorityQueue.php:186-240 | answers false and changes nothing exactly when the element is absent; otherwise stores the new priority for that element only, keeps count and indexed elements, and keeps the invariant |
| Heap.RootIsMinimal | src/PriorityQueue.php:142 | in a heap-ordered slot sequence, slot 1 holds a minimal priority |
| Heap.SmallerChild | src/PriorityQueue.php:292-294 | the child chosen for sift-down is a child of the slot, and when it exists its priority is at most that of every child |
| Heap.SwapUpStep | src/PriorityQueue.php:340-346 | one up_heap step (parent strictly larger) moves the single out-of-order position to the parent |
| Heap.UpStopped | src/PriorityQueue.php:340-341 | when up_heap stops (at the root or parent not larger), the heap is fully ordered |
| Heap.SwapDownStep | src/PriorityQueue.php:298-311 | one down_heap step (smaller child strictly smaller) moves the single out-of-order position to that child |
| Heap.DownStopped | src/PriorityQueue.php:298 | when down_heap stops (no child, or smaller child not smaller), the heap is fully ordered |
| Heap.LowerGivesExceptUp | src/PriorityQueue.php:212-213 | lowering a slot's priority can break order only towards its parent |
| Heap.RaiseGivesExceptDown | src/PriorityQueue.php:199-200 | raising a slot's priority to at least its parent's can break order only towards its children |
| AsWritten.DownHeapLoop | src/PriorityQueue.php:292-311 | the down_heap loop as written never moves the hole to a slot at or beyond the count |
| AsWritten.DownHeap | src/PriorityQueue.php:283-320 | down_heap as written keeps the count, grows the slots by one exactly when the start slot is just past them, writes the entry at the start slot or at a slot below the count, indexes it, and indexes the element left in the start slot at that slot |
| AsWritten.UpHeapLoop | src/PriorityQueue.php:340-346 | the up_heap loop as written ends at a slot between 1 and the starting one |
| AsWritten.UpHeap | src/PriorityQueue.php:335-359 | up_heap as written keeps the count and the slot count, writes the entry at a slot between 1 and the start slot, indexes it, and indexes the element left in the start slot at that slot |
| AsWritten.PushAsWritten | src/PriorityQueue.php:99-121 | push as written grows the slots and the count by one and indexes the element |
| AsWritten.PopAsWritten | src/PriorityQueue.php:135-155 | pop as written fails on an empty queue without change, and otherwise returns the element of slot 1 and lowers count by one |
| AsWritten.ChangePriorityAsWritten | src/PriorityQueue.php:186-240 | change_priority as written answers true exactly when the element is indexed, and changes nothing when it answers false |
| AsWritten.PushesGivePushed123 | src/PriorityQueue.php:99-121 | pushing priorities 1, 2, 3 as written gives the valid queue with slots in push order |
| AsWritten.PopAsWrittenBreaksHeapOrder | src/PriorityQueue.php:292-307 | popping that queue as written leaves priority 3 above priority 2, so heap order is lost |
| AsWritten.PopAsWrittenSkipsLastRightChild | src/PriorityQueue.php:292-298 | popping the valid queue with priorities 1, 7, 6, 10 as written picks the right child in the last slot but never enters it, leaving priority 10 above 7 and 6 |
| AsWritten.PopAsWrittenKeepsSoleElement | src/PriorityQueue.php:145-152 | popping a one-element queue as written leaves count 0 while contains still answers true |
| AsWritten.ChangePriorityAsWrittenKeepsStalePriority | src/PriorityQueue.php:199-216 | lowering the root or raising the last slot as written answers true and leaves the old priority stored |
| Graphs.FeasibleBoundsWalks | src/Dijkstra.php:115-118 | when no edge can be relaxed and the source is at 0, every walk from the source weighs at least the distance of its last node |
| Dijkstra.Neighbors | src/Dijkstra.php:139-161 | directed: exactly the node's adjacency map; undirected: exactly the neighbours still queued; weights unchanged |
| Dijkstra.InitialDistances | src/Dijkstra.php:95-102 | every node is at INT_MAX except the source, at 0 |
| Dijkstra.InitNode | src/Dijkstra.php:95-101 | one initialisation round gives the node INT_MAX and no predecessor and queues it at INT_MAX unless it is the source |
| Dijkstra.Initialize | src/Dijkstra.php:93-102 | after initialisation, distances are INT_MAX except 0 at the source, no node has a predecessor, and the valid queue holds every node once with its distance as priority |
| Dijkstra.Relaxed | src/Dijkstra.php:115-122 | reference relaxation: no distance grows, and a changed distance is the strictly smaller du + w of an edge in the map |
| Dijkstra.RelaxedPrevious | src/Dijkstra.php:115-120 | reference predecessor update: a node points at the popped node exactly when its distance improved in the reference relaxation, and keeps its predecessor otherwise |
| Dijkstra.RelaxEdge | src/Dijkstra.php:116-121 | when alt = du + w is strictly below the neighbour's distance, distance, predecessor and queue priority all become alt / current; otherwise nothing changes; the queue stays valid and in agreement with the distances |
| Dijkstra.RelaxOneMore | src/Dijkstra.php:115-122 | relaxing one more edge on top of those already handled is exactly one RelaxEdge step on the distances |
| Dijkstra.RelaxOneMorePrevious | src/Dijkstra.php:115-122 | the same for the predecessor map |
| Dijkstra.RelaxNext | src/Dijkstra.php:115-121 | one pass of the foreach over a not yet handled neighbour extends the reference relaxation of distances and predecessors by that neighbour, keeping the queue valid, of the same size and in agreement with the distances |
| Dijkstra.RelaxNeighbors | src/Dijkstra.php:115-122 | relaxing the neighbours one by one, in any order, gives the reference relaxation, keeps the queue valid, of the same size, and in agreement with the distances |
| Dijkstra.PoppedLeast | src/Dijkstra.php:111 | the node popped was queued with the least distance, and the queue now holds the other queued nodes at their distances |
| Dijkstra.SettlingAtStart | src/Dijkstra.php:93-102 | the main-loop invariant holds right after initialisation |
| Dijkstra.RoundKeepsSettled | src/Dijkstra.php:115-122 | relaxing from the popped node changes neither its own distance nor any settled distance |
| Dijkstra.RoundShape | src/Dijkstra.php:110-122 | a round moves the popped node from the queued nodes to the settled ones with the next rank |
| Dijkstra.RoundLevels | src/Dijkstra.php:110-122 | after a round the source is still at 0 with no predecessor, distances stay in 0..INT_MAX, settled ones are at most the popped distance and queued ones at least |
| Dijkstra.RoundLinks | src/Dijkstra.php:115-121 | after a round every predecessor link is still a tight edge from an earlier-settled node, and every reached node except the source has one |
| Dijkstra.RoundEdges | src/Dijkstra.php:110-122 | after a round no edge out of a settled node, the popped one included, can be relaxed |
| Dijkstra.SettleStep | src/Dijkstra.php:110-122 | one pop-and-relax round keeps the main-loop invariant |
| Dijkstra.Round | src/Dijkstra.php:110-122 | one round keeps the queue valid and in agreement with the distances, keeps the invariant, and shrinks the queue by one |
| Dijkstra.SettledIsSolved | src/Dijkstra.php:110-123 | when the queue is empty, the invariant gives every final property: tight links, no relaxable edge, and a reported path exactly for nodes below INT_MAX |
| Dijkstra.Construct | src/Dijkstra.php:83-125 | the constructor terminates and leaves an engine over its inputs whose maps have converged (source at 0, tight links, no relaxable edge, distances in 0..INT_MAX) and whose shortestPathTo succeeds exactly for nodes below INT_MAX |
| Dijkstra.ChainTo | src/Dijkstra.php:193-207 | a chain found walking predecessors back starts at the source, ends at the node and links each entry to the one before it |
| Dijkstra.ChainFound | src/Dijkstra.php:193-207 | if every reached node's predecessor is reached and of smaller rank, the backward walk from a reached node reaches the source |
| Dijkstra.Hops | src/Dijkstra.php:181-216 | the hop list starts with (source, 0, 0), carries each node's distance as accumulated weight, and each weight is the increase over the previous hop |
| Dijkstra.ShortestPathTo | src/Dijkstra.php:179-219 | a reported path runs from (source, 0, 0) to the destination along predecessor links with each node's distance; failure is Unreachable and never for the source |
| Dijkstra.HopsArePath | src/Dijkstra.php:179-219 | the hop list of a predecessor chain is a path as shortestPathTo promises |
| Dijkstra.HopWeights | src/Dijkstra.php:186-216 | with tight links, every prefix of a reported hop list is a walk whose weight is its last accumulated weight |
| Dijkstra.PathWeighsDistance | src/Dijkstra.php:179-219 | the reported path is a walk in the graph from the source to the destination whose weight is the destination's distance |
| Dijkstra.DistanceIsOptimal | src/Dijkstra.php:83-125 | no walk from the source to a node weighs less than the node's final distance |
| Dijkstra.GetDistances | src/Dijkstra.php:241-244 | the final distances cover the graph, are 0 at the source and lie in 0..INT_MAX |
| DijkstraAsWritten.RelaxAsWritten | src/Dijkstra.php:116-121 | one pass of the foreach over the queue as written: the neighbour's distance never grows; when it drops, it becomes du + w and the neighbour's predecessor becomes the popped node; otherwise distances, predecessors and queue are unchanged |
| DijkstraAsWritten.PushesGiveInitial | src/Dijkstra.php:94-101 | on the four-node graph, the initial pushes as written leave A at 0 in slot 1 and B, C, D at INT_MAX in slots 2-4 |
| DijkstraAsWritten.PopGivesB | src/PriorityQueue.php:142-152 | popping B from the queue B:1, D:2, C:5 as written puts C, at 5, in slot 1 above D, at 2 |
| DijkstraAsWritten.RoundA | src/Dijkstra.php:110-122 | the first round as written pops A and leaves B at 1, C at 5 and D at 2, all with predecessor A, in the queue B, D, C |
| DijkstraAsWritten.RoundB | src/Dijkstra.php:110-122 | the second round as written pops B and changes no distance, leaving C in slot 1 |
| DijkstraAsWritten.RoundC | src/Dijkstra.php:110-122 | the third round as written pops C, at 5, while D waits at 2, and 5 + 1 does not improve on D |
| DijkstraAsWritten.RoundD | src/Dijkstra.php:110-122 | the fourth round as written pops D and empties the queue with no distance changed |
| DijkstraAsWritten.DiamondAsWrittenMissesShortest | src/Dijkstra.php:110-122 | the constructor as written on the four-node graph pops A, B, C, D and ends with C at 5 and predecessor A, so the edge D-C is still relaxable although the walk A, D, C weighs 3 |
| DijkstraAsWritten.DiamondCorrected | src/Dijkstra.php:83-125 | the constructor over the corrected queue on the same graph gives D at most 2 and C at most 3 |
| Dijkstra.GetPrevious | src/Dijkstra.php:253-256 | the final predecessors cover the graph, the source has none, and every link is a tight edge |

## Left out

- Timestamps stored with each entry: they are written but never compared.
- Hashing of elements into index keys: the index is an equality-keyed map, so hash collisions are not modelled.
- `print`, `getAlgorithmTime` and the `microtime` measurement: output and clock I/O.
- `getPosition`: an unused private helper, subsumed by map lookup.
- `PriorityQueueInterface.php`: method signatures only.
- The order of PHP array iteration.
  - The initialisation and relaxation loops pick nodes in an arbitrary order.
  - The results are proved for every order.
- PHP loose typing: reads of undefined keys, and comparisons with null.
  - These become preconditions: the source is a node, every neighbour is a node (`Closed`), and weights are naturals.
  - When `change_priority` compares a slot-1 element of equal priority against empty slot 0, that comparison is false, so the element goes down.
- Integer width: integers are unbounded. PHP's 64-bit integers do not overflow at `INT_MAX` plus a realistic weight.
- The graph passed by reference: it is an immutable map.
- Duplicate pushes: `Push` requires the element to be absent, because the code does not check for duplicates.
- Dijkstra.ShortestPathTo: it deviates from the code in two cases, an unreached destination and the destination equal to the source.
  - In both cases the code's backward walk reads a null predecessor. The walk stops only
    when that value is loosely equal (PHP `==`) to the source node.
  - For a source node not loosely equal to null (anything but `0`, `''`, `false` and the
    like), the walk never terminates in those cases.
  - For a source node loosely equal to null, such as node `0`, the walk stops at once.
  - Unreached destination: the model reports `Unreachable`. With node `0` as source, the
    code returns `[(0, 0, 0), (destination, INT_MAX, INT_MAX)]`.
  - Destination equal to the source: the model returns the single hop (source, 0, 0).
    With node `0` as source, the code returns `[(0, 0, 0), (0, 0, 0)]`.
  - PHP loose equality between a node and null is not modelled, so the model does not
    reproduce these two answers for node `0`.
- Dijkstra.Construct: convergence and optimality are proved for the constructor over the corrected queue only. Over the code's queue they fail (Findings, row 4).
- PriorityQueue.Push: does not state that only the slots on the path from the new leaf to the root change. It states the resulting contents and heap order.
- PriorityQueue.SiftUp: does not state which slots it touches, for the same reason.
- PriorityQueue.SiftUp: swaps at every step rather than moving a hole, like SiftDown below.
- PriorityQueue.SiftDown: swaps at every step rather than moving a hole.
  - The final slots and index are those of the hole-based loop.
  - The intermediate states are not modelled.

## Findings

| source | as written | input that shows it | evidently intended | confidence | as-written member | corrected member |
|---|---|---|---|---|---|---|
| src/PriorityQueue.php:292-307 | down_heap looks at a child only when its slot number is strictly below the element count, so the last slot is never entered, whether it holds a lone left child or a right child picked as the smaller one | push (10, 1), (20, 2), (30, 3), then pop: slot 1 holds priority 3 above slot 2 holding priority 2; popping (1, 1), (2, 7), (3, 6), (4, 10) leaves priority 10 in slot 1 above 7 and 6 | a child whose slot is at most the count is compared | not executed | AsWritten.PopAsWrittenBreaksHeapOrder | PriorityQueue.SiftDown |
| src/PriorityQueue.php:199-216 | lowering the priority of slot 1, or raising that of the last slot, returns true without storing the new priority | queue (10, 5), (20, 7): change 10 to 3, or 20 to 9; both answer true and keep 5 and 7 | the new priority is stored in every case | not executed | AsWritten.ChangePriorityAsWrittenKeepsStalePriority | PriorityQueue.ChangePriority |
| src/PriorityQueue.php:145-152 | popping the only element runs down_heap on the emptied queue, which writes the element back into slot 1 and its index entry | queue (10, 5): pop gives 10 and count 0, yet contains(10) is true | the popped element leaves the index | not executed | AsWritten.PopAsWrittenKeepsSoleElement | PriorityQueue.Pop |
| src/Dijkstra.php:110-122 | the main loop trusts `pop` to return the closest queued node, but the code's `pop` can return another one (row 1), which is then settled for good | undirected graph with keys A, B, C, D; A-B 1, A-C 5, A-D 2, C-D 1; source A. After A, the queue is B:1, D:2, C:5; popping B puts C above D; C is popped at 5 while D waits at 2, and once D is popped C is no longer queued, so C keeps 5 with predecessor A | C gets a distance of at most 3, the weight of the walk A, D, C | not executed | DijkstraAsWritten.DiamondAsWrittenMissesShortest | Dijkstra.Construct |
