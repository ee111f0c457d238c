# Dijkstra grid path finder, modelled in Dafny

This project models `DijkstraPathFinder`, a uniform-cost search over a grid of
passable and blocked cells. Every move between side-adjacent cells costs one,
so the search behaves as a breadth-first search. `findPath` starts from a
node on the map's first origin cell with cost 0 and no origin. Each round of
its loop does the following:

- it tests the four neighbours (r+1, c), (r, c+1), (r-1, c) and (r, c-1) of the current node with `testCell`;
- if nothing is open, it stops;
- otherwise it closes the current node and takes a cheapest open node as the next current node.

The loop stops as soon as the current node stands on the first destination
cell. `findPath` then follows the origin links back to the start node and
reverses them into a path. When origin and destination coincide, the code as
written dereferences null at line 62 of `pathFinder/DijkstraPathFinder.java`;
the evident intent is the one-cell path holding the origin. The model's
`FindPath` returns that one-cell path through the corrected `RebuildPath`.
`RebuildPathAsWritten` and `OriginIsDestinationAsWritten` model the code as
written, and "## Findings" records the difference.

`testCell` does one of four things:

- it skips a cell that is impassable or already closed;
- it inserts a new node for a cell with no open node, one step dearer than the current node, and bumps the exploration counter;
- it lowers the cost and resets the origin of an open node that the current node reaches more cheaply (a decrease-key, done by removing the node and adding it back);
- otherwise it leaves everything unchanged.

Model layout, one module per file:

- `wrappers.dfy` (`Wrappers`): `Option` and `Result`.
- `path_maps.dfy` (`PathMaps`): the map collaborator.
  - The grid is `rows` × `columns` with a set of blocked cells, plus the origin and destination lists.
  - `IsPassable` folds in the bounds check. Coordinates are structural pairs.
  - It defines walks (each step moves to an adjacent passable cell) and reachability. These are the reference definitions the search is proved against.
- `search_nodes.dfy` (`SearchNodes`): the inner class `Node` and path reconstruction.
  - Nodes live in an arena, a sequence addressed by index. A node's `origin` is the index of the node it was reached from.
  - `Node.equals` compares coordinates only.
  - It holds the queue lookups (`contains`, `remove()`), `Collections.reverse`, and the reconstruction, both as written and corrected.
- `search_invariants.dfy` (`SearchInvariants`): the search state and the loop invariant.
  - The state is the arena, the open queue and the closed list, the latter two as index sequences.
  - It holds the relaxation and close/pop state changes, the lemmas that preserve the invariant, and the two end-of-search theorems: the path found is a shortest walk, and an exhausted search means the destination is unreachable.
- `path_finder.dfy` (`PathFinder`): the class `DijkstraPathFinder`.
  - Its fields are the map and the `coordinatesExplored` counter.
  - Its methods are `TestCell`, the neighbour round, one loop round, the loop and `FindPath`.

The loop invariant (`Inv`) says the following:

- every non-start node is linked to an adjacent node exactly one step cheaper, on a passable cell;
- no two nodes share a coordinate;
- the open queue holds each node once and never a closed node;
- every passable neighbour of a closed node is known;
- closed and current nodes carry their exact distance from the origin;
- no open node is cheaper than the current node;
- the destination has never been closed.

A value of the subset type `Running` is a search state together with its map
and endpoints, and the type guarantees that `Inv` holds for it.

The project is verified with all five files in one command:

```
dafny verify --resource-limit 2000000 --verification-time-limit 0 --warn-contradictory-assumptions *.dfy
```

The resource limit, not a wall-clock limit, is what the proofs are sized
for: plain `dafny verify`, with its default 30-second limit per batch and no
resource limit, can time out on `TestNeighbours`.

## Model

| member | source | states |
|---|---|---|
| PathFinder.DijkstraPathFinder.FindPath | pathFinder/DijkstraPathFinder.java:21-69 | With no origin cell or no destination cell, the result is the map error and the counter does not move. Otherwise the path is non-empty exactly when the first destination cell is reachable from the first origin cell. A non-empty path starts on the origin, ends on the destination, steps between adjacent passable cells, and no walk between them is shorter. Its length is the last popped cost plus one; when origin and destination coincide it is the single origin cell and nothing is explored. An empty path means the destination is unreachable and every reachable cell but the origin was explored. Popped costs start at 0 and never decrease. The counter grows by exactly the number of distinct cells inserted into the open queue; these cells are passable, reachable and never the origin. The ghost outputs describe the search that ran. The final arena is sound: the start node is on the origin; every other node is linked to an adjacent node one step cheaper, on a passable cell; no two nodes share a cell. The explored cells are exactly the arena's cells besides the start node's. `trail` is a sequence of distinct arena indices, starting with the start node and ending with `current`, and `popped` lists their running costs, which never decrease. No arena node outside `trail` is cheaper than `current`. After an exhausted search every arena node is on `trail`. A non-empty path is exactly the origin chain of `current`, and `current` stands on the destination. These ghost outputs are constrained only relationally, against the final arena. That `trail` is the order the loop took its current nodes is stated by `Explore` (`trail` is the closed list followed by the current node); the per-round facts are those of `SearchStep` (the closed list grows by the old current node, and the new one is no cheaper) and `TestCell` (the counter rises by one per insertion). |
| PathFinder.DijkstraPathFinder.Explore | pathFinder/DijkstraPathFinder.java:33-55 | The search loop terminates, which the `Unclosed` measure shows. It ends with the invariant kept (the returned `Running` value) and either the current node on the destination or the queue empty after a full expansion. The counter grows by one per node besides the start node. The returned `Toured` value records the nodes taken as current, in order: it is exactly the final closed list, in closing order, followed by the final current node. The start node comes first and no node appears twice. Their running costs are recorded beside them and never decrease. |
| PathFinder.DijkstraPathFinder.SearchStep | pathFinder/DijkstraPathFinder.java:39-54 | One loop round keeps the invariant. If the round stops (nothing open), the current node stays and has been fully expanded. Otherwise the new current node is not the start node, is no cheaper than the node it replaces, and one more cell of the finite universe is closed. Closed nodes and the old current node are untouched. The closed list is unchanged when the round stops, and otherwise gains exactly the old current node; the new current node is not closed. |
| PathFinder.DijkstraPathFinder.TestNeighbours | pathFinder/DijkstraPathFinder.java:39-46 | The four neighbour tests, in the source's order, keep the invariant and leave the closed list, the closed cells, every closed node and the current node unchanged. Afterwards every passable neighbour of the current node is known, at most one step dearer than the current node. |
| PathFinder.DijkstraPathFinder.TestCell | pathFinder/DijkstraPathFinder.java:71-111 | An impassable cell, or a cell whose node is closed, changes nothing. A cell with no open node is inserted and the counter rises by one. An open node strictly dearer than current+1 gets a decrease-key. Any other case changes nothing. The counter moves only on insertion, the invariant is kept, and the cell is known afterwards. |
| PathFinder.DijkstraPathFinder.CoordinatesExplored | pathFinder/DijkstraPathFinder.java:114-117 | The getter reports the exploration counter: the number of cells inserted into an open queue over every search the finder ran. |
| PathFinder.DijkstraPathFinder.constructor | pathFinder/DijkstraPathFinder.java:13-16 | The finder keeps the map and starts its counter at 0. |
| SearchNodes.NodeEqualsLaws | pathFinder/DijkstraPathFinder.java:120-150 | `Node.equals` is reflexive (the `this == o` shortcut), symmetric and transitive, and ignores running cost and origin: only the coordinate counts. |
| SearchNodes.Find | pathFinder/DijkstraPathFinder.java:81-96 | `contains` with coordinate-only equality, plus the iterator scan (lines 140-150 define that equality). It yields the first position whose node is on the probe's cell, or `None` exactly when no node of the collection is on that cell. |
| SearchNodes.MinIndex | pathFinder/DijkstraPathFinder.java:25-28 | The queue's `remove()` (line 51) takes a position of least running cost, the earliest among ties. |
| SearchNodes.RemoveAt | pathFinder/DijkstraPathFinder.java:100 | Removing the entry at a position keeps every other entry in order. |
| SearchNodes.Reverse | pathFinder/DijkstraPathFinder.java:65 | `Collections.reverse`: the same length, with element i taken from position \|s\|-1-i. |
| SearchNodes.ChainFrom | pathFinder/DijkstraPathFinder.java:59-63 | The cells along a node's origin chain, one cell per step of running cost. |
| SearchNodes.ChainStart | pathFinder/DijkstraPathFinder.java:59-63 | When every origin-less node stands on the start cell, every chain begins there. |
| SearchNodes.RebuildPathAsWritten | pathFinder/DijkstraPathFinder.java:58-66 | The do-while as written fails with a null dereference when the destination node is the start node. Otherwise it returns exactly the origin chain of the destination. |
| SearchNodes.RebuildPath | pathFinder/DijkstraPathFinder.java:58-66 | The corrected reconstruction returns the origin chain: it runs from the map's origin cell to the destination, with length equal to the destination's cost plus one. |
| SearchNodes.OriginIsDestinationAsWritten | pathFinder/DijkstraPathFinder.java:33-36 | With origin equal to destination, the loop is skipped and the reconstruction as written (lines 59-62) fails. |
| SearchNodes.OriginIsDestination | pathFinder/DijkstraPathFinder.java:33-36 | With origin equal to destination, the corrected reconstruction gives the one-cell path. |
| SearchInvariants.Inserted | pathFinder/DijkstraPathFinder.java:78-86 | `openNodes.add(tempNode)` appends one node and leaves the closed list unchanged. |
| SearchInvariants.DecreasedKey | pathFinder/DijkstraPathFinder.java:99-106 | The decrease-key keeps the arena size, the closed list and the queue length. |
| SearchInvariants.DecreasedKeyEffect | pathFinder/DijkstraPathFinder.java:99-106 | The re-queued node keeps its cell and gets cost current+1 and origin current. No other node changes. The queue keeps the same members, each once, with that node last. |
| SearchInvariants.MoveToBack | pathFinder/DijkstraPathFinder.java:100-105 | Remove-then-add keeps the queue's members and keeps them distinct. |
| SearchInvariants.InsertKeeps | pathFinder/DijkstraPathFinder.java:78-86 | Inserting a cell that has no node keeps the invariant, including cost = parent cost + 1, adjacency, passability and one node per cell. The cell becomes known, and nothing closed or current changes. |
| SearchInvariants.ArenaInsert | pathFinder/DijkstraPathFinder.java:78-85 | A new node one step dearer than its adjacent origin, on a passable cell no node has, keeps the arena well linked with distinct cells. |
| SearchInvariants.SetsInsert | pathFinder/DijkstraPathFinder.java:81-85 | Insertion keeps the open queue duplicate-free and disjoint from the closed list, and every node closed, current or open. |
| SearchInvariants.DecreaseKeeps | pathFinder/DijkstraPathFinder.java:99-106 | A decrease-key on a strictly dearer open node keeps the invariant. It only lowers one open node's cost and leaves the closed list unchanged. |
| SearchInvariants.ArenaDecrease | pathFinder/DijkstraPathFinder.java:102-103 | The rewritten cost and origin keep cost = parent cost + 1, adjacency and distinct cells. |
| SearchInvariants.SetsDecrease | pathFinder/DijkstraPathFinder.java:99-106 | The decrease-key keeps every node closed, current or open, and no open node cheaper than the current one. The queue loses no entry. |
| SearchInvariants.DecreaseCovers | pathFinder/DijkstraPathFinder.java:99-106 | After a decrease-key the tested cell is known at cost current+1. |
| SearchInvariants.GrowsKeeps | pathFinder/DijkstraPathFinder.java:71-111 | The effect of a neighbour test (arena only grows, costs only drop, closed and current nodes untouched) keeps the frontier, distance and destination parts of the invariant. |
| SearchInvariants.InitialInv | pathFinder/DijkstraPathFinder.java:28-33 | The start node alone, with empty queue and closed list, satisfies the invariant. |
| SearchInvariants.Closed | pathFinder/DijkstraPathFinder.java:50 | `closedNodes.add(currentNode)` appends the current node to the closed list and leaves the arena and the queue unchanged. |
| SearchInvariants.Popped | pathFinder/DijkstraPathFinder.java:51 | `openNodes.remove()` drops one queue entry and leaves the arena and the closed list unchanged. |
| SearchInvariants.PoppedMembers | pathFinder/DijkstraPathFinder.java:51 | From a duplicate-free queue, the entries left are exactly the old ones other than the removed node. |
| SearchInvariants.SettledChain | pathFinder/DijkstraPathFinder.java:43-46 | The four neighbour tests leave the closed list, the closed cells and every closed or current node as they were. |
| SearchInvariants.TrailKeep | pathFinder/DijkstraPathFinder.java:49-54 | A round that stops with nothing open keeps the record of current nodes valid. |
| SearchInvariants.TrailShape | pathFinder/DijkstraPathFinder.java:49-51 | The record of current nodes is the closed list, in closing order, followed by the current node. |
| SearchInvariants.Untaken | pathFinder/DijkstraPathFinder.java:49-51 | A node neither closed nor current is open, hence no cheaper than the current node; with nothing open, every node is closed or current. |
| SearchInvariants.TrailAdvance | pathFinder/DijkstraPathFinder.java:49-51 | Closing the current node and popping an unclosed node extends the record of current nodes by that node, with no node twice and every earlier entry closed. |
| SearchInvariants.ClosePopKeeps | pathFinder/DijkstraPathFinder.java:49-51 | Closing the fully expanded current node and popping a cheapest open node keeps the invariant. The popped node is not the start node and is no cheaper than the closed one, so popped costs do not decrease. |
| SearchInvariants.PoppedIsShortest | pathFinder/DijkstraPathFinder.java:25-28 | A cheapest open node (popped at line 51), given closed nodes with exact distances and a known frontier, carries its exact distance: no walk from the origin to its cell is shorter. |
| SearchInvariants.ExitBound | pathFinder/DijkstraPathFinder.java:25-28 | A walk that first leaves the closed cells at step j bounds the cheapest open cost by j. |
| SearchInvariants.SetsAfterClosePop | pathFinder/DijkstraPathFinder.java:50-51 | After close and pop, the queue still holds no closed node and no duplicate, and the old current node is closed. |
| SearchInvariants.FrontierAfterClose | pathFinder/DijkstraPathFinder.java:43-50 | Closing a fully expanded node keeps every passable neighbour of every closed node known. |
| SearchInvariants.LowerBoundsAfterClosePop | pathFinder/DijkstraPathFinder.java:50-51 | The popped node joins the closed and current nodes that carry exact distances. |
| SearchInvariants.MonotoneAfterPop | pathFinder/DijkstraPathFinder.java:51 | No node left open is cheaper than the popped one. |
| SearchInvariants.DestAfterClose | pathFinder/DijkstraPathFinder.java:36-50 | The destination is never closed, because the loop test sees it first. |
| SearchInvariants.ClosePopShrinks | pathFinder/DijkstraPathFinder.java:36-51 | Each close-and-pop closes one more cell of the finite universe (the grid plus the origin), so the loop terminates. |
| SearchInvariants.KnownIsClosed | pathFinder/DijkstraPathFinder.java:49-54 | With nothing open after a full expansion, every passable neighbour of a cell that has a node also has a node. |
| SearchInvariants.ExhaustedUnreachable | pathFinder/DijkstraPathFinder.java:49-54 | When the loop stops because nothing is open, every reachable cell has a node and the destination is unreachable. |
| SearchInvariants.FoundIsShortest | pathFinder/DijkstraPathFinder.java:36-63 | When the current node is on the destination, its origin chain is a walk from the origin to the destination and no walk is shorter. |
| SearchInvariants.ArenaWellLinked | pathFinder/DijkstraPathFinder.java:78-103 | Every origin link lowers the cost by one, and only the start node, on the origin cell, has no origin. |
| SearchInvariants.ChainIsWalk | pathFinder/DijkstraPathFinder.java:43-46 | Every node's origin chain is a walk of adjacent passable cells from the origin to that node's cell (links are set at lines 78 and 103). |
| SearchInvariants.ExploredSize | pathFinder/DijkstraPathFinder.java:84-86 | With one node per cell, the cells inserted into the queue number the nodes besides the start node. |
| SearchInvariants.ExploredCells | pathFinder/DijkstraPathFinder.java:77-86 | The inserted cells are not the origin, are passable and are reachable from the origin. |
| SearchInvariants.ReachableExplored | pathFinder/DijkstraPathFinder.java:84-86 | If every reachable cell has a node, every reachable cell but the origin was inserted. |
| PathFinder.ConcludeFound | pathFinder/DijkstraPathFinder.java:58-68 | A search ending on the destination delivers the found outcome. |
| PathFinder.TourAdvance | pathFinder/DijkstraPathFinder.java:49-51 | Appending a popped node no cheaper than the current one keeps the recorded costs non-decreasing. |
| PathFinder.ConcludeUntaken | pathFinder/DijkstraPathFinder.java:49-54 | No node left off the record of current nodes is cheaper than the last current node, and a search that ran out of open nodes took every node it created as current. |
| PathFinder.Conclude | pathFinder/DijkstraPathFinder.java:57-68 | Whichever way the loop ends, the rebuilt path (or nothing) is the outcome: non-empty exactly when the destination is reachable, found or exhausted accordingly, over a sound arena. |
| PathFinder.ConcludeExhausted | pathFinder/DijkstraPathFinder.java:49-58 | A search ending with nothing open delivers the exhausted outcome with the empty path. |
| PathMaps.Neighbours | pathFinder/DijkstraPathFinder.java:43-46 | The four cells tested, in the source's order, are exactly the adjacent cells. |
| PathMaps.Cells | pathFinder/DijkstraPathFinder.java:77 | The passable cells lie inside the finite grid. |

## Left out

- Nothing of `PathMap` or `Coordinate` beyond `isPassable` and the two cell lists is modelled: not map loading, not how `isPassable` is computed (here bounds plus a blocked set), not the rest of either class.
- The binary heap of `java.util.PriorityQueue` is not modelled. The queue is a sequence, and `remove()` takes the first position of least cost. The source's heap may pick another minimum; every property above except which of several shortest paths is returned holds for any minimum, because the proofs use only minimality.
- `Node.hashCode` and the `PathFinder` interface are left out, as is the `existingNode != null` test in the iterator scan (the scan runs only after `contains` succeeded, so it always stops on the matching node).
- Nodes are values in an arena addressed by index, not shared mutable objects. The setters of the decrease-key update the arena entry, and the queue and closed list hold indices.
- The body of `findPath` is split into `Explore` (the loop), `SearchStep` (one round) and `TestNeighbours` (the four `testCell` calls of a round). `TestCell` is the source's own `testCell`. The split changes no step or order of the loop.
- `FindPath`, `TestCell`: do not model 32-bit `int` overflow of `runningCost` or `coordinatesExplored`; overflow would need more than 2^31 cells in one search or over the finder's lifetime.
- `FindPath`: its contract does not say which of several equally short paths is returned, so the determinism of two calls on the same map is not stated. Path length equal to the Manhattan distance on an unblocked grid is not stated separately; it follows from shortest-walk optimality only with a grid-distance lemma this model does not contain.
- A map with no origin or no destination cell makes `get(0)` throw in the source; the model returns `Failure(InvalidMap)` and changes nothing.

## Findings

| source | as written | input that shows it | evidently intended | confidence | as-written member | corrected member |
|---|---|---|---|---|---|---|
| pathFinder/DijkstraPathFinder.java:58-62 | When the destination node is the start node, the do-while steps to the start node's null origin and then calls `getOrigin()` on null. | A map whose first origin cell is also its first destination cell: the loop at line 36 is skipped and line 62 dereferences null. | The one-cell path holding the origin, with nothing explored; the model's `FindPath` uses this corrected reconstruction. | not executed | SearchNodes.OriginIsDestinationAsWritten | SearchNodes.OriginIsDestination |
