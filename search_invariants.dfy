/**
 * The state findPath threads through its loop and the invariants it keeps.
 * `cur` is the index of the node being expanded (the source's `currentNode`).
 */
module SearchInvariants {
  import opened Wrappers
  import opened PathMaps
  import opened SearchNodes

  /** The node arena, the open queue and the closed list of one search. */
  datatype Search = Search(nodes: seq<Node>, open: seq<nat>, closed: seq<nat>)

  /** `openNodes.add(tempNode)`: a new node reached from `cur`, appended to the arena and the queue. */
  function Inserted(st: Search, cur: nat, y: Coord): (st': Search)
    requires cur < |st.nodes|
    ensures |st'.nodes| == |st.nodes| + 1 && st'.closed == st.closed
  {
    Search(st.nodes + [Node(y, st.nodes[cur].runningCost + 1, Some(cur))],
           st.open + [|st.nodes|], st.closed)
  }

  /**
   * The decrease-key of the source: remove the open node at position `k`, set
   * its running cost to one more than `cur`'s and its origin to `cur`, and add
   * it back (at the end of the queue).
   */
  function DecreasedKey(st: Search, cur: nat, k: nat): (st': Search)
    requires cur < |st.nodes| && k < |st.open| && st.open[k] < |st.nodes|
    ensures |st'.nodes| == |st.nodes| && st'.closed == st.closed && |st'.open| == |st.open|
  {
    var e := st.open[k];
    Search(st.nodes[e := st.nodes[e].(runningCost := st.nodes[cur].runningCost + 1, origin := Some(cur))],
           RemoveAt(st.open, k) + [e], st.closed)
  }

  /** The back-link of a non-start node: to an adjacent node one step cheaper, onto a passable cell. */
  ghost predicate Linked(m: PathMap, nodes: seq<Node>, i: nat)
    requires i < |nodes|
  {
    match nodes[i].origin
    case None => false
    case Some(p) =>
      p < |nodes| && nodes[i].runningCost == nodes[p].runningCost + 1 &&
      Adjacent(nodes[p].coordinate, nodes[i].coordinate) && Passable(m, nodes[i].coordinate)
  }

  /**
   * The arena: the start node at index 0 on the origin with cost 0, every other
   * node linked to its origin, and no two nodes on the same coordinate.
   */
  ghost predicate ArenaOK(m: PathMap, o: Coord, nodes: seq<Node>) {
    |nodes| > 0 && nodes[0] == Node(o, 0, None) &&
    (forall i {:trigger Linked(m, nodes, i)} :: 0 < i < |nodes| ==> Linked(m, nodes, i)) &&
    (forall i, j :: 0 <= i < j < |nodes| ==> nodes[i].coordinate != nodes[j].coordinate)
  }

  /**
   * Open and closed entries address the arena; every node is closed, current
   * or open, and only one of them; the open queue holds each node once; the
   * start node is settled (closed or current), and so is every node that is
   * some node's origin.
   */
  ghost predicate Sets(st: Search, cur: nat) {
    Indices(st.nodes, st.open) && Indices(st.nodes, st.closed) && cur < |st.nodes| &&
    cur !in st.closed && cur !in st.open &&
    (forall k :: 0 <= k < |st.open| ==> st.open[k] !in st.closed) &&
    Distinct(st.open) &&
    (forall i :: 0 <= i < |st.nodes| ==> i in st.closed || i == cur || i in st.open) &&
    (0 in st.closed || cur == 0) &&
    (forall i :: 0 <= i < |st.nodes| && st.nodes[i].origin.Some? ==>
       st.nodes[i].origin.value in st.closed || st.nodes[i].origin.value == cur)
  }

  predicate Distinct(s: seq<nat>) {
    forall a, b :: 0 <= a < b < |s| ==> s[a] != s[b]
  }

  /** Cell `y` is known: its node is closed, current, or open with cost at most `b`. */
  ghost predicate Covered(st: Search, cur: nat, y: Coord, b: int) {
    exists j :: 0 <= j < |st.nodes| && st.nodes[j].coordinate == y &&
      (j in st.closed || j == cur || (j in st.open && st.nodes[j].runningCost <= b))
  }

  /** Every passable neighbour of a closed node is known, at most one step dearer if still open. */
  ghost predicate Frontier(m: PathMap, st: Search, cur: nat) {
    forall i, y :: 0 <= i < |st.nodes| && i in st.closed && Adjacent(st.nodes[i].coordinate, y) && Passable(m, y) ==>
      Covered(st, cur, y, st.nodes[i].runningCost + 1)
  }

  /** The neighbours of the current node tested so far are known. */
  ghost predicate Expanded(m: PathMap, st: Search, cur: nat, handled: seq<Coord>) {
    cur < |st.nodes| &&
    forall y :: y in handled && Passable(m, y) ==> Covered(st, cur, y, st.nodes[cur].runningCost + 1)
  }

  /** No walk from `o` to `x` has fewer than `k + 1` cells. */
  ghost predicate LowerBound(m: PathMap, o: Coord, x: Coord, k: int) {
    forall w :: WalkBetween(m, w, o, x) ==> k < |w|
  }

  /** Closed and current nodes carry their shortest distance as running cost. */
  ghost predicate LowerBounds(m: PathMap, o: Coord, st: Search, cur: nat) {
    forall i :: 0 <= i < |st.nodes| && (i in st.closed || i == cur) ==>
      LowerBound(m, o, st.nodes[i].coordinate, st.nodes[i].runningCost)
  }

  /** No open node is cheaper than the current one. */
  ghost predicate Monotone(st: Search, cur: nat) {
    cur < |st.nodes| &&
    forall k :: 0 <= k < |st.open| && st.open[k] < |st.nodes| ==>
      st.nodes[st.open[k]].runningCost >= st.nodes[cur].runningCost
  }

  /** The destination has never been closed. */
  ghost predicate DestNotClosed(st: Search, d: Coord) {
    forall k :: 0 <= k < |st.closed| && st.closed[k] < |st.nodes| ==> st.nodes[st.closed[k]].coordinate != d
  }

  /** The invariant of findPath's loop, at the top of each iteration and between the four neighbour tests. */
  ghost predicate Inv(m: PathMap, o: Coord, d: Coord, st: Search, cur: nat) {
    ArenaOK(m, o, st.nodes) && Sets(st, cur) && Frontier(m, st, cur) &&
    LowerBounds(m, o, st, cur) && Monotone(st, cur) && DestNotClosed(st, d)
  }

  /** A search state together with the map it runs on and its origin and destination. */
  datatype Progress = Progress(m: PathMap, o: Coord, d: Coord, st: Search, cur: nat)

  /** A search state at the head of findPath's loop: one that keeps the invariant. */
  type Running = p: Progress | Inv(p.m, p.o, p.d, p.st, p.cur)
    ghost witness Progress(PathMap(0, 0, {}, [], []), Coord(0, 0), Coord(0, 0),
                           Search([Node(Coord(0, 0), 0, None)], [], []), 0)

  /**
   * What a neighbour test does to the state, at most: the arena only grows,
   * coordinates stay, costs only drop, closed and current nodes are untouched,
   * the closed list is the same and no open entry leaves.
   */
  ghost predicate Grows(st: Search, st': Search, cur: nat) {
    |st.nodes| <= |st'.nodes| && st'.closed == st.closed &&
    (forall j :: 0 <= j < |st.nodes| ==>
       st'.nodes[j].coordinate == st.nodes[j].coordinate &&
       st'.nodes[j].runningCost <= st.nodes[j].runningCost &&
       ((j in st.closed || j == cur) ==> st'.nodes[j] == st.nodes[j])) &&
    (forall j :: j in st.open ==> j in st'.open)
  }

  /** Closed nodes and the current node keep their contents while the arena only grows. */
  ghost predicate Settled(st: Search, st': Search, cur: nat) {
    |st.nodes| <= |st'.nodes| &&
    forall j :: 0 <= j < |st.nodes| && (j in st.closed || j == cur) ==> st'.nodes[j] == st.nodes[j]
  }

  /** Four neighbour tests in a row leave the closed list, the closed cells and the settled nodes as they were. */
  lemma {:induction false} SettledChain(s0: Search, s1: Search, s2: Search, s3: Search, s4: Search, cur: nat)
    requires Indices(s0.nodes, s0.closed)
    requires Grows(s0, s1, cur) && Grows(s1, s2, cur) && Grows(s2, s3, cur) && Grows(s3, s4, cur)
    ensures Settled(s0, s4, cur) && s4.closed == s0.closed && ClosedCoords(s4) == ClosedCoords(s0)
  {
    forall j | 0 <= j < |s0.nodes| && (j in s0.closed || j == cur) ensures s4.nodes[j] == s0.nodes[j] {
      assert s1.nodes[j] == s0.nodes[j];
      assert s2.nodes[j] == s1.nodes[j];
      assert s3.nodes[j] == s2.nodes[j];
    }
    ClosedCoordsGrows(s0, s1, cur);
    ClosedCoordsGrows(s1, s2, cur);
    ClosedCoordsGrows(s2, s3, cur);
    ClosedCoordsGrows(s3, s4, cur);
  }

  /**
   * The nodes taken as current node, in order, with their running costs in
   * `costs`: the start node first, `last` last, and no node twice.
   */
  ghost predicate Visits(nodes: seq<Node>, trail: seq<nat>, costs: seq<nat>, last: nat) {
    |trail| == |costs| > 0 && trail[0] == 0 && trail[|trail| - 1] == last && Distinct(trail) &&
    forall i :: 0 <= i < |trail| ==> trail[i] < |nodes| && costs[i] == nodes[trail[i]].runningCost
  }

  /** The visits of a running search: every visited node is closed except the last, the current node. */
  ghost predicate Trail(st: Search, cur: nat, trail: seq<nat>, costs: seq<nat>) {
    Visits(st.nodes, trail, costs, cur) && trail[..|trail| - 1] == st.closed &&
    forall i :: 0 <= i < |trail| - 1 ==> trail[i] in st.closed
  }

  /** No node outside `trail` is cheaper than node `last`. */
  ghost predicate NoneCheaper(nodes: seq<Node>, trail: seq<nat>, last: nat) {
    last < |nodes| &&
    forall i :: 0 <= i < |nodes| && i !in trail ==> nodes[last].runningCost <= nodes[i].runningCost
  }

  /** The visits of a running search are its closed list followed by the current node. */
  lemma {:induction false} TrailShape(st: Search, cur: nat, trail: seq<nat>, costs: seq<nat>)
    requires Trail(st, cur, trail, costs)
    ensures trail == st.closed + [cur]
  {
    assert trail == trail[..|trail| - 1] + [trail[|trail| - 1]];
  }

  /** A round that closes nothing keeps the visits. */
  lemma {:induction false} TrailKeep(st: Search, st': Search, cur: nat, trail: seq<nat>, costs: seq<nat>)
    requires Trail(st, cur, trail, costs) && Settled(st, st', cur) && st'.closed == st.closed
    ensures Trail(st', cur, trail, costs)
  {
    forall i | 0 <= i < |trail| ensures trail[i] < |st'.nodes| && costs[i] == st'.nodes[trail[i]].runningCost {
      if i < |trail| - 1 { assert trail[i] in st.closed; }
    }
  }

  /** A round that closes the current node and takes `next`, which is not closed, extends the visits by `next`. */
  lemma {:induction false} TrailAdvance(st: Search, st': Search, cur: nat, next: nat, trail: seq<nat>, costs: seq<nat>)
    requires Trail(st, cur, trail, costs) && Settled(st, st', cur) && st'.closed == st.closed + [cur]
    requires next < |st'.nodes| && next !in st'.closed
    ensures Trail(st', next, trail + [next], costs + [st'.nodes[next].runningCost])
  {
    var t := trail + [next];
    var c := costs + [st'.nodes[next].runningCost];
    forall i | 0 <= i < |trail|
      ensures trail[i] in st'.closed && trail[i] < |st'.nodes| && costs[i] == st'.nodes[trail[i]].runningCost
    {
      if i < |trail| - 1 { assert trail[i] in st.closed; }
    }
    forall a, b | 0 <= a < b < |t| ensures t[a] != t[b] {
      assert t[a] == trail[a] && trail[a] in st'.closed;
      if b < |trail| { assert t[b] == trail[b]; }
    }
    forall i | 0 <= i < |t| ensures t[i] < |st'.nodes| && c[i] == st'.nodes[t[i]].runningCost {
      if i < |trail| { assert t[i] == trail[i] && c[i] == costs[i]; }
    }
    forall i | 0 <= i < |t| - 1 ensures t[i] in st'.closed {
      assert t[i] == trail[i];
    }
  }

  lemma {:induction false} CoveredGrows(st: Search, st': Search, cur: nat, y: Coord, b: int)
    requires Grows(st, st', cur) && Covered(st, cur, y, b)
    ensures Covered(st', cur, y, b)
  {
    var j :| 0 <= j < |st.nodes| && st.nodes[j].coordinate == y &&
      (j in st.closed || j == cur || (j in st.open && st.nodes[j].runningCost <= b));
    assert st'.nodes[j].coordinate == y;
  }

  /** A neighbour test keeps everything already known about the frontier and the settled nodes. */
  lemma {:induction false} GrowsKeeps(m: PathMap, o: Coord, d: Coord, st: Search, st': Search, cur: nat, handled: seq<Coord>)
    requires Inv(m, o, d, st, cur) && Expanded(m, st, cur, handled) && Grows(st, st', cur)
    ensures Frontier(m, st', cur) && LowerBounds(m, o, st', cur) && DestNotClosed(st', d)
    ensures Expanded(m, st', cur, handled)
  {
    GrowsFrontier(m, st, st', cur);
    GrowsExpanded(m, st, st', cur, handled);
    GrowsLowerBounds(m, o, st, st', cur);
    GrowsDestNotClosed(st, st', cur, d);
  }

  lemma {:induction false} GrowsFrontier(m: PathMap, st: Search, st': Search, cur: nat)
    requires Indices(st.nodes, st.closed) && Frontier(m, st, cur) && Grows(st, st', cur)
    ensures Frontier(m, st', cur)
  {
    forall i, y | 0 <= i < |st'.nodes| && i in st'.closed && Adjacent(st'.nodes[i].coordinate, y) && Passable(m, y)
      ensures Covered(st', cur, y, st'.nodes[i].runningCost + 1)
    {
      assert i < |st.nodes| && st'.nodes[i] == st.nodes[i];
      CoveredGrows(st, st', cur, y, st.nodes[i].runningCost + 1);
    }
  }

  lemma {:induction false} GrowsExpanded(m: PathMap, st: Search, st': Search, cur: nat, handled: seq<Coord>)
    requires Expanded(m, st, cur, handled) && Grows(st, st', cur)
    ensures Expanded(m, st', cur, handled)
  {
    forall y | y in handled && Passable(m, y)
      ensures Covered(st', cur, y, st'.nodes[cur].runningCost + 1)
    {
      CoveredGrows(st, st', cur, y, st.nodes[cur].runningCost + 1);
    }
  }

  lemma {:induction false} GrowsLowerBounds(m: PathMap, o: Coord, st: Search, st': Search, cur: nat)
    requires Sets(st, cur) && LowerBounds(m, o, st, cur) && Grows(st, st', cur)
    ensures LowerBounds(m, o, st', cur)
  {
    forall i | 0 <= i < |st'.nodes| && (i in st'.closed || i == cur)
      ensures LowerBound(m, o, st'.nodes[i].coordinate, st'.nodes[i].runningCost)
    {
      assert i < |st.nodes| && st'.nodes[i] == st.nodes[i];
    }
  }

  lemma {:induction false} GrowsDestNotClosed(st: Search, st': Search, cur: nat, d: Coord)
    requires Indices(st.nodes, st.closed) && DestNotClosed(st, d) && Grows(st, st', cur)
    ensures DestNotClosed(st', d)
  {
    forall k | 0 <= k < |st'.closed| && st'.closed[k] < |st'.nodes|
      ensures st'.nodes[st'.closed[k]].coordinate != d
    {
      assert st'.closed[k] == st.closed[k];
    }
  }

  /** A cell that is neither closed nor open nor current has no node in the arena. */
  lemma {:induction false} UnknownHasNoNode(st: Search, cur: nat, y: Coord)
    requires Sets(st, cur) && st.nodes[cur].coordinate != y
    requires forall k :: 0 <= k < |st.closed| ==> st.nodes[st.closed[k]].coordinate != y
    requires forall k :: 0 <= k < |st.open| ==> st.nodes[st.open[k]].coordinate != y
    ensures forall i :: 0 <= i < |st.nodes| ==> st.nodes[i].coordinate != y
  {
    forall i | 0 <= i < |st.nodes| ensures st.nodes[i].coordinate != y {
      if i in st.closed {
        var k :| 0 <= k < |st.closed| && st.closed[k] == i;
      } else if i in st.open {
        var k :| 0 <= k < |st.open| && st.open[k] == i;
      }
    }
  }

  lemma {:induction false} ArenaInsert(m: PathMap, o: Coord, st: Search, cur: nat, y: Coord)
    requires ArenaOK(m, o, st.nodes) && cur < |st.nodes|
    requires Adjacent(st.nodes[cur].coordinate, y) && Passable(m, y)
    requires forall i :: 0 <= i < |st.nodes| ==> st.nodes[i].coordinate != y
    ensures ArenaOK(m, o, Inserted(st, cur, y).nodes)
  {
    var nodes := st.nodes;
    var nodes' := Inserted(st, cur, y).nodes;
    assert nodes' == nodes + [Node(y, nodes[cur].runningCost + 1, Some(cur))];
    forall i | 0 < i < |nodes'| ensures Linked(m, nodes', i) {
      if i < |nodes| {
        assert Linked(m, nodes, i);
        assert nodes'[i] == nodes[i];
        assert nodes'[nodes[i].origin.value] == nodes[nodes[i].origin.value];
      }
    }
  }

  lemma {:induction false} SetsInsert(st: Search, cur: nat, y: Coord)
    requires Sets(st, cur)
    ensures Sets(Inserted(st, cur, y), cur)
  {
    var st' := Inserted(st, cur, y);
    var n := |st.nodes|;
    assert n !in st.closed && n !in st.open;
    forall i | 0 <= i < |st'.nodes| ensures i in st'.closed || i == cur || i in st'.open {
      if i == n { assert st'.open[|st.open|] == n; }
    }
    forall i | 0 <= i < |st'.nodes| && st'.nodes[i].origin.Some?
      ensures st'.nodes[i].origin.value in st'.closed || st'.nodes[i].origin.value == cur
    {
      if i < n { assert st'.nodes[i] == st.nodes[i]; }
    }
  }

  lemma {:induction false} MonotoneInsert(st: Search, cur: nat, y: Coord)
    requires Monotone(st, cur) && Indices(st.nodes, st.open)
    ensures Monotone(Inserted(st, cur, y), cur)
  {
    var st' := Inserted(st, cur, y);
    forall k | 0 <= k < |st'.open| && st'.open[k] < |st'.nodes|
      ensures st'.nodes[st'.open[k]].runningCost >= st'.nodes[cur].runningCost
    {
      if k < |st.open| { assert st'.open[k] == st.open[k] && st'.nodes[st.open[k]] == st.nodes[st.open[k]]; }
    }
  }

  lemma {:induction false} GrowsInsert(st: Search, cur: nat, y: Coord)
    requires Sets(st, cur)
    ensures Grows(st, Inserted(st, cur, y), cur)
  {
  }

  /** A test that adds cell `y` to the tested neighbours keeps them known. */
  lemma {:induction false} ExpandedAdd(m: PathMap, st: Search, cur: nat, handled: seq<Coord>, y: Coord)
    requires Expanded(m, st, cur, handled)
    requires Passable(m, y) ==> Covered(st, cur, y, st.nodes[cur].runningCost + 1)
    ensures Expanded(m, st, cur, handled + [y])
  {
  }

  /** Inserting an unknown passable neighbour of the current node keeps the invariant and makes it known. */
  lemma {:induction false} InsertKeeps(m: PathMap, o: Coord, d: Coord, st: Search, cur: nat, handled: seq<Coord>, y: Coord)
    requires Inv(m, o, d, st, cur) && Expanded(m, st, cur, handled)
    requires Adjacent(st.nodes[cur].coordinate, y) && Passable(m, y)
    requires forall k :: 0 <= k < |st.closed| ==> st.nodes[st.closed[k]].coordinate != y
    requires forall k :: 0 <= k < |st.open| ==> st.nodes[st.open[k]].coordinate != y
    ensures Inv(m, o, d, Inserted(st, cur, y), cur) && Expanded(m, Inserted(st, cur, y), cur, handled + [y])
    ensures Grows(st, Inserted(st, cur, y), cur)
  {
    var st' := Inserted(st, cur, y);
    UnknownHasNoNode(st, cur, y);
    ArenaInsert(m, o, st, cur, y);
    SetsInsert(st, cur, y);
    MonotoneInsert(st, cur, y);
    GrowsInsert(st, cur, y);
    GrowsKeeps(m, o, d, st, st', cur, handled);
    assert Covered(st', cur, y, st'.nodes[cur].runningCost + 1) by {
      assert st'.nodes[|st.nodes|].coordinate == y && |st.nodes| in st'.open;
    }
    ExpandedAdd(m, st', cur, handled, y);
  }

  lemma {:induction false} ArenaDecrease(m: PathMap, o: Coord, st: Search, cur: nat, k: nat)
    requires ArenaOK(m, o, st.nodes) && Sets(st, cur) && k < |st.open|
    requires Adjacent(st.nodes[cur].coordinate, st.nodes[st.open[k]].coordinate)
    ensures ArenaOK(m, o, DecreasedKey(st, cur, k).nodes)
  {
    var e := st.open[k];
    var nodes' := DecreasedKey(st, cur, k).nodes;
    assert nodes' == st.nodes[e := st.nodes[e].(runningCost := st.nodes[cur].runningCost + 1, origin := Some(cur))];
    assert e !in st.closed && e != cur && e != 0;
    forall i | 0 < i < |nodes'| ensures Linked(m, nodes', i) {
      if i != e {
        assert Linked(m, st.nodes, i);
        var p := st.nodes[i].origin.value;
        assert p in st.closed || p == cur;
        assert p != e;
        assert nodes'[i] == st.nodes[i] && nodes'[p] == st.nodes[p];
      } else {
        assert Linked(m, st.nodes, e);
      }
    }
  }

  /** Removing the entry at `k` and appending it again keeps the members and their distinctness. */
  lemma {:induction false} MoveToBack(s: seq<nat>, k: nat)
    requires k < |s| && Distinct(s)
    ensures forall j :: j in s <==> j in RemoveAt(s, k) + [s[k]]
    ensures Distinct(RemoveAt(s, k) + [s[k]])
  {
    var rest := RemoveAt(s, k);
    var s' := rest + [s[k]];
    forall j | j in s ensures j in s' {
      var l :| 0 <= l < |s| && s[l] == j;
      if l < k { assert rest[l] == j; } else if l > k { assert rest[l - 1] == j; }
    }
    forall l | 0 <= l < |rest| ensures rest[l] != s[k] && rest[l] in s {
      if l < k { assert rest[l] == s[l]; } else { assert rest[l] == s[l + 1]; }
    }
    forall a, b | 0 <= a < b < |s'| ensures s'[a] != s'[b] {
      if b < |rest| {
        var a' := if a < k then a else a + 1;
        var b' := if b < k then b else b + 1;
        assert rest[a] == s[a'] && rest[b] == s[b'];
      }
    }
  }

  /**
   * The decrease-key updates only the re-queued node: same cell, cost one more
   * than `cur`'s, origin `cur`. The queue keeps the same members, each once,
   * with that node now last.
   */
  lemma {:induction false} DecreasedKeyEffect(st: Search, cur: nat, k: nat)
    requires cur < |st.nodes| && k < |st.open| && st.open[k] < |st.nodes| && Distinct(st.open)
    ensures var st' := DecreasedKey(st, cur, k); var e := st.open[k];
      st'.nodes[e].coordinate == st.nodes[e].coordinate &&
      st'.nodes[e].runningCost == st.nodes[cur].runningCost + 1 && st'.nodes[e].origin == Some(cur) &&
      (forall j :: 0 <= j < |st.nodes| && j != e ==> st'.nodes[j] == st.nodes[j])
    ensures var st' := DecreasedKey(st, cur, k);
      (forall j :: j in st'.open <==> j in st.open) && Distinct(st'.open) && st'.open[|st'.open| - 1] == st.open[k]
  {
    MoveToBack(st.open, k);
  }

  lemma {:induction false} SetsDecrease(st: Search, cur: nat, k: nat)
    requires Sets(st, cur) && Monotone(st, cur) && k < |st.open|
    ensures Sets(DecreasedKey(st, cur, k), cur) && Monotone(DecreasedKey(st, cur, k), cur)
    ensures forall j :: j in st.open ==> j in DecreasedKey(st, cur, k).open
  {
    var st' := DecreasedKey(st, cur, k);
    var e := st.open[k];
    assert st'.open == RemoveAt(st.open, k) + [e];
    MoveToBack(st.open, k);
    assert e !in st.closed && e != cur && e != 0;
    forall i | 0 <= i < |st'.nodes| && st'.nodes[i].origin.Some?
      ensures st'.nodes[i].origin.value in st'.closed || st'.nodes[i].origin.value == cur
    {
      if i != e { assert st'.nodes[i] == st.nodes[i]; }
    }
    forall q | 0 <= q < |st'.open| && st'.open[q] < |st'.nodes|
      ensures st'.nodes[st'.open[q]].runningCost >= st'.nodes[cur].runningCost
    {
      assert st'.open[q] in st'.open;
    }
  }

  lemma {:induction false} GrowsDecrease(st: Search, cur: nat, k: nat)
    requires Sets(st, cur) && k < |st.open|
    requires st.nodes[st.open[k]].runningCost > st.nodes[cur].runningCost + 1
    requires forall j :: j in st.open ==> j in DecreasedKey(st, cur, k).open
    ensures Grows(st, DecreasedKey(st, cur, k), cur)
  {
    var e := st.open[k];
    assert e !in st.closed && e != cur;
  }

  /** Lowering the cost of the open node on `y` keeps the invariant and only lowers costs. */
  lemma {:induction false} DecreaseKeeps(m: PathMap, o: Coord, d: Coord, st: Search, cur: nat, handled: seq<Coord>, y: Coord, k: nat)
    requires Inv(m, o, d, st, cur) && Expanded(m, st, cur, handled)
    requires Adjacent(st.nodes[cur].coordinate, y) && Passable(m, y)
    requires k < |st.open| && st.nodes[st.open[k]].coordinate == y
    requires st.nodes[st.open[k]].runningCost > st.nodes[cur].runningCost + 1
    ensures Inv(m, o, d, DecreasedKey(st, cur, k), cur)
    ensures Grows(st, DecreasedKey(st, cur, k), cur)
  {
    var st' := DecreasedKey(st, cur, k);
    ArenaDecrease(m, o, st, cur, k);
    SetsDecrease(st, cur, k);
    GrowsDecrease(st, cur, k);
    GrowsKeeps(m, o, d, st, st', cur, handled);
  }

  /** After the decrease-key, `y` is known together with the neighbours tested before it. */
  lemma {:induction false} DecreaseCovers(m: PathMap, o: Coord, d: Coord, st: Search, cur: nat, handled: seq<Coord>, y: Coord, k: nat)
    requires Inv(m, o, d, st, cur) && Expanded(m, st, cur, handled)
    requires k < |st.open| && st.nodes[st.open[k]].coordinate == y
    requires st.nodes[st.open[k]].runningCost > st.nodes[cur].runningCost + 1
    ensures Expanded(m, DecreasedKey(st, cur, k), cur, handled + [y])
  {
    var st' := DecreasedKey(st, cur, k);
    var e := st.open[k];
    SetsDecrease(st, cur, k);
    GrowsDecrease(st, cur, k);
    GrowsKeeps(m, o, d, st, st', cur, handled);
    assert Covered(st', cur, y, st'.nodes[cur].runningCost + 1) by {
      assert st'.nodes[e].coordinate == y && e in st'.open;
    }
  }

  /** `closedNodes.add(currentNode)`: the closed list gains `cur` at its end; nothing else changes. */
  function Closed(st: Search, cur: nat): (st': Search)
    ensures st'.nodes == st.nodes && st'.open == st.open && st'.closed == st.closed + [cur]
  {
    st.(closed := st.closed + [cur])
  }

  /**
   * `openNodes.remove()` of the entry at position `k`: the queue loses that one
   * entry (see `PoppedMembers`); the arena and the closed list stay.
   */
  function Popped(st: Search, k: nat): (st': Search)
    requires k < |st.open|
    ensures st'.nodes == st.nodes && st'.closed == st.closed && |st'.open| == |st.open| - 1
  {
    st.(open := RemoveAt(st.open, k))
  }

  /** With each node queued once, the pop removes exactly the popped node from the queue. */
  lemma {:induction false} PoppedMembers(st: Search, k: nat)
    requires k < |st.open| && Distinct(st.open)
    ensures forall j :: j in Popped(st, k).open <==> j in st.open && j != st.open[k]
  {
    var r := Popped(st, k).open;
    forall j | j in r ensures j in st.open && j != st.open[k] {
      var l :| 0 <= l < |r| && r[l] == j;
      if l < k { assert r[l] == st.open[l]; } else { assert r[l] == st.open[l + 1]; }
    }
    forall j | j in st.open && j != st.open[k] ensures j in r {
      RemoveAtMembers(st.open, k, j);
    }
  }

  lemma {:induction false} RemoveAtMembers(s: seq<nat>, k: nat, j: nat)
    requires k < |s| && j in s && j != s[k]
    ensures j in RemoveAt(s, k)
  {
    var l :| 0 <= l < |s| && s[l] == j;
    if l < k { assert RemoveAt(s, k)[l] == j; } else { assert RemoveAt(s, k)[l - 1] == j; }
  }

  lemma {:induction false} CoveredClose(st: Search, cur: nat, y: Coord, b: int)
    requires Covered(st, cur, y, b)
    ensures Covered(Closed(st, cur), cur, y, b)
  {
    var j :| 0 <= j < |st.nodes| && st.nodes[j].coordinate == y &&
      (j in st.closed || j == cur || (j in st.open && st.nodes[j].runningCost <= b));
    assert j in st.closed ==> j in Closed(st, cur).closed;
  }

  /** Once all four neighbours are tested, closing the current node keeps the frontier invariant. */
  lemma {:induction false} FrontierAfterClose(m: PathMap, st: Search, cur: nat)
    requires Sets(st, cur) && Frontier(m, st, cur) && Expanded(m, st, cur, Neighbours(st.nodes[cur].coordinate))
    ensures Frontier(m, Closed(st, cur), cur)
  {
    var mid := Closed(st, cur);
    forall i, y | 0 <= i < |mid.nodes| && i in mid.closed && Adjacent(mid.nodes[i].coordinate, y) && Passable(m, y)
      ensures Covered(mid, cur, y, mid.nodes[i].runningCost + 1)
    {
      if i in st.closed {
        CoveredClose(st, cur, y, st.nodes[i].runningCost + 1);
      } else {
        assert i == cur;
        assert y in Neighbours(st.nodes[cur].coordinate);
        CoveredClose(st, cur, y, st.nodes[cur].runningCost + 1);
      }
    }
  }

  /**
   * The node popped from the open queue carries its shortest distance: any
   * walk from the origin to it leaves the closed cells at some first step, onto
   * an open node at most one step dearer than a closed node, so no dearer than
   * the walk's length; the popped node is no dearer than that open node.
   */
  lemma {:induction false} PoppedIsShortest(m: PathMap, o: Coord, mid: Search, cur: nat, k: nat)
    requires ArenaOK(m, o, mid.nodes) && Indices(mid.nodes, mid.open) && Indices(mid.nodes, mid.closed)
    requires 0 in mid.closed && cur in mid.closed
    requires Frontier(m, mid, cur)
    requires forall i :: 0 <= i < |mid.nodes| && i in mid.closed ==>
      LowerBound(m, o, mid.nodes[i].coordinate, mid.nodes[i].runningCost)
    requires k < |mid.open| && mid.open[k] !in mid.closed
    requires forall j :: 0 <= j < |mid.open| ==> mid.nodes[mid.open[k]].runningCost <= mid.nodes[mid.open[j]].runningCost
    ensures LowerBound(m, o, mid.nodes[mid.open[k]].coordinate, mid.nodes[mid.open[k]].runningCost)
  {
    var nodes := mid.nodes;
    var target := mid.open[k];
    var settled := set i | 0 <= i < |nodes| && i in mid.closed :: nodes[i].coordinate;
    assert o in settled by { assert nodes[0].coordinate == o; }
    assert nodes[target].coordinate !in settled by {
      forall i | 0 <= i < |nodes| && i in mid.closed ensures nodes[i].coordinate != nodes[target].coordinate {
        assert i != target;
      }
    }
    forall w | WalkBetween(m, w, o, nodes[target].coordinate)
      ensures nodes[target].runningCost < |w|
    {
      var j := FirstExit(w, settled);
      WalkPrefix(m, w, j);
      ExitBound(m, o, mid, cur, k, settled, w, j);
    }
  }

  /**
   * The step by which a walk from the origin first leaves the settled cells
   * lands on a node at most one dearer than a settled node, hence no dearer
   * than the step's position in the walk; the popped node is no dearer still.
   */
  lemma {:induction false} ExitBound(m: PathMap, o: Coord, mid: Search, cur: nat, k: nat,
                                     settled: set<Coord>, w: seq<Coord>, j: nat)
    requires Indices(mid.nodes, mid.open) && Indices(mid.nodes, mid.closed) && cur in mid.closed
    requires Frontier(m, mid, cur)
    requires settled == set i | 0 <= i < |mid.nodes| && i in mid.closed :: mid.nodes[i].coordinate
    requires forall i :: 0 <= i < |mid.nodes| && i in mid.closed ==>
      LowerBound(m, o, mid.nodes[i].coordinate, mid.nodes[i].runningCost)
    requires k < |mid.open| && mid.open[k] !in mid.closed
    requires forall q :: 0 <= q < |mid.open| ==> mid.nodes[mid.open[k]].runningCost <= mid.nodes[mid.open[q]].runningCost
    requires 0 < j < |w| && w[j - 1] in settled && w[j] !in settled
    requires IsWalk(m, w) && WalkBetween(m, w[..j], o, w[j - 1])
    ensures mid.nodes[mid.open[k]].runningCost <= j
  {
    var nodes := mid.nodes;
    var i :| 0 <= i < |nodes| && i in mid.closed && nodes[i].coordinate == w[j - 1];
    assert nodes[i].runningCost < j;
    assert Adjacent(w[j - 1], w[j]) && Passable(m, w[j]);
    var n :| 0 <= n < |nodes| && nodes[n].coordinate == w[j] &&
      (n in mid.closed || n == cur || (n in mid.open && nodes[n].runningCost <= nodes[i].runningCost + 1));
    assert n !in mid.closed;
    var q :| 0 <= q < |mid.open| && mid.open[q] == n;
  }

  lemma {:induction false} CoveredPop(st: Search, cur: nat, k: nat, y: Coord, b: int)
    requires k < |st.open| && cur in st.closed && Covered(st, cur, y, b)
    ensures Covered(Popped(st, k), st.open[k], y, b)
  {
    var j :| 0 <= j < |st.nodes| && st.nodes[j].coordinate == y &&
      (j in st.closed || j == cur || (j in st.open && st.nodes[j].runningCost <= b));
    if j in st.open && j != st.open[k] && j !in st.closed {
      RemoveAtMembers(st.open, k, j);
    }
  }

  lemma {:induction false} FrontierAfterPop(m: PathMap, mid: Search, cur: nat, k: nat)
    requires k < |mid.open| && cur in mid.closed && Frontier(m, mid, cur)
    ensures Frontier(m, Popped(mid, k), mid.open[k])
  {
    var st' := Popped(mid, k);
    forall i, y | 0 <= i < |st'.nodes| && i in st'.closed && Adjacent(st'.nodes[i].coordinate, y) && Passable(m, y)
      ensures Covered(st', mid.open[k], y, st'.nodes[i].runningCost + 1)
    {
      CoveredPop(mid, cur, k, y, mid.nodes[i].runningCost + 1);
    }
  }

  lemma {:induction false} SetsAfterClosePop(st: Search, cur: nat, k: nat)
    requires Sets(st, cur) && k < |st.open|
    ensures Sets(Popped(Closed(st, cur), k), st.open[k])
  {
    var st' := Popped(Closed(st, cur), k);
    var next := st.open[k];
    var rest := RemoveAt(st.open, k);
    assert st'.open == rest && st'.closed == st.closed + [cur];
    forall l | 0 <= l < |rest| ensures rest[l] in st.open && rest[l] != next {
      if l < k { assert rest[l] == st.open[l]; } else { assert rest[l] == st.open[l + 1]; }
    }
    forall a, b | 0 <= a < b < |rest| ensures rest[a] != rest[b] {
      var a' := if a < k then a else a + 1;
      var b' := if b < k then b else b + 1;
      assert rest[a] == st.open[a'] && rest[b] == st.open[b'];
    }
    forall i | 0 <= i < |st.nodes| ensures i in st'.closed || i == next || i in st'.open {
      if i in st.open && i != next { RemoveAtMembers(st.open, k, i); }
    }
  }

  /**
   * Closing the fully expanded current node and popping a cheapest open node
   * keeps the loop invariant; the popped node is not the start node and is no
   * cheaper than the one closed.
   */
  lemma {:induction false} ClosePopKeeps(m: PathMap, o: Coord, d: Coord, st: Search, cur: nat, k: nat)
    requires Inv(m, o, d, st, cur) && Expanded(m, st, cur, Neighbours(st.nodes[cur].coordinate))
    requires st.nodes[cur].coordinate != d
    requires k < |st.open|
    requires forall j :: 0 <= j < |st.open| ==> st.nodes[st.open[k]].runningCost <= st.nodes[st.open[j]].runningCost
    ensures Inv(m, o, d, Popped(Closed(st, cur), k), st.open[k])
    ensures st.open[k] != 0 && st.nodes[st.open[k]].runningCost >= st.nodes[cur].runningCost
  {
    var mid := Closed(st, cur);
    var st' := Popped(mid, k);
    var next := st.open[k];
    FrontierAfterClose(m, st, cur);
    assert 0 in mid.closed && cur in mid.closed;
    PoppedIsShortest(m, o, mid, cur, k);
    FrontierAfterPop(m, mid, cur, k);
    SetsAfterClosePop(st, cur, k);
    LowerBoundsAfterClosePop(m, o, st, cur, k);
    MonotoneAfterPop(mid, k);
    DestAfterClose(st, cur, k, d);
    assert st.open[k] in st.open;
  }

  lemma {:induction false} LowerBoundsAfterClosePop(m: PathMap, o: Coord, st: Search, cur: nat, k: nat)
    requires cur < |st.nodes| && k < |st.open| && st.open[k] < |st.nodes| && LowerBounds(m, o, st, cur)
    requires LowerBound(m, o, st.nodes[st.open[k]].coordinate, st.nodes[st.open[k]].runningCost)
    ensures LowerBounds(m, o, Popped(Closed(st, cur), k), st.open[k])
  {
    var st' := Popped(Closed(st, cur), k);
    forall i | 0 <= i < |st'.nodes| && (i in st'.closed || i == st.open[k])
      ensures LowerBound(m, o, st'.nodes[i].coordinate, st'.nodes[i].runningCost)
    {
      assert i in st'.closed ==> i in st.closed || i == cur;
    }
  }

  lemma {:induction false} MonotoneAfterPop(mid: Search, k: nat)
    requires Indices(mid.nodes, mid.open) && k < |mid.open|
    requires forall j :: 0 <= j < |mid.open| ==> mid.nodes[mid.open[k]].runningCost <= mid.nodes[mid.open[j]].runningCost
    ensures Monotone(Popped(mid, k), mid.open[k])
  {
    var st' := Popped(mid, k);
    forall q | 0 <= q < |st'.open| && st'.open[q] < |st'.nodes|
      ensures st'.nodes[st'.open[q]].runningCost >= st'.nodes[mid.open[k]].runningCost
    {
      assert st'.open[q] in mid.open;
    }
  }

  lemma {:induction false} DestAfterClose(st: Search, cur: nat, k: nat, d: Coord)
    requires cur < |st.nodes| && k < |st.open| && DestNotClosed(st, d) && st.nodes[cur].coordinate != d
    ensures DestNotClosed(Popped(Closed(st, cur), k), d)
  {
    var st' := Popped(Closed(st, cur), k);
    forall q | 0 <= q < |st'.closed| && st'.closed[q] < |st'.nodes|
      ensures st'.nodes[st'.closed[q]].coordinate != d
    {
      if q < |st.closed| { assert st'.closed[q] == st.closed[q]; } else { assert st'.closed[q] == cur; }
    }
  }

  /** The cells that have a node in the arena. */
  ghost function Known(nodes: seq<Node>): (known: set<Coord>) {
    set i | 0 <= i < |nodes| :: nodes[i].coordinate
  }

  /**
   * With nothing open and the current node fully expanded, the known cells
   * are closed under passable adjacency: every closed or current node has all
   * its passable neighbours known.
   */
  lemma {:induction false} KnownIsClosed(m: PathMap, st: Search, cur: nat)
    requires Sets(st, cur) && Frontier(m, st, cur) && Expanded(m, st, cur, Neighbours(st.nodes[cur].coordinate))
    requires |st.open| == 0
    ensures forall x, y :: x in Known(st.nodes) && Adjacent(x, y) && Passable(m, y) ==> y in Known(st.nodes)
  {
    var nodes := st.nodes;
    forall x, y | x in Known(nodes) && Adjacent(x, y) && Passable(m, y) ensures y in Known(nodes) {
      var i :| 0 <= i < |nodes| && nodes[i].coordinate == x;
      assert i in st.closed || i == cur;
      if i in st.closed {
        assert Covered(st, cur, y, nodes[i].runningCost + 1);
      } else {
        assert y in Neighbours(nodes[cur].coordinate);
        assert Covered(st, cur, y, nodes[cur].runningCost + 1);
      }
    }
  }

  /**
   * When the open queue runs empty with the destination not current, every
   * cell reachable from the origin has a node in the arena (the closed and
   * current cells are closed under passable adjacency), and the destination
   * is not reachable at all.
   */
  lemma {:induction false} ExhaustedUnreachable(m: PathMap, o: Coord, d: Coord, st: Search, cur: nat)
    requires ArenaOK(m, o, st.nodes) && Sets(st, cur) && Frontier(m, st, cur) && DestNotClosed(st, d)
    requires Expanded(m, st, cur, Neighbours(st.nodes[cur].coordinate))
    requires |st.open| == 0 && st.nodes[cur].coordinate != d
    ensures forall x :: Reachable(m, o, x) ==> exists i :: 0 <= i < |st.nodes| && st.nodes[i].coordinate == x
    ensures !Reachable(m, o, d)
  {
    var nodes := st.nodes;
    var known := Known(nodes);
    KnownIsClosed(m, st, cur);
    assert o in known by { assert nodes[0].coordinate == o; }
    forall x | Reachable(m, o, x) ensures x in known {
      var w :| WalkBetween(m, w, o, x);
      WalkStaysInside(m, known, w);
    }
    assert d !in known by {
      forall i | 0 <= i < |nodes| ensures nodes[i].coordinate != d {
        if i in st.closed {
          var k :| 0 <= k < |st.closed| && st.closed[k] == i;
        }
      }
    }
  }

  lemma {:induction false} ArenaWellLinked(m: PathMap, o: Coord, nodes: seq<Node>)
    requires ArenaOK(m, o, nodes)
    ensures WellLinked(nodes) && RootsAt(nodes, o)
  {
    forall i | 0 <= i < |nodes|
      ensures match nodes[i].origin
        case None => nodes[i].runningCost == 0
        case Some(p) => p < |nodes| && nodes[i].runningCost == nodes[p].runningCost + 1
    {
      if i > 0 { assert Linked(m, nodes, i); }
    }
    forall i | 0 < i < |nodes| ensures nodes[i].origin.Some? {
      assert Linked(m, nodes, i);
    }
  }

  /** The origin chain of any node in the arena is a walk from the origin to that node's cell. */
  lemma {:induction false} ChainIsWalk(m: PathMap, o: Coord, nodes: seq<Node>, i: nat)
    requires ArenaOK(m, o, nodes) && i < |nodes|
    ensures WellLinked(nodes) && WalkBetween(m, ChainFrom(nodes, i), o, nodes[i].coordinate)
    decreases nodes[i].runningCost
  {
    ArenaWellLinked(m, o, nodes);
    if i > 0 {
      assert Linked(m, nodes, i);
      var p := nodes[i].origin.value;
      ChainIsWalk(m, o, nodes, p);
      WalkExtend(m, ChainFrom(nodes, p), nodes[i].coordinate);
    }
  }

  /** The cells that were ever inserted into the open queue: those of every node but the start node. */
  ghost function Explored(nodes: seq<Node>): (explored: set<Coord>) {
    set i | 1 <= i < |nodes| :: nodes[i].coordinate
  }

  /** With one node per coordinate, there are as many explored cells as nodes besides the start node. */
  lemma {:induction false} ExploredSize(nodes: seq<Node>)
    requires |nodes| > 0
    requires forall i, j :: 0 <= i < j < |nodes| ==> nodes[i].coordinate != nodes[j].coordinate
    ensures |Explored(nodes)| == |nodes| - 1
  {
    if |nodes| == 1 {
      assert Explored(nodes) == {};
    } else {
      var init := nodes[..|nodes| - 1];
      ExploredSize(init);
      assert Explored(nodes) == Explored(init) + {nodes[|nodes| - 1].coordinate};
      assert nodes[|nodes| - 1].coordinate !in Explored(init);
    }
  }

  /**
   * The explored cells of a sound arena: one per node besides the start
   * node, never the origin, each passable and reachable from the origin.
   */
  lemma {:induction false} ExploredCells(m: PathMap, o: Coord, nodes: seq<Node>)
    requires ArenaOK(m, o, nodes)
    ensures |Explored(nodes)| == |nodes| - 1 && o !in Explored(nodes)
    ensures forall x :: x in Explored(nodes) ==> Passable(m, x) && Reachable(m, o, x)
  {
    ExploredSize(nodes);
    forall x | x in Explored(nodes) ensures x != o && Passable(m, x) && Reachable(m, o, x) {
      var i :| 1 <= i < |nodes| && nodes[i].coordinate == x;
      assert Linked(m, nodes, i);
      ChainIsWalk(m, o, nodes, i);
    }
  }

  /** When every reachable cell has a node, every reachable cell besides the origin is explored. */
  lemma {:induction false} ReachableExplored(m: PathMap, o: Coord, nodes: seq<Node>)
    requires ArenaOK(m, o, nodes)
    requires forall x :: Reachable(m, o, x) ==> exists i :: 0 <= i < |nodes| && nodes[i].coordinate == x
    ensures forall x :: Reachable(m, o, x) && x != o ==> x in Explored(nodes)
  {
    forall x | Reachable(m, o, x) && x != o ensures x in Explored(nodes) {
      var i :| 0 <= i < |nodes| && nodes[i].coordinate == x;
      assert i != 0;
    }
  }

  /**
   * A current node on the destination: its chain of origins is a walk from
   * the origin to the destination that no walk between them is shorter than,
   * and when the origin is the destination the current node is the start node.
   */
  lemma {:induction false} FoundIsShortest(m: PathMap, o: Coord, d: Coord, st: Search, cur: nat)
    requires ArenaOK(m, o, st.nodes) && cur < |st.nodes| && LowerBounds(m, o, st, cur)
    requires st.nodes[cur].coordinate == d
    ensures WellLinked(st.nodes) && RootsAt(st.nodes, o)
    ensures WalkBetween(m, ChainFrom(st.nodes, cur), o, d)
    ensures forall w :: WalkBetween(m, w, o, d) ==> |ChainFrom(st.nodes, cur)| <= |w|
    ensures o == d ==> cur == 0
  {
    ArenaWellLinked(m, o, st.nodes);
    ChainIsWalk(m, o, st.nodes, cur);
    assert LowerBound(m, o, d, st.nodes[cur].runningCost);
  }

  /** The cells a search can ever close: the grid's cells and the origin. */
  function Universe(m: PathMap, o: Coord): (u: set<Coord>) {
    Cells(m) + {o}
  }

  ghost function ClosedCoords(st: Search): (closed: set<Coord>) {
    set k | 0 <= k < |st.closed| && st.closed[k] < |st.nodes| :: st.nodes[st.closed[k]].coordinate
  }

  /** The cells of the universe not yet closed: what each round of the loop lowers. */
  ghost function Unclosed(m: PathMap, o: Coord, st: Search): (n: nat) {
    |Universe(m, o) - ClosedCoords(st)|
  }

  lemma {:induction false} ClosedCoordsGrows(st: Search, st': Search, cur: nat)
    requires Grows(st, st', cur) && Indices(st.nodes, st.closed)
    ensures ClosedCoords(st') == ClosedCoords(st)
  {
  }

  lemma {:induction false} ArenaInUniverse(m: PathMap, o: Coord, nodes: seq<Node>)
    requires ArenaOK(m, o, nodes)
    ensures forall i :: 0 <= i < |nodes| ==> nodes[i].coordinate in Universe(m, o)
  {
    forall i | 0 <= i < |nodes| ensures nodes[i].coordinate in Universe(m, o) {
      if i > 0 { assert Linked(m, nodes, i); }
    }
  }

  lemma {:induction false} ClosingAddsCoord(st: Search, cur: nat, k: nat)
    requires Indices(st.nodes, st.closed) && cur < |st.nodes| && k < |st.open|
    ensures ClosedCoords(Popped(Closed(st, cur), k)) == ClosedCoords(st) + {st.nodes[cur].coordinate}
  {
    var st' := Popped(Closed(st, cur), k);
    assert st'.closed == st.closed + [cur] && st'.nodes == st.nodes;
    forall x | x in ClosedCoords(st') ensures x in ClosedCoords(st) + {st.nodes[cur].coordinate} {
      var q :| 0 <= q < |st'.closed| && st'.closed[q] < |st'.nodes| && st'.nodes[st'.closed[q]].coordinate == x;
      if q < |st.closed| { assert st'.closed[q] == st.closed[q]; }
    }
    forall x | x in ClosedCoords(st) ensures x in ClosedCoords(st') {
      var q :| 0 <= q < |st.closed| && st.closed[q] < |st.nodes| && st.nodes[st.closed[q]].coordinate == x;
      assert st'.closed[q] == st.closed[q];
    }
    assert st'.closed[|st.closed|] == cur;
  }

  lemma {:induction false} DifferenceShrinks(u: set<Coord>, c: set<Coord>, x: Coord)
    requires x in u && x !in c
    ensures |u - (c + {x})| < |u - c|
  {
    assert u - (c + {x}) == (u - c) - {x};
  }

  /** Each close-and-pop closes a cell of the universe that was not closed before. */
  lemma {:induction false} ClosePopShrinks(m: PathMap, o: Coord, st: Search, cur: nat, k: nat)
    requires ArenaOK(m, o, st.nodes) && Sets(st, cur) && k < |st.open|
    ensures Unclosed(m, o, Popped(Closed(st, cur), k)) < Unclosed(m, o, st)
  {
    ClosedInUniverse(m, o, st);
    CurrentNotClosed(m, o, st, cur);
    ClosingAddsCoord(st, cur, k);
    DifferenceShrinks(Universe(m, o), ClosedCoords(st), st.nodes[cur].coordinate);
  }

  lemma {:induction false} ClosedInUniverse(m: PathMap, o: Coord, st: Search)
    requires ArenaOK(m, o, st.nodes)
    ensures ClosedCoords(st) <= Universe(m, o)
  {
    ArenaInUniverse(m, o, st.nodes);
  }

  /** The cell of the current node is not among the closed cells: coordinates are unique in the arena. */
  lemma {:induction false} CurrentNotClosed(m: PathMap, o: Coord, st: Search, cur: nat)
    requires ArenaOK(m, o, st.nodes) && Sets(st, cur)
    ensures st.nodes[cur].coordinate in Universe(m, o) && st.nodes[cur].coordinate !in ClosedCoords(st)
  {
    ArenaInUniverse(m, o, st.nodes);
    forall q | 0 <= q < |st.closed| ensures st.nodes[st.closed[q]].coordinate != st.nodes[cur].coordinate {
      assert st.closed[q] != cur;
    }
  }

  /** The search starts with the start node current and nothing open or closed. */
  lemma {:induction false} InitialInv(m: PathMap, o: Coord, d: Coord)
    ensures Inv(m, o, d, Search([Node(o, 0, None)], [], []), 0)
  {
  }

  /**
   * A node never taken as current (neither closed nor current) is open, so it
   * is no cheaper than the current node, and with nothing open there is none.
   */
  lemma {:induction false} Untaken(m: PathMap, o: Coord, d: Coord, st: Search, cur: nat)
    requires Inv(m, o, d, st, cur)
    ensures forall i :: 0 <= i < |st.nodes| && i !in st.closed + [cur] ==>
      i in st.open && st.nodes[cur].runningCost <= st.nodes[i].runningCost
    ensures |st.open| == 0 ==> forall i :: 0 <= i < |st.nodes| ==> i in st.closed + [cur]
  {
    forall i | 0 <= i < |st.nodes| && i !in st.closed + [cur]
      ensures i in st.open && st.nodes[cur].runningCost <= st.nodes[i].runningCost
    {
      assert i !in st.closed && i != cur;
      var k :| 0 <= k < |st.open| && st.open[k] == i;
    }
  }
}
