/**
 * The inner `Node` class of DijkstraPathFinder and the operations the search
 * performs on collections of nodes. Nodes live in an arena (a sequence
 * addressed by index); the `origin` back-link of a node is the index of the
 * node it was reached from, `None` for the start node. The open and closed
 * collections are sequences of arena indices.
 */
module SearchNodes {
  import opened Wrappers
  import opened PathMaps

  datatype Node = Node(coordinate: Coord, runningCost: nat, origin: Option<nat>)

  /** `Node.equals`: two nodes are equal when their coordinates are, whatever their cost and origin. */
  predicate NodeEquals(a: Node, b: Node) {
    a.coordinate == b.coordinate
  }

  /**
   * `Node.equals` is an equivalence (reflexive, as the `this == o` shortcut
   * makes it, symmetric and transitive) that ignores running cost and origin.
   */
  lemma {:induction false} NodeEqualsLaws(a: Node, b: Node, c: Node, cost: nat, origin: Option<nat>)
    ensures NodeEquals(a, a)
    ensures NodeEquals(a, b) == NodeEquals(b, a)
    ensures NodeEquals(a, b) && NodeEquals(b, c) ==> NodeEquals(a, c)
    ensures NodeEquals(a, b) == NodeEquals(a.(runningCost := cost, origin := origin), b)
  {
  }

  /** All entries of `xs` address nodes of the arena. */
  predicate Indices(nodes: seq<Node>, xs: seq<nat>) {
    forall k :: 0 <= k < |xs| ==> xs[k] < |nodes|
  }

  /**
   * `contains` on the open queue or the closed list, together with the
   * iterator scan that then fetches the matching open node: the first
   * position whose node equals `probe`, or `None` when there is none.
   */
  function Find(nodes: seq<Node>, xs: seq<nat>, probe: Node): (r: Option<nat>)
    requires Indices(nodes, xs)
    ensures r.Some? ==> r.value < |xs| && nodes[xs[r.value]].coordinate == probe.coordinate
    ensures r.Some? ==> forall k :: 0 <= k < r.value ==> nodes[xs[k]].coordinate != probe.coordinate
    ensures r.None? <==> forall k :: 0 <= k < |xs| ==> nodes[xs[k]].coordinate != probe.coordinate
  {
    if |xs| == 0 then None
    else if NodeEquals(nodes[xs[0]], probe) then Some(0)
    else match Find(nodes, xs[1..], probe)
      case None => None
      case Some(k) => Some(k + 1)
  }

  /**
   * The position `PriorityQueue.remove()` takes from: a node of least running
   * cost. Ties go to the earliest position, so among equal costs the node
   * inserted (or re-inserted) first is expanded first.
   */
  function MinIndex(nodes: seq<Node>, open: seq<nat>): (k: nat)
    requires |open| > 0 && Indices(nodes, open)
    ensures k < |open|
    ensures forall j :: 0 <= j < |open| ==> nodes[open[k]].runningCost <= nodes[open[j]].runningCost
    ensures forall j :: 0 <= j < k ==> nodes[open[j]].runningCost > nodes[open[k]].runningCost
  {
    if |open| == 1 then 0
    else
      var k := MinIndex(nodes, open[..|open| - 1]);
      if nodes[open[|open| - 1]].runningCost < nodes[open[k]].runningCost then |open| - 1 else k
  }

  /** The sequence without its entry at position `k`. */
  function RemoveAt(s: seq<nat>, k: nat): (r: seq<nat>)
    requires k < |s|
    ensures |r| == |s| - 1
    ensures forall j :: 0 <= j < k ==> r[j] == s[j]
    ensures forall j :: k <= j < |r| ==> r[j] == s[j + 1]
  {
    s[..k] + s[k + 1..]
  }

  /** `Collections.reverse`: the same elements in the opposite order. */
  function Reverse<T>(s: seq<T>): (r: seq<T>)
    ensures |r| == |s|
    ensures forall i :: 0 <= i < |s| ==> r[i] == s[|s| - 1 - i]
  {
    if s == [] then [] else Reverse(s[1..]) + [s[0]]
  }

  lemma {:induction false} ReverseAppend<T>(s: seq<T>, x: T)
    ensures Reverse(s + [x]) == [x] + Reverse(s)
  {
    assert forall i :: 0 <= i < |s| + 1 ==> Reverse(s + [x])[i] == ([x] + Reverse(s))[i];
  }

  /**
   * The back-link of node `i` points into the arena and lowers the running
   * cost by exactly one; a node without an origin has cost 0.
   */
  ghost predicate LinkedBack(nodes: seq<Node>, i: nat)
    requires i < |nodes|
  {
    match nodes[i].origin
    case None => nodes[i].runningCost == 0
    case Some(p) => p < |nodes| && nodes[i].runningCost == nodes[p].runningCost + 1
  }

  /** Every node of the arena is linked back. */
  ghost predicate WellLinked(nodes: seq<Node>) {
    forall i {:trigger LinkedBack(nodes, i)} :: 0 <= i < |nodes| ==> LinkedBack(nodes, i)
  }

  /**
   * The coordinates along the origin chain of node `i`, from the start node to `i`:
   * one cell per step of running cost.
   */
  ghost function ChainFrom(nodes: seq<Node>, i: nat): (c: seq<Coord>)
    requires WellLinked(nodes) && i < |nodes|
    ensures |c| == nodes[i].runningCost + 1
    decreases nodes[i].runningCost
  {
    assert LinkedBack(nodes, i);
    match nodes[i].origin
    case None => [nodes[i].coordinate]
    case Some(p) => ChainFrom(nodes, p) + [nodes[i].coordinate]
  }

  /** Every node without an origin stands on `start`. */
  ghost predicate RootsAt(nodes: seq<Node>, start: Coord) {
    forall i :: 0 <= i < |nodes| && nodes[i].origin.None? ==> nodes[i].coordinate == start
  }

  lemma {:induction false} ChainStart(nodes: seq<Node>, i: nat, start: Coord)
    requires WellLinked(nodes) && RootsAt(nodes, start) && i < |nodes|
    ensures ChainFrom(nodes, i)[0] == start
    decreases nodes[i].runningCost
  {
    assert LinkedBack(nodes, i);
    match nodes[i].origin
    case None =>
    case Some(p) => ChainStart(nodes, p, start);
  }

  /** A failure of the reconstruction as written: it follows a null origin. */
  datatype Fault = NullDereference

  /**
   * The reconstruction of findPath as the source writes it: a do-while that
   * adds the current coordinate, steps to its origin, and then tests the
   * origin of the new current node, followed by adding the map's origin cell
   * and reversing. When the destination node is the start node the step
   * yields null and the test dereferences it.
   */
  method RebuildPathAsWritten(nodes: seq<Node>, dest: nat, mapOrigin: Coord)
    returns (r: Result<seq<Coord>, Fault>)
    requires WellLinked(nodes) && RootsAt(nodes, mapOrigin) && dest < |nodes|
    ensures nodes[dest].origin.None? ==> r == Failure(NullDereference)
    ensures nodes[dest].origin.Some? ==> r == Success(ChainFrom(nodes, dest))
  {
    var path := [nodes[dest].coordinate];
    var current := nodes[dest].origin;
    assert LinkedBack(nodes, dest);
    while current.Some? && nodes[current.value].origin.Some?
      invariant current.Some? ==> current.value < |nodes|
      invariant current.None? <==> nodes[dest].origin.None?
      invariant current.Some? ==> ChainFrom(nodes, dest) == ChainFrom(nodes, current.value) + Reverse(path)
      decreases if current.Some? then nodes[current.value].runningCost else 0
    {
      assert LinkedBack(nodes, current.value);
      ReverseAppend(path, nodes[current.value].coordinate);
      path := path + [nodes[current.value].coordinate];
      current := nodes[current.value].origin;
    }
    if current.None? {
      r := Failure(NullDereference);
    } else {
      ReverseAppend(path, mapOrigin);
      path := path + [mapOrigin];
      r := Success(Reverse(path));
    }
  }

  /**
   * The reconstruction with the loop test moved before the step, so that the
   * start node ends the walk instead of being stepped past: the coordinates
   * of the destination's origin chain, from the map's origin cell to the
   * destination. A destination that is the start node gives `[mapOrigin]`.
   */
  method RebuildPath(nodes: seq<Node>, dest: nat, mapOrigin: Coord) returns (path: seq<Coord>)
    requires WellLinked(nodes) && RootsAt(nodes, mapOrigin) && dest < |nodes|
    ensures path == ChainFrom(nodes, dest)
    ensures |path| == nodes[dest].runningCost + 1
    ensures path[0] == mapOrigin && path[|path| - 1] == nodes[dest].coordinate
  {
    var collected: seq<Coord> := [];
    var current: nat := dest;
    while nodes[current].origin.Some?
      invariant current < |nodes|
      invariant ChainFrom(nodes, dest) == ChainFrom(nodes, current) + Reverse(collected)
      decreases nodes[current].runningCost
    {
      assert LinkedBack(nodes, current);
      ReverseAppend(collected, nodes[current].coordinate);
      collected := collected + [nodes[current].coordinate];
      current := nodes[current].origin.value;
    }
    ReverseAppend(collected, mapOrigin);
    collected := collected + [mapOrigin];
    path := Reverse(collected);
    ChainStart(nodes, dest, mapOrigin);
  }

  /** Origin equal to destination: the arena holds only the start node, and the source's reconstruction fails. */
  method OriginIsDestinationAsWritten(origin: Coord) returns (r: Result<seq<Coord>, Fault>)
    ensures r == Failure(NullDereference)
  {
    r := RebuildPathAsWritten([Node(origin, 0, None)], 0, origin);
  }

  /** Origin equal to destination: the corrected reconstruction gives the one-cell path. */
  method OriginIsDestination(origin: Coord) returns (path: seq<Coord>)
    ensures path == [origin]
  {
    path := RebuildPath([Node(origin, 0, None)], 0, origin);
  }
}
