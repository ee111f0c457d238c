/**
 * DijkstraPathFinder: a uniform-cost search over a grid of passable and
 * blocked cells. Every move costs one, so the search behaves as a
 * breadth-first search: it expands the current node, closes it, and takes a
 * cheapest open node as the next current node, until the current node is on
 * the destination or nothing is left open.
 */
module PathFinder {
  import opened Wrappers
  import opened PathMaps
  import opened SearchNodes
  import opened SearchInvariants

  /** The map has no origin cell or no destination cell, so the first of each cannot be taken. */
  datatype MapError = InvalidMap

  predicate HasEndpoints(m: PathMap) {
    |m.originCells| > 0 && |m.destCells| > 0
  }

  /** A walk from `a` to `b` than which no walk between them is shorter. */
  ghost predicate IsShortestPath(m: PathMap, path: seq<Coord>, a: Coord, b: Coord) {
    WalkBetween(m, path, a, b) && forall w :: WalkBetween(m, w, a, b) ==> |path| <= |w|
  }

  ghost predicate NonDecreasing(s: seq<nat>) {
    forall i, j :: 0 <= i < j < |s| ==> s[i] <= s[j]
  }

  lemma {:induction false} AppendNonDecreasing(s: seq<nat>, x: nat)
    requires |s| > 0 && NonDecreasing(s) && s[|s| - 1] <= x
    ensures NonDecreasing(s + [x])
  {
  }

  /**
   * The nodes a search took as current, in order, with their running costs:
   * a record kept beside the search, never consulted by it.
   */
  datatype Tour = Tour(st: Search, cur: nat, trail: seq<nat>, costs: seq<nat>)

  type Toured = t: Tour | Trail(t.st, t.cur, t.trail, t.costs) && NonDecreasing(t.costs)
    ghost witness Tour(Search([Node(Coord(0, 0), 0, None)], [], []), 0, [0], [0])

  /** A step that found nothing left open keeps the record as it was. */
  lemma {:induction false} TourKeep(t: Toured, st': Search) returns (t': Toured)
    requires Settled(t.st, st', t.cur) && st'.closed == t.st.closed
    ensures t' == Tour(st', t.cur, t.trail, t.costs)
  {
    TrailKeep(t.st, st', t.cur, t.trail, t.costs);
    t' := Tour(st', t.cur, t.trail, t.costs);
  }

  /** A step that closed the current node and took `next` as current appends `next` and its cost. */
  lemma {:induction false} TourAdvance(t: Toured, st': Search, next: nat) returns (t': Toured)
    requires Settled(t.st, st', t.cur) && st'.closed == t.st.closed + [t.cur]
    requires next < |st'.nodes| && next !in st'.closed
    requires st'.nodes[next].runningCost >= t.st.nodes[t.cur].runningCost
    ensures t' == Tour(st', next, t.trail + [next], t.costs + [st'.nodes[next].runningCost])
  {
    TrailAdvance(t.st, st', t.cur, next, t.trail, t.costs);
    AppendNonDecreasing(t.costs, st'.nodes[next].runningCost);
    t' := Tour(st', next, t.trail + [next], t.costs + [st'.nodes[next].runningCost]);
  }

  /**
   * What every finished search from `o` delivers: popped costs that start at
   * zero and never decrease, and explored cells that are passable, reachable
   * from `o` and not `o` itself.
   */
  ghost predicate SearchTrace(m: PathMap, o: Coord, explored: set<Coord>, popped: seq<nat>) {
    |popped| > 0 && popped[0] == 0 && NonDecreasing(popped) &&
    o !in explored &&
    forall x :: x in explored ==> Passable(m, x) && Reachable(m, o, x)
  }

  /**
   * A search that reached `d`: its path is a shortest walk from `o` to `d`,
   * one cell longer than the cost of the last node popped, and the single
   * cell `o`, with nothing explored, when the origin is the destination.
   */
  ghost predicate FoundOutcome(m: PathMap, o: Coord, d: Coord, path: seq<Coord>,
                               explored: set<Coord>, popped: seq<nat>) {
    SearchTrace(m, o, explored, popped) &&
    IsShortestPath(m, path, o, d) && |path| == popped[|popped| - 1] + 1 &&
    (o == d ==> path == [o] && explored == {})
  }

  /**
   * A search that ran out of open nodes: `d` is not reachable from `o`, and
   * every cell reachable from `o` besides `o` itself was explored.
   */
  ghost predicate ExhaustedOutcome(m: PathMap, o: Coord, d: Coord, explored: set<Coord>, popped: seq<nat>) {
    SearchTrace(m, o, explored, popped) &&
    o != d && !Reachable(m, o, d) &&
    forall x :: Reachable(m, o, x) && x != o ==> x in explored
  }

  /**
   * A search that ends with the current node on the destination: the chain of
   * origins of the current node is the outcome's path.
   */
  lemma {:induction false} ConcludeFound(p: Running, t: Toured)
    requires t.st == p.st && t.cur == p.cur && p.st.nodes[p.cur].coordinate == p.d
    requires p.o == p.d ==> p.cur == 0 && |p.st.nodes| == 1
    ensures ArenaOK(p.m, p.o, p.st.nodes) && WellLinked(p.st.nodes) && RootsAt(p.st.nodes, p.o)
    ensures Visits(p.st.nodes, t.trail, t.costs, p.cur) && NonDecreasing(t.costs)
    ensures |Explored(p.st.nodes)| == |p.st.nodes| - 1
    ensures FoundOutcome(p.m, p.o, p.d, ChainFrom(p.st.nodes, p.cur), Explored(p.st.nodes), t.costs)
  {
    var nodes := p.st.nodes;
    FoundIsShortest(p.m, p.o, p.d, p.st, p.cur);
    ExploredCells(p.m, p.o, nodes);
    assert t.costs[0] == nodes[0].runningCost == 0;
    assert t.costs[|t.costs| - 1] == nodes[p.cur].runningCost;
    if p.o == p.d {
      assert Explored(nodes) == {};
    }
  }

  /**
   * A search that ends with nothing left open and the destination not
   * reached: the outcome is the empty path.
   */
  lemma {:induction false} ConcludeExhausted(p: Running, t: Toured)
    requires t.st == p.st && t.cur == p.cur && p.st.nodes[p.cur].coordinate != p.d
    requires |p.st.open| == 0 && Expanded(p.m, p.st, p.cur, Neighbours(p.st.nodes[p.cur].coordinate))
    ensures ArenaOK(p.m, p.o, p.st.nodes)
    ensures Visits(p.st.nodes, t.trail, t.costs, p.cur) && NonDecreasing(t.costs)
    ensures |Explored(p.st.nodes)| == |p.st.nodes| - 1
    ensures ExhaustedOutcome(p.m, p.o, p.d, Explored(p.st.nodes), t.costs)
  {
    var nodes := p.st.nodes;
    ExhaustedUnreachable(p.m, p.o, p.d, p.st, p.cur);
    assert t.costs[0] == nodes[0].runningCost == 0;
    assert WalkBetween(p.m, [p.o], p.o, p.o);
    ExploredCells(p.m, p.o, nodes);
    ReachableExplored(p.m, p.o, nodes);
  }

  /**
   * Either way a search ends, `path` (the rebuilt chain, or nothing) is the
   * outcome, the arena is sound, and the record of current nodes ends at the
   * last current node.
   */
  lemma {:induction false} Conclude(p: Running, t: Toured, path: seq<Coord>)
    requires t.st == p.st && t.cur == p.cur
    requires p.o == p.d ==> p.cur == 0 && |p.st.nodes| == 1
    requires p.st.nodes[p.cur].coordinate != p.d ==>
      |p.st.open| == 0 && Expanded(p.m, p.st, p.cur, Neighbours(p.st.nodes[p.cur].coordinate)) && path == []
    requires p.st.nodes[p.cur].coordinate == p.d ==> WellLinked(p.st.nodes) && path == ChainFrom(p.st.nodes, p.cur)
    ensures ArenaOK(p.m, p.o, p.st.nodes) && |Explored(p.st.nodes)| == |p.st.nodes| - 1
    ensures Visits(p.st.nodes, t.trail, t.costs, p.cur) && NonDecreasing(t.costs)
    ensures path != [] <==> Reachable(p.m, p.o, p.d)
    ensures path != [] ==>
      WellLinked(p.st.nodes) && p.st.nodes[p.cur].coordinate == p.d && path == ChainFrom(p.st.nodes, p.cur)
    ensures path != [] ==> FoundOutcome(p.m, p.o, p.d, path, Explored(p.st.nodes), t.costs)
    ensures path == [] ==> ExhaustedOutcome(p.m, p.o, p.d, Explored(p.st.nodes), t.costs)
  {
    if p.st.nodes[p.cur].coordinate == p.d {
      ConcludeFound(p, t);
      assert WalkBetween(p.m, path, p.o, p.d);
    } else {
      ConcludeExhausted(p, t);
    }
  }

  /**
   * The nodes never taken as current are the ones still open: none is cheaper
   * than the last current node, and a search that ran out of open nodes took
   * every node it created.
   */
  lemma {:induction false} ConcludeUntaken(p: Running, t: Toured)
    requires t.st == p.st && t.cur == p.cur
    ensures NoneCheaper(p.st.nodes, t.trail, p.cur)
    ensures |p.st.open| == 0 ==> forall i :: 0 <= i < |p.st.nodes| ==> i in t.trail
  {
    TrailShape(t.st, t.cur, t.trail, t.costs);
    Untaken(p.m, p.o, p.d, p.st, p.cur);
  }

  class DijkstraPathFinder {
    const pathMap: PathMap
    /** The number of cells newly inserted into an open queue, over every search this finder ran. */
    var coordinatesExplored: nat

    constructor (pathMap: PathMap)
      ensures this.pathMap == pathMap && coordinatesExplored == 0
    {
      this.pathMap := pathMap;
      coordinatesExplored := 0;
    }

    /** `coordinatesExplored()`: the counter as the last searches left it. */
    function CoordinatesExplored(): (n: nat)
      reads this
      ensures n == coordinatesExplored
    {
      coordinatesExplored
    }

    /**
     * `testCell`: the relaxation of the neighbour at (r, c) of the current node.
     * A cell that is not passable, or whose node is closed, is skipped. A cell
     * with no open node is inserted with cost one more than the current node
     * and the current node as origin, and the counter goes up by one. An open
     * node on the cell that is strictly dearer than that gets the cheaper cost
     * and the current node as origin and is moved to the back of the queue; the
     * counter stays (`DecreasedKeyEffect` states that update node by node).
     * Otherwise nothing changes.
     */
    method TestCell(st: Search, r: int, c: int, current: nat,
                    ghost o: Coord, ghost d: Coord, ghost handled: seq<Coord>) returns (st': Search)
      requires Inv(pathMap, o, d, st, current) && Expanded(pathMap, st, current, handled)
      requires Adjacent(st.nodes[current].coordinate, Coord(r, c))
      modifies this
      ensures Inv(pathMap, o, d, st', current) && Expanded(pathMap, st', current, handled + [Coord(r, c)])
      ensures Grows(st, st', current)
      ensures coordinatesExplored == old(coordinatesExplored) + |st'.nodes| - |st.nodes|
      ensures var probe := Node(Coord(r, c), st.nodes[current].runningCost + 1, Some(current));
        if !IsPassable(pathMap, r, c) || Find(st.nodes, st.closed, probe).Some? then st' == st
        else if Find(st.nodes, st.open, probe).None? then st' == Inserted(st, current, Coord(r, c))
        else if st.nodes[st.open[Find(st.nodes, st.open, probe).value]].runningCost > probe.runningCost
        then st' == DecreasedKey(st, current, Find(st.nodes, st.open, probe).value)
        else st' == st
    {
      var y := Coord(r, c);
      st' := st;
      if IsPassable(pathMap, r, c) {
        var tempNode := Node(y, st.nodes[current].runningCost + 1, Some(current));
        var closedAt := Find(st.nodes, st.closed, tempNode);
        if closedAt.None? {
          var openAt := Find(st.nodes, st.open, tempNode);
          if openAt.None? {
            InsertKeeps(pathMap, o, d, st, current, handled, y);
            st' := Inserted(st, current, y);
            coordinatesExplored := coordinatesExplored + 1;
          } else {
            var k := openAt.value;
            var existing := st.open[k];
            if st.nodes[existing].runningCost > tempNode.runningCost {
              DecreaseKeeps(pathMap, o, d, st, current, handled, y, k);
              DecreaseCovers(pathMap, o, d, st, current, handled, y, k);
              st' := DecreasedKey(st, current, k);
            } else {
              assert existing in st.open;
              ExpandedAdd(pathMap, st, current, handled, y);
            }
          }
        } else {
          assert st.closed[closedAt.value] in st.closed;
          ExpandedAdd(pathMap, st, current, handled, y);
        }
      } else {
        ExpandedAdd(pathMap, st, current, handled, y);
      }
    }

    /**
     * The four neighbour tests of one expansion of the current node, at rows
     * and columns (r+1, c), (r, c+1), (r-1, c) and (r, c-1), in that order.
     */
    method TestNeighbours(st: Search, current: nat, ghost o: Coord, ghost d: Coord) returns (st': Search)
      requires Inv(pathMap, o, d, st, current)
      modifies this
      ensures Inv(pathMap, o, d, st', current)
      ensures Expanded(pathMap, st', current, Neighbours(st.nodes[current].coordinate))
      ensures st'.nodes[current] == st.nodes[current] && ClosedCoords(st') == ClosedCoords(st)
      ensures Settled(st, st', current) && st'.closed == st.closed
      ensures coordinatesExplored == old(coordinatesExplored) + |st'.nodes| - |st.nodes|
    {
      var r := st.nodes[current].coordinate.row;
      var c := st.nodes[current].coordinate.column;
      st' := TestCell(st, r + 1, c, current, o, d, []);
      ghost var st1 := st';
      st' := TestCell(st', r, c + 1, current, o, d, [Coord(r + 1, c)]);
      ghost var st2 := st';
      st' := TestCell(st', r - 1, c, current, o, d, [Coord(r + 1, c), Coord(r, c + 1)]);
      ghost var st3 := st';
      st' := TestCell(st', r, c - 1, current, o, d, [Coord(r + 1, c), Coord(r, c + 1), Coord(r - 1, c)]);
      SettledChain(st, st1, st2, st3, st', current);
    }

    /**
     * One round of the search loop of `findPath`: the four neighbour tests,
     * then either the current node is closed and a cheapest open node popped
     * as the next current node, or, with nothing open, the search is stuck.
     * The popped node is never the start node, is no cheaper than the node it
     * replaces, and lowers the number of unclosed cells of the universe.
     */
    method SearchStep(st: Search, cur: nat, ghost o: Coord, ghost d: Coord, ghost p: Running)
      returns (st': Search, cur': nat, stuck: bool, ghost p': Running)
      requires p == Progress(pathMap, o, d, st, cur) && st.nodes[cur].coordinate != d
      modifies this
      ensures p' == Progress(pathMap, o, d, st', cur')
      ensures coordinatesExplored == old(coordinatesExplored) + |st'.nodes| - |st.nodes|
      ensures Settled(st, st', cur)
      ensures stuck ==> st'.closed == st.closed
      ensures !stuck ==> st'.closed == st.closed + [cur] && cur' !in st'.closed
      ensures stuck ==>
        cur' == cur && st'.nodes[cur'] == st.nodes[cur] && |st'.open| == 0 && Expanded(pathMap, st', cur', Neighbours(st'.nodes[cur'].coordinate))
      ensures !stuck ==>
        cur' != 0 && st'.nodes[cur'].runningCost >= st.nodes[cur].runningCost &&
        Unclosed(pathMap, o, st') < Unclosed(pathMap, o, st)
    {
      st' := TestNeighbours(st, cur, o, d);
      cur' := cur;
      stuck := |st'.open| == 0;
      if !stuck {
        var k := MinIndex(st'.nodes, st'.open);
        ClosePopKeeps(pathMap, o, d, st', cur, k);
        ClosePopShrinks(pathMap, o, st', cur, k);
        st' := Closed(st', cur);
        cur' := st'.open[k];
        st' := Popped(st', k);
        assert Sets(st', cur');
      }
      p' := Progress(pathMap, o, d, st', cur');
    }

    /**
     * The search loop of `findPath` from origin `o` towards destination `d`.
     * It ends with the invariant kept and either the current node on `d` or
     * nothing left open. The counter grows by one per node besides the start
     * node; `costs` lists the running costs of the current nodes in turn.
     */
    method Explore(o: Coord, d: Coord) returns (st: Search, cur: nat, ghost p: Running, ghost t: Toured)
      modifies this
      ensures p == Progress(pathMap, o, d, st, cur) && cur < |st.nodes|
      ensures o == d ==> cur == 0 && |st.nodes| == 1
      ensures coordinatesExplored == old(coordinatesExplored) + |st.nodes| - 1
      ensures t.st == st && t.cur == cur && t.trail == st.closed + [cur]
      ensures st.nodes[cur].coordinate != d ==>
        |st.open| == 0 && Expanded(pathMap, st, cur, Neighbours(st.nodes[cur].coordinate))
    {
      st := Search([Node(o, 0, None)], [], []);
      cur := 0;
      InitialInv(pathMap, o, d);
      p := Progress(pathMap, o, d, st, cur);
      t := Tour(st, cur, [0], [0]);
      while st.nodes[cur].coordinate != d
        invariant p == Progress(pathMap, o, d, st, cur)
        invariant o == d ==> cur == 0 && |st.nodes| == 1
        invariant coordinatesExplored == old(coordinatesExplored) + |st.nodes| - 1
        invariant t.st == st && t.cur == cur
        decreases Unclosed(pathMap, o, st)
      {
        var stuck;
        st, cur, stuck, p := SearchStep(st, cur, o, d, p);
        if stuck {
          t := TourKeep(t, st);
          break;
        }
        t := TourAdvance(t, st, cur);
      }
      TrailShape(t.st, t.cur, t.trail, t.costs);
    }

    /**
     * `findPath`: the cells of a shortest walk from the map's first origin cell to
     * its first destination cell, both included, or the empty sequence when
     * no walk exists. `explored` is the set of cells this search inserted into
     * the open queue, and the counter grows by its size; `popped` lists the
     * running costs of the start node and of every node taken from the queue,
     * in order.
     */
    method FindPath() returns (result: Result<seq<Coord>, MapError>,
                               ghost explored: set<Coord>, ghost popped: seq<nat>,
                               ghost arena: seq<Node>, ghost trail: seq<nat>, ghost current: nat)
      modifies this
      ensures !HasEndpoints(pathMap) ==> result == Failure(InvalidMap) && coordinatesExplored == old(coordinatesExplored)
      ensures HasEndpoints(pathMap) ==> result.Success?
      ensures result.Success? ==> HasEndpoints(pathMap)
      ensures result.Success? ==> coordinatesExplored == old(coordinatesExplored) + |explored|
      ensures result.Success? ==>
        ArenaOK(pathMap, pathMap.originCells[0], arena) && explored == Explored(arena) &&
        Visits(arena, trail, popped, current) && NonDecreasing(popped)
      ensures result.Success? ==> NoneCheaper(arena, trail, current)
      ensures result.Success? && result.value == [] ==> forall i :: 0 <= i < |arena| ==> i in trail
      ensures result.Success? && result.value != [] ==>
        WellLinked(arena) && arena[current].coordinate == pathMap.destCells[0] &&
        result.value == ChainFrom(arena, current)
      ensures result.Success? ==>
        (result.value != [] <==> Reachable(pathMap, pathMap.originCells[0], pathMap.destCells[0]))
      ensures result.Success? && result.value != [] ==>
        FoundOutcome(pathMap, pathMap.originCells[0], pathMap.destCells[0], result.value, explored, popped)
      ensures result.Success? && result.value == [] ==>
        ExhaustedOutcome(pathMap, pathMap.originCells[0], pathMap.destCells[0], explored, popped)
    {
      if |pathMap.originCells| == 0 || |pathMap.destCells| == 0 {
        return Failure(InvalidMap), {}, [], [], [], 0;
      }
      var o := pathMap.originCells[0];
      var d := pathMap.destCells[0];
      var st: Search, cur: nat;
      ghost var p: Running, t: Toured;
      st, cur, p, t := Explore(o, d);
      var path: seq<Coord> := [];
      arena, explored, popped, trail, current := st.nodes, Explored(st.nodes), t.costs, t.trail, cur;
      if st.nodes[cur].coordinate == d {
        ConcludeFound(p, t);
        path := RebuildPath(st.nodes, cur, o);
      }
      Conclude(p, t, path);
      ConcludeUntaken(p, t);
      result := Success(path);
    }
  }
}
