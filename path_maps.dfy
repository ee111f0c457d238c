/**
 * The map collaborator of the path finder: a rectangular grid of cells, some of
 * them blocked, with lists of origin and destination cells. Only the narrow
 * interface the search consumes is modelled: passability of a (row, column)
 * pair, with the bounds check folded in, and the two cell lists.
 */
module PathMaps {

  /** A structural (row, column) pair: equal exactly when both parts are equal. */
  datatype Coord = Coord(row: int, column: int)

  datatype PathMap = PathMap(rows: nat, columns: nat, blocked: set<Coord>,
                             originCells: seq<Coord>, destCells: seq<Coord>)

  /** `PathMap.isPassable(r, c)`: inside the grid and not blocked terrain. */
  predicate IsPassable(m: PathMap, r: int, c: int) {
    0 <= r < m.rows && 0 <= c < m.columns && Coord(r, c) !in m.blocked
  }

  predicate Passable(m: PathMap, x: Coord) {
    IsPassable(m, x.row, x.column)
  }

  /** Every cell of the grid; a finite set that holds every passable cell. */
  function Cells(m: PathMap): (s: set<Coord>)
    ensures forall x :: Passable(m, x) ==> x in s
    ensures forall x :: x in s ==> 0 <= x.row < m.rows && 0 <= x.column < m.columns
  {
    set r: int, c: int | 0 <= r < m.rows && 0 <= c < m.columns :: Coord(r, c)
  }

  /** Two cells that share a side (the four axis-aligned moves). */
  predicate Adjacent(a: Coord, b: Coord) {
    (a.row == b.row && (a.column == b.column + 1 || b.column == a.column + 1)) ||
    (a.column == b.column && (a.row == b.row + 1 || b.row == a.row + 1))
  }

  /**
   * The four neighbours in the order the search tests them: row + 1, column + 1,
   * row - 1, column - 1. They are exactly the adjacent cells.
   */
  function Neighbours(x: Coord): (ns: seq<Coord>)
    ensures |ns| == 4
    ensures forall y :: y in ns <==> Adjacent(x, y)
  {
    [Coord(x.row + 1, x.column), Coord(x.row, x.column + 1),
     Coord(x.row - 1, x.column), Coord(x.row, x.column - 1)]
  }

  /** A sequence of cells where each step moves to an adjacent passable cell. */
  ghost predicate IsWalk(m: PathMap, w: seq<Coord>) {
    |w| > 0 &&
    forall i, j :: 0 <= i && j == i + 1 && j < |w| ==> Adjacent(w[i], w[j]) && Passable(m, w[j])
  }

  ghost predicate WalkBetween(m: PathMap, w: seq<Coord>, a: Coord, b: Coord) {
    IsWalk(m, w) && w[0] == a && w[|w| - 1] == b
  }

  ghost predicate Reachable(m: PathMap, a: Coord, b: Coord) {
    exists w :: WalkBetween(m, w, a, b)
  }

  /** A prefix of a walk is a walk to the prefix's last cell. */
  lemma {:induction false} WalkPrefix(m: PathMap, w: seq<Coord>, j: nat)
    requires IsWalk(m, w) && 0 < j <= |w|
    ensures WalkBetween(m, w[..j], w[0], w[j - 1])
  {
    var v := w[..j];
    forall i, k | 0 <= i && k == i + 1 && k < |v| ensures Adjacent(v[i], v[k]) && Passable(m, v[k]) {
      assert v[i] == w[i] && v[k] == w[k];
    }
  }

  /** A walk extended by one adjacent passable cell is still a walk. */
  lemma {:induction false} WalkExtend(m: PathMap, w: seq<Coord>, y: Coord)
    requires IsWalk(m, w) && Adjacent(w[|w| - 1], y) && Passable(m, y)
    ensures WalkBetween(m, w + [y], w[0], y)
  {
    var v := w + [y];
    forall i, k | 0 <= i && k == i + 1 && k < |v| ensures Adjacent(v[i], v[k]) && Passable(m, v[k]) {
      if k < |w| {
        assert v[i] == w[i] && v[k] == w[k];
      } else {
        assert v[i] == w[|w| - 1] && v[k] == y;
      }
    }
  }

  /**
   * A walk that starts inside a set of cells closed under passable adjacency
   * never leaves that set.
   */
  lemma {:induction false} WalkStaysInside(m: PathMap, s: set<Coord>, w: seq<Coord>)
    requires IsWalk(m, w) && w[0] in s
    requires forall x, y :: x in s && Adjacent(x, y) && Passable(m, y) ==> y in s
    ensures forall i :: 0 <= i < |w| ==> w[i] in s
  {
    if |w| > 1 {
      var v := w[..|w| - 1];
      assert IsWalk(m, v) && v[0] == w[0];
      WalkStaysInside(m, s, v);
      forall i | 0 <= i < |w| - 1 ensures w[i] in s {
        assert w[i] == v[i];
      }
      assert w[|w| - 2] in s;
      assert Adjacent(w[|w| - 2], w[|w| - 1]) && Passable(m, w[|w| - 1]);
    }
  }

  /**
   * A walk that starts inside a set and ends outside it has a first step that
   * leaves the set.
   */
  lemma {:induction false} FirstExit(w: seq<Coord>, s: set<Coord>) returns (j: nat)
    requires |w| > 0 && w[0] in s && w[|w| - 1] !in s
    ensures 0 < j < |w| && w[j - 1] in s && w[j] !in s
    ensures forall i :: 0 <= i < j ==> w[i] in s
  {
    j := 1;
    while w[j] in s
      invariant 0 < j < |w|
      invariant forall i :: 0 <= i < j ==> w[i] in s
      decreases |w| - j
    {
      j := j + 1;
    }
  }
}
