/** The geometry of the 3x3 grid: cell p sits in row p div 3 and column p mod 3,
    and two cells are adjacent when their Manhattan distance is 1. */
module Grid {

  import opened Board

  /** JavaScript's `%`: it truncates toward zero, so the remainder takes the sign
      of the dividend (Dafny's `%` is Euclidean and never negative). */
  function JsRem(a: int, m: int): (r: int)
    requires m > 0
    ensures a >= 0 ==> r == a % m && 0 <= r < m
    ensures a < 0 ==> -m < r <= 0
  {
    if a >= 0 then a % m else -((-a) % m)
  }

  /** Truncation is symmetric about zero: the remainder of -a is minus that of a. */
  lemma JsRemNegate(a: int, m: int)
    requires m > 0
    ensures JsRem(-a, m) == -JsRem(a, m)
  {
  }

  /** `Math.floor(a / m)` for a positive divisor, which is what Dafny's Euclidean
      division computes when m > 0. */
  function FloorDiv(a: int, m: int): int
    requires m > 0
  {
    a / m
  }

  function Abs(x: int): nat
  {
    if x < 0 then -x else x
  }

  /** script.js:137-143, `isAdjacent`, over any JavaScript integer. */
  function IsAdjacent(a: int, b: int): (r: bool)
    ensures r ==> a != b
  {
    Abs(JsRem(a, 3) - JsRem(b, 3)) + Abs(FloorDiv(a, 3) - FloorDiv(b, 3)) == 1
  }

  /** The cells of the grid adjacent to cell a. */
  function AdjacentCells(a: int): set<int>
  {
    set b | 0 <= b < 9 && IsAdjacent(a, b)
  }

  predicate IsCorner(p: int)
  {
    p == 0 || p == 2 || p == 6 || p == 8
  }

  predicate IsEdgeCentre(p: int)
  {
    p == 1 || p == 3 || p == 5 || p == 7
  }

  lemma AdjacentSymmetric(a: int, b: int)
    ensures IsAdjacent(a, b) == IsAdjacent(b, a)
  {
  }

  /** On the grid, adjacency means: same row and neighbouring columns, or same
      column and neighbouring rows. */
  lemma AdjacentOnGrid(a: int, b: int)
    requires 0 <= a < 9 && 0 <= b < 9
    ensures IsAdjacent(a, b) <==>
      (a / 3 == b / 3 && Abs(a % 3 - b % 3) == 1) || (a % 3 == b % 3 && Abs(a / 3 - b / 3) == 1)
  {
  }

  /** The cell -1 (what indexOf returns for a missing blank) is adjacent to no cell. */
  lemma NotAdjacentToMissing(a: int)
    requires 0 <= a < 9
    ensures !IsAdjacent(a, -1)
  {
  }

  /** The row of cell a of the grid, written without division so that proofs about
      cells stay linear. */
  function Row(a: int): int
  {
    if a < 3 then 0 else if a < 6 then 1 else 2
  }

  /** On the grid, Row and the column a - 3 * Row(a) are a / 3 and a % 3. */
  lemma RowColumn(a: int)
    requires 0 <= a < 9
    ensures Row(a) == a / 3 && a - 3 * Row(a) == a % 3
  {
  }

  /** The neighbouring cells of every cell, written out. */
  function CellsAround(a: int): seq<int>
  {
    if a == 0 then [1, 3]
    else if a == 1 then [0, 2, 4]
    else if a == 2 then [1, 5]
    else if a == 3 then [0, 4, 6]
    else if a == 4 then [1, 3, 5, 7]
    else if a == 5 then [2, 4, 8]
    else if a == 6 then [3, 7]
    else if a == 7 then [4, 6, 8]
    else if a == 8 then [5, 7]
    else []
  }

  lemma AdjacentPair(a: int, b: int)
    requires 0 <= a < 9 && 0 <= b < 9
    ensures IsAdjacent(a, b) <==> b in CellsAround(a)
  {
    AdjacentOnGrid(a, b);
    RowColumn(a);
    RowColumn(b);
    if a < 3 {
      assert a == 0 || a == 1 || a == 2;
    } else if a < 6 {
      assert a == 3 || a == 4 || a == 5;
    } else {
      assert a == 6 || a == 7 || a == 8;
    }
  }

  /** The written-out table agrees with isAdjacent, and lists each cell once. */
  lemma AdjacentCellsTable(a: int)
    requires 0 <= a < 9
    ensures AdjacentCells(a) == Elements(CellsAround(a))
    ensures Distinct(CellsAround(a))
    ensures forall t :: t in CellsAround(a) ==> 0 <= t < 9 && t != a
  {
    CellsAroundShape(a);
    forall b | b in AdjacentCells(a)
      ensures b in Elements(CellsAround(a))
    {
      AdjacentPair(a, b);
    }
    forall b | b in Elements(CellsAround(a))
      ensures b in AdjacentCells(a)
    {
      AdjacentPair(a, b);
    }
  }

  lemma CellsAroundShape(a: int)
    requires 0 <= a < 9
    ensures Distinct(CellsAround(a))
    ensures forall t :: t in CellsAround(a) ==> 0 <= t < 9 && t != a
  {
    if a < 3 {
      assert a == 0 || a == 1 || a == 2;
    } else if a < 6 {
      assert a == 3 || a == 4 || a == 5;
    } else {
      assert a == 6 || a == 7 || a == 8;
    }
  }

  /** A corner has two neighbouring cells, an edge centre three, the centre four. */
  lemma AdjacentCount(a: int)
    requires 0 <= a < 9
    ensures IsCorner(a) ==> |AdjacentCells(a)| == 2
    ensures IsEdgeCentre(a) ==> |AdjacentCells(a)| == 3
    ensures a == 4 ==> |AdjacentCells(a)| == 4
  {
    AdjacentCellsTable(a);
    DistinctSize(CellsAround(a));
  }
}
