/** The neighbours of one board (solver.js:6-33): the boards reached by moving
    the blank one cell up, down, left or right without leaving the grid. */
module EdgeGeneration {

  import opened Board
  import opened Grid
  import opened StateCodec

  /** The four moves of solver.js:13-18 as (row change, column change):
      up, down, left, right. */
  const Directions: seq<(int, int)> := [(-1, 0), (1, 0), (0, -1), (0, 1)]

  /** The cell the blank at cell z moves to in direction k, or -1 when the move
      leaves the grid (the bounds test of solver.js:22). */
  function Target(z: int, k: int): (r: int)
    requires 0 <= z < 9 && 0 <= k < 4
    ensures r == -1 || (0 <= r < 9 && IsAdjacent(z, r))
  {
    var newRow := z / 3 + Directions[k].0;
    var newCol := z % 3 + Directions[k].1;
    if 0 <= newRow < 3 && 0 <= newCol < 3 then newRow * 3 + newCol else -1
  }

  /** The specification: the boards obtained by exchanging the blank (the first 0,
      as indexOf finds it) with a cell adjacent to it; none when there is no blank. */
  function Neighbours(s: Key): set<Key>
    requires |s| == 9
  {
    var z := IndexOf(s, 0);
    if z < 0 then {} else set t | 0 <= t < 9 && IsAdjacent(z, t) :: Swap(s, z, t)
  }

  /** The boards produced by the first k directions of the loop. */
  function Reached(s: Key, z: int, k: int): set<Key>
    requires |s| == 9 && 0 <= z < 9 && 0 <= k <= 4
  {
    set j | 0 <= j < k && Target(z, j) >= 0 :: Swap(s, z, Target(z, j))
  }

  lemma ReachedStep(s: Key, z: int, k: int)
    requires |s| == 9 && 0 <= z < 9 && 0 <= k < 4
    ensures Reached(s, z, k + 1) ==
      Reached(s, z, k) + (if Target(z, k) >= 0 then {Swap(s, z, Target(z, k))} else {})
  {
  }

  /** Every adjacent cell is reached by one of the four moves. */
  lemma AdjacentIsTarget(z: int, t: int) returns (k: int)
    requires 0 <= z < 9 && 0 <= t < 9 && IsAdjacent(z, t)
    ensures 0 <= k < 4 && Target(z, k) == t
  {
    AdjacentOnGrid(z, t);
    if t == z - 3 {
      k := 0;
    } else if t == z + 3 {
      k := 1;
    } else if t == z - 1 {
      k := 2;
    } else {
      k := 3;
    }
  }

  /** The four moves reach exactly the adjacent cells (solver.js:13-22 agrees with
      script.js:137-143). */
  lemma ReachedAll(s: Key, z: int)
    requires |s| == 9 && 0 <= z < 9
    ensures Reached(s, z, 4) == set t | 0 <= t < 9 && IsAdjacent(z, t) :: Swap(s, z, t)
  {
    forall e | e in Reached(s, z, 4)
      ensures e in set t | 0 <= t < 9 && IsAdjacent(z, t) :: Swap(s, z, t)
    {
      var j :| 0 <= j < 4 && Target(z, j) >= 0 && e == Swap(s, z, Target(z, j));
    }
    forall e | e in set t | 0 <= t < 9 && IsAdjacent(z, t) :: Swap(s, z, t)
      ensures e in Reached(s, z, 4)
    {
      var t :| 0 <= t < 9 && IsAdjacent(z, t) && e == Swap(s, z, t);
      var k := AdjacentIsTarget(z, t);
      assert e == Swap(s, z, Target(z, k));
    }
  }

  /** solver.js:6-33, `generateEdgesForNode`: the numeric key is padded to nine
      digits, the blank located, and each of the four moves that stays on the grid
      contributes the board with the blank exchanged. */
  method GenerateEdgesForNode(node: nat) returns (edges: seq<Key>)
    requires node < 1_000_000_000
    ensures Elements(edges) == Neighbours(Decode(node))
    ensures Distinct(edges)
  {
    var strNode := Decode(node);
    EncodeDecode(node);
    edges := MovesOf(strNode);
  }

  /** The loop of solver.js:11-31 over the nine-digit text of the node. */
  method MovesOf(strNode: Key) returns (edges: seq<Key>)
    requires |strNode| == 9
    ensures Elements(edges) == Neighbours(strNode)
    ensures Distinct(edges)
  {
    edges := [];
    var zeroIndex := IndexOf(strNode, 0);
    var row := FloorDiv(zeroIndex, 3);
    var col := JsRem(zeroIndex, 3);
    for k := 0 to |Directions|
      invariant zeroIndex < 0 ==> edges == []
      invariant zeroIndex >= 0 ==> Elements(edges) == Reached(strNode, zeroIndex, k)
      invariant Distinct(edges)
    {
      var newRow := row + Directions[k].0;
      var newCol := col + Directions[k].1;
      MoveTarget(zeroIndex, k);
      if newRow >= 0 && newRow < 3 && newCol >= 0 && newCol < 3 {
        var newIndex := newRow * 3 + newCol;
        var arrNode := Swap(strNode, zeroIndex, newIndex);
        edges := Add(edges, arrNode);
      }
      if zeroIndex >= 0 {
        ReachedStep(strNode, zeroIndex, k);
      }
    }
    if zeroIndex >= 0 {
      ReachedAll(strNode, zeroIndex);
    }
  }

  /** The row and column arithmetic of solver.js:11-22 on the cell indexOf returned:
      from a missing blank (-1) no move stays on the grid, otherwise the move lands
      on Target. */
  lemma MoveTarget(z: int, k: int)
    requires -1 <= z < 9 && 0 <= k < 4
    ensures var newRow := FloorDiv(z, 3) + Directions[k].0;
      var newCol := JsRem(z, 3) + Directions[k].1;
      var inGrid := newRow >= 0 && newRow < 3 && newCol >= 0 && newCol < 3;
      (z < 0 ==> !inGrid) && (z >= 0 ==> Target(z, k) == if inGrid then newRow * 3 + newCol else -1)
  {
  }

  /** The reference relation: b is a with the blank exchanged with the tile of an
      adjacent cell, every other cell unchanged. */
  ghost predicate OneMove(a: Key, b: Key)
  {
    |a| == 9 && |b| == 9 &&
    exists z, t :: 0 <= z < 9 && 0 <= t < 9 && a[z] == 0 && IsAdjacent(z, t) &&
      b[z] == a[t] && b[t] == 0 && forall i :: 0 <= i < 9 && i != z && i != t ==> b[i] == a[i]
  }

  /** Neighbours is exactly one blank move, for every valid board
      (solver.js:10-30). */
  lemma NeighbourIsOneMove(a: Key, b: Key)
    requires IsPermutation(a)
    ensures b in Neighbours(a) <==> OneMove(a, b)
  {
    if b in Neighbours(a) {
      NeighbourMove(a, b);
    }
    if OneMove(a, b) {
      MoveNeighbour(a, b);
    }
  }

  lemma NeighbourMove(a: Key, b: Key)
    requires IsPermutation(a) && b in Neighbours(a)
    ensures OneMove(a, b)
  {
    var z := IndexOf(a, 0);
    var t :| 0 <= t < 9 && IsAdjacent(z, t) && b == Swap(a, z, t);
    assert a[z] == 0 && b[z] == a[t] && b[t] == 0;
    assert forall i :: 0 <= i < 9 && i != z && i != t ==> b[i] == a[i];
  }

  lemma MoveNeighbour(a: Key, b: Key)
    requires IsPermutation(a) && OneMove(a, b)
    ensures b in Neighbours(a)
  {
    var z, t :| 0 <= z < 9 && 0 <= t < 9 && a[z] == 0 && IsAdjacent(z, t) &&
      b[z] == a[t] && b[t] == 0 && forall i :: 0 <= i < 9 && i != z && i != t ==> b[i] == a[i];
    IndexOfDistinct(a, z);
    assert b == Swap(a, z, t);
  }

  /** A neighbour of a valid board is valid, has its blank where the tile was, and
      leads back: the relation is symmetric. */
  lemma NeighbourBack(a: Key, b: Key)
    requires IsPermutation(a) && b in Neighbours(a)
    ensures IsPermutation(b)
    ensures a in Neighbours(b)
  {
    var z := IndexOf(a, 0);
    var t :| 0 <= t < 9 && IsAdjacent(z, t) && b == Swap(a, z, t);
    SwapBack(a, z, t);
    AdjacentSymmetric(z, t);
  }

  /** Moving the blank from z to t and back again. */
  lemma SwapBack(a: Key, z: int, t: int)
    requires IsPermutation(a) && 0 <= z < 9 && 0 <= t < 9 && a[z] == 0 && z != t
    ensures IsPermutation(Swap(a, z, t))
    ensures IndexOf(Swap(a, z, t), 0) == t
    ensures Swap(Swap(a, z, t), t, z) == a
  {
    var b := Swap(a, z, t);
    SwapPermutation(a, z, t);
    assert b[t] == 0;
    IndexOfDistinct(b, t);
    SwapTwice(a, z, t);
    assert Swap(b, t, z) == Swap(b, z, t);
  }

  /** The neighbour relation is symmetric on valid boards (solver.js:19-30). */
  lemma NeighbourSymmetric(a: Key, b: Key)
    requires IsPermutation(a) && IsPermutation(b)
    ensures b in Neighbours(a) <==> a in Neighbours(b)
  {
    if b in Neighbours(a) {
      NeighbourBack(a, b);
    }
    if a in Neighbours(b) {
      NeighbourBack(b, a);
    }
  }

  /** No valid board is its own neighbour. */
  lemma NeighbourIrreflexive(a: Key)
    requires IsPermutation(a)
    ensures a !in Neighbours(a)
  {
    PermutationHasAll(a);
  }

  /** The boards obtained by moving the blank at z to each of the given cells. */
  function Image(s: Key, z: int, cells: seq<int>): set<Key>
    requires |s| == 9 && 0 <= z < 9 && forall t :: t in cells ==> 0 <= t < 9
  {
    set t | t in cells :: Swap(s, z, t)
  }

  /** Distinct target cells give distinct boards, so there are as many as cells. */
  lemma {:induction false} ImageSize(s: Key, z: int, cells: seq<int>)
    requires IsPermutation(s) && 0 <= z < 9 && s[z] == 0
    requires Distinct(cells) && forall t :: t in cells ==> 0 <= t < 9 && t != z
    ensures |Image(s, z, cells)| == |cells|
  {
    if cells != [] {
      var x := cells[|cells| - 1];
      var rest := cells[..|cells| - 1];
      assert cells == rest + [x];
      assert forall t :: t in rest ==> t in cells;
      assert Distinct(rest);
      ImageSize(s, z, rest);
      assert x in cells;
      forall k | 0 <= k < |rest|
        ensures rest[k] != x
      {
        assert cells[k] == rest[k] && cells[|cells| - 1] == x;
      }
      ImageAppend(s, z, rest, x);
    }
  }

  /** One more target cell adds one more board. */
  lemma ImageAppend(s: Key, z: int, rest: seq<int>, x: int)
    requires IsPermutation(s) && 0 <= z < 9 && s[z] == 0
    requires 0 <= x < 9 && x != z && x !in rest && forall t :: t in rest ==> 0 <= t < 9 && t != z
    ensures |Image(s, z, rest + [x])| == |Image(s, z, rest)| + 1
  {
    assert Image(s, z, rest + [x]) == Image(s, z, rest) + {Swap(s, z, x)};
    forall y | y in rest
      ensures Swap(s, z, y) != Swap(s, z, x)
    {
      assert Swap(s, z, x)[x] == 0;
      assert Swap(s, z, y)[x] == s[x] != s[z];
    }
  }

  /** The degree of a board depends only on where its blank is: two in a corner,
      three on an edge centre, four in the centre (solver.js:11-22). */
  lemma NeighbourCount(s: Key)
    requires IsPermutation(s)
    ensures IsCorner(IndexOf(s, 0)) ==> |Neighbours(s)| == 2
    ensures IsEdgeCentre(IndexOf(s, 0)) ==> |Neighbours(s)| == 3
    ensures IndexOf(s, 0) == 4 ==> |Neighbours(s)| == 4
  {
    var z := NeighboursAroundBlank(s);
    ImageSize(s, z, CellsAround(z));
    AdjacentCount(z);
    DistinctSize(CellsAround(z));
  }

  /** The neighbours are the boards of the written-out table of cells around the blank. */
  lemma NeighboursAroundBlank(s: Key) returns (z: int)
    requires IsPermutation(s)
    ensures z == IndexOf(s, 0) && 0 <= z < 9 && s[z] == 0
    ensures Distinct(CellsAround(z)) && forall t :: t in CellsAround(z) ==> 0 <= t < 9 && t != z
    ensures |AdjacentCells(z)| == |CellsAround(z)|
    ensures Neighbours(s) == Image(s, z, CellsAround(z))
  {
    PermutationHasAll(s);
    z := IndexOf(s, 0);
    AdjacentCellsTable(z);
    DistinctSize(CellsAround(z));
    forall t | 0 <= t < 9
      ensures IsAdjacent(z, t) <==> t in CellsAround(z)
    {
      assert t in AdjacentCells(z) <==> t in Elements(CellsAround(z));
    }
  }
}
