/** The hint button of the game page (script.js:209-230): the solver is asked for
    a shortest solution from the current board, and the player is told which tile
    to drag onto the blank to reach the solution's second board. */
module Hints {

  import opened Board
  import opened Grid
  import opened StateCodec
  import opened EdgeGeneration
  import opened Search
  import Game

  /** What the hint tells the player: the tile to move, the generic advice given
      when the solution has no second board, that there is no solution, or nothing
      at all. */
  datatype Hint = MoveTile(tile: int) | Advice | NoSolution | Silent

  /** script.js:217 as written: the position of "0" in `String(nextStep)`, the text
      of the next board's number without padding. */
  function NextBlankAsWritten(next: Key): (r: int)
    requires |next| == 9 && IsDigits(next)
    ensures -1 <= r < 9
  {
    DecodeEncode(next);
    DecimalLength(Encode(next));
    IndexOf(ToDecimal(Encode(next)), 0)
  }

  /** The cell of the next board's blank, read from its nine-digit text as
      solver.js:9 reads a key. */
  function NextBlank(next: Key): (r: int)
    requires |next| == 9 && IsDigits(next)
    ensures r == IndexOf(next, 0)
  {
    DecodeEncode(next);
    IndexOf(Decode(Encode(next)), 0)
  }

  /** script.js:218-220: a tile is named when the next blank cell is adjacent to the
      current blank; otherwise nothing is shown. A named tile is one the player may
      legally drag onto the blank, and that drop is a move of the solver's graph. */
  function Tell(b: Key, nextBlank: int): (h: Hint)
    requires IsPermutation(b) && -1 <= nextBlank < 9
    ensures h.MoveTile? <==> Game.Legal(b, nextBlank, IndexOf(b, 0))
    ensures h.MoveTile? ==> 0 <= nextBlank < 9 && h.tile == b[nextBlank]
    ensures h.MoveTile? ==> Game.Drop(b, nextBlank, IndexOf(b, 0)) in Neighbours(b)
    ensures !h.MoveTile? ==> h == Silent
  {
    PermutationHasAll(b);
    NotAdjacentToMissing(IndexOf(b, 0));
    if IsAdjacent(IndexOf(b, 0), nextBlank) then
      TellLegal(b, nextBlank);
      MoveTile(b[nextBlank])
    else
      AdjacentSymmetric(IndexOf(b, 0), nextBlank);
      Silent
  }

  /** An adjacent cell next to the blank holds a tile, whose drop onto the blank is
      legal and produces a neighbour. */
  lemma TellLegal(b: Key, t: int)
    requires IsPermutation(b) && 0 <= t < 9 && IsAdjacent(IndexOf(b, 0), t)
    ensures Game.Legal(b, t, IndexOf(b, 0))
    ensures Game.Drop(b, t, IndexOf(b, 0)) in Neighbours(b)
  {
    PermutationHasAll(b);
    var z := IndexOf(b, 0);
    AdjacentSymmetric(z, t);
    IndexOfDistinct(b, t);
    Game.DropIsMove(b, t, z);
    assert Game.Drop(b, t, z)[t] == 0 != b[t];
  }

  /** The next state of a solution can be read as a key. */
  predicate Readable(path: Option<seq<Key>>)
  {
    path.Some? && |path.value| >= 2 ==> |path.value[1]| == 9 && IsDigits(path.value[1])
  }

  /** script.js:212-229 as written, on the board b and the solver's answer: no
      solution is reported exactly when there is no answer, and a named tile can
      legally be dragged onto the blank. */
  function HintForAsWritten(b: Key, path: Option<seq<Key>>): (h: Hint)
    requires IsPermutation(b) && Readable(path)
    ensures h == NoSolution <==> path.None?
    ensures h.MoveTile? ==> exists from :: 0 <= from < 9 && b[from] == h.tile && Game.Legal(b, from, IndexOf(b, 0))
  {
    match path
    case None => NoSolution
    case Some(p) =>
      if |p| < 2 || Encode(p[1]) == 0 then Advice else Tell(b, NextBlankAsWritten(p[1]))
  }

  /** script.js:212-229 with the next state's text padded to nine digits: no
      solution is reported exactly when there is no answer, and a named tile can
      legally be dragged onto the blank, which moves the blank to where the
      answer's next board has it. */
  function HintFor(b: Key, path: Option<seq<Key>>): (h: Hint)
    requires IsPermutation(b) && Readable(path)
    ensures h == NoSolution <==> path.None?
    ensures h.MoveTile? ==> path.Some? && |path.value| >= 2 && exists from ::
      0 <= from < 9 && b[from] == h.tile && Game.Legal(b, from, IndexOf(b, 0)) &&
      IndexOf(Game.Drop(b, from, IndexOf(b, 0)), 0) == IndexOf(path.value[1], 0)
  {
    match path
    case None => NoSolution
    case Some(p) =>
      if |p| < 2 || Encode(p[1]) == 0 then Advice else
        HintLands(b, p[1]);
        Tell(b, NextBlank(p[1]))
  }

  /** The tile the padded reading names, dropped onto the blank, leaves the blank in
      the cell where the next board has it. */
  lemma HintLands(b: Key, next: Key)
    requires IsPermutation(b) && |next| == 9 && IsDigits(next)
    ensures Tell(b, NextBlank(next)).MoveTile? ==> exists from ::
      0 <= from < 9 && b[from] == Tell(b, NextBlank(next)).tile && Game.Legal(b, from, IndexOf(b, 0)) &&
      IndexOf(Game.Drop(b, from, IndexOf(b, 0)), 0) == IndexOf(next, 0)
  {
    var from := NextBlank(next);
    if Tell(b, from).MoveTile? {
      var r := Game.Drop(b, from, IndexOf(b, 0));
      IndexOfDistinct(r, from);
      assert IndexOf(r, 0) == IndexOf(next, 0);
    }
  }

  /** A valid board is never read as the number 0 (the falsy `nextStep` of script.js:216). */
  lemma KeyNonZero(s: Key)
    requires IsPermutation(s)
    ensures Encode(s) != 0
  {
    if Encode(s) == 0 {
      EncodeAllZero(s);
      assert false;
    }
  }

  /** When a solution continues with a neighbour of the board, the hint names the tile
      whose drop onto the blank produces that neighbour: the hint is a legal move. */
  lemma HintAlongPath(b: Key, p: seq<Key>) returns (from: int)
    requires IsPermutation(b) && |p| >= 2 && p[0] == b && p[1] in Neighbours(b)
    ensures IsPermutation(p[1])
    ensures 0 <= from < 9 && Game.Legal(b, from, IndexOf(b, 0))
    ensures Game.Drop(b, from, IndexOf(b, 0)) == p[1]
    ensures HintFor(b, Some(p)) == MoveTile(b[from])
  {
    NeighbourBack(b, p[1]);
    from := Game.MoveIsDrop(b, p[1]);
    KeyNonZero(p[1]);
    IndexOfDistinct(p[1], from);
    AdjacentSymmetric(from, IndexOf(b, 0));
  }

  /** A board whose first cell is the blank loses that digit in its unpadded text:
      the as-written hint then finds no blank and says nothing, where the padded
      reading names the tile. */
  lemma AsWrittenLost(b: Key, p: seq<Key>)
    requires IsPermutation(b) && |p| >= 2 && p[0] == b && p[1] in Neighbours(b)
    requires p[1][0] == 0
    ensures HintForAsWritten(b, Some(p)) == Silent
    ensures HintFor(b, Some(p)).MoveTile?
  {
    var from := HintAlongPath(b, p);
    LeadingBlankLost(p[1]);
    PermutationHasAll(b);
    NotAdjacentToMissing(IndexOf(b, 0));
  }

  /** Otherwise the two readings agree. */
  lemma AsWrittenAgrees(b: Key, p: seq<Key>)
    requires IsPermutation(b) && |p| >= 2 && IsPermutation(p[1]) && p[1][0] != 0
    ensures HintForAsWritten(b, Some(p)) == HintFor(b, Some(p))
  {
    var d := ToDecimal(Encode(p[1]));
    DecodeEncode(p[1]);
    DecimalLength(Encode(p[1]));
    assert PadStart(d, 9) == p[1];
    assert |d| == 9;
    assert d == p[1];
  }

  /** The Manhattan distance between two cells of the grid. */
  function Distance(a: int, b: int): nat
  {
    Abs(Row(a) - Row(b)) + Abs((a - 3 * Row(a)) - (b - 3 * Row(b)))
  }

  /** How far the tile in cell k is from its home cell; the blank costs nothing. */
  function Cost(s: Key, k: int): nat
    requires 0 <= k < |s|
  {
    if s[k] == 0 then 0 else Distance(k, s[k] - 1)
  }

  /** The sum of the costs of cells 0..n-1. */
  function Manhattan(s: Key, n: nat): nat
    requires n <= |s|
  {
    if n == 0 then 0 else Manhattan(s, n - 1) + Cost(s, n - 1)
  }

  /** Exchanging two cells changes the sum only by the change at those cells. */
  lemma {:induction false} ManhattanSwap(s: Key, z: int, t: int, n: nat)
    requires 0 <= z < |s| && 0 <= t < |s| && z != t && n <= |s|
    ensures Manhattan(Swap(s, z, t), n)
      + (if z < n then Cost(s, z) else 0) + (if t < n then Cost(s, t) else 0)
      == Manhattan(s, n)
      + (if z < n then Cost(Swap(s, z, t), z) else 0) + (if t < n then Cost(Swap(s, z, t), t) else 0)
  {
    if n > 0 {
      var u, k := Swap(s, z, t), n - 1;
      ManhattanSwap(s, z, t, k);
      assert Manhattan(u, n) == Manhattan(u, k) + Cost(u, k);
      assert Manhattan(s, n) == Manhattan(s, k) + Cost(s, k);
      if k != z && k != t {
        assert u[k] == s[k];
        assert Cost(u, k) == Cost(s, k);
      }
    }
  }

  /** One blank move changes the distance of one tile by one cell, so the sum drops
      by at most one. */
  lemma MoveCost(s: Key, t: int)
    requires IsPermutation(s) && 0 <= t < 9 && IsAdjacent(IndexOf(s, 0), t)
    ensures Manhattan(s, 9) <= Manhattan(Swap(s, IndexOf(s, 0), t), 9) + 1
  {
    PermutationHasAll(s);
    var z := IndexOf(s, 0);
    assert s[t] != s[z];
    SwapCost(s, z, t);
  }

  lemma SwapCost(s: Key, z: int, t: int)
    requires |s| == 9 && 0 <= z < 9 && 0 <= t < 9 && s[z] == 0 && s[t] != 0 && IsAdjacent(z, t)
    ensures Manhattan(s, 9) <= Manhattan(Swap(s, z, t), 9) + 1
  {
    ManhattanSwap(s, z, t, 9);
    CostStep(s, z, t);
  }

  /** Only the tile that moves changes cost, and by at most one. */
  lemma CostStep(s: Key, z: int, t: int)
    requires |s| == 9 && 0 <= z < 9 && 0 <= t < 9 && s[z] == 0 && s[t] != 0 && IsAdjacent(z, t)
    ensures Cost(s, z) == 0 && Cost(Swap(s, z, t), t) == 0
    ensures Cost(s, t) <= Cost(Swap(s, z, t), z) + 1
  {
    var u := Swap(s, z, t);
    assert u[z] == s[t] && u[t] == 0;
    AdjacentRows(z, t);
    var v := s[t] - 1;
    assert Cost(s, t) == Distance(t, v) && Cost(u, z) == Distance(z, v);
  }

  /** Adjacent cells share a row and neighbouring columns, or the reverse. */
  lemma AdjacentRows(a: int, b: int)
    requires 0 <= a < 9 && 0 <= b < 9 && IsAdjacent(a, b)
    ensures var ca, cb := a - 3 * Row(a), b - 3 * Row(b);
      (Row(a) == Row(b) && Abs(ca - cb) == 1) || (ca == cb && Abs(Row(a) - Row(b)) == 1)
  {
    AdjacentOnGrid(a, b);
    RowColumn(a);
    RowColumn(b);
  }

  /** The edges of the graph are the neighbour sets, on every valid board. */
  ghost predicate Sound(edges: map<Key, seq<Key>>)
  {
    forall s :: s in edges ==> IsPermutation(s) && Elements(edges[s]) == Neighbours(s)
  }

  /** Every solution needs at least as many moves as the Manhattan sum: a lower
      bound on the distance the solver's search measures. */
  lemma {:induction false} WalkBound(edges: map<Key, seq<Key>>, w: seq<Key>, x: Key)
    requires Sound(edges) && IsPermutation(x) && IsWalk(edges, w, x, Solved)
    ensures Manhattan(x, 9) <= |w| - 1
  {
    if |w| == 1 {
      assert x == Solved;
    } else {
      assert w[1] in Elements(edges[x]);
      var z := NeighboursAroundBlank(x);
      var t :| t in CellsAround(z) && w[1] == Swap(x, z, t);
      AdjacentPair(z, t);
      MoveCost(x, t);
      WalkTail(edges, w, x, Solved);
      NeighbourBack(x, w[1]);
      WalkBound(edges, w[1..], w[1]);
    }
  }

  /** The board of the finding: one move from a board whose blank is in cell 0. */
  const Stuck: Key := [2, 0, 3, 1, 5, 6, 4, 7, 8]

  /** The boards of a five-move solution from Stuck, each named after the cell its
      blank is in: ViaK has the blank in cell K. */
  const Via0: Key := [0, 2, 3, 1, 5, 6, 4, 7, 8]
  const Via3: Key := [1, 2, 3, 0, 5, 6, 4, 7, 8]
  const Via6: Key := [1, 2, 3, 4, 5, 6, 0, 7, 8]
  const Via7: Key := [1, 2, 3, 4, 5, 6, 7, 0, 8]

  lemma StuckValid()
    ensures IsPermutation(Stuck)
  {
  }

  /** The move of the blank at z to the adjacent cell t is an edge of a valid board. */
  lemma StepIn(s: Key, z: int, t: int, c: Key)
    requires IsPermutation(s) && 0 <= z < 9 && s[z] == 0 && 0 <= t < 9 && IsAdjacent(z, t)
    requires c == Swap(s, z, t)
    ensures c in Neighbours(s) && IsPermutation(c)
  {
    IndexOfDistinct(s, z);
    SwapPermutation(s, z, t);
  }

  /** The route Stuck, Via0, Via3, Via6, Via7, Solved moves the blank
      1 -> 0 -> 3 -> 6 -> 7 -> 8, one edge per lemma. */
  lemma Route0()
    ensures IsPermutation(Stuck) && Via0 in Neighbours(Stuck)
  {
    assert Swap(Stuck, 1, 0) == Via0;
    StuckValid();
    assert Stuck[1] == 0 && IsAdjacent(1, 0);
    StepIn(Stuck, 1, 0, Via0);
  }

  lemma Route1()
    ensures IsPermutation(Via0) && Via3 in Neighbours(Via0)
  {
    assert Swap(Via0, 0, 3) == Via3;
    assert IsPermutation(Via0);
    assert Via0[0] == 0 && IsAdjacent(0, 3);
    StepIn(Via0, 0, 3, Via3);
  }

  lemma Route2()
    ensures IsPermutation(Via3) && Via6 in Neighbours(Via3)
  {
    assert Swap(Via3, 3, 6) == Via6;
    assert IsPermutation(Via3);
    assert Via3[3] == 0 && IsAdjacent(3, 6);
    StepIn(Via3, 3, 6, Via6);
  }

  lemma Route3()
    ensures IsPermutation(Via6) && Via7 in Neighbours(Via6)
  {
    assert Swap(Via6, 6, 7) == Via7;
    assert IsPermutation(Via6);
    assert Via6[6] == 0 && IsAdjacent(6, 7);
    StepIn(Via6, 6, 7, Via7);
  }

  lemma Route4()
    ensures IsPermutation(Via7) && Solved in Neighbours(Via7)
  {
    assert Swap(Via7, 7, 8) == Solved;
    assert IsPermutation(Via7);
    assert Via7[7] == 0 && IsAdjacent(7, 8);
    StepIn(Via7, 7, 8, Solved);
  }

  /** The other two neighbours of Stuck, with the blank moved to cell 2 and cell 4. */
  const Stuck2: Key := [2, 3, 0, 1, 5, 6, 4, 7, 8]
  const Stuck4: Key := [2, 5, 3, 1, 0, 6, 4, 7, 8]

  /** The three swaps of Stuck's blank with the tiles around it. */
  lemma StuckSwaps()
    ensures Swap(Stuck, 1, 0) == Via0 && Swap(Stuck, 1, 2) == Stuck2 && Swap(Stuck, 1, 4) == Stuck4
  {
  }

  /** The three neighbours of Stuck: the blank moves to cell 0, 2 or 4. */
  lemma StuckNeighbours()
    ensures forall c :: c in Neighbours(Stuck) ==> c == Via0 || c == Stuck2 || c == Stuck4
  {
    StuckSwaps();
    StuckValid();
    var z := NeighboursAroundBlank(Stuck);
    assert z == 1;
    assert CellsAround(1) == [0, 2, 4];
  }

  /** The moves to cells 2 and 4 take a tile away from home: both leave a Manhattan
      sum of 6, where Stuck has 5. */
  lemma Stuck2Cost()
    ensures Manhattan(Stuck2, 9) == 6
  {
    assert Manhattan([2, 3, 0, 1, 5, 6, 4, 7, 8], 9) == 6;
  }

  lemma Stuck4Cost()
    ensures Manhattan(Stuck4, 9) == 6
  {
    assert Manhattan([2, 5, 3, 1, 0, 6, 4, 7, 8], 9) == 6;
  }

  /** An edge of a valid graph between valid boards. */
  lemma EdgeIn(g: Graph, s: Key, c: Key)
    requires g.Valid() && IsPermutation(s) && c in Neighbours(s)
    ensures s in g.edges && c in g.edges[s]
  {
    assert c in Elements(g.edges[s]);
  }

  /** A five-move solution from Stuck, starting with the move to Via0. */
  lemma StuckSolvable(g: Graph) returns (w: seq<Key>)
    requires g.Valid()
    ensures IsWalk(g.edges, w, Stuck, Solved) && |w| == 6
  {
    RouteEdges(g);
    w := [Stuck, Via0, Via3, Via6, Via7, Solved];
    FiveMoves(g.edges, Stuck, Via0, Via3, Via6, Via7, Solved);
  }

  /** Five consecutive edges make a walk of six boards. */
  lemma FiveMoves(edges: map<Key, seq<Key>>, a: Key, b: Key, c: Key, d: Key, e: Key, f: Key)
    requires a in edges && b in edges[a] && b in edges && c in edges[b] && c in edges && d in edges[c]
    requires d in edges && e in edges[d] && e in edges && f in edges[e]
    ensures IsWalk(edges, [a, b, c, d, e, f], a, f)
  {
    var w := [a, b, c, d, e, f];
    forall i | 0 <= i < |w| - 1
      ensures w[i] in edges && w[i + 1] in edges[w[i]]
    {
      if i == 0 {
      } else if i == 1 {
      } else if i == 2 {
      } else if i == 3 {
      } else {
      }
    }
  }

  /** The five edges of the route are edges of a valid graph. */
  lemma RouteEdges(g: Graph)
    requires g.Valid()
    ensures Stuck in g.edges && Via0 in g.edges[Stuck]
    ensures Via0 in g.edges && Via3 in g.edges[Via0]
    ensures Via3 in g.edges && Via6 in g.edges[Via3]
    ensures Via6 in g.edges && Via7 in g.edges[Via6]
    ensures Via7 in g.edges && Solved in g.edges[Via7]
  {
    Route0();
    EdgeIn(g, Stuck, Via0);
    Route1();
    EdgeIn(g, Via0, Via3);
    Route2();
    EdgeIn(g, Via3, Via6);
    Route3();
    EdgeIn(g, Via6, Via7);
    Route4();
    EdgeIn(g, Via7, Solved);
  }

  /** A valid graph's edges are the neighbour sets. */
  lemma GraphSound(g: Graph)
    requires g.Valid()
    ensures Sound(g.edges)
  {
  }

  /** The tail of a walk is a walk from its second board. */
  lemma WalkTail(edges: map<Key, seq<Key>>, w: seq<Key>, a: Key, b: Key)
    requires IsWalk(edges, w, a, b) && |w| >= 2
    ensures IsWalk(edges, w[1..], w[1], b)
  {
    forall i | 0 <= i < |w[1..]| - 1
      ensures w[1..][i] in edges && w[1..][i + 1] in edges[w[1..][i]]
    {
      assert w[1..][i] == w[i + 1] && w[1..][i + 1] == w[i + 2];
    }
  }

  /** Every shortest solution from Stuck starts with the move to Via0: the other
      two first moves leave a Manhattan sum of 6, more than the four moves left. */
  lemma StuckFirstMove(g: Graph, p: seq<Key>)
    requires g.Valid()
    requires IsWalk(g.edges, p, Stuck, Solved)
    requires forall w :: IsWalk(g.edges, w, Stuck, Solved) ==> |p| <= |w|
    ensures |p| >= 2 && p[1] == Via0 && p[1] in Neighbours(Stuck)
  {
    var w := StuckSolvable(g);
    assert |p| <= 6;
    StuckValid();
    NextBound(g, p, Stuck);
    StuckNeighbours();
    OnlyVia0(p[1]);
  }

  /** Of the three neighbours of Stuck only Via0 has a Manhattan sum below 5. */
  lemma OnlyVia0(c: Key)
    requires c == Via0 || c == Stuck2 || c == Stuck4
    requires |c| == 9 && Manhattan(c, 9) <= 4
    ensures c == Via0
  {
    if c == Stuck2 {
      Stuck2Cost();
    } else if c == Stuck4 {
      Stuck4Cost();
    }
  }

  /** The second board of a solution is a neighbour, and the remaining solution is
      at least as long as its Manhattan sum. */
  lemma NextBound(g: Graph, p: seq<Key>, b: Key)
    requires g.Valid() && IsPermutation(b) && IsWalk(g.edges, p, b, Solved) && |p| >= 2
    ensures p[1] in Neighbours(b) && Manhattan(p[1], 9) <= |p| - 2
  {
    assert p[1] in Elements(g.edges[b]);
    NeighbourBack(b, p[1]);
    WalkTail(g.edges, p, b, Solved);
    GraphSound(g);
    WalkBound(g.edges, p[1..], p[1]);
  }

  /** So the hint as written shows nothing on Stuck, while the padded reading says
      to move tile 2. */
  lemma StuckHintLost(g: Graph, p: seq<Key>)
    requires g.Valid()
    requires IsWalk(g.edges, p, Stuck, Solved)
    requires forall w :: IsWalk(g.edges, w, Stuck, Solved) ==> |p| <= |w|
    ensures |p| >= 2 && p[1] == Via0
    ensures HintForAsWritten(Stuck, Some(p)) == Silent
    ensures HintFor(Stuck, Some(p)) == MoveTile(2)
  {
    StuckFirstMove(g, p);
    StuckValid();
    AsWrittenLost(Stuck, p);
    var from := HintAlongPath(Stuck, p);
    assert from == 0;
  }

  /** c lies on a shortest solution from b: a solution from c is shorter than every
      solution from b. */
  ghost predicate OnShortestRoute(edges: map<Key, seq<Key>>, b: Key, c: Key, goal: Key)
  {
    exists w :: IsWalk(edges, w, c, goal) && forall w' :: IsWalk(edges, w', b, goal) ==> |w| < |w'|
  }

  /** Dragging the tile t onto the blank of b is legal and starts a shortest solution. */
  ghost predicate Advances(edges: map<Key, seq<Key>>, b: Key, t: int)
  {
    |b| == 9 && 0 <= IndexOf(b, 0) &&
    exists from :: 0 <= from < 9 && b[from] == t && Game.Legal(b, from, IndexOf(b, 0)) &&
      OnShortestRoute(edges, b, Game.Drop(b, from, IndexOf(b, 0)), Solved)
  }

  /** What the hint means, for any answer the solver may give from a valid board:
      it always says something, it reports no solution exactly when none exists, it
      gives the generic advice exactly on the solved board, and otherwise it names a
      tile whose drop starts a shortest solution. */
  lemma HintMeaning(g: Graph, b: Key, path: Option<seq<Key>>)
    requires g.Valid() && IsPermutation(b)
    requires path.Some? ==> IsWalk(g.edges, path.value, b, Solved)
    requires path.Some? ==> forall w :: IsWalk(g.edges, w, b, Solved) ==> |path.value| <= |w|
    requires path.None? ==> forall w :: !IsWalk(g.edges, w, b, Solved)
    ensures Readable(path)
    ensures HintFor(b, path) != Silent
    ensures HintFor(b, path) == NoSolution <==> forall w :: !IsWalk(g.edges, w, b, Solved)
    ensures HintFor(b, path) == Advice <==> b == Solved
    ensures HintFor(b, path).MoveTile? ==> Advances(g.edges, b, HintFor(b, path).tile)
  {
    SelfPath(g.edges, path, b, Solved);
    match path
    case None =>
    case Some(p) =>
      assert IsWalk(g.edges, p, b, Solved);
      if |p| >= 2 {
        HintMove(g, b, p);
      } else {
        assert b == Solved && HintFor(b, path) == Advice;
      }
  }

  /** A solution of two or more boards: the hint names a tile that advances, and the
      board is not the solved board, whose shortest solution has one board. */
  lemma HintMove(g: Graph, b: Key, p: seq<Key>)
    requires g.Valid() && IsPermutation(b)
    requires IsWalk(g.edges, p, b, Solved) && |p| >= 2
    requires forall w :: IsWalk(g.edges, w, b, Solved) ==> |p| <= |w|
    ensures Readable(Some(p)) && HintFor(b, Some(p)).MoveTile?
    ensures Advances(g.edges, b, HintFor(b, Some(p)).tile)
    ensures b != Solved
  {
    assert p[1] in Elements(g.edges[b]);
    var from := HintAlongPath(b, p);
    ShortestTail(g.edges, p, b, Solved);
    PermutationHasAll(b);
    var z := IndexOf(b, 0);
    assert OnShortestRoute(g.edges, b, Game.Drop(b, from, z), Solved);
    assert b[from] == HintFor(b, Some(p)).tile;
    NotAtGoal(g.edges, p, b);
  }

  /** A board whose shortest solution has two or more boards is not the goal. */
  lemma NotAtGoal(edges: map<Key, seq<Key>>, p: seq<Key>, b: Key)
    requires IsWalk(edges, p, b, Solved) && |p| >= 2
    requires forall w :: IsWalk(edges, w, b, Solved) ==> |p| <= |w|
    ensures b != Solved
  {
    assert IsWalk(edges, [b], b, b);
  }

  /** The second board of a shortest solution lies on a shortest solution. */
  lemma ShortestTail(edges: map<Key, seq<Key>>, p: seq<Key>, b: Key, goal: Key)
    requires IsWalk(edges, p, b, goal) && |p| >= 2
    requires forall w :: IsWalk(edges, w, b, goal) ==> |p| <= |w|
    ensures OnShortestRoute(edges, b, p[1], goal)
  {
    WalkTail(edges, p, b, goal);
    assert IsWalk(edges, p[1..], p[1], goal);
  }

  /** script.js:210-229 on the board b: its key is looked up in the graph, the
      solver is run to 123456780 and the answer becomes the hint, read from the
      padded key. */
  method Ask(g: Graph, b: Key) returns (hint: Hint)
    requires g.Valid() && g.Clean() && IsPermutation(b)
    modifies g
    ensures g.Valid() && g.Clean() && g.nodes.Keys == old(g.nodes.Keys)
    ensures hint != Silent
    ensures hint == NoSolution <==> forall w :: !IsWalk(g.edges, w, b, Solved)
    ensures hint == Advice <==> b == Solved
    ensures hint.MoveTile? ==> Advances(g.edges, b, hint.tile)
  {
    var start := Encode(b);
    DecodeEncode(b);
    GoalKey();
    var key, goal := Decode(start), Decode(123456780);
    var path := g.SolvePuzzle(key, goal);
    HintMeaning(g, b, path);
    hint := HintFor(b, path);
  }

  /** script.js:209-230, `showHint`, on the board of the game page. */
  method ShowHint(g: Graph, game: Game.Game) returns (hint: Hint)
    requires g.Valid() && g.Clean() && game.Valid()
    modifies g
    ensures g.Valid() && g.Clean() && g.nodes.Keys == old(g.nodes.Keys)
    ensures hint != Silent
    ensures hint == NoSolution <==> forall w :: !IsWalk(g.edges, w, game.board[..], Solved)
    ensures hint == Advice <==> game.board[..] == Solved
    ensures hint.MoveTile? ==> Advances(g.edges, game.board[..], hint.tile)
  {
    hint := Ask(g, game.board[..]);
  }
}
