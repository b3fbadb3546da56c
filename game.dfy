/** The board rules of the game page (script.js): the board array the player
    changes by dragging a tile onto the blank, the win test, and the shuffle that
    deals a new board. */
module Game {

  import opened Board
  import opened Grid
  import opened EdgeGeneration

  /** What a drop did (script.js:98-118): nothing when the dragged cell is the blank,
      a rejection when the target is not an adjacent blank, otherwise a move, with
      the result of the win test made after it. */
  datatype DropOutcome = Ignored | Rejected | Moved(won: bool)

  /** A drop is a move when a tile is dragged onto an adjacent blank (script.js:105-108),
      both indices being cells of the board. On a valid board the target is then the
      board's one blank cell. */
  function Legal(b: Key, from: int, to: int): (r: bool)
    requires |b| == 9
    ensures IsPermutation(b) ==>
      (r <==> 0 <= from < 9 && b[from] != 0 && IsAdjacent(from, to) && to == IndexOf(b, 0))
  {
    BlankCell(b, to);
    0 <= from < 9 && 0 <= to < 9 && b[from] != 0 && b[to] == 0 && IsAdjacent(from, to)
  }

  /** On a valid board the cell holding 0 is the one indexOf finds. */
  lemma BlankCell(b: Key, to: int)
    requires |b| == 9
    ensures IsPermutation(b) ==> (0 <= to < 9 && b[to] == 0 <==> to == IndexOf(b, 0))
  {
    if IsPermutation(b) {
      PermutationHasAll(b);
      if 0 <= to < 9 {
        IndexOfDistinct(b, to);
      }
    }
  }

  /** A JavaScript array read `board[i]`: undefined (None) outside the array. */
  function Cell(b: Key, i: int): Option<int>
  {
    if 0 <= i < |b| then Some(b[i]) else None
  }

  /** The guard of script.js:105-108 as written, on any numeric drop index: an
      undefined cell is not `=== 0`, and `isAdjacent` is evaluated on the raw
      numbers. */
  predicate LegalAsWritten(b: Key, from: int, to: int)
  {
    Cell(b, from) != Some(0) && Cell(b, to) == Some(0) && IsAdjacent(from, to)
  }

  /** On the cells of the board the guard as written and the checked one agree. */
  lemma LegalAgrees(b: Key, from: int, to: int)
    requires |b| == 9 && 0 <= from < 9 && 0 <= to < 9
    ensures LegalAsWritten(b, from, to) <==> Legal(b, from, to)
  {
  }

  /** The unchecked index lets a drop through from outside the board: from index 9
      onto a blank in cell 6 (column 0, rows 3 and 2), and from index -3 onto a
      blank in cell 0 (`-3 % 3` is 0 and `Math.floor(-3 / 3)` is -1). The swap then
      copies the undefined cell into the blank's cell. */
  lemma OffBoardDrop()
    ensures LegalAsWritten([1, 2, 3, 4, 5, 6, 0, 7, 8], 9, 6)
    ensures Cell([1, 2, 3, 4, 5, 6, 0, 7, 8], 9) == None
    ensures LegalAsWritten([0, 1, 2, 3, 4, 5, 6, 7, 8], -3, 0)
    ensures Cell([0, 1, 2, 3, 4, 5, 6, 7, 8], -3) == None
    ensures !Legal([1, 2, 3, 4, 5, 6, 0, 7, 8], 9, 6) && !Legal([0, 1, 2, 3, 4, 5, 6, 7, 8], -3, 0)
  {
    assert JsRem(9, 3) == 0 && FloorDiv(9, 3) == 3 && JsRem(6, 3) == 0 && FloorDiv(6, 3) == 2;
    assert JsRem(-3, 3) == 0 && FloorDiv(-3, 3) == -1 && JsRem(0, 3) == 0 && FloorDiv(0, 3) == 0;
  }

  /** script.js:98-118 as a board transition, with the drop indices checked: the
      tile dragged from `from` onto the blank at `to` takes the blank's cell and the
      blank takes its cell; any other drop, one from outside the board included,
      leaves the board as it was. A valid board stays valid. */
  function Drop(b: Key, from: int, to: int): (r: Key)
    requires |b| == 9
    ensures |r| == 9
    ensures Legal(b, from, to) ==>
      r[from] == 0 && r[to] == b[from] && forall k :: 0 <= k < 9 && k != from && k != to ==> r[k] == b[k]
    ensures !Legal(b, from, to) ==> r == b
    ensures IsPermutation(b) ==> IsPermutation(r)
  {
    if !(0 <= from < 9 && 0 <= to < 9) then b
    else if b[from] == 0 then b
    else if b[to] == 0 && IsAdjacent(from, to) then
      SwapPermutation(b, from, to);
      Swap(b, from, to)
    else b
  }

  lemma SwapSymmetric(s: seq<int>, i: int, j: int)
    requires 0 <= i < |s| && 0 <= j < |s|
    ensures Swap(s, i, j) == Swap(s, j, i)
  {
    assert forall k :: 0 <= k < |s| ==> Swap(s, i, j)[k] == Swap(s, j, i)[k];
  }

  /** The game's drops agree with the solver's graph: a drop changes a valid board
      exactly when it produces one of the board's neighbours (script.js:105-109
      against solver.js:19-30). */
  lemma DropIsMove(b: Key, from: int, to: int)
    requires IsPermutation(b)
    ensures Drop(b, from, to) != b <==> Drop(b, from, to) in Neighbours(b)
  {
    NeighbourIrreflexive(b);
    if Legal(b, from, to) {
      IndexOfDistinct(b, to);
      AdjacentSymmetric(from, to);
      SwapSymmetric(b, from, to);
      assert Drop(b, from, to) == Swap(b, to, from);
      assert Drop(b, from, to)[from] != b[from];
    }
  }

  /** Conversely every neighbour of a valid board is reached by dragging some tile
      onto the blank. */
  lemma MoveIsDrop(b: Key, c: Key) returns (from: int)
    requires IsPermutation(b) && c in Neighbours(b)
    ensures 0 <= from < 9 && Legal(b, from, IndexOf(b, 0))
    ensures Drop(b, from, IndexOf(b, 0)) == c
  {
    PermutationHasAll(b);
    var z := IndexOf(b, 0);
    var t :| 0 <= t < 9 && IsAdjacent(z, t) && c == Swap(b, z, t);
    from := t;
    IndexOfDistinct(b, z);
    AdjacentSymmetric(z, t);
    SwapSymmetric(b, z, t);
  }

  /** The random draws of a shuffle of n cells: at step i the index drawn lies in
      0..i (script.js:186, `Math.floor(Math.random() * (i + 1))`). */
  predicate ValidPicks(picks: seq<int>, n: int)
  {
    |picks| == n && forall i :: 1 <= i < n ==> 0 <= picks[i] <= i
  }

  /** The Fisher-Yates steps i, i - 1, ..., 1 applied to s with the given draws. */
  function Shuffle(s: seq<int>, picks: seq<int>, i: int): (r: seq<int>)
    requires i < |s| && ValidPicks(picks, |s|)
    ensures |r| == |s|
    decreases i
  {
    if i <= 0 then s else Shuffle(Swap(s, i, picks[i]), picks, i - 1)
  }

  /** Whatever the draws, a shuffle only rearranges: it keeps the length and the
      multiset of values, so a valid board shuffles to a valid board
      (script.js:183-190). */
  lemma {:induction false} ShufflePermutes(s: seq<int>, picks: seq<int>, i: int)
    requires i < |s| && ValidPicks(picks, |s|)
    ensures multiset(Shuffle(s, picks, i)) == multiset(s)
    ensures IsPermutation(s) ==> IsPermutation(Shuffle(s, picks, i))
    decreases i
  {
    if i > 0 {
      SwapPermutation(s, i, picks[i]);
      ShufflePermutes(Swap(s, i, picks[i]), picks, i - 1);
    }
  }

  /** script.js:183-190, `shuffleArray`: a copy of the array shuffled in place from
      the last cell down; the argument is not changed. */
  method ShuffleArray(arr: array<int>, picks: seq<int>) returns (shuffled: array<int>)
    requires ValidPicks(picks, arr.Length)
    ensures fresh(shuffled)
    ensures shuffled[..] == Shuffle(arr[..], picks, arr.Length - 1)
    ensures multiset(shuffled[..]) == multiset(arr[..])
  {
    shuffled := new int[arr.Length](k requires 0 <= k < arr.Length reads arr => arr[k]);
    assert shuffled[..] == arr[..];
    var i := shuffled.Length - 1;
    while i > 0
      invariant -1 <= i < shuffled.Length
      invariant Shuffle(shuffled[..], picks, i) == Shuffle(arr[..], picks, arr.Length - 1)
    {
      var j := picks[i];
      ghost var before := shuffled[..];
      shuffled[i], shuffled[j] := shuffled[j], shuffled[i];
      assert shuffled[..] == Swap(before, i, j);
      i := i - 1;
    }
    ShufflePermutes(arr[..], picks, arr.Length - 1);
  }

  /** `shuffleArray([1, 2, 3, 4, 5, 6, 7, 8, 0])`, the deal of script.js:22 and
      script.js:197: a new array holding a valid board. */
  method Deal(picks: seq<int>) returns (dealt: array<int>)
    requires ValidPicks(picks, 9)
    ensures fresh(dealt) && dealt.Length == 9
    ensures dealt[..] == Shuffle(Solved, picks, 8) && IsPermutation(dealt[..])
  {
    var solved := new int[9](k requires 0 <= k < 9 => Solved[k]);
    ghost var s := solved[..];
    assert s == Solved;
    SolvedValid();
    dealt := ShuffleArray(solved, picks);
    ShufflePermutes(s, picks, 8);
  }

  lemma SolvedValid()
    ensures IsPermutation(Solved)
  {
  }

  /** The state of the game page: the board array, 0 standing for the blank. */
  class Game {
    var board: array<int>

    /** The board holds each of 0..8 once. */
    ghost predicate Valid()
      reads this, board
    {
      board.Length == 9 && IsPermutation(board[..])
    }

    /** script.js:22: the initial board is the solved board shuffled. */
    constructor(picks: seq<int>)
      requires ValidPicks(picks, 9)
      ensures Valid() && board[..] == Shuffle(Solved, picks, 8)
    {
      var dealt := Deal(picks);
      board := dealt;
    }

    /** script.js:151-155, `swap`: the two cells exchange their values and every
        other cell keeps its own. */
    method Swap(i: int, j: int)
      requires 0 <= i < board.Length && 0 <= j < board.Length
      modifies board
      ensures board[..] == Board.Swap(old(board[..]), i, j)
      ensures board[i] == old(board[j]) && board[j] == old(board[i])
      ensures forall k :: 0 <= k < board.Length && k != i && k != j ==> board[k] == old(board[k])
    {
      var tmp := board[i];
      board[i] := board[j];
      board[j] := tmp;
    }

    /** script.js:161-166, `checkWin`: true exactly on the solved board. */
    method CheckWin() returns (won: bool)
      requires board.Length == 9
      ensures won <==> board[..] == Solved
    {
      for i := 0 to 8
        invariant forall k :: 0 <= k < i ==> board[k] == k + 1
      {
        if board[i] != i + 1 {
          assert board[..][i] != Solved[i];
          return false;
        }
      }
      won := board[8] == 0;
      if won {
        assert forall k :: 0 <= k < 9 ==> board[..][k] == Solved[k];
      } else {
        assert board[..][8] != Solved[8];
      }
    }

    /** script.js:98-118, `onDrop`, without the page effects and with the drop
        indices checked: the board becomes the drop transition of the old board, the
        outcome says which branch was taken (an index outside the board is
        rejected), and after a move whether the board is solved. */
    method OnDrop(fromIndex: int, toIndex: int) returns (outcome: DropOutcome)
      requires Valid()
      modifies board
      ensures Valid()
      ensures board[..] == Drop(old(board[..]), fromIndex, toIndex)
      ensures outcome == Ignored <==> 0 <= fromIndex < 9 && 0 <= toIndex < 9 && old(board[fromIndex]) == 0
      ensures outcome.Moved? <==> Legal(old(board[..]), fromIndex, toIndex)
      ensures outcome.Moved? ==> (outcome.won <==> board[..] == Solved)
    {
      if !(0 <= fromIndex < 9 && 0 <= toIndex < 9) {
        return Rejected;
      }
      if board[fromIndex] == 0 {
        return Ignored;
      }
      if board[toIndex] == 0 && IsAdjacent(fromIndex, toIndex) {
        Swap(fromIndex, toIndex);
        var won := CheckWin();
        outcome := Moved(won);
      } else {
        outcome := Rejected;
      }
    }

    /** script.js:196-203, `reset`: a new board, the solved board shuffled. */
    method Reset(picks: seq<int>)
      requires ValidPicks(picks, 9)
      modifies this
      ensures Valid() && board[..] == Shuffle(Solved, picks, 8)
    {
      board := Deal(picks);
    }
  }
}
