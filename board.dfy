/** The data model shared by the solver and the game: a board arrangement read
    row-major over the 3x3 grid, cell values 0..8, with 0 standing for the blank. */
module Board {

  datatype Option<T> = None | Some(value: T)

  /** A board (and a state key) as its sequence of cell values. */
  type Key = seq<int>

  /** The solved board 1..8 followed by the blank (script.js:161-166, solver.js:118). */
  const Solved: Key := [1, 2, 3, 4, 5, 6, 7, 8, 0]

  /** No value occurs twice. */
  predicate Distinct<T(==)>(s: seq<T>)
  {
    forall i, j :: 0 <= i < j < |s| ==> s[i] != s[j]
  }

  /** A valid state: nine cells holding each of 0..8 exactly once. */
  predicate IsPermutation(s: seq<int>)
  {
    |s| == 9 && (forall i :: 0 <= i < |s| ==> 0 <= s[i] < 9) && Distinct(s)
  }

  /** Every element is a decimal digit, so the sequence is the text of a numeric key. */
  predicate IsDigits(s: seq<int>)
  {
    forall i :: 0 <= i < |s| ==> 0 <= s[i] <= 9
  }

  /** JavaScript's Array.prototype.indexOf / String.prototype.indexOf: the first
      position holding x, or -1 when there is none. */
  function IndexOf(s: seq<int>, x: int): (r: int)
    ensures -1 <= r < |s|
    ensures r >= 0 ==> s[r] == x && forall i :: 0 <= i < r ==> s[i] != x
    ensures r == -1 <==> x !in s
  {
    if s == [] then -1
    else if s[0] == x then 0
    else
      var k := IndexOf(s[1..], x);
      if k < 0 then -1 else k + 1
  }

  /** The exchange of two cells (solver.js:25-28, script.js:151-155). */
  function Swap(s: seq<int>, i: int, j: int): seq<int>
    requires 0 <= i < |s| && 0 <= j < |s|
  {
    s[i := s[j]][j := s[i]]
  }

  /** Swapping is an involution, and it keeps every cell but the two. */
  lemma SwapTwice(s: seq<int>, i: int, j: int)
    requires 0 <= i < |s| && 0 <= j < |s|
    ensures Swap(Swap(s, i, j), i, j) == s
  {
    assert forall k :: 0 <= k < |s| ==> Swap(Swap(s, i, j), i, j)[k] == s[k];
  }

  /** Swapping two cells preserves the multiset of values, and hence validity. */
  lemma SwapPermutation(s: seq<int>, i: int, j: int)
    requires 0 <= i < |s| && 0 <= j < |s|
    ensures multiset(Swap(s, i, j)) == multiset(s)
    ensures IsPermutation(s) ==> IsPermutation(Swap(s, i, j))
  {
    SwapMultiset(s, i, j);
    SwapCells(s, i, j);
  }

  lemma SwapMultiset(s: seq<int>, i: int, j: int)
    requires 0 <= i < |s| && 0 <= j < |s|
    ensures multiset(Swap(s, i, j)) == multiset(s)
  {
    var t := s[i := s[j]];
    assert multiset(t) == multiset(s) - multiset{s[i]} + multiset{s[j]};
    assert multiset(t[j := s[i]]) == multiset(t) - multiset{t[j]} + multiset{s[i]};
  }

  /** Each cell of the swapped sequence holds the value of one cell of the original,
      and distinct cells come from distinct cells. */
  lemma SwapCells(s: seq<int>, i: int, j: int)
    requires 0 <= i < |s| && 0 <= j < |s|
    ensures forall k :: 0 <= k < |s| ==> Swap(s, i, j)[k] in s
    ensures Distinct(s) ==> Distinct(Swap(s, i, j))
  {
    var u := Swap(s, i, j);
    forall k | 0 <= k < |s|
      ensures u[k] == s[if k == i then j else if k == j then i else k]
    {
    }
    if Distinct(s) {
      forall p, q | 0 <= p < q < |u|
        ensures u[p] != u[q]
      {
        var p' := if p == i then j else if p == j then i else p;
        var q' := if q == i then j else if q == j then i else q;
        assert u[p] == s[p'] && u[q] == s[q'] && p' != q';
      }
    }
  }

  /** In a valid state every value appears at its one index. */
  lemma IndexOfDistinct(s: seq<int>, i: int)
    requires Distinct(s) && 0 <= i < |s|
    ensures IndexOf(s, s[i]) == i
  {
  }

  /** The cells 0..n-1. */
  function Range(n: nat): (r: set<int>)
    ensures forall d :: d in r <==> 0 <= d < n
    ensures |r| == n
  {
    if n == 0 then {} else Range(n - 1) + {n - 1}
  }

  /** The values a sequence holds. */
  function Elements<T(==)>(s: seq<T>): set<T>
  {
    set x | x in s
  }

  /** `Set.prototype.add` on a set kept in insertion order (the order in which a
      JavaScript Set or Map is iterated): a value already present is not added again. */
  function Add<T(==)>(s: seq<T>, x: T): (r: seq<T>)
    ensures Elements(r) == Elements(s) + {x}
    ensures Distinct(s) ==> Distinct(r)
    ensures x !in s ==> r == s + [x]
    ensures x in s ==> r == s
  {
    if x in s then s else s + [x]
  }

  /** A sequence of distinct values has as many elements as positions. */
  lemma {:induction false} DistinctSize<T>(s: seq<T>)
    requires Distinct(s)
    ensures |Elements(s)| == |s|
  {
    if s != [] {
      var t := s[..|s| - 1];
      assert Distinct(t);
      DistinctSize(t);
      assert Elements(s) == Elements(t) + {s[|s| - 1]};
      assert s[|s| - 1] !in Elements(t);
    }
  }

  /** Pigeonhole: a valid state holds every value 0..8, the blank in particular. */
  lemma PermutationHasAll(s: seq<int>)
    requires IsPermutation(s)
    ensures forall d :: 0 <= d < 9 ==> d in s
  {
    DistinctSize(s);
    assert Elements(s) <= Range(9);
    assert |Range(9) - Elements(s)| == 0;
    forall d | 0 <= d < 9
      ensures d in s
    {
      assert d in Range(9);
    }
  }
}
