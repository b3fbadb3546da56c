/** solver.js:40-98, `setupGraph`: the eager construction of the state graph. Nine
    nested loops share the set `alreadyUsed` of digits chosen by the enclosing loops;
    the innermost loop records each completed permutation of 0..8 as a node with
    fresh search scratch and its neighbour set as its edges.

    The two Maps are indexed by the nine-digit key rather than by its number; the
    round trip of StateCodec makes the two indexings the same. A JavaScript Map is
    iterated in insertion order, which is kept beside the map as `order`. */
module GraphBuilder {

  import opened Board
  import opened StateCodec
  import opened EdgeGeneration

  /** The search scratch of one node: visited flag and parent link. */
  datatype NodeState = NodeState(visited: bool, parent: Option<Key>)

  /** `{ visited: false, parent: null }` (solver.js:72, solver.js:106-107). */
  const Unvisited := NodeState(false, None)

  function Fact(n: nat): nat
  {
    if n == 0 then 1 else n * Fact(n - 1)
  }

  /** The boards completing the digits chosen so far. */
  ghost predicate Extends(s: Key, prefix: seq<int>)
  {
    IsPermutation(s) && prefix <= s
  }

  /** The digits below d not yet chosen: the ones the loop at this level has used. */
  function Free(used: set<int>, d: int): set<int>
  {
    set x | 0 <= x < d && x !in used
  }

  /** What the construction keeps true of the two maps: the key order lists each key
      once, both maps have the same keys, and every node is a valid board with clear
      scratch and its neighbour set as edges. */
  ghost predicate Built(nodes: map<Key, NodeState>, order: seq<Key>, edges: map<Key, seq<Key>>)
  {
    Elements(order) == nodes.Keys && Distinct(order) && edges.Keys == nodes.Keys &&
    forall s :: s in nodes ==>
      IsPermutation(s) && nodes[s] == Unvisited &&
      Elements(edges[s]) == Neighbours(s) && Distinct(edges[s])
  }

  /** The digits chosen so far: distinct cell values, recorded in `alreadyUsed`. */
  ghost predicate Chosen(prefix: seq<int>, used: set<int>)
  {
    |prefix| <= 8 && Distinct(prefix) && (forall i :: 0 <= i < |prefix| ==> 0 <= prefix[i] < 9) &&
    used == Elements(prefix)
  }

  /** One level of the nested loops of solver.js:46-92, for the digits already in
      `prefix`: every permutation extending the prefix is added exactly once, and
      `alreadyUsed` is handed back as it was received. */
  method Enumerate(prefix: seq<int>, used: set<int>, nodes: map<Key, NodeState>, order: seq<Key>,
                   edges: map<Key, seq<Key>>)
    returns (used': set<int>, nodes': map<Key, NodeState>, order': seq<Key>, edges': map<Key, seq<Key>>)
    requires Chosen(prefix, used)
    requires Built(nodes, order, edges)
    requires forall s :: s in nodes ==> !Extends(s, prefix)
    ensures used' == used
    ensures Built(nodes', order', edges')
    ensures forall s :: s in nodes' <==> s in nodes || Extends(s, prefix)
    ensures |order'| == |order| + Fact(9 - |prefix|)
    decreases 9 - |prefix|
  {
    used', nodes', order', edges' := used, nodes, order, edges;
    var level := |prefix|;
    for d := 0 to 9
      invariant used' == used
      invariant Built(nodes', order', edges')
      invariant forall s :: s in nodes' <==> s in nodes || (Extends(s, prefix) && s[level] < d)
      invariant |order'| == |order| + Done(used, d, level)
    {
      DoneStep(used, d, level);
      if d in used' {
        UsedDigit(prefix, d);
        continue;
      }
      if level < 8 {
        used' := used' + {d};
        ghost var before := nodes';
        ChosenStep(prefix, used, d);
        NotYetExtended(prefix, d, nodes, before);
        used', nodes', order', edges' := Enumerate(prefix + [d], used', nodes', order', edges');
        used' := used' - {d};
        DigitDone(prefix, d, nodes, before, nodes');
      } else {
        LastDigit(prefix, d);
        nodes', order', edges' := AddBoard(prefix + [d], nodes', order', edges');
      }
    }
    DoneAll(prefix, used);
  }

  /** The body of the innermost loop (solver.js:71-74): the board's number is formed
      from its digits and the board entered with clear scratch and its neighbours. */
  method AddBoard(key: Key, nodes: map<Key, NodeState>, order: seq<Key>, edges: map<Key, seq<Key>>)
    returns (nodes': map<Key, NodeState>, order': seq<Key>, edges': map<Key, seq<Key>>)
    requires IsPermutation(key) && IsDigits(key) && key !in nodes
    requires Built(nodes, order, edges)
    ensures Built(nodes', order', edges')
    ensures nodes'.Keys == nodes.Keys + {key} && |order'| == |order| + 1
  {
    var nodeKey := Encode(key);
    DecodeEncode(key);
    nodes' := nodes[key := Unvisited];
    var neighbors := GenerateEdgesForNode(nodeKey);
    edges' := edges[key := neighbors];
    order' := Add(order, key);
    BuiltAdd(key, neighbors, nodes, order, edges);
  }

  lemma BuiltAdd(key: Key, neighbors: seq<Key>, nodes: map<Key, NodeState>, order: seq<Key>,
                 edges: map<Key, seq<Key>>)
    requires IsPermutation(key) && key !in nodes && Built(nodes, order, edges)
    requires Elements(neighbors) == Neighbours(key) && Distinct(neighbors)
    ensures Built(nodes[key := Unvisited], Add(order, key), edges[key := neighbors])
  {
    var nodes', order', edges' := nodes[key := Unvisited], Add(order, key), edges[key := neighbors];
    assert nodes'.Keys == nodes.Keys + {key} && edges'.Keys == nodes'.Keys;
    assert Elements(order') == nodes'.Keys;
    forall s | s in nodes'
      ensures IsPermutation(s) && nodes'[s] == Unvisited
      ensures Elements(edges'[s]) == Neighbours(s) && Distinct(edges'[s])
    {
      if s != key {
        assert s in nodes && edges'[s] == edges[s];
      }
    }
  }

  /** solver.js:40-98: the graph holds every permutation of 0..8 exactly once, 9! =
      362880 nodes, all with clear scratch (solver.js:72) and each with its neighbour
      set (solver.js:73-74); `edges` has the same key set as `nodes`. */
  method SetupGraph() returns (nodes: map<Key, NodeState>, order: seq<Key>, edges: map<Key, seq<Key>>)
    ensures Built(nodes, order, edges)
    ensures forall s :: s in nodes <==> IsPermutation(s)
    ensures |nodes| == 362880 && |order| == 362880
  {
    var alreadyUsed: set<int> := {};
    alreadyUsed, nodes, order, edges := Enumerate([], alreadyUsed, map[], [], map[]);
    assert Fact(9) == 362880;
    DistinctSize(order);
    assert |nodes.Keys| == |order|;
  }

  /** The number of boards a level has added once the digits below d are tried. */
  function Done(used: set<int>, d: int, level: nat): nat
    requires level <= 8
  {
    |Free(used, d)| * Fact(8 - level)
  }

  lemma DoneStep(used: set<int>, d: int, level: nat)
    requires 0 <= d && level <= 8
    ensures Done(used, d + 1, level) == Done(used, d, level) + if d in used then 0 else Fact(8 - level)
  {
    FreeStep(used, d);
  }

  lemma DoneAll(prefix: seq<int>, used: set<int>)
    requires Chosen(prefix, used)
    ensures Done(used, 9, |prefix|) == Fact(9 - |prefix|)
  {
    FreeAll(prefix, used);
  }

  lemma FreeStep(used: set<int>, d: int)
    ensures |Free(used, d + 1)| == |Free(used, d)| + if d in used || d < 0 then 0 else 1
  {
    if d in used || d < 0 {
      assert Free(used, d + 1) == Free(used, d);
    } else {
      assert Free(used, d + 1) == Free(used, d) + {d};
    }
  }

  /** At the end of a level every free digit has been tried. */
  lemma FreeAll(prefix: seq<int>, used: set<int>)
    requires Chosen(prefix, used)
    ensures |Free(used, 9)| == 9 - |prefix|
  {
    DistinctSize(prefix);
    var free := Free(used, 9);
    assert free + used == Range(9);
    assert free * used == {};
  }

  lemma ChosenStep(prefix: seq<int>, used: set<int>, d: int)
    requires Chosen(prefix, used) && |prefix| < 8 && 0 <= d < 9 && d !in used
    ensures Chosen(prefix + [d], used + {d})
  {
    assert Elements(prefix + [d]) == Elements(prefix) + {d};
  }

  /** A board extends the longer prefix exactly when it extends the shorter one with
      digit d in the next cell. */
  lemma ExtendsStep(s: Key, prefix: seq<int>, d: int)
    requires |prefix| < 9
    ensures Extends(s, prefix + [d]) <==> Extends(s, prefix) && s[|prefix|] == d
  {
    if IsPermutation(s) && prefix <= s && s[|prefix|] == d {
      assert s[..|prefix| + 1] == prefix + [d];
    }
  }

  /** Before digit d is tried, no node extends the prefix followed by d. */
  lemma NotYetExtended(prefix: seq<int>, d: int, nodes: map<Key, NodeState>, before: map<Key, NodeState>)
    requires |prefix| < 9
    requires forall s :: s in nodes ==> !Extends(s, prefix)
    requires forall s :: s in before <==> s in nodes || (Extends(s, prefix) && s[|prefix|] < d)
    ensures forall s :: s in before ==> !Extends(s, prefix + [d])
  {
    forall s | s in before
      ensures !Extends(s, prefix + [d])
    {
      ExtendsStep(s, prefix, d);
    }
  }

  /** After digit d is tried, the boards with a digit up to d in the next cell are in. */
  lemma DigitDone(prefix: seq<int>, d: int, nodes: map<Key, NodeState>, before: map<Key, NodeState>,
                  after: map<Key, NodeState>)
    requires |prefix| < 9
    requires forall s :: s in before <==> s in nodes || (Extends(s, prefix) && s[|prefix|] < d)
    requires forall s :: s in after <==> s in before || Extends(s, prefix + [d])
    ensures forall s :: s in after <==> s in nodes || (Extends(s, prefix) && s[|prefix|] < d + 1)
  {
    forall s
      ensures s in after <==> s in nodes || (Extends(s, prefix) && s[|prefix|] < d + 1)
    {
      ExtendsStep(s, prefix, d);
    }
  }

  /** A digit already chosen cannot occur again. */
  lemma UsedDigit(prefix: seq<int>, d: int)
    requires |prefix| < 9 && d in prefix
    ensures forall s :: Extends(s, prefix) ==> s[|prefix|] != d
  {
  }

  /** With eight digits chosen, the one free digit completes the only board. */
  lemma LastDigit(prefix: seq<int>, d: int)
    requires Distinct(prefix) && |prefix| == 8 && forall i :: 0 <= i < 8 ==> 0 <= prefix[i] < 9
    requires 0 <= d < 9 && d !in prefix
    ensures IsPermutation(prefix + [d]) && IsDigits(prefix + [d])
    ensures forall s :: Extends(s, prefix) && s[8] == d <==> s == prefix + [d]
  {
    forall s | Extends(s, prefix) && s[8] == d
      ensures s == prefix + [d]
    {
      assert s[..8] == prefix;
    }
  }
}
