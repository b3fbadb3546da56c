/** solver.js:100-147: breadth-first search over the state graph, with the per-node
    scratch (`visited`, `parent`) reset after every search. */
module Search {

  import opened Board
  import opened EdgeGeneration
  import opened GraphBuilder

  /** w is a walk along `edges` from a to b (a path of states, each an edge away
      from the one before). */
  ghost predicate IsWalk(edges: map<Key, seq<Key>>, w: seq<Key>, a: Key, b: Key)
  {
    |w| >= 1 && w[0] == a && w[|w| - 1] == b &&
    forall i :: 0 <= i < |w| - 1 ==> w[i] in edges && w[i + 1] in edges[w[i]]
  }

  /** Array.prototype.reverse, on the value of the array. */
  function Reversed(s: seq<Key>): (r: seq<Key>)
    ensures |r| == |s| && forall i :: 0 <= i < |s| ==> r[i] == s[|s| - 1 - i]
  {
    if s == [] then [] else Reversed(s[1..]) + [s[0]]
  }

  /** The parent link of a visited node other than the start leads one edge back
      to a node found one step earlier. */
  ghost predicate ParentLink(nodes: map<Key, NodeState>, edges: map<Key, seq<Key>>, dist: map<Key, nat>, n: Key)
  {
    n in nodes && n in dist && nodes[n].parent.Some? &&
    var p := nodes[n].parent.value;
    p in dist && p in edges && n in edges[p] && dist[n] == dist[p] + 1
  }

  /** The scratch during a search: exactly the nodes at a known distance are marked
      visited, the others are untouched, and parent links follow the search tree. */
  ghost predicate Marked(nodes: map<Key, NodeState>, edges: map<Key, seq<Key>>, dist: map<Key, nat>, start: Key)
  {
    dist.Keys <= nodes.Keys && start in dist && dist[start] == 0 && nodes[start].parent == None &&
    (forall n :: n in nodes ==> (nodes[n].visited <==> n in dist)) &&
    (forall n :: n in nodes && n !in dist ==> nodes[n] == Unvisited) &&
    forall n :: n in dist && n != start ==> ParentLink(nodes, edges, dist, n)
  }

  /** No walk reaches a node in fewer steps than its recorded distance. */
  ghost predicate Minimal(edges: map<Key, seq<Key>>, dist: map<Key, nat>, start: Key)
  {
    forall n, w :: n in dist && IsWalk(edges, w, start, n) ==> |w| >= dist[n] + 1
  }

  /** All neighbours of processed nodes have been found. */
  ghost predicate Closed(edges: map<Key, seq<Key>>, dist: map<Key, nat>, processed: set<Key>)
  {
    forall p, t :: p in processed && p in edges && t in edges[p] ==> t in dist
  }

  /** Every node found below distance d has been processed. */
  ghost predicate Separated(dist: map<Key, nat>, processed: set<Key>, d: nat)
  {
    forall x :: x in dist && dist[x] < d ==> x in processed
  }

  /** The queue of a breadth-first search: found nodes, each once, in order of
      distance, spanning at most two consecutive distances. */
  ghost predicate Sorted(queue: seq<Key>, dist: map<Key, nat>)
  {
    Distinct(queue) && (forall i :: 0 <= i < |queue| ==> queue[i] in dist) &&
    (forall i, j :: 0 <= i <= j < |queue| ==> dist[queue[i]] <= dist[queue[j]]) &&
    forall i :: 0 <= i < |queue| ==> dist[queue[i]] <= dist[queue[0]] + 1
  }

  /** The queue while the node at distance d is processed: found nodes, each once,
      in order of distance, all at distance d or d + 1. */
  ghost predicate Layer(queue: seq<Key>, dist: map<Key, nat>, d: nat)
  {
    Distinct(queue) &&
    (forall i :: 0 <= i < |queue| ==> queue[i] in dist && d <= dist[queue[i]] <= d + 1) &&
    forall i, j :: 0 <= i <= j < |queue| ==> dist[queue[i]] <= dist[queue[j]]
  }

  /** Every found node is either processed or waiting in the queue. */
  ghost predicate Partition(queue: seq<Key>, dist: map<Key, nat>, processed: set<Key>)
  {
    processed <= dist.Keys && (forall x :: x in queue ==> x !in processed) &&
    forall x :: x in dist ==> x in processed || x in queue
  }

  /** The breadth-first frontier argument: a node a walk reaches within d steps has
      been found, provided every node found below distance d has been processed. */
  lemma {:induction false} Frontier(edges: map<Key, seq<Key>>, dist: map<Key, nat>, processed: set<Key>,
                                    start: Key, d: nat, w: seq<Key>, n: Key)
    requires start in dist && Minimal(edges, dist, start)
    requires Closed(edges, dist, processed) && Separated(dist, processed, d)
    ensures IsWalk(edges, w, start, n) ==> n in dist || |w| - 1 > d
  {
    if IsWalk(edges, w, start, n) && |w| > 1 {
      var w' := w[..|w| - 1];
      var x := w[|w| - 2];
      assert IsWalk(edges, w', start, x);
      Frontier(edges, dist, processed, start, d, w', x);
      if x in dist && dist[x] < d {
        assert x in edges && n in edges[x];
      }
    }
  }

  /** Once no node is waiting, everything reachable has been found. */
  lemma Exhausted(edges: map<Key, seq<Key>>, dist: map<Key, nat>, processed: set<Key>,
                  start: Key, goal: Key)
    requires start in dist && Minimal(edges, dist, start)
    requires Closed(edges, dist, processed) && (forall x :: x in dist ==> x in processed) && goal !in dist
    ensures forall w :: !IsWalk(edges, w, start, goal)
  {
    forall w
      ensures !IsWalk(edges, w, start, goal)
    {
      Frontier(edges, dist, processed, start, |w|, w, goal);
    }
  }

  /** A path rebuilt from the goal along parent links, reversed, walks from the
      start to the goal. */
  lemma ReversedWalk(edges: map<Key, seq<Key>>, path: seq<Key>, start: Key, goal: Key)
    requires |path| >= 1 && path[0] == goal && path[|path| - 1] == start
    requires LinkedBack(edges, path)
    ensures IsWalk(edges, Reversed(path), start, goal)
  {
    var r := Reversed(path);
    forall i | 0 <= i < |r| - 1
      ensures r[i] in edges && r[i + 1] in edges[r[i]]
    {
      var k := |path| - 1 - i;
      assert r[i] == path[k] && r[i + 1] == path[k - 1];
    }
  }

  /** Each state of the path is an edge away from the state after it. */
  ghost predicate LinkedBack(edges: map<Key, seq<Key>>, path: seq<Key>)
  {
    forall i :: 1 <= i < |path| ==> path[i] in edges && path[i - 1] in edges[path[i]]
  }

  /** A path followed back one more link. */
  lemma LinkedBackAppend(edges: map<Key, seq<Key>>, path: seq<Key>, n: Key)
    requires LinkedBack(edges, path)
    requires path != [] ==> n in edges && path[|path| - 1] in edges[n]
    ensures LinkedBack(edges, path + [n])
  {
    var q := path + [n];
    forall i | 1 <= i < |q|
      ensures q[i] in edges && q[i - 1] in edges[q[i]]
    {
      if i < |path| {
        assert q[i] == path[i] && q[i - 1] == path[i - 1];
      }
    }
  }

  /** The invariant of the search loop (solver.js:124-144). */
  ghost predicate Searching(nodes: map<Key, NodeState>, edges: map<Key, seq<Key>>, dist: map<Key, nat>,
                            start: Key, processed: set<Key>, queue: seq<Key>, goal: Key)
  {
    Marked(nodes, edges, dist, start) && Minimal(edges, dist, start) && Closed(edges, dist, processed) &&
    Sorted(queue, dist) && Partition(queue, dist, processed) && goal !in processed
  }

  /** The invariant of the neighbour loop (solver.js:137-143) while `current`, at
      distance d, is expanded. */
  ghost predicate Expanding(nodes: map<Key, NodeState>, edges: map<Key, seq<Key>>, dist: map<Key, nat>,
                            start: Key, processed: set<Key>, queue: seq<Key>, current: Key, d: nat, goal: Key)
  {
    Marked(nodes, edges, dist, start) && Minimal(edges, dist, start) && Closed(edges, dist, processed) &&
    Bookkeeping(dist, processed, queue, current, d, goal)
  }

  /** The queue and distance part of Expanding. */
  ghost predicate Bookkeeping(dist: map<Key, nat>, processed: set<Key>, queue: seq<Key>, current: Key, d: nat, goal: Key)
  {
    Separated(dist, processed, d) &&
    current in dist && dist[current] == d && current !in processed && current !in queue &&
    Layer(queue, dist, d) && processed <= dist.Keys && (forall x :: x in queue ==> x !in processed) &&
    (forall x :: x in dist ==> x in processed || x in queue || x == current) && goal !in processed
  }

  /** A newly found node joins the queue at distance d + 1. */
  lemma BookkeepingStep(dist: map<Key, nat>, processed: set<Key>, queue: seq<Key>, current: Key, d: nat, goal: Key, n: Key)
    requires Bookkeeping(dist, processed, queue, current, d, goal) && n !in dist
    ensures Bookkeeping(dist[n := d + 1], processed, queue + [n], current, d, goal)
  {
    assert Layer(queue + [n], dist[n := d + 1], d);
  }

  /** solver.js:119-123: the queue holds the start, the only node marked. */
  lemma StartSearch(nodes: map<Key, NodeState>, edges: map<Key, seq<Key>>, start: Key, goal: Key)
    requires start in nodes && forall s :: s in nodes ==> nodes[s] == Unvisited
    ensures Searching(nodes[start := nodes[start].(visited := true)], edges, map[start := 0], start, {}, [start], goal)
  {
    var dist: map<Key, nat> := map[start := 0];
    forall n, w | n in dist && IsWalk(edges, w, start, n)
      ensures |w| >= dist[n] + 1
    {
    }
  }

  /** solver.js:125: the head of the queue is the node expanded next. */
  lemma PopStep(nodes: map<Key, NodeState>, edges: map<Key, seq<Key>>, dist: map<Key, nat>,
                start: Key, processed: set<Key>, queue: seq<Key>, goal: Key)
    requires Searching(nodes, edges, dist, start, processed, queue, goal) && |queue| > 0
    ensures Expanding(nodes, edges, dist, start, processed, queue[1..], queue[0], dist[queue[0]], goal)
  {
    var d := dist[queue[0]];
    forall x | x in dist && dist[x] < d
      ensures x in processed
    {
    }
    forall x | x in dist
      ensures x in processed || x in queue[1..] || x == queue[0]
    {
      if x in queue && x != queue[0] {
        var k :| 0 <= k < |queue| && queue[k] == x;
        assert queue[1..][k - 1] == x;
      }
    }
  }

  /** The first i neighbours have been found. */
  ghost predicate Covered(neighbors: seq<Key>, i: int, dist: map<Key, nat>)
  {
    0 <= i <= |neighbors| && forall j :: 0 <= j < i ==> neighbors[j] in dist
  }

  lemma CoverStep(neighbors: seq<Key>, i: int, dist: map<Key, nat>, dist': map<Key, nat>)
    requires Covered(neighbors, i, dist) && i < |neighbors|
    requires dist.Keys <= dist'.Keys && neighbors[i] in dist'
    ensures Covered(neighbors, i + 1, dist')
  {
  }

  /** The visited flag tells whether a node has been found. */
  lemma VisitedIsFound(nodes: map<Key, NodeState>, edges: map<Key, seq<Key>>, dist: map<Key, nat>,
                       start: Key, processed: set<Key>, queue: seq<Key>, current: Key, d: nat, goal: Key, n: Key)
    requires Expanding(nodes, edges, dist, start, processed, queue, current, d, goal) && n in nodes
    ensures nodes[n].visited <==> n in dist
  {
  }

  /** solver.js:138-142: an unvisited neighbour gets its mark and parent link and
      joins the queue one step further than the node being expanded. */
  lemma DiscoverStep(nodes: map<Key, NodeState>, edges: map<Key, seq<Key>>, dist: map<Key, nat>,
                     start: Key, processed: set<Key>, queue: seq<Key>, current: Key, d: nat, goal: Key, n: Key)
    requires Expanding(nodes, edges, dist, start, processed, queue, current, d, goal)
    requires n in nodes && !nodes[n].visited && current in edges && n in edges[current]
    ensures Expanding(nodes[n := nodes[n].(visited := true, parent := Some(current))],
                      edges, dist[n := d + 1], start, processed, queue + [n], current, d, goal)
  {
    assert n !in dist && n != start;
    DiscoverMarked(nodes, edges, dist, start, current, n);
    DiscoverMinimal(edges, dist, processed, start, d, n);
    ClosedGrow(edges, dist, processed, n, d + 1);
    BookkeepingStep(dist, processed, queue, current, d, goal, n);
  }

  /** Finding one more node keeps the processed nodes closed. */
  lemma ClosedGrow(edges: map<Key, seq<Key>>, dist: map<Key, nat>, processed: set<Key>, n: Key, v: nat)
    requires Closed(edges, dist, processed)
    ensures Closed(edges, dist[n := v], processed)
  {
  }

  /** The mark and parent link of a newly found node keep the scratch consistent. */
  lemma DiscoverMarked(nodes: map<Key, NodeState>, edges: map<Key, seq<Key>>, dist: map<Key, nat>,
                       start: Key, current: Key, n: Key)
    requires Marked(nodes, edges, dist, start) && current in dist
    requires n in nodes && n !in dist && current in edges && n in edges[current]
    ensures Marked(nodes[n := nodes[n].(visited := true, parent := Some(current))], edges,
                   dist[n := dist[current] + 1], start)
  {
    var nodes' := nodes[n := nodes[n].(visited := true, parent := Some(current))];
    var dist' := dist[n := dist[current] + 1];
    assert ParentLink(nodes', edges, dist', n);
    forall m | m in dist' && m != start
      ensures ParentLink(nodes', edges, dist', m)
    {
      if m != n {
        assert ParentLink(nodes, edges, dist, m);
      }
    }
  }

  /** A node first found while expanding a node at distance d is at distance d + 1:
      no walk reaches it sooner. */
  lemma DiscoverMinimal(edges: map<Key, seq<Key>>, dist: map<Key, nat>, processed: set<Key>,
                        start: Key, d: nat, n: Key)
    requires start in dist && Minimal(edges, dist, start)
    requires Closed(edges, dist, processed) && Separated(dist, processed, d) && n !in dist
    ensures Minimal(edges, dist[n := d + 1], start)
  {
    forall w
      ensures IsWalk(edges, w, start, n) ==> |w| >= d + 2
    {
      Frontier(edges, dist, processed, start, d, w, n);
    }
  }

  /** solver.js:137-143 done: every neighbour of `current` has been found, so it
      joins the processed nodes. */
  lemma FinishStep(nodes: map<Key, NodeState>, edges: map<Key, seq<Key>>, dist: map<Key, nat>,
                   start: Key, processed: set<Key>, queue: seq<Key>, current: Key, d: nat, goal: Key)
    requires Expanding(nodes, edges, dist, start, processed, queue, current, d, goal) && current != goal
    requires current in edges && Covered(edges[current], |edges[current]|, dist)
    ensures Searching(nodes, edges, dist, start, processed + {current}, queue, goal)
  {
    assert Sorted(queue, dist);
  }

  /** The head of the queue is a node of the graph not yet processed. */
  lemma HeadInGraph(nodes: map<Key, NodeState>, edges: map<Key, seq<Key>>, dist: map<Key, nat>,
                    start: Key, processed: set<Key>, queue: seq<Key>, goal: Key)
    requires Searching(nodes, edges, dist, start, processed, queue, goal) && |queue| > 0
    ensures queue[0] in dist && queue[0] in nodes && queue[0] !in processed && processed <= nodes.Keys
    ensures Marked(nodes, edges, dist, start) && Minimal(edges, dist, start)
  {
  }

  /** The rebuilt path, reversed, is a walk from the start to the goal, and no walk
      is shorter. */
  lemma MinimalWalk(edges: map<Key, seq<Key>>, dist: map<Key, nat>, start: Key, trail: seq<Key>, goal: Key)
    requires Minimal(edges, dist, start) && goal in dist
    requires |trail| == dist[goal] + 1 && trail[0] == goal && trail[|trail| - 1] == start
    requires LinkedBack(edges, trail)
    ensures IsWalk(edges, Reversed(trail), start, goal)
    ensures forall w :: IsWalk(edges, w, start, goal) ==> |Reversed(trail)| <= |w|
  {
    ReversedWalk(edges, trail, start, goal);
  }

  /** A search result that is a shortest walk when there is one, and null only
      when there is none, is the one-state path when the start is the goal. */
  lemma SelfPath(edges: map<Key, seq<Key>>, path: Option<seq<Key>>, start: Key, goal: Key)
    requires path.Some? ==> IsWalk(edges, path.value, start, goal)
    requires path.Some? ==> forall w :: IsWalk(edges, w, start, goal) ==> |path.value| <= |w|
    requires path.None? ==> forall w :: !IsWalk(edges, w, start, goal)
    ensures start == goal ==> path == Some([start])
  {
    if start == goal {
      assert IsWalk(edges, [start], start, goal);
      if path.Some? {
        assert path.value == [start];
      }
    }
  }

  /** A search whose queue has run dry has processed every node it found. */
  lemma Drained(nodes: map<Key, NodeState>, edges: map<Key, seq<Key>>, dist: map<Key, nat>,
                start: Key, processed: set<Key>, goal: Key)
    requires Searching(nodes, edges, dist, start, processed, [], goal)
    ensures forall w :: !IsWalk(edges, w, start, goal)
  {
    Exhausted(edges, dist, processed, start, goal);
  }

  /** The graph of solver.js:40-98 over the node keys `keys`: one node per
      permutation of 0..8, listed once in `order`, with its neighbour set as edges. */
  ghost predicate Complete(keys: set<Key>, order: seq<Key>, edges: map<Key, seq<Key>>)
  {
    Elements(order) == keys && Distinct(order) && edges.Keys == keys &&
    (forall s :: s in keys <==> IsPermutation(s)) &&
    forall s :: s in edges ==> Elements(edges[s]) == Neighbours(s) && Distinct(edges[s])
  }

  /** Marked nodes keep their mark and their parent. */
  ghost predicate Keeps(before: map<Key, NodeState>, after: map<Key, NodeState>)
  {
    forall n :: n in before && before[n].visited ==> n in after && after[n] == before[n]
  }

  /** What expanding a node has done so far: nodes were only appended to the
      queue, found nodes stay found, and marked nodes keep mark and parent. */
  ghost predicate Grown(nodes0: map<Key, NodeState>, dist0: map<Key, nat>, queue0: seq<Key>,
                        nodes: map<Key, NodeState>, dist: map<Key, nat>, queue: seq<Key>)
  {
    |queue| >= |queue0| && queue[..|queue0|] == queue0 && dist0.Keys <= dist.Keys && Keeps(nodes0, nodes)
  }

  lemma GrownStart(nodes: map<Key, NodeState>, dist: map<Key, nat>, queue: seq<Key>)
    ensures Grown(nodes, dist, queue, nodes, dist, queue)
  {
    assert queue[..|queue|] == queue;
  }

  /** Discovering the unmarked node n keeps what has been done. */
  lemma GrownStep(nodes0: map<Key, NodeState>, dist0: map<Key, nat>, queue0: seq<Key>,
                  nodes: map<Key, NodeState>, dist: map<Key, nat>, queue: seq<Key>, n: Key, p: Key, d: nat)
    requires Grown(nodes0, dist0, queue0, nodes, dist, queue) && n in nodes && !nodes[n].visited
    ensures Grown(nodes0, dist0, queue0, nodes[n := nodes[n].(visited := true, parent := Some(p))],
                  dist[n := d], queue + [n])
  {
    assert (queue + [n])[..|queue0|] == queue[..|queue0|];
  }

  /** solver.js:137-143, the inner loop of `solvePuzzle`: each neighbour of the node
      being expanded that is not yet marked is marked, linked back to it and pushed
      on the queue. What was there before is kept: the queue only grows at its end,
      every distance found stays found, and marked nodes are not touched. */
  method ScanNeighbours(nodes: map<Key, NodeState>, edges: map<Key, seq<Key>>, ghost dist: map<Key, nat>,
                        ghost start: Key, ghost processed: set<Key>, queue: seq<Key>, current: Key,
                        ghost d: nat, ghost goal: Key)
    returns (nodes': map<Key, NodeState>, queue': seq<Key>, ghost dist': map<Key, nat>)
    requires current in edges && forall s, t :: s in edges && t in edges[s] ==> t in nodes
    requires Expanding(nodes, edges, dist, start, processed, queue, current, d, goal)
    ensures nodes'.Keys == nodes.Keys
    ensures Expanding(nodes', edges, dist', start, processed, queue', current, d, goal)
    ensures Covered(edges[current], |edges[current]|, dist')
    ensures Grown(nodes, dist, queue, nodes', dist', queue')
  {
    nodes', queue', dist' := nodes, queue, dist;
    GrownStart(nodes, dist, queue);
    var neighbors := edges[current];
    for i := 0 to |neighbors|
      invariant nodes'.Keys == nodes.Keys
      invariant Expanding(nodes', edges, dist', start, processed, queue', current, d, goal)
      invariant Covered(neighbors, i, dist')
      invariant Grown(nodes, dist, queue, nodes', dist', queue')
    {
      ghost var before := dist';
      var neighbor := neighbors[i];
      VisitedIsFound(nodes', edges, dist', start, processed, queue', current, d, goal, neighbor);
      if !nodes'[neighbor].visited {
        DiscoverStep(nodes', edges, dist', start, processed, queue', current, d, goal, neighbor);
        GrownStep(nodes, dist, queue, nodes', dist', queue', neighbor, current, d + 1);
        nodes' := nodes'[neighbor := nodes'[neighbor].(visited := true, parent := Some(current))];
        queue' := queue' + [neighbor];
        dist' := dist'[neighbor := d + 1];
      }
      CoverStep(neighbors, i, before, dist');
    }
  }

  class Graph {
    /** The per-node scratch of solver.js:72, updated by the search. */
    var nodes: map<Key, NodeState>
    /** The insertion order of the `nodes` Map, the order `forEach` visits it in. */
    const order: seq<Key>
    /** The neighbour sets of solver.js:74, each in insertion order. */
    const edges: map<Key, seq<Key>>

    /** The graph of solver.js:40-98: one node per permutation of 0..8 and its
        neighbour set as edges. */
    ghost predicate Valid()
      reads this
    {
      Complete(nodes.Keys, order, edges)
    }

    /** No node carries marks of an earlier search. */
    ghost predicate Clean()
      reads this
    {
      forall s :: s in nodes ==> nodes[s] == Unvisited
    }

    /** solver.js:111: the graph is built once, with clear scratch. */
    constructor()
      ensures Valid() && Clean()
    {
      var n, o, e := SetupGraph();
      nodes, order, edges := n, o, e;
    }

    /** Every edge of a valid graph leads to a node of the graph. */
    lemma EdgesInGraph()
      requires Valid()
      ensures forall s, t :: s in edges && t in edges[s] ==> t in nodes
    {
      forall s, t | s in edges && t in edges[s]
        ensures t in nodes
      {
        assert t in Elements(edges[s]);
        NeighbourBack(s, t);
      }
    }

    /** In the graph a walk is a sequence of valid boards, each one blank move from
        the one before: the search's paths are sequences of legal moves. */
    lemma WalkIsMoves(w: seq<Key>, a: Key, b: Key)
      requires Valid()
      ensures IsWalk(edges, w, a, b) <==>
        |w| >= 1 && w[0] == a && w[|w| - 1] == b &&
        forall i :: 0 <= i < |w| - 1 ==> IsPermutation(w[i]) && OneMove(w[i], w[i + 1])
    {
      forall i | 0 <= i < |w| - 1
        ensures (w[i] in edges && w[i + 1] in edges[w[i]]) <==> (IsPermutation(w[i]) && OneMove(w[i], w[i + 1]))
      {
        if IsPermutation(w[i]) {
          NeighbourIsOneMove(w[i], w[i + 1]);
          assert w[i + 1] in edges[w[i]] <==> w[i + 1] in Elements(edges[w[i]]);
        }
      }
    }

    /** solver.js:104-109, `resetGraph`: every node, in map order, gets its visited
        flag cleared and its parent link removed. */
    method ResetGraph()
      requires Valid()
      modifies this
      ensures Valid() && Clean()
      ensures nodes.Keys == old(nodes.Keys)
    {
      for i := 0 to |order|
        invariant nodes.Keys == old(nodes.Keys)
        invariant forall j :: 0 <= j < i ==> nodes[order[j]] == Unvisited
      {
        var node := order[i];
        nodes := nodes[node := nodes[node].(visited := false)];
        nodes := nodes[node := nodes[node].(parent := None)];
        assert forall j :: 0 <= j < i ==> order[j] != node;
      }
      forall s | s in nodes
        ensures nodes[s] == Unvisited
      {
        assert s in Elements(order);
        var j :| 0 <= j < |order| && order[j] == s;
      }
    }

    /** solver.js:127-133: from a found node, the parent links lead back to the
        start in as many steps as the node's distance. */
    method Rebuild(goal: Key, start: Key, ghost dist: map<Key, nat>) returns (trail: seq<Key>)
      requires Marked(nodes, edges, dist, start) && goal in dist
      ensures |trail| == dist[goal] + 1 && trail[0] == goal && trail[|trail| - 1] == start
      ensures LinkedBack(edges, trail)
    {
      trail := [];
      var step: Option<Key> := Some(goal);
      while step != None
        invariant step.Some? ==> step.value in dist
        invariant trail == [] ==> step == Some(goal)
        invariant trail != [] ==> trail[0] == goal
        invariant LinkedBack(edges, trail)
        invariant step.Some? && trail != [] ==> step.value in edges && trail[|trail| - 1] in edges[step.value]
        invariant step.Some? ==> |trail| + dist[step.value] == dist[goal]
        invariant step.None? ==> trail != [] && trail[|trail| - 1] == start && |trail| == dist[goal] + 1
        decreases if step.Some? then dist[step.value] + 1 else 0
      {
        var node := step.value;
        LinkedBackAppend(edges, trail, node);
        trail := trail + [node];
        step := nodes[node].parent;
        if node != start {
          assert ParentLink(nodes, edges, dist, node);
        }
      }
    }

    /** solver.js:137-143 on the graph's own nodes: every neighbour of `current` not
        yet visited is marked, given `current` as parent and queued (the scan itself
        is ScanNeighbours), after which `current` counts as processed. */
    method Expand(current: Key, queue: seq<Key>, ghost queue0: seq<Key>, ghost dist: map<Key, nat>,
                  ghost processed: set<Key>, ghost start: Key, ghost goal: Key)
      returns (queue': seq<Key>, ghost dist': map<Key, nat>)
      requires current in edges && forall s, t :: s in edges && t in edges[s] ==> t in nodes
      requires Searching(nodes, edges, dist, start, processed, queue0, goal)
      requires |queue0| > 0 && current == queue0[0] && queue == queue0[1..] && current != goal
      modifies this
      ensures nodes.Keys == old(nodes.Keys)
      ensures Searching(nodes, edges, dist', start, processed + {current}, queue', goal)
      ensures Grown(old(nodes), dist, queue, nodes, dist', queue')
    {
      PopStep(nodes, edges, dist, start, processed, queue0, goal);
      ghost var d := dist[current];
      var scanned;
      scanned, queue', dist' := ScanNeighbours(nodes, edges, dist, start, processed, queue, current, d, goal);
      nodes := scanned;
      FinishStep(nodes, edges, dist', start, processed, queue', current, d, goal);
    }

    /** solver.js:118-147, `solvePuzzle`: breadth-first search from `start` with a
        FIFO queue (push and shift). On reaching `goal` it follows the parent links
        back, resets the scratch and returns the path reversed; when the queue runs
        dry it resets the scratch and returns null. The start must be a node: the
        source reads its `visited` field without a check. */
    method SolvePuzzle(start: Key, goal: Key) returns (path: Option<seq<Key>>)
      requires Valid() && Clean() && start in nodes
      modifies this
      ensures Valid() && Clean() && nodes.Keys == old(nodes.Keys)
      ensures path.Some? ==> IsWalk(edges, path.value, start, goal)
      ensures path.Some? ==> forall w :: IsWalk(edges, w, start, goal) ==> |path.value| <= |w|
      ensures path.None? ==> forall w :: !IsWalk(edges, w, start, goal)
      ensures start == goal ==> path == Some([start])
    {
      ghost var keys := nodes.Keys;
      EdgesInGraph();
      var queue: seq<Key> := [];
      queue := queue + [start];
      StartSearch(nodes, edges, start, goal);
      nodes := nodes[start := nodes[start].(visited := true)];
      ghost var dist: map<Key, nat> := map[start := 0];
      ghost var processed: set<Key> := {};
      while |queue| > 0
        invariant nodes.Keys == keys
        invariant Searching(nodes, edges, dist, start, processed, queue, goal)
        decreases keys - processed
      {
        HeadInGraph(nodes, edges, dist, start, processed, queue, goal);
        ghost var queue0 := queue;
        var current := queue[0];
        queue := queue[1..];
        if current == goal {
          var trail := Rebuild(current, start, dist);
          MinimalWalk(edges, dist, start, trail, goal);
          ResetGraph();
          path := Some(Reversed(trail));
          SelfPath(edges, path, start, goal);
          return;
        }
        queue, dist := Expand(current, queue, queue0, dist, processed, start, goal);
        processed := processed + {current};
      }
      Drained(nodes, edges, dist, start, processed, goal);
      ResetGraph();
      path := None;
      SelfPath(edges, path, start, goal);
    }
  }
}
