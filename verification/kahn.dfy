/** `DirectedGraph.indegrees` and `DirectedGraph.topoSort` (Kahn's algorithm). */
module Kahn {
  import opened Results
  import opened Sets
  import opened Graphs
  import opened Paths

  /** Why `topoSort` gives up. */
  datatype TopoError =
    | NoSource      // no node has in-degree 0 (this includes the empty graph)
    | CycleFound    // the ordering came out shorter than the node count

  /** `o` lists every node of `g` exactly once, and every edge points forward. */
  ghost predicate IsTopoOrder<T>(g: Graph<T>, o: seq<T>)
  {
    && NoDup(o)
    && Elems(o) == g.Keys
    && (forall i, j :: 0 <= i < |o| && 0 <= j < |o| && o[j] in g[o[i]] ==> i < j)
  }

  /** How many of the nodes listed in `d` have `v` as a successor. */
  ghost function EdgesInto<T>(g: Graph<T>, v: T, d: seq<T>): nat
  {
    if |d| == 0 then 0
    else EdgesInto(g, v, d[..|d| - 1]) + (if d[|d| - 1] in g && v in g[d[|d| - 1]] then 1 else 0)
  }

  /** Appending one node adds one edge into each of its successors. */
  lemma EdgesIntoSnoc<T>(g: Graph<T>, d: seq<T>, node: T)
    ensures forall v ::
              EdgesInto(g, v, d + [node]) == EdgesInto(g, v, d) + (if node in g && v in g[node] then 1 else 0)
  {
    assert (d + [node])[..|d|] == d;
  }

  /** Over a duplicate-free list, the edges into `v` are counted once per
      predecessor of `v` on the list. */
  lemma {:induction false} EdgesIntoCard<T>(g: Graph<T>, v: T, d: seq<T>)
    requires NoDup(d)
    ensures EdgesInto(g, v, d) == |Preds(g, v) * Elems(d)|
    decreases |d|
  {
    if |d| > 0 {
      var init, last := d[..|d| - 1], d[|d| - 1];
      NoDupUnsnoc(d);
      EdgesIntoSnoc(g, init, last);
      EdgesIntoCard(g, v, init);
      ElemsSnoc(init, last);
      InterAddCard(Preds(g, v), Elems(init), last);
    }
  }

  /** Over a duplicate-free list, all edges into `v` have been counted exactly
      when every predecessor of `v` is on the list. */
  lemma EdgesIntoAll<T>(g: Graph<T>, v: T, d: seq<T>)
    requires NoDup(d)
    ensures EdgesInto(g, v, d) <= |Preds(g, v)|
    ensures EdgesInto(g, v, d) == |Preds(g, v)| <==> Preds(g, v) <= Elems(d)
  {
    EdgesIntoCard(g, v, d);
    var p := Preds(g, v);
    SubsetCard(p * Elems(d), p);
    if p * Elems(d) != p {
      var x :| x in p && x !in Elems(d);
      SubsetCard(p * Elems(d), p - {x});
    }
  }

  /** The inner loop of `indegrees()`: one more in-edge for every successor
      of `node`, counting a successor not yet in the map from 0. */
  method CountEdgesFrom<T>(g: Graph<T>, node: T, ghost visited: seq<T>, inDegrees: map<T, int>)
    returns (counted: map<T, int>)
    requires Closed(g) && node in g && node !in visited
    requires Elems(visited) <= inDegrees.Keys <= g.Keys
    requires forall v :: v in inDegrees ==> inDegrees[v] == EdgesInto(g, v, visited)
    requires forall v :: v in g && v !in inDegrees ==> EdgesInto(g, v, visited) == 0
    ensures Elems(visited + [node]) <= counted.Keys <= g.Keys
    ensures forall v :: v in counted ==> counted[v] == EdgesInto(g, v, visited + [node])
    ensures forall v :: v in g && v !in counted ==> EdgesInto(g, v, visited + [node]) == 0
  {
    counted := inDegrees;
    if node !in counted {
      counted := counted[node := 0];
    }
    var neighbours := g[node];
    while neighbours != {}
      invariant neighbours <= g[node]
      invariant Elems(visited) + {node} <= counted.Keys <= g.Keys
      invariant forall v :: v in counted ==>
        counted[v] == EdgesInto(g, v, visited) + (if v in g[node] && v !in neighbours then 1 else 0)
      invariant forall v :: v in g && v !in counted ==>
        EdgesInto(g, v, visited) == 0 && (v !in g[node] || v in neighbours)
      decreases neighbours
    {
      var neighbour :| neighbour in neighbours;
      neighbours := neighbours - {neighbour};
      var count := if neighbour in counted then counted[neighbour] else 0;
      counted := counted[neighbour := count + 1];
    }
    EdgesIntoSnoc(g, visited, node);
    ElemsSnoc(visited, node);
  }

  /** `indegrees()`: for every node, how many nodes list it as a successor.
      Nodes are visited in arbitrary order; a node first met as a successor is
      counted from 0. */
  method Indegrees<T>(g: Graph<T>) returns (inDegrees: map<T, int>)
    requires Closed(g)
    ensures inDegrees.Keys == g.Keys
    ensures forall v :: v in g ==> inDegrees[v] == |Preds(g, v)|
  {
    inDegrees := map[];
    var todo := g.Keys;
    ghost var visited: seq<T> := [];
    while todo != {}
      invariant todo + Elems(visited) == g.Keys && todo !! Elems(visited)
      invariant NoDup(visited)
      invariant Elems(visited) <= inDegrees.Keys <= g.Keys
      invariant forall v :: v in inDegrees ==> inDegrees[v] == EdgesInto(g, v, visited)
      invariant forall v :: v in g && v !in inDegrees ==> EdgesInto(g, v, visited) == 0
      decreases todo
    {
      var node :| node in todo;
      todo := todo - {node};
      inDegrees := CountEdgesFrom(g, node, visited, inDegrees);
      NoDupSnoc(visited, node);
      visited := visited + [node];
    }
    CountedAll(g, visited, inDegrees);
  }

  /** Once every node has been visited, the edge counts are the in-degrees. */
  lemma CountedAll<T>(g: Graph<T>, visited: seq<T>, inDegrees: map<T, int>)
    requires NoDup(visited) && Elems(visited) == g.Keys
    requires inDegrees.Keys == g.Keys
    requires forall v :: v in inDegrees ==> inDegrees[v] == EdgesInto(g, v, visited)
    ensures forall v :: v in g ==> inDegrees[v] == |Preds(g, v)|
  {
    forall v | v in g
      ensures inDegrees[v] == |Preds(g, v)|
    {
      EdgesIntoAll(g, v, visited);
    }
  }

  /** The positions in a topological order rank the nodes so that every edge
      goes up; so a graph with a topological order has no cycle. */
  lemma TopoOrderNoCycle<T(!new)>(g: Graph<T>, o: seq<T>)
    requires Closed(g)
    requires IsTopoOrder(g, o)
    ensures !HasCycle(g)
  {
    var rank := map i | 0 <= i < |o| :: o[i] := i;
    assert forall i :: 0 <= i < |o| ==> rank[o[i]] == i;
    forall x, y | x in g && y in g[x]
      ensures y in g && rank[x] < rank[y]
    {
      assert x in Elems(o) && y in Elems(o);
      var i :| 0 <= i < |o| && o[i] == x;
      var j :| 0 <= j < |o| && o[j] == y;
    }
    RankedNoCycle(g, g.Keys, rank);
    NoCycleFromNodes(g);
  }

  /** `v` still has a predecessor outside `emitted`. */
  ghost predicate Blocked<T>(g: Graph<T>, emitted: set<T>, v: T)
  {
    !(Preds(g, v) <= emitted)
  }

  /** If some node is left outside `emitted` and every such node still has a
      predecessor outside `emitted`, the graph has a cycle. */
  lemma StuckMeansCycle<T(!new)>(g: Graph<T>, emitted: set<T>)
    requires Closed(g)
    requires g.Keys - emitted != {}
    requires forall v {:trigger Blocked(g, emitted, v)} :: v in g && v !in emitted ==> Blocked(g, emitted, v)
    ensures HasCycle(g)
  {
    var r := g.Keys - emitted;
    forall x | x in r
      ensures HasPredIn(g, r, x)
    {
      assert Blocked(g, emitted, x);
      PredOutside(g, emitted, x);
    }
    CycleFromPredecessors(g, r);
  }

  /** A node with a predecessor outside `emitted` has one among the nodes
      left. */
  lemma PredOutside<T>(g: Graph<T>, emitted: set<T>, x: T)
    requires x in g && !(Preds(g, x) <= emitted)
    ensures HasPredIn(g, g.Keys - emitted, x)
  {
    var u :| u in Preds(g, x) && u !in emitted;
    assert u in g.Keys - emitted && x in g[u];
  }

  /** Every listed node has all its predecessors listed before it. */
  ghost predicate PredsBefore<T>(g: Graph<T>, o: seq<T>)
  {
    forall j :: 0 <= j < |o| ==> Preds(g, o[j]) <= Elems(o[..j])
  }

  /** Each predecessor of a listed node comes before it in the list, so every
      edge between listed nodes points forward. */
  lemma PredsBeforeIsForward<T>(g: Graph<T>, o: seq<T>)
    requires NoDup(o)
    requires PredsBefore(g, o)
    ensures forall i, j :: 0 <= i < |o| && 0 <= j < |o| && o[i] in g && o[j] in g[o[i]] ==> i < j
  {
    forall i, j | 0 <= i < |o| && 0 <= j < |o| && o[i] in g && o[j] in g[o[i]]
      ensures i < j
    {
      assert o[i] in Preds(g, o[j]);
      var k :| 0 <= k < j && o[k] == o[i];
    }
  }

  /** The first loop of `topoSort()`: collect the nodes of in-degree 0,
      visiting the entries in arbitrary order. */
  method ZeroInDegree<T>(inDegrees: map<T, int>) returns (sources: set<T>)
    ensures forall v :: v in sources <==> v in inDegrees && inDegrees[v] == 0
  {
    sources := {};
    var todo := inDegrees.Keys;
    while todo != {}
      invariant todo <= inDegrees.Keys
      invariant forall v :: v in sources <==> v in inDegrees && v !in todo && inDegrees[v] == 0
      decreases todo
    {
      var node :| node in todo;
      if inDegrees[node] == 0 {
        sources := sources + {node};
      }
      todo := todo - {node};
    }
  }

  /** No node has in-degree 0: every node has a predecessor, and a non-empty
      graph therefore has a cycle. */
  lemma NoSourceCase<T(!new)>(g: Graph<T>, inDegrees: map<T, int>)
    requires inDegrees.Keys == g.Keys
    requires forall v :: v in g ==> inDegrees[v] == |Preds(g, v)|
    requires forall v :: v in g ==> inDegrees[v] != 0
    ensures forall v {:trigger IsSource(g, v)} :: v in g ==> !IsSource(g, v)
    ensures g != map[] ==> HasCycle(g)
  {
    NoneIsSource(g, inDegrees);
    if g != map[] {
      assert g.Keys != {};
      AllHavePredecessors(g);
    }
  }

  lemma NoneIsSource<T>(g: Graph<T>, inDegrees: map<T, int>)
    requires inDegrees.Keys == g.Keys
    requires forall v :: v in g ==> inDegrees[v] == |Preds(g, v)|
    requires forall v :: v in g ==> inDegrees[v] != 0
    ensures forall v {:trigger IsSource(g, v)} :: v in g ==> !IsSource(g, v)
  {
    forall v | v in g
      ensures !IsSource(g, v)
    {
      assert |Preds(g, v)| != 0;
    }
  }

  /** The loop state of `topoSort()` once `order` has been emitted: each
      in-degree counts the edges still to come from unemitted nodes, every
      unemitted node whose count reached 0 waits in `sources`, and a waiting
      or emitted node has all its predecessors emitted before it. */
  ghost predicate KahnState<T>(g: Graph<T>, initial: map<T, int>, order: seq<T>,
                               inDegrees: map<T, int>, sources: set<T>)
  {
    && initial.Keys == g.Keys && inDegrees.Keys == g.Keys
    && (forall v :: v in g ==> initial[v] == |Preds(g, v)|)
    && NoDup(order) && Elems(order) <= g.Keys
    && sources <= g.Keys && sources !! Elems(order)
    && (forall v :: v in g ==> inDegrees[v] + EdgesInto(g, v, order) == initial[v])
    && (forall v :: v in g && v !in Elems(order) && inDegrees[v] == 0 ==> v in sources)
    && (forall v :: v in sources ==> Preds(g, v) <= Elems(order))
    && PredsBefore(g, order)
  }

  /** Emitting a waiting source `node` keeps the state of `topoSort()` and
      sets up its inner loop: the successors of `node` are neither emitted nor
      waiting, and each is owed one in-edge more than the counts show. */
  lemma EmitStep<T>(g: Graph<T>, initial: map<T, int>, before: seq<T>, node: T,
                    inDegrees: map<T, int>, sources: set<T>)
    requires Closed(g) && KahnState(g, initial, before, inDegrees, sources) && node in sources
    ensures NoDup(before + [node]) && Elems(before + [node]) == Elems(before) + {node}
    ensures PredsBefore(g, before + [node])
    ensures ReleaseState(g, initial, before + [node], g[node], inDegrees, sources - {node})
    ensures forall v :: v in g[node] ==> v !in Elems(before + [node])
  {
    NoDupSnoc(before, node);
    EdgesIntoSnoc(g, before, node);
    SuccessorsUnlisted(g, before, node);
    SuccessorsNotWaiting(g, before, node, sources);
    PredsBeforeSnoc(g, before, node);
  }

  /** A successor of an unemitted node cannot be waiting: a waiting node has
      all its predecessors emitted. */
  lemma SuccessorsNotWaiting<T>(g: Graph<T>, before: seq<T>, node: T, sources: set<T>)
    requires node in g && node !in Elems(before)
    requires forall v :: v in sources ==> Preds(g, v) <= Elems(before)
    ensures forall v :: v in g[node] ==> v !in sources
  {
    forall v | v in g[node]
      ensures v !in sources
    {
      assert node in Preds(g, v);
    }
  }

  /** Appending a node whose predecessors are all listed keeps `PredsBefore`. */
  lemma PredsBeforeSnoc<T>(g: Graph<T>, before: seq<T>, node: T)
    requires PredsBefore(g, before) && Preds(g, node) <= Elems(before)
    ensures PredsBefore(g, before + [node])
  {
    var order := before + [node];
    forall j | 0 <= j < |order|
      ensures Preds(g, order[j]) <= Elems(order[..j])
    {
      if j < |before| {
        assert order[..j] == before[..j];
      } else {
        assert order[..j] == before;
      }
    }
  }

  /** The successors of an unlisted node whose predecessors are all listed are
      themselves unlisted, and differ from it. */
  lemma SuccessorsUnlisted<T>(g: Graph<T>, before: seq<T>, node: T)
    requires node in g && node !in Elems(before)
    requires PredsBefore(g, before) && Preds(g, node) <= Elems(before)
    ensures forall v :: v in g[node] ==> v !in Elems(before) && v != node
  {
    forall j | 0 <= j < |before|
      ensures before[j] !in g[node]
    {
      assert Elems(before[..j]) <= Elems(before) by {
        assert forall x :: x in before[..j] ==> x in before;
      }
      assert node !in Preds(g, before[j]);
    }
    assert node !in Preds(g, node);
  }

  /** The state of the inner loop of `topoSort()` after emitting `order`: the
      successors in `pending` have yet to lose the in-edge from the last
      emitted node; otherwise as in `KahnState`. */
  ghost predicate ReleaseState<T>(g: Graph<T>, initial: map<T, int>, order: seq<T>, pending: set<T>,
                                  inDegrees: map<T, int>, sources: set<T>)
  {
    && initial.Keys == g.Keys && inDegrees.Keys == g.Keys
    && sources <= g.Keys && sources !! Elems(order)
    && (forall v :: v in g ==> inDegrees[v] + EdgesInto(g, v, order) == initial[v] + (if v in pending then 1 else 0))
    && (forall v :: v in g && v !in Elems(order) && inDegrees[v] == 0 ==> v in sources)
    && (forall v :: v in sources ==> Preds(g, v) <= Elems(order))
  }

  /** Releasing one pending successor `w` (one in-edge less; a source once
      its count reaches 0) keeps `ReleaseState`. */
  lemma ReleaseStep<T>(g: Graph<T>, initial: map<T, int>, order: seq<T>, pending: set<T>,
                       inDegrees: map<T, int>, sources: set<T>, w: T,
                       inDegrees': map<T, int>, sources': set<T>)
    requires ReleaseState(g, initial, order, pending, inDegrees, sources)
    requires NoDup(order) && forall v :: v in g ==> initial[v] == |Preds(g, v)|
    requires w in pending && w in g && w in inDegrees && w !in Elems(order)
    requires inDegrees' == inDegrees[w := inDegrees[w] - 1]
    requires sources' == if inDegrees'[w] == 0 then sources + {w} else sources
    ensures ReleaseState(g, initial, order, pending - {w}, inDegrees', sources')
  {
    if inDegrees'[w] == 0 {
      EdgesIntoAll(g, w, order);
    }
  }

  /** The inner loop of `topoSort()`: having emitted `node` (the last element of
      `order`), take one off the in-degree of each successor and turn every
      successor that reaches 0 into a source. */
  method ReleaseSuccessors<T>(g: Graph<T>, node: T, ghost order: seq<T>, ghost initial: map<T, int>,
                              inDegrees: map<T, int>, sources: set<T>)
    returns (inDegrees': map<T, int>, sources': set<T>)
    requires Closed(g) && node in g && NoDup(order)
    requires ReleaseState(g, initial, order, g[node], inDegrees, sources)
    requires forall v :: v in g ==> initial[v] == |Preds(g, v)|
    requires forall v :: v in g[node] ==> v !in Elems(order)
    ensures ReleaseState(g, initial, order, {}, inDegrees', sources')
  {
    inDegrees', sources' := inDegrees, sources;
    var neighbours := g[node];
    while neighbours != {}
      invariant neighbours <= g[node]
      invariant ReleaseState(g, initial, order, neighbours, inDegrees', sources')
      decreases neighbours
    {
      var neighbour :| neighbour in neighbours;
      var neighbourIndegree := inDegrees'[neighbour] - 1;
      var released := inDegrees'[neighbour := neighbourIndegree];
      var waiting := if neighbourIndegree == 0 then sources' + {neighbour} else sources';
      ReleaseStep(g, initial, order, neighbours, inDegrees', sources', neighbour, released, waiting);
      neighbours, inDegrees', sources' := neighbours - {neighbour}, released, waiting;
    }
  }

  /** One round of the outer loop of `topoSort()`: emit the waiting source
      `node`, then release its successors. */
  method Emit<T>(g: Graph<T>, ghost initial: map<T, int>, ghost order: seq<T>,
                 inDegrees: map<T, int>, sources: set<T>, node: T)
    returns (inDegrees': map<T, int>, sources': set<T>)
    requires Closed(g) && KahnState(g, initial, order, inDegrees, sources) && node in sources
    ensures KahnState(g, initial, order + [node], inDegrees', sources')
  {
    EmitStep(g, initial, order, node, inDegrees, sources);
    inDegrees', sources' := ReleaseSuccessors(g, node, order + [node], initial, inDegrees, sources - {node});
  }

  /** The sources ran out before every node was emitted: a cycle remains. */
  lemma StuckCase<T(!new)>(g: Graph<T>, initial: map<T, int>, order: seq<T>, inDegrees: map<T, int>)
    requires Closed(g) && KahnState(g, initial, order, inDegrees, {}) && |order| != |g|
    ensures HasCycle(g)
  {
    SomeNodeLeft(g, order);
    forall v | v in g && v !in Elems(order)
      ensures Blocked(g, Elems(order), v)
    {
      EdgesIntoAll(g, v, order);
    }
    StuckMeansCycle(g, Elems(order));
  }

  /** A duplicate-free list of nodes that is shorter or longer than the
      graph misses some node. */
  lemma SomeNodeLeft<T>(g: Graph<T>, order: seq<T>)
    requires NoDup(order) && Elems(order) <= g.Keys && |order| != |g|
    ensures g.Keys - Elems(order) != {}
  {
    NoDupCard(order);
    assert |g.Keys| == |g|;
    assert |Elems(order)| != |g.Keys|;
    assert g.Keys == Elems(order) + (g.Keys - Elems(order));
  }

  /** Every node was emitted: the ordering is topological and the graph is
      acyclic. */
  lemma DoneCase<T(!new)>(g: Graph<T>, order: seq<T>)
    requires Closed(g)
    requires NoDup(order) && Elems(order) <= g.Keys && |order| == |g|
    requires PredsBefore(g, order)
    ensures IsTopoOrder(g, order)
    ensures !HasCycle(g)
  {
    NoDupCard(order);
    if Elems(order) != g.Keys {
      var x :| x in g.Keys && x !in Elems(order);
      SubsetCard(Elems(order), g.Keys - {x});
    }
    PredsBeforeIsForward(g, order);
    TopoOrderNoCycle(g, order);
  }

  /** Before the outer loop of `topoSort()` nothing is emitted and the
      sources are the nodes of in-degree 0. */
  lemma KahnStart<T>(g: Graph<T>, inDegrees: map<T, int>, sources: set<T>)
    requires inDegrees.Keys == g.Keys
    requires forall v :: v in g ==> inDegrees[v] == |Preds(g, v)|
    requires forall v :: v in sources <==> v in inDegrees && inDegrees[v] == 0
    ensures KahnState(g, inDegrees, [], inDegrees, sources)
  {
    forall v | v in sources
      ensures Preds(g, v) <= Elems([])
    {
      assert |Preds(g, v)| == 0;
    }
  }

  /** The outer loop of `topoSort()`: emit waiting sources until none is left. */
  method EmitAll<T>(g: Graph<T>, ghost initial: map<T, int>, inDegrees: map<T, int>, sources: set<T>)
    returns (order: seq<T>, inDegrees': map<T, int>)
    requires Closed(g) && KahnState(g, initial, [], inDegrees, sources)
    ensures KahnState(g, initial, order, inDegrees', {})
  {
    order, inDegrees' := [], inDegrees;
    var waiting := sources;
    while waiting != {}
      invariant KahnState(g, initial, order, inDegrees', waiting)
      decreases g.Keys - Elems(order)
    {
      var node :| node in waiting;
      inDegrees', waiting := Emit(g, initial, order, inDegrees', waiting, node);
      ElemsSnoc(order, node);
      order := order + [node];
    }
  }

  /** `topoSort()`: Kahn's algorithm. Which source is taken next is left open
      (the source pops the last-pushed one); every property below holds for
      every such choice. */
  method TopoSort<T(!new)>(g: Graph<T>) returns (r: Result<seq<T>, TopoError>)
    requires Closed(g)
    ensures r.Ok? ==> IsTopoOrder(g, r.value) && |r.value| == |g|
    ensures r.Ok? <==> g != map[] && !HasCycle(g)
    ensures r == Err(NoSource) <==> forall v {:trigger IsSource(g, v)} :: v in g ==> !IsSource(g, v)
  {
    var inDegrees := Indegrees(g);
    ghost var initial := inDegrees;
    var sources := ZeroInDegree(inDegrees);
    if sources == {} {
      NoSourceCase(g, inDegrees);
      return Err(NoSource);
    }
    ghost var someSource :| someSource in sources;
    assert IsSource(g, someSource);
    KahnStart(g, inDegrees, sources);
    var order;
    order, inDegrees := EmitAll(g, initial, inDegrees, sources);
    if |order| != |g| {
      StuckCase(g, initial, order, inDegrees);
      return Err(CycleFound);
    }
    DoneCase(g, order);
    return Ok(order);
  }
}
