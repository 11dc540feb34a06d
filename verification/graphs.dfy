/** The data model of `DirectedGraph<T>` (index.ts): an adjacency map from each
    node to the set of its successors, and the two mutators `add` and
    `ensureAll`. Every graph the program builds is closed: each edge target is
    also a key, possibly with an empty successor set. */
module Graphs {
  import opened Sets

  /** `DirectedGraph.edges`. */
  type Graph<T> = map<T, set<T>>

  /** The class invariant: every edge target is a node of the graph. */
  ghost predicate Closed<T>(g: Graph<T>)
  {
    forall a, b :: a in g && b in g[a] ==> b in g
  }

  /** The graph with no nodes, as `new DirectedGraph()` starts. */
  function Empty<T>(): (g: Graph<T>)
    ensures Closed(g)
    ensures g.Keys == {}
  {
    map[]
  }

  /** No node has a successor. */
  ghost predicate NoEdges<T>(g: Graph<T>)
  {
    forall a :: a in g ==> g[a] == {}
  }

  /** The nodes that list `n` as a successor. */
  ghost function Preds<T>(g: Graph<T>, n: T): set<T>
  {
    set p | p in g && n in g[p]
  }

  /** A source: a node nothing points at (in-degree 0). */
  ghost predicate IsSource<T>(g: Graph<T>, n: T)
  {
    Preds(g, n) == {}
  }

  /** The edge reversal of `g`: `b -> a` whenever `a -> b`. */
  ghost function Reverse<T>(g: Graph<T>): Graph<T>
  {
    map b | b in g :: Preds(g, b)
  }

  /** `ensureAll(nodes)`: give every listed node that is not yet a key an
      empty successor set; existing entries are left alone. */
  function EnsureAll<T>(g: Graph<T>, nodes: seq<T>): (r: Graph<T>)
    ensures r.Keys == g.Keys + Elems(nodes)
    ensures forall n :: n in g ==> r[n] == g[n]
    ensures forall n :: n in r && n !in g ==> r[n] == {}
    decreases |nodes|
  {
    if |nodes| == 0 then g
    else
      ElemsCons(nodes);
      EnsureAll(if nodes[0] in g then g else g[nodes[0] := {}], nodes[1..])
  }

  /** `add(from, ...to)`: merge `to` into the successor set of `from` (creating
      it if absent) and make every element of `to` a node. */
  function Add<T>(g: Graph<T>, from: T, to: seq<T>): (r: Graph<T>)
    ensures r.Keys == g.Keys + {from} + Elems(to)
    ensures r[from] == (if from in g then g[from] else {}) + Elems(to)
    ensures forall n :: n in g && n != from ==> r[n] == g[n]
    ensures forall n :: n in r && n !in g && n != from ==> r[n] == {}
    ensures Closed(g) ==> Closed(r)
  {
    var dependencies := if from in g then g[from] else {};
    EnsureAll(g[from := AddAll(dependencies, to)], to)
  }

  /** Repeating an `add` call leaves the graph as the first call left it. */
  lemma AddIdempotent<T>(g: Graph<T>, from: T, to: seq<T>)
    ensures Add(Add(g, from, to), from, to) == Add(g, from, to)
  {
    var once := Add(g, from, to);
    var twice := Add(once, from, to);
    assert twice.Keys == once.Keys;
    assert forall n :: n in twice ==> twice[n] == once[n];
  }

  /** Reversal keeps the node set and is closed. */
  lemma ReverseClosed<T>(g: Graph<T>)
    requires Closed(g)
    ensures Reverse(g).Keys == g.Keys
    ensures Closed(Reverse(g))
    ensures forall a, b :: a in g && b in g[a] <==> b in g && a in Reverse(g)[b]
  {
  }

  /** Reversing twice gives back the graph. */
  lemma ReverseInvolution<T>(g: Graph<T>)
    requires Closed(g)
    ensures Reverse(Reverse(g)) == g
  {
    var rr := Reverse(Reverse(g));
    ReverseClosed(g);
    assert rr.Keys == g.Keys;
    forall a | a in g
      ensures rr[a] == g[a]
    {
      assert forall b :: b in rr[a] <==> b in Reverse(g) && a in Reverse(g)[b];
    }
  }
}
