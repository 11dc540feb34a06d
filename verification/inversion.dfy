/** `DirectedGraph.invert`: the graph with every edge turned around. */
module Inversion {
  import opened Sets
  import opened Graphs

  /** What `invert()` has built once the nodes in `done` are handled: exactly
      the reversed edges out of `done`, over nodes of `g`, with every handled
      node a key. */
  ghost predicate Inverted<T>(g: Graph<T>, r: Graph<T>, done: set<T>)
  {
    && r.Keys <= g.Keys
    && done <= r.Keys
    && (forall a, b :: a in done && a in g && b in g[a] ==> b in r && a in r[b])
    && (forall b, a :: b in r && a in r[b] ==> a in done && a in g && b in g[a])
  }

  /** `Inverted` part-way through node `e`: of its successors, those in
      `handled` have had their reversed edge added. */
  ghost predicate InvertedPart<T>(g: Graph<T>, r: Graph<T>, done: set<T>, e: T, handled: set<T>)
  {
    && r.Keys <= g.Keys
    && done + {e} <= r.Keys
    && (forall a, b :: a in done && a in g && b in g[a] ==> b in r && a in r[b])
    && (forall b :: b in handled ==> b in r && e in r[b])
    && (forall b, a :: b in r && a in r[b] ==> a in g && b in g[a] && (a in done || (a == e && b in handled)))
  }

  /** `inverted.add(e)` starts node `e`: no successor handled yet. */
  lemma StartNode<T>(g: Graph<T>, r: Graph<T>, done: set<T>, e: T)
    requires Closed(g) && e in g && e !in done
    requires Inverted(g, r, done)
    ensures InvertedPart(g, Add(r, e, []), done, e, {})
  {
  }

  /** `inverted.add(dep, e)` handles one more successor of `e`. */
  lemma AddReversedEdge<T>(g: Graph<T>, r: Graph<T>, done: set<T>, e: T, handled: set<T>, dep: T)
    requires Closed(g) && e in g && e !in done && dep in g[e]
    requires InvertedPart(g, r, done, e, handled)
    ensures InvertedPart(g, Add(r, dep, [e]), done, e, handled + {dep})
  {
    assert Elems([e]) == {e};
    var r' := Add(r, dep, [e]);
    forall b, a | b in r' && a in r'[b]
      ensures a in g && b in g[a] && (a in done || (a == e && b in handled + {dep}))
    {
      if b != dep {
        assert a in r[b];
      }
    }
  }

  /** With every successor of `e` handled, `e` joins the handled nodes. */
  lemma FinishNode<T>(g: Graph<T>, r: Graph<T>, done: set<T>, e: T)
    requires e in g && InvertedPart(g, r, done, e, g[e])
    ensures Inverted(g, r, done + {e})
  {
  }

  /** The inner loop of `invert()`: `inverted.add(dep, e)` for every
      successor `dep` of `e`, in arbitrary order. */
  method AddReversedEdges<T>(g: Graph<T>, r: Graph<T>, ghost done: set<T>, e: T) returns (r': Graph<T>)
    requires Closed(g) && e in g && e !in done
    requires InvertedPart(g, r, done, e, {})
    ensures InvertedPart(g, r', done, e, g[e])
  {
    r' := r;
    var deps := g[e];
    while deps != {}
      invariant deps <= g[e]
      invariant InvertedPart(g, r', done, e, g[e] - deps)
      decreases deps
    {
      var dep :| dep in deps;
      AddReversedEdge(g, r', done, e, g[e] - deps, dep);
      assert g[e] - (deps - {dep}) == (g[e] - deps) + {dep};
      r' := Add(r', dep, [e]);
      deps := deps - {dep};
    }
    assert g[e] - {} == g[e];
  }

  /** One round of `invert()`: `inverted.add(e)`, then the reversed edges out
      of `e`. */
  method InvertNode<T>(g: Graph<T>, r: Graph<T>, ghost done: set<T>, e: T) returns (r': Graph<T>)
    requires Closed(g) && e in g && e !in done
    requires Inverted(g, r, done)
    ensures Inverted(g, r', done + {e})
  {
    StartNode(g, r, done, e);
    r' := AddReversedEdges(g, Add(r, e, []), done, e);
    FinishNode(g, r', done, e);
  }

  /** `invert()`: a fresh graph holding, for every edge `a -> b` of `g`, the
      edge `b -> a`, and every node of `g`. */
  method Invert<T>(g: Graph<T>) returns (r: Graph<T>)
    requires Closed(g)
    ensures r == Reverse(g)
    ensures Closed(r) && r.Keys == g.Keys
    ensures forall a, b :: a in g && b in g[a] <==> b in r && a in r[b]
  {
    r := Empty();
    ghost var done: set<T> := {};
    var todo := g.Keys;
    while todo != {}
      invariant todo + done == g.Keys && todo !! done
      invariant Inverted(g, r, done)
      decreases todo
    {
      var e :| e in todo;
      r := InvertNode(g, r, done, e);
      todo, done := todo - {e}, done + {e};
    }
    ReverseClosed(g);
    AllInverted(g, r);
  }

  /** Once every node is handled, the built graph is the reversal. */
  lemma AllInverted<T>(g: Graph<T>, r: Graph<T>)
    requires Closed(g)
    requires Inverted(g, r, g.Keys)
    ensures r == Reverse(g)
  {
    forall b | b in r
      ensures r[b] == Preds(g, b)
    {
    }
  }
}
