/** `DirectedGraph.walk` and `DirectedGraph.subgraph`. */
module Traversal {
  import opened Results
  import opened Sets
  import opened Graphs
  import opened Paths

  /** The nodes reachable from `start`, `start` included. */
  ghost function ReachableFrom<T(!new)>(g: Graph<T>, start: T): set<T>
    requires Closed(g)
  {
    set x | x in g && Reaches(g, start, x)
  }

  /** Everything reachable from a node of a successor-closed set is in it. */
  lemma ClosedSetHoldsReach<T(!new)>(g: Graph<T>, w: set<T>, a: T, b: T)
    requires forall x, y :: x in w && x in g && y in g[x] ==> y in w
    requires a in w && Reaches(g, a, b)
    ensures b in w
  {
    var p :| PathFromTo(g, p, a, b);
    ClosedSetHoldsPath(g, w, p);
  }

  /** The loop state of `walk(start)`: everything seen or queued is reachable
      from `start`, `start` itself is seen or queued, and each successor of a
      seen node is seen or queued. */
  ghost predicate WalkState<T(!new)>(g: Graph<T>, start: T, seen: set<T>, toVisit: seq<T>)
  {
    && seen <= g.Keys && Elems(toVisit) <= g.Keys
    && (forall x :: x in seen ==> Reaches(g, start, x))
    && (forall x :: x in toVisit ==> Reaches(g, start, x))
    && (start in seen || start in toVisit)
    && (forall x, y :: x in seen && y in g[x] ==> y in seen || y in toVisit)
  }

  /** The inner loop of `walk(start)`: queue each successor of `next` that has
      not been seen, in arbitrary order. */
  method QueueSuccessors<T(!new)>(g: Graph<T>, start: T, seen: set<T>, toVisit: seq<T>, next: T)
    returns (toVisit': seq<T>)
    requires Closed(g) && next in g && Reaches(g, start, next)
    requires Elems(toVisit) <= g.Keys && forall x :: x in toVisit ==> Reaches(g, start, x)
    ensures Elems(toVisit') <= g.Keys && forall x :: x in toVisit' ==> Reaches(g, start, x)
    ensures Elems(toVisit) <= Elems(toVisit')
    ensures forall y :: y in g[next] ==> y in seen || y in toVisit'
  {
    toVisit' := toVisit;
    var deps := g[next];
    while deps != {}
      invariant deps <= g[next]
      invariant Elems(toVisit') <= g.Keys && forall x :: x in toVisit' ==> Reaches(g, start, x)
      invariant Elems(toVisit) <= Elems(toVisit')
      invariant forall y :: y in g[next] && y !in deps ==> y in seen || y in toVisit'
      decreases deps
    {
      var dep :| dep in deps;
      if dep !in seen {
        ReachesStep(g, start, next, dep);
        ElemsSnoc(toVisit', dep);
        toVisit' := toVisit' + [dep];
      }
      deps := deps - {dep};
    }
  }

  /** `walk(start)`: breadth-first search from `start`; the result is every
      node reachable from `start`. A `start` that is not a node makes the
      source throw, here `None`. */
  method Walk<T(!new)>(g: Graph<T>, start: T) returns (r: Option<set<T>>)
    requires Closed(g)
    ensures r.None? <==> start !in g
    ensures r.Some? ==> r.value == ReachableFrom(g, start)
    ensures r.Some? ==> forall x :: x in r.value <==> x in g && Reaches(g, start, x)
  {
    if start !in g {
      return None;
    }
    ReachesSelf(g, start);
    var toVisit := [start];
    var seen: set<T> := {};
    while |toVisit| > 0
      invariant WalkState(g, start, seen, toVisit)
      decreases g.Keys - seen, |toVisit|
    {
      var next := toVisit[0];
      ElemsCons(toVisit);
      if next in seen {
        toVisit := toVisit[1..];
      } else {
        var queued := QueueSuccessors(g, start, seen, toVisit[1..], next);
        VisitStep(g, start, seen, toVisit, queued);
        toVisit, seen := queued, seen + {next};
      }
    }
    WalkComplete(g, start, seen);
    return Some(seen);
  }

  /** Marking the dequeued node seen, once its successors are queued, keeps
      `WalkState`. */
  lemma VisitStep<T(!new)>(g: Graph<T>, start: T, seen: set<T>, toVisit: seq<T>, queued: seq<T>)
    requires WalkState(g, start, seen, toVisit) && |toVisit| > 0
    requires Elems(toVisit) == {toVisit[0]} + Elems(toVisit[1..])
    requires Elems(queued) <= g.Keys && forall x :: x in queued ==> Reaches(g, start, x)
    requires Elems(toVisit[1..]) <= Elems(queued)
    requires forall y :: y in g[toVisit[0]] ==> y in seen || y in queued
    ensures WalkState(g, start, seen + {toVisit[0]}, queued)
  {
    var next := toVisit[0];
    assert next in toVisit;
    forall x, y | x in seen + {next} && y in g[x]
      ensures y in seen + {next} || y in queued
    {
      if x != next && y !in seen && y != next {
        assert y in Elems(toVisit);
        assert y in Elems(toVisit[1..]);
        assert y in Elems(queued);
      }
    }
    if start !in seen && start != next {
      assert start in Elems(toVisit);
      assert start in Elems(toVisit[1..]);
      assert start in Elems(queued);
    }
  }

  /** With nothing left to visit, the seen set is exactly the reachable set. */
  lemma WalkComplete<T(!new)>(g: Graph<T>, start: T, seen: set<T>)
    requires Closed(g) && WalkState(g, start, seen, [])
    ensures seen == ReachableFrom(g, start)
  {
    forall x | x in g && Reaches(g, start, x)
      ensures x in seen
    {
      ClosedSetHoldsReach(g, seen, start, x);
    }
  }

  /** The part of `g` over the nodes in `keep`. */
  ghost function Restrict<T>(g: Graph<T>, keep: set<T>): Graph<T>
  {
    map n | n in g && n in keep :: g[n] * keep
  }

  /** A path of the restricted graph is exactly a path of `g` that stays
      inside `keep`. */
  lemma RestrictPaths<T>(g: Graph<T>, keep: set<T>, p: seq<T>)
    ensures IsPath(Restrict(g, keep), p) <==> IsPath(g, p) && forall i :: 0 <= i < |p| ==> p[i] in keep
  {
  }

  /** `xs.filter((x) => keep.has(x))`: the elements of `xs` in `keep`, in order. */
  function Filter<T>(xs: seq<T>, keep: set<T>): (r: seq<T>)
    ensures Elems(r) == Elems(xs) * keep
    ensures |r| <= |xs|
  {
    if |xs| == 0 then []
    else
      ElemsCons(xs);
      var rest := Filter(xs[1..], keep);
      if xs[0] in keep then
        ElemsCons([xs[0]] + rest);
        assert ([xs[0]] + rest)[1..] == rest;
        [xs[0]] + rest
      else rest
  }

  /** What `subgraph(keep)` has built once the nodes in `done` are handled:
      only kept nodes, every handled kept node, and the kept successors of
      exactly the handled nodes. */
  ghost predicate SubgraphSoFar<T>(g: Graph<T>, keep: set<T>, done: set<T>, r: Graph<T>)
  {
    && r.Keys <= g.Keys * keep
    && done * keep <= r.Keys
    && forall n :: n in r ==> r[n] == (if n in done then g[n] * keep else {})
  }

  /** `subgraph.add(node, ...kept)` for a kept node keeps `SubgraphSoFar`. */
  lemma SubgraphStep<T>(g: Graph<T>, keep: set<T>, done: set<T>, r: Graph<T>, node: T, kept: seq<T>)
    requires Closed(g) && node in g && node in keep && node !in done
    requires SubgraphSoFar(g, keep, done, r)
    requires Elems(kept) == g[node] * keep
    ensures SubgraphSoFar(g, keep, done + {node}, Add(r, node, kept))
  {
  }

  /** `subgraph(keep)`: a fresh graph holding the nodes of `g` in `keep`, each
      with its successors in `keep`. */
  method Subgraph<T>(g: Graph<T>, keep: set<T>) returns (r: Graph<T>)
    requires Closed(g)
    ensures r == Restrict(g, keep)
    ensures Closed(r) && r.Keys == g.Keys * keep
    ensures forall n :: n in r ==> r[n] == g[n] * keep
  {
    r := Empty();
    var todo := g.Keys;
    ghost var done: set<T> := {};
    while todo != {}
      invariant todo + done == g.Keys && todo !! done
      invariant SubgraphSoFar(g, keep, done, r)
      decreases todo
    {
      var node :| node in todo;
      if node in keep {
        var deps := Enumerate(g[node]);
        var kept := Filter(deps, keep);
        SubgraphStep(g, keep, done, r, node, kept);
        r := Add(r, node, kept);
      }
      todo, done := todo - {node}, done + {node};
    }
  }
}
