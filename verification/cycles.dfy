/** `DirectedGraph.isCyclic`, as written and as evidently intended.

    As written, each walk starts from the successors of a node and reports
    a cycle as soon as it dequeues a node it has already dequeued. That also
    happens when two different nodes of one walk share a successor, so the
    method answers "cyclic or converging", not "cyclic". */
module Cycles {
  import opened Results
  import opened Sets
  import opened Graphs
  import opened Paths
  import opened Kahn
  import opened Traversal

  /** `x` lies on a cycle: some node reachable from `x` has `x` as a successor. */
  ghost predicate Recurs<T(!new)>(g: Graph<T>, x: T)
  {
    exists y :: Reaches(g, x, y) && y in g && x in g[y]
  }

  /** Two different nodes reachable from `s` share the successor `y`. */
  ghost predicate ConvergeAt<T(!new)>(g: Graph<T>, s: T, x1: T, x2: T, y: T)
  {
    && x1 != x2
    && Reaches(g, s, x1) && Reaches(g, s, x2)
    && x1 in g && x2 in g && y in g[x1] && y in g[x2]
  }

  ghost predicate ConvergesFrom<T(!new)>(g: Graph<T>, s: T)
  {
    exists x1, x2, y :: ConvergeAt(g, s, x1, x2, y)
  }

  /** Some node has two different predecessors with a common ancestor. */
  ghost predicate Converges<T(!new)>(g: Graph<T>)
  {
    exists s :: s in g && ConvergesFrom(g, s)
  }

  /** Neither a cycle through `s` nor a convergence below `s`: the walk from
      `s` in `isCyclic()` finishes without reporting. */
  ghost predicate Clean<T(!new)>(g: Graph<T>, s: T)
  {
    !Recurs(g, s) && !ConvergesFrom(g, s)
  }

  /** The nodes at the end of a path of at least one edge from `s`: what the
      walk from `s` dequeues. */
  ghost function Below<T(!new)>(g: Graph<T>, s: T): set<T>
    requires Closed(g)
  {
    set x | x in g && exists y :: Reaches(g, s, y) && y in g && x in g[y]
  }

  /** A node below `s` is reachable from `s`. */
  lemma BelowReaches<T(!new)>(g: Graph<T>, s: T, x: T)
    requires Closed(g) && x in Below(g, s)
    ensures Reaches(g, s, x)
  {
    var y :| Reaches(g, s, y) && y in g && x in g[y];
    ReachesStep(g, s, y, x);
  }

  /** A node on a cycle lies on a cycle path. */
  lemma RecursHasCycle<T(!new)>(g: Graph<T>, x: T)
    requires Recurs(g, x)
    ensures HasCycle(g)
  {
    var y :| Reaches(g, x, y) && y in g && x in g[y];
    var p :| PathFromTo(g, p, x, y);
    assert p[0] in g;
    assert IsCycle(g, p + [x]);
  }

  /** The first node of a cycle path lies on a cycle. */
  lemma HasCycleRecurs<T(!new)>(g: Graph<T>)
    requires HasCycle(g)
    ensures exists x :: x in g && Recurs(g, x)
  {
    var p :| IsCycle(g, p);
    var q := p[..|p| - 1];
    assert PathFromTo(g, q, p[0], q[|q| - 1]);
    assert p[0] == p[|p| - 1] && p[|p| - 1] in g[q[|q| - 1]];
    assert Recurs(g, p[0]);
  }

  /** A node recurs exactly when one of its successors reaches it. */
  lemma RecursViaSuccessor<T(!new)>(g: Graph<T>, x: T)
    requires Closed(g) && x in g
    ensures Recurs(g, x) <==> exists c :: c in g[x] && Reaches(g, c, x)
  {
    if Recurs(g, x) {
      var y :| Reaches(g, x, y) && y in g && x in g[y];
      var p :| PathFromTo(g, p, x, y);
      if |p| == 1 {
        ReachesSelf(g, x);
        assert x in g[x] && Reaches(g, x, x);
      } else {
        PathSuffix(g, p, 1);
        assert PathFromTo(g, (p + [x])[1..], p[1], x);
        assert p[1] in g[x] && Reaches(g, p[1], x);
      }
    }
    if c :| c in g[x] && Reaches(g, c, x) {
      var p :| PathFromTo(g, p, c, x);
      PathPrepend(g, x, p);
      var q := ([x] + p)[..|p|];
      assert PathFromTo(g, q, x, q[|q| - 1]);
      assert Recurs(g, x);
    }
  }

  /** The state of one walk of `isCyclic()` from `s`: `order` lists the
      dequeued nodes, each once; every queued or dequeued node is below `s`;
      and the queue and the dequeued nodes together are, as a multiset, the
      successors of `s` and of every dequeued node. */
  ghost predicate WalkFromState<T(!new)>(g: Graph<T>, s: T, order: seq<T>, toVisit: seq<T>)
    requires Closed(g)
  {
    && s in g
    && Elems(order) <= Below(g, s) && Elems(toVisit) <= Below(g, s)
    && NoDup(order)
    && forall v :: multiset(toVisit)[v] + multiset(order)[v] == (if v in g[s] then 1 else 0) + EdgesInto(g, v, order)
  }

  /** The walk starts with the successors of `s` queued, once each. */
  lemma WalkStart<T(!new)>(g: Graph<T>, s: T, kids: seq<T>)
    requires Closed(g) && s in g
    requires Elems(kids) == g[s] && NoDup(kids)
    ensures WalkFromState(g, s, [], kids)
  {
    NoDupCount(kids);
    ReachesSelf(g, s);
    assert forall x :: x in kids ==> x in g[s];
  }

  /** Dequeuing a node not seen before and queuing its successors keeps the
      walk state. */
  lemma DequeueStep<T(!new)>(g: Graph<T>, s: T, order: seq<T>, toVisit: seq<T>, kids: seq<T>)
    requires Closed(g) && WalkFromState(g, s, order, toVisit)
    requires |toVisit| > 0 && toVisit[0] in g && toVisit[0] !in Elems(order)
    requires Elems(kids) == g[toVisit[0]] && NoDup(kids)
    ensures WalkFromState(g, s, order + [toVisit[0]], toVisit[1..] + kids)
  {
    var next := toVisit[0];
    assert next in Elems(toVisit);
    NoDupSnoc(order, next);
    EdgesIntoSnoc(g, order, next);
    NoDupCount(kids);
    BelowReaches(g, s, next);
    assert toVisit == [next] + toVisit[1..];
    assert multiset(toVisit) == multiset{next} + multiset(toVisit[1..]);
    assert multiset(toVisit[1..] + kids) == multiset(toVisit[1..]) + multiset(kids);
    assert multiset(order + [next]) == multiset(order) + multiset{next};
    assert Elems(toVisit[1..]) <= Elems(toVisit) by {
      assert forall x :: x in toVisit[1..] ==> x in toVisit;
    }
    assert Elems(kids) <= Below(g, s);
  }

  /** Dequeuing a node already dequeued means it was queued twice: once more
      than its predecessors among `s` and the dequeued nodes would queue it
      if those were all different, so `s` recurs or two nodes below `s`
      share it as a successor. */
  lemma DupFound<T(!new)>(g: Graph<T>, s: T, order: seq<T>, toVisit: seq<T>)
    requires Closed(g) && WalkFromState(g, s, order, toVisit)
    requires |toVisit| > 0 && toVisit[0] in Elems(order)
    ensures !Clean(g, s)
  {
    var y := toVisit[0];
    assert y in Elems(toVisit);
    NoDupCount(order);
    assert multiset(toVisit)[y] >= 1;
    EdgesIntoCard(g, y, order);
    var p := Preds(g, y) * Elems(order);
    assert (if y in g[s] then 1 else 0) + |p| >= 2;
    var x1 :| x1 in p;
    BelowReaches(g, s, x1);
    if y in g[s] {
      if x1 == s {
        assert s in Below(g, s);
        assert Recurs(g, s);
      } else {
        ReachesSelf(g, s);
        assert ConvergeAt(g, s, s, x1, y);
      }
    } else {
      assert |p - {x1}| >= 1;
      var x2 :| x2 in p - {x1};
      BelowReaches(g, s, x2);
      assert ConvergeAt(g, s, x1, x2, y);
    }
  }

  /** A finished walk queued each node once per predecessor among `s` and
      the dequeued nodes, and dequeued it at most once. */
  ghost predicate WalkCounts<T>(g: Graph<T>, s: T, order: seq<T>)
    requires Closed(g)
  {
    && s in g
    && forall v :: v in g ==> (if v in order then 1 else 0) == (if v in g[s] then 1 else 0) + |Preds(g, v) * Elems(order)|
  }

  /** The successors of `s` and of the dequeued nodes were all dequeued. */
  ghost predicate WalkClosed<T>(g: Graph<T>, s: T, order: seq<T>)
  {
    forall x, y :: x in {s} + Elems(order) && x in g && y in g[x] ==> y in Elems(order)
  }

  lemma CountsAfterWalk<T(!new)>(g: Graph<T>, s: T, order: seq<T>)
    requires Closed(g) && WalkFromState(g, s, order, [])
    ensures WalkCounts(g, s, order)
  {
    NoDupCount(order);
    forall v | v in g
      ensures (if v in order then 1 else 0) == (if v in g[s] then 1 else 0) + |Preds(g, v) * Elems(order)|
    {
      EdgesIntoCard(g, v, order);
    }
  }

  lemma ClosedAfterWalk<T>(g: Graph<T>, s: T, order: seq<T>)
    requires Closed(g) && WalkCounts(g, s, order)
    ensures WalkClosed(g, s, order)
  {
    forall x, y | x in {s} + Elems(order) && x in g && y in g[x]
      ensures y in Elems(order)
    {
      assert x in Preds(g, y);
      if x != s {
        assert x in Preds(g, y) * Elems(order);
      }
    }
  }

  /** After a complete walk, no two different nodes reachable from `s` share
      a successor: `s` and the dequeued nodes each queued it, and it was
      dequeued at most once. */
  lemma NoConvergeAfterWalk<T(!new)>(g: Graph<T>, s: T, order: seq<T>)
    requires Closed(g) && WalkCounts(g, s, order) && WalkClosed(g, s, order)
    ensures !ConvergesFrom(g, s)
  {
    var w := {s} + Elems(order);
    forall x1, x2, y | Reaches(g, s, x1) && Reaches(g, s, x2) && x1 in g && x2 in g && y in g[x1] && y in g[x2]
      ensures x1 == x2
    {
      ClosedSetHoldsReach(g, w, s, x1);
      ClosedSetHoldsReach(g, w, s, x2);
      var p := Preds(g, y) * Elems(order);
      assert y in g;
      assert (if y in order then 1 else 0) == (if y in g[s] then 1 else 0) + |p|;
      assert x1 in Preds(g, y) && x2 in Preds(g, y);
      if x1 == s || x2 == s {
        assert y in g[s];
        assert |p| == 0;
        assert x1 !in p && x2 !in p;
      } else {
        assert x1 in p && x2 in p;
        AtMostOne(p, x1, x2);
      }
    }
  }

  /** After a complete walk, `s` does not recur: a dequeued `s` would have no
      successor, and every node reachable from `s` has its successors among
      the dequeued nodes. */
  lemma NotRecursAfterWalk<T(!new)>(g: Graph<T>, s: T, order: seq<T>)
    requires Closed(g) && WalkCounts(g, s, order) && WalkClosed(g, s, order)
    ensures !Recurs(g, s)
  {
    forall z | Reaches(g, s, z) && z in g
      ensures s !in g[z]
    {
      StayOrStep(g, s, z);
      if g[s] != {} {
        var c :| c in g[s];
        assert s in Preds(g, c);
        assert s !in Preds(g, c) * Elems(order);
        ClosedSetHoldsReach(g, {s} + Elems(order), s, z);
      }
    }
  }

  /** The walk from `s` finishes without reporting exactly when `s` is clean,
      and then it has dequeued exactly the nodes below `s`. */
  lemma WalkDone<T(!new)>(g: Graph<T>, s: T, order: seq<T>)
    requires Closed(g) && WalkFromState(g, s, order, [])
    ensures Clean(g, s) && Elems(order) == Below(g, s)
  {
    CountsAfterWalk(g, s, order);
    ClosedAfterWalk(g, s, order);
    forall x | x in Below(g, s)
      ensures x in Elems(order)
    {
      var z :| Reaches(g, s, z) && z in g && x in g[z];
      ClosedSetHoldsReach(g, {s} + Elems(order), s, z);
    }
    NotRecursAfterWalk(g, s, order);
    NoConvergeAfterWalk(g, s, order);
  }

  /** One walk of `isCyclic()` from `s`: queue the successors of `s`, then
      dequeue in order, reporting as soon as a node comes out a second time
      and otherwise queuing its successors. Reports exactly when `s` is not
      clean; otherwise the walk has seen exactly the nodes below `s`. */
  method WalkFrom<T(!new)>(g: Graph<T>, s: T) returns (dup: bool, seenOnThisWalk: set<T>)
    requires Closed(g) && s in g
    ensures dup <==> !Clean(g, s)
    ensures !dup ==> seenOnThisWalk == Below(g, s)
  {
    var toVisit := Enumerate(g[s]);
    WalkStart(g, s, toVisit);
    ghost var order: seq<T> := [];
    seenOnThisWalk := {};
    while |toVisit| > 0
      invariant WalkFromState(g, s, order, toVisit)
      invariant seenOnThisWalk == Elems(order)
      decreases Below(g, s) - seenOnThisWalk
    {
      var next := toVisit[0];
      assert next in Elems(toVisit);
      if next in seenOnThisWalk {
        DupFound(g, s, order, toVisit);
        return true, seenOnThisWalk;
      }
      var kids := Enumerate(g[next]);
      DequeueStep(g, s, order, toVisit, kids);
      ElemsSnoc(order, next);
      order := order + [next];
      seenOnThisWalk := seenOnThisWalk + {next};
      toVisit := toVisit[1..] + kids;
    }
    WalkDone(g, s, order);
    dup := false;
  }

  /** If a node below `s` recurs, so does `s`, provided nothing converges
      below `s`: walking the path from `s` backwards, the node before a
      recurring node must be its predecessor on the cycle. */
  lemma {:induction false} RecursUpward<T(!new)>(g: Graph<T>, s: T, p: seq<T>)
    requires Closed(g) && IsPath(g, p) && p[0] == s
    requires !ConvergesFrom(g, s)
    ensures Recurs(g, p[|p| - 1]) ==> Recurs(g, s)
    decreases |p|
  {
    var v := p[|p| - 1];
    if |p| > 1 && Recurs(g, v) {
      var w := p[|p| - 2];
      var q := p[..|p| - 1];
      assert PathFromTo(g, q, s, w);
      assert PathFromTo(g, p, s, v);
      var y :| Reaches(g, v, y) && y in g && v in g[y];
      ReachesTrans(g, s, v, y);
      assert v in g[w] && Reaches(g, s, w);
      assert w != y ==> ConvergeAt(g, s, w, y, v);
      RecursViaSuccessor(g, w);
      RecursUpward(g, s, q);
    }
  }

  /** Every node below a clean node is clean. */
  lemma CleanBelow<T(!new)>(g: Graph<T>, s: T, u: T)
    requires Closed(g) && Clean(g, s) && u in Below(g, s)
    ensures Clean(g, u)
  {
    BelowReaches(g, s, u);
    var p :| PathFromTo(g, p, s, u);
    RecursUpward(g, s, p);
    forall x1, x2, y | Reaches(g, u, x1) && Reaches(g, u, x2) && x1 in g && x2 in g && y in g[x1] && y in g[x2]
      ensures x1 == x2
    {
      ReachesTrans(g, s, u, x1);
      ReachesTrans(g, s, u, x2);
      assert x1 != x2 ==> ConvergeAt(g, s, x1, x2, y);
    }
  }

  /** A node that is not clean shows a cycle or a convergence. */
  lemma NotCleanMeans<T(!new)>(g: Graph<T>, s: T)
    requires s in g && !Clean(g, s)
    ensures HasCycle(g) || Converges(g)
  {
    if Recurs(g, s) {
      RecursHasCycle(g, s);
    }
  }

  /** With every node clean there is neither a cycle nor a convergence. */
  lemma AllClean<T(!new)>(g: Graph<T>)
    requires forall n :: n in g ==> Clean(g, n)
    ensures !HasCycle(g) && !Converges(g)
  {
    if HasCycle(g) {
      HasCycleRecurs(g);
    }
  }

  /** A graph without edges has neither a cycle nor a convergence, so
      `isCyclic()` answers false on it. */
  lemma NoEdgesNotCyclic<T(!new)>(g: Graph<T>)
    requires NoEdges(g)
    ensures !HasCycle(g) && !Converges(g)
  {
    forall n | n in g
      ensures Clean(g, n)
    {
    }
    AllClean(g);
  }

  /** `isCyclic()` as written: one walk from each node not already seen on an
      earlier walk. It answers true exactly when `g` has a cycle or two
      different nodes with a common ancestor share a successor. */
  method IsCyclic<T(!new)>(g: Graph<T>) returns (cyclic: bool)
    requires Closed(g)
    ensures cyclic <==> HasCycle(g) || Converges(g)
  {
    var seenOnAllWalks: set<T> := {};
    var todo := g.Keys;
    ghost var done: set<T> := {};
    while todo != {}
      invariant todo + done == g.Keys && todo !! done
      invariant forall n :: n in done ==> Clean(g, n)
      invariant forall n :: n in seenOnAllWalks ==> Clean(g, n)
      decreases todo
    {
      var node :| node in todo;
      if node !in seenOnAllWalks {
        var dup, seenOnThisWalk := WalkFrom(g, node);
        if dup {
          NotCleanMeans(g, node);
          return true;
        }
        forall u | u in seenOnThisWalk
          ensures Clean(g, u)
        {
          CleanBelow(g, node, u);
        }
        var listed := Enumerate(seenOnThisWalk);
        seenOnAllWalks := AddAll(seenOnAllWalks, listed);
      }
      todo, done := todo - {node}, done + {node};
    }
    AllClean(g);
    return false;
  }

  /** Whether `node` lies on a cycle: a walk from one of its successors comes
      back to it. */
  method ReachesBack<T(!new)>(g: Graph<T>, node: T) returns (b: bool)
    requires Closed(g) && node in g
    ensures b <==> Recurs(g, node)
  {
    RecursViaSuccessor(g, node);
    var kids := g[node];
    while kids != {}
      invariant kids <= g[node]
      invariant forall c :: c in g[node] && c !in kids ==> !Reaches(g, c, node)
      decreases kids
    {
      var c :| c in kids;
      var reached := Walk(g, c);
      if node in reached.value {
        return true;
      }
      kids := kids - {c};
    }
    return false;
  }

  /** `isCyclic()` as evidently intended: true exactly when `g` has a cycle.
      A node is on a cycle when a walk from one of its successors comes back
      to it. */
  method IsCyclicCorrected<T(!new)>(g: Graph<T>) returns (cyclic: bool)
    requires Closed(g)
    ensures cyclic <==> HasCycle(g)
  {
    var todo := g.Keys;
    ghost var done: set<T> := {};
    while todo != {}
      invariant todo + done == g.Keys && todo !! done
      invariant forall n :: n in done ==> !Recurs(g, n)
      decreases todo
    {
      var node :| node in todo;
      var onCycle := ReachesBack(g, node);
      if onCycle {
        RecursHasCycle(g, node);
        return true;
      }
      todo, done := todo - {node}, done + {node};
    }
    if HasCycle(g) {
      HasCycleRecurs(g);
    }
    return false;
  }

  /** Two paths from 0 meet again at 3: no cycle, but a convergence. */
  function Diamond(): Graph<int>
  {
    map[0 := {1, 2}, 1 := {3}, 2 := {3}, 3 := {}]
  }

  /** The diamond has no cycle, yet nodes 1 and 2, both reachable from 0,
      share the successor 3. */
  lemma DiamondConvergesWithoutCycle()
    ensures Closed(Diamond()) && !HasCycle(Diamond()) && Converges(Diamond())
  {
    var g := Diamond();
    var rank := map[0 := 0, 1 := 1, 2 := 1, 3 := 2];
    RankedNoCycle(g, g.Keys, rank);
    NoCycleFromNodes(g);
    assert PathFromTo(g, [0, 1], 0, 1);
    assert PathFromTo(g, [0, 2], 0, 2);
    assert ConvergeAt(g, 0, 1, 2, 3);
  }

  /** `isCyclic()` as written reports the acyclic diamond as cyclic. */
  method IsCyclicOnDiamond() returns (r: bool)
    ensures r && !HasCycle(Diamond())
  {
    DiamondConvergesWithoutCycle();
    r := IsCyclic(Diamond());
  }

  /** The corrected `isCyclic()` reports the diamond as acyclic. */
  method IsCyclicCorrectedOnDiamond() returns (r: bool)
    ensures !r
  {
    DiamondConvergesWithoutCycle();
    r := IsCyclicCorrected(Diamond());
  }
}
