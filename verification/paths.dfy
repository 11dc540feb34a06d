/** Paths, cycles and reachability in a `Graph`, and the general facts about
    them that the graph algorithms rely on. */
module Paths {
  import opened Sets
  import opened Graphs

  /** `p` is a non-empty walk along edges of `g`, every node of it a key. */
  ghost predicate IsPath<T>(g: Graph<T>, p: seq<T>)
  {
    && |p| >= 1
    && (forall i :: 0 <= i < |p| ==> p[i] in g)
    && (forall i :: 0 <= i < |p| - 1 ==> p[i + 1] in g[p[i]])
  }

  /** `p` is a path of `g` from `a` to `b`. */
  ghost predicate PathFromTo<T>(g: Graph<T>, p: seq<T>, a: T, b: T)
  {
    IsPath(g, p) && p[0] == a && p[|p| - 1] == b
  }

  /** `b` can be reached from `a` by following zero or more edges. */
  ghost predicate Reaches<T(!new)>(g: Graph<T>, a: T, b: T)
  {
    exists p :: PathFromTo(g, p, a, b)
  }

  /** `p` is a closed walk of at least one edge (a self-loop counts). */
  ghost predicate IsCycle<T>(g: Graph<T>, p: seq<T>)
  {
    IsPath(g, p) && |p| >= 2 && p[0] == p[|p| - 1]
  }

  /** `x` lies on some cycle. */
  ghost predicate OnCycle<T(!new)>(g: Graph<T>, x: T)
  {
    exists p :: IsCycle(g, p) && p[0] == x
  }

  /** `g` contains a cycle. */
  ghost predicate HasCycle<T(!new)>(g: Graph<T>)
  {
    exists p :: IsCycle(g, p)
  }

  /** Every node of `g` lies on no cycle exactly when `g` has no cycle. */
  lemma NoCycleFromNodes<T(!new)>(g: Graph<T>)
    requires forall x :: x in g ==> !OnCycle(g, x)
    ensures !HasCycle(g)
  {
    if p :| IsCycle(g, p) {
      assert OnCycle(g, p[0]);
    }
  }

  /** A node reaches nothing but itself unless it has a successor. */
  lemma StayOrStep<T(!new)>(g: Graph<T>, a: T, b: T)
    requires Reaches(g, a, b)
    ensures b == a || g[a] != {}
  {
    var p :| PathFromTo(g, p, a, b);
    if b != a {
      assert p[1] in g[a];
    }
  }

  /** A one-node path reaches its own node. */
  lemma ReachesSelf<T(!new)>(g: Graph<T>, a: T)
    requires a in g
    ensures Reaches(g, a, a)
  {
    assert PathFromTo(g, [a], a, a);
  }

  /** Reachability extends along an edge. */
  lemma ReachesStep<T(!new)>(g: Graph<T>, a: T, b: T, c: T)
    requires Reaches(g, a, b)
    requires b in g && c in g[b] && c in g
    ensures Reaches(g, a, c)
  {
    var p :| PathFromTo(g, p, a, b);
    assert PathFromTo(g, p + [c], a, c);
  }

  /** Reachability is transitive. */
  lemma ReachesTrans<T(!new)>(g: Graph<T>, a: T, b: T, c: T)
    requires Reaches(g, a, b) && Reaches(g, b, c)
    ensures Reaches(g, a, c)
  {
    var p :| PathFromTo(g, p, a, b);
    var q :| PathFromTo(g, q, b, c);
    var r := p + q[1..];
    assert forall i :: 0 <= i < |p| ==> r[i] == p[i];
    assert forall i :: |p| <= i < |r| ==> r[i] == q[i - |p| + 1];
    assert PathFromTo(g, r, a, c);
  }

  /** An edge followed by a path is a path. */
  lemma PathPrepend<T>(g: Graph<T>, a: T, p: seq<T>)
    requires IsPath(g, p)
    requires a in g && p[0] in g[a]
    ensures IsPath(g, [a] + p)
  {
  }

  /** A path followed by an edge out of its last node is a path. */
  lemma PathAppend<T>(g: Graph<T>, p: seq<T>, b: T)
    requires IsPath(g, p)
    requires b in g && b in g[p[|p| - 1]]
    ensures IsPath(g, p + [b])
  {
  }

  /** Every suffix of a path is a path. */
  lemma PathSuffix<T>(g: Graph<T>, p: seq<T>, k: nat)
    requires IsPath(g, p)
    requires k < |p|
    ensures IsPath(g, p[k..])
  {
    var q := p[k..];
    assert forall i :: 0 <= i < |q| ==> q[i] == p[k + i];
  }

  /** A set that is closed under successors and whose `rank` strictly grows
      along every edge leaving it: a path starting in it stays in it and ends at
      a strictly higher rank. */
  lemma {:induction false} RankAlongPath<T>(g: Graph<T>, w: set<T>, rank: map<T, int>, p: seq<T>)
    requires w <= g.Keys && w <= rank.Keys
    requires forall x, y :: x in w && y in g[x] ==> y in w && rank[x] < rank[y]
    requires IsPath(g, p) && p[0] in w
    ensures forall i :: 0 <= i < |p| ==> p[i] in w
    ensures |p| >= 2 ==> rank[p[0]] < rank[p[|p| - 1]]
    decreases |p|
  {
    if |p| >= 2 {
      var q := p[1..];
      PathSuffix(g, p, 1);
      RankAlongPath(g, w, rank, q);
      assert forall i :: 1 <= i < |p| ==> p[i] == q[i - 1];
    }
  }

  /** Under such a ranking no cycle passes through the set. */
  lemma RankedNoCycle<T(!new)>(g: Graph<T>, w: set<T>, rank: map<T, int>)
    requires w <= g.Keys && w <= rank.Keys
    requires forall x, y :: x in w && y in g[x] ==> y in w && rank[x] < rank[y]
    ensures forall x :: x in w ==> !OnCycle(g, x)
  {
    forall x | x in w
      ensures !OnCycle(g, x)
    {
      if p :| IsCycle(g, p) && p[0] == x {
        RankAlongPath(g, w, rank, p);
      }
    }
  }

  /** `x` has a predecessor inside `r`. */
  ghost predicate HasPredIn<T>(g: Graph<T>, r: set<T>, x: T)
  {
    exists u :: u in r && u in g && x in g[u]
  }

  /** Builds a path of `n` nodes ending at `v` that never leaves `r`, when
      every node of `r` has a predecessor in `r`. */
  lemma {:induction false} BackChain<T>(g: Graph<T>, r: set<T>, v: T, n: nat) returns (p: seq<T>)
    requires r <= g.Keys
    requires forall x :: x in r ==> HasPredIn(g, r, x)
    requires v in r && n >= 1
    ensures |p| == n && IsPath(g, p) && p[|p| - 1] == v
    ensures Elems(p) <= r
    decreases n
  {
    if n == 1 {
      p := [v];
    } else {
      var u :| u in r && u in g && v in g[u];
      var q := BackChain(g, r, u, n - 1);
      p := q + [v];
      assert forall x :: x in p ==> x in q || x == v;
    }
  }

  /** A non-empty graph in which every node has a predecessor has a cycle. */
  lemma AllHavePredecessors<T(!new)>(g: Graph<T>)
    requires g.Keys != {}
    requires forall v {:trigger IsSource(g, v)} :: v in g ==> !IsSource(g, v)
    ensures HasCycle(g)
  {
    forall x | x in g.Keys
      ensures HasPredIn(g, g.Keys, x)
    {
      assert !IsSource(g, x);
      var u :| u in Preds(g, x);
    }
    CycleFromPredecessors(g, g.Keys);
  }

  /** If every node of a non-empty set of nodes has a predecessor inside the
      set, the graph has a cycle (walk backwards more steps than there are
      nodes and some node repeats). */
  lemma CycleFromPredecessors<T(!new)>(g: Graph<T>, r: set<T>)
    requires r <= g.Keys && r != {}
    requires forall x :: x in r ==> HasPredIn(g, r, x)
    ensures HasCycle(g)
  {
    var v :| v in r;
    var p := BackChain(g, r, v, |r| + 1);
    if NoDup(p) {
      NoDupBound(p, r);
      assert false;
    }
    var i, j :| 0 <= i < j < |p| && p[i] == p[j];
    var c := p[i..j + 1];
    assert forall k :: 0 <= k < |c| ==> c[k] == p[i + k];
    assert IsCycle(g, c);
  }

  /** A set closed under successors holds everything reachable from it. */
  lemma {:induction false} ClosedSetHoldsPath<T>(g: Graph<T>, w: set<T>, p: seq<T>)
    requires forall x, y :: x in w && x in g && y in g[x] ==> y in w
    requires IsPath(g, p) && p[0] in w
    ensures p[|p| - 1] in w
    decreases |p|
  {
    if |p| >= 2 {
      PathSuffix(g, p, 1);
      ClosedSetHoldsPath(g, w, p[1..]);
    }
  }

  /** Reading a path backwards. */
  function Backwards<T>(p: seq<T>): (q: seq<T>)
    ensures |q| == |p|
    ensures forall i :: 0 <= i < |p| ==> q[i] == p[|p| - 1 - i]
  {
    seq(|p|, i requires 0 <= i < |p| => p[|p| - 1 - i])
  }

  /** A path of the reversed graph, read backwards, is a path of the graph. */
  lemma BackwardsPath<T>(g: Graph<T>, p: seq<T>)
    requires Closed(g)
    requires IsPath(Reverse(g), p)
    ensures IsPath(g, Backwards(p))
  {
    ReverseClosed(g);
    var q := Backwards(p);
    forall i | 0 <= i < |q| - 1
      ensures q[i + 1] in g[q[i]]
    {
      var k := |p| - 2 - i;
      assert p[k + 1] in Reverse(g)[p[k]];
    }
  }

  /** A path of the graph, read backwards, is a path of the reversed graph. */
  lemma BackwardsPathOfReverse<T>(g: Graph<T>, p: seq<T>)
    requires Closed(g)
    requires IsPath(g, p)
    ensures IsPath(Reverse(g), Backwards(p))
  {
    ReverseClosed(g);
    var q := Backwards(p);
    forall i | 0 <= i < |q| - 1
      ensures q[i + 1] in Reverse(g)[q[i]]
    {
      var k := |p| - 2 - i;
      assert p[k + 1] in g[p[k]];
    }
  }
}
