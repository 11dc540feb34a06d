/** `LongestPathFinder`: the longest chain of dependees from each package.

    The constructor receives a graph `g` (the source's `depGraph`) and keeps
    its inversion. The successors of a package in the inverted graph are its
    dependees: the packages with an edge into it in `g`. `main` inverts the
    project-reference graph before building the finder (index.ts:48-50), so
    when the program runs, `g` is that inverse and the dependees of a
    package are the projects it references. For each package the finder
    records the number of packages on the longest chain of dependees
    starting at it, the package itself included. A chain of the inverted
    graph starting at `n` is, read backwards, a path of `g` ending at `n`. */
module LongestPaths {
  import opened Results
  import opened Sets
  import opened Graphs
  import opened Paths
  import opened Kahn
  import opened Inversion

  datatype Finder<T> = Finder(inverted: Graph<T>, lengths: map<T, int>)

  /** The recurrence of the constructor at `n`: 1 without dependees, else one
      more than the largest length among the dependees. */
  ghost predicate LongestAt<T>(inv: Graph<T>, lengths: map<T, int>, n: T)
  {
    && n in inv && n in lengths
    && lengths[n] >= 1
    && (inv[n] == {} ==> lengths[n] == 1)
    && (inv[n] != {} ==>
          && (forall d :: d in inv[n] ==> d in lengths && lengths[d] + 1 <= lengths[n])
          && (exists d :: d in inv[n] && d in lengths && lengths[d] + 1 == lengths[n]))
  }

  /** `lengths` solves the recurrence at every package of `inv`. */
  ghost predicate Longest<T>(inv: Graph<T>, lengths: map<T, int>)
  {
    && Closed(inv)
    && lengths.Keys == inv.Keys
    && forall n {:trigger LongestAt(inv, lengths, n)} :: n in inv ==> LongestAt(inv, lengths, n)
  }

  /** No chain of dependees from `n` has more packages than `lengths[n]`. */
  lemma {:induction false} ChainBound<T>(inv: Graph<T>, lengths: map<T, int>, p: seq<T>)
    requires Longest(inv, lengths) && IsPath(inv, p)
    ensures |p| <= lengths[p[0]]
    decreases |p|
  {
    assert LongestAt(inv, lengths, p[0]);
    if |p| > 1 {
      PathSuffix(inv, p, 1);
      ChainBound(inv, lengths, p[1..]);
      assert p[1] in inv[p[0]];
    }
  }

  /** Some chain of dependees from `n` has exactly `lengths[n]` packages and
      ends at a package without dependees. */
  lemma {:induction false} ChainWitness<T>(inv: Graph<T>, lengths: map<T, int>, n: T) returns (p: seq<T>)
    requires Longest(inv, lengths) && n in inv
    ensures IsPath(inv, p) && p[0] == n && |p| == lengths[n]
    ensures inv[p[|p| - 1]] == {}
    decreases lengths[n]
  {
    assert LongestAt(inv, lengths, n);
    if inv[n] == {} {
      p := [n];
    } else {
      var d :| d in inv[n] && d in lengths && lengths[d] + 1 == lengths[n];
      var q := ChainWitness(inv, lengths, d);
      PathPrepend(inv, n, q);
      p := [n] + q;
    }
  }

  /** The recurrence has at most one solution: whatever order the
      constructor visits packages and dependees in, the lengths are the
      same. */
  lemma LongestUnique<T>(inv: Graph<T>, l1: map<T, int>, l2: map<T, int>)
    requires Longest(inv, l1) && Longest(inv, l2)
    ensures l1 == l2
  {
    forall n | n in inv
      ensures l1[n] == l2[n]
    {
      var p1 := ChainWitness(inv, l1, n);
      var p2 := ChainWitness(inv, l2, n);
      ChainBound(inv, l2, p1);
      ChainBound(inv, l1, p2);
    }
  }

  /** Over the graph `g` whose inversion the finder holds, no
      path ending at `n` has more packages than `lengths[n]`. */
  lemma LengthsBoundChains<T>(g: Graph<T>, lengths: map<T, int>, n: T)
    requires Closed(g) && Longest(Reverse(g), lengths) && n in g
    ensures forall p :: IsPath(g, p) && p[|p| - 1] == n ==> |p| <= lengths[n]
  {
    ReverseClosed(g);
    forall p | IsPath(g, p) && p[|p| - 1] == n
      ensures |p| <= lengths[n]
    {
      BackwardsPathOfReverse(g, p);
      var q := Backwards(p);
      assert q[0] == n && |q| == |p|;
      ChainBound(Reverse(g), lengths, q);
    }
  }

  /** Over the graph `g` whose inversion the finder holds, some
      path ending at `n` has exactly `lengths[n]` packages; with
      `LengthsBoundChains`, `lengths[n]` is the number of packages on a
      longest path of `g` ending at `n`. */
  lemma LengthsReachedByChains<T>(g: Graph<T>, lengths: map<T, int>, n: T)
    requires Closed(g) && Longest(Reverse(g), lengths) && n in g
    ensures exists p :: IsPath(g, p) && p[|p| - 1] == n && |p| == lengths[n]
  {
    ReverseClosed(g);
    var q := ChainWitness(Reverse(g), lengths, n);
    BackwardsPath(g, q);
    assert Backwards(q)[|q| - 1] == n;
  }

  /** The inner loop of the constructor: starting from -1, the largest
      `lengths[d] + 1` over the dependees `ds`, in arbitrary order. */
  method LongestViaDependees<T>(lengths: map<T, int>, ds: set<T>) returns (best: int)
    requires ds <= lengths.Keys
    ensures best >= -1
    ensures forall d :: d in ds ==> lengths[d] + 1 <= best
    ensures best == -1 || exists d :: d in ds && lengths[d] + 1 == best
  {
    best := -1;
    var rest := ds;
    while rest != {}
      invariant rest <= ds && best >= -1
      invariant forall d :: d in ds && d !in rest ==> lengths[d] + 1 <= best
      invariant best == -1 || exists d :: d in ds && lengths[d] + 1 == best
      decreases rest
    {
      var d :| d in rest;
      if lengths[d] + 1 > best {
        best := lengths[d] + 1;
      }
      rest := rest - {d};
    }
  }

  /** The packages handled so far have their lengths, solving the recurrence. */
  ghost predicate LengthsSoFar<T>(inv: Graph<T>, lengths: map<T, int>, done: set<T>)
  {
    && lengths.Keys == done && done <= inv.Keys
    && forall n :: n in done ==> LongestAt(inv, lengths, n)
  }

  /** Recording the length of one more package keeps `LengthsSoFar`. */
  lemma RecordLength<T>(inv: Graph<T>, lengths: map<T, int>, done: set<T>, pkg: T, len: int)
    requires LengthsSoFar(inv, lengths, done) && pkg in inv && pkg !in done
    requires LongestAt(inv, lengths[pkg := len], pkg)
    ensures LengthsSoFar(inv, lengths[pkg := len], done + {pkg})
  {
    var lengths' := lengths[pkg := len];
    forall n | n in done
      ensures LongestAt(inv, lengths', n)
    {
      assert LongestAt(inv, lengths, n);
      if inv[n] != {} {
        var d :| d in inv[n] && d in lengths && lengths[d] + 1 == lengths[n];
        assert d in lengths' && lengths'[d] + 1 == lengths'[n];
      }
    }
  }

  /** In a topological order, the dependees of a package, its predecessors in
      `g`, all come before it. */
  lemma DependeesBefore<T>(g: Graph<T>, order: seq<T>, i: int)
    requires Closed(g) && IsTopoOrder(g, order) && 0 <= i < |order|
    ensures order[i] in Reverse(g)
    ensures Reverse(g)[order[i]] <= Elems(order[..i])
  {
    assert order[i] in Elems(order);
    forall d | d in Preds(g, order[i])
      ensures d in Elems(order[..i])
    {
      assert d in Elems(order);
      var k :| 0 <= k < |order| && order[k] == d;
      assert order[..i][k] == d;
    }
  }

  /** One round of the constructor: the length of `order[i]`, from the
      lengths of its dependees, all recorded in earlier rounds. */
  method LengthOf<T>(g: Graph<T>, inv: Graph<T>, order: seq<T>, i: int, lengths: map<T, int>)
    returns (len: int)
    requires Closed(g) && inv == Reverse(g) && IsTopoOrder(g, order) && 0 <= i < |order|
    requires LengthsSoFar(inv, lengths, Elems(order[..i]))
    ensures LongestAt(inv, lengths[order[i] := len], order[i])
  {
    var pkg := order[i];
    DependeesBefore(g, order, i);
    var dependees := inv[pkg];
    if dependees == {} {
      return 1;
    }
    len := LongestViaDependees(lengths, dependees);
    forall d | d in dependees
      ensures lengths[d] >= 1
    {
      assert LongestAt(inv, lengths, d);
    }
    NoDupNotBefore(order, i);
    DependeesLength(inv, lengths, pkg, len);
  }

  /** The largest dependee length plus one solves the recurrence at `pkg`. */
  lemma DependeesLength<T>(inv: Graph<T>, lengths: map<T, int>, pkg: T, len: int)
    requires pkg in inv && inv[pkg] != {} && pkg !in inv[pkg] && inv[pkg] <= lengths.Keys
    requires forall d :: d in inv[pkg] ==> lengths[d] >= 1
    requires forall d :: d in inv[pkg] ==> lengths[d] + 1 <= len
    requires len == -1 || exists d :: d in inv[pkg] && lengths[d] + 1 == len
    ensures LongestAt(inv, lengths[pkg := len], pkg)
  {
    var lengths' := lengths[pkg := len];
    var d :| d in inv[pkg];
    assert lengths[d] + 1 <= len;
    forall e | e in inv[pkg]
      ensures e in lengths' && lengths'[e] + 1 <= lengths'[pkg]
    {
      assert e != pkg;
    }
    var w :| w in inv[pkg] && lengths[w] + 1 == len;
    assert w != pkg;
    assert w in lengths' && lengths'[w] + 1 == lengths'[pkg];
  }

  /** In a list without repeats, an element is not among those before it. */
  lemma NoDupNotBefore<T>(xs: seq<T>, i: int)
    requires NoDup(xs) && 0 <= i < |xs|
    ensures xs[i] !in Elems(xs[..i])
  {
  }

  /** The loop of the constructor: record each package's length, in a
      topological order of `g`. */
  method RecordLengths<T>(g: Graph<T>, inverted: Graph<T>, order: seq<T>) returns (lengths: map<T, int>)
    requires Closed(g) && inverted == Reverse(g) && IsTopoOrder(g, order)
    ensures LengthsSoFar(inverted, lengths, Elems(order))
  {
    lengths := map[];
    var i := 0;
    while i < |order|
      invariant 0 <= i <= |order|
      invariant LengthsSoFar(inverted, lengths, Elems(order[..i]))
      decreases |order| - i
    {
      var len := LengthOf(g, inverted, order, i, lengths);
      RecordNext(g, inverted, order, i, lengths, len);
      lengths := lengths[order[i] := len];
      i := i + 1;
    }
    assert order[..|order|] == order;
  }

  /** Recording the length of `order[i]` extends `LengthsSoFar` by one more
      package of the order. */
  lemma RecordNext<T>(g: Graph<T>, inv: Graph<T>, order: seq<T>, i: int, lengths: map<T, int>, len: int)
    requires Closed(g) && inv == Reverse(g) && IsTopoOrder(g, order) && 0 <= i < |order|
    requires LengthsSoFar(inv, lengths, Elems(order[..i]))
    requires LongestAt(inv, lengths[order[i] := len], order[i])
    ensures LengthsSoFar(inv, lengths[order[i] := len], Elems(order[..i + 1]))
  {
    DependeesBefore(g, order, i);
    NoDupNotBefore(order, i);
    RecordLength(inv, lengths, Elems(order[..i]), order[i], len);
    assert order[..i + 1] == order[..i] + [order[i]];
    ElemsSnoc(order[..i], order[i]);
  }

  /** `new LongestPathFinder(depGraph)`: invert the graph, then, in a
      topological order of `g`, record each package's length. Fails as
      `topoSort()` does: on the empty graph and on a cyclic one. */
  method NewFinder<T(!new)>(g: Graph<T>) returns (r: Result<Finder<T>, TopoError>)
    requires Closed(g)
    ensures r.Ok? <==> g != map[] && !HasCycle(g)
    ensures r.Ok? ==> r.value.inverted == Reverse(g) && Longest(r.value.inverted, r.value.lengths)
    ensures r.Ok? ==> r.value.lengths.Keys == g.Keys
  {
    var inverted := Invert(g);
    var sorted := TopoSort(g);
    if sorted.Err? {
      return Err(sorted.error);
    }
    var lengths := RecordLengths(g, inverted, sorted.value);
    ReverseClosed(g);
    return Ok(Finder(inverted, lengths));
  }

  /** The dependee loop of `longestPathEndingWith()` and the package loop of
      `longestPath()`: the first candidate, replaced by any later one with a
      strictly greater length; the candidates come in arbitrary order. */
  method ArgMax<T>(lengths: map<T, int>, candidates: set<T>) returns (best: T)
    requires candidates != {} && candidates <= lengths.Keys
    ensures best in candidates
    ensures forall c :: c in candidates ==> lengths[c] <= lengths[best]
  {
    var first :| first in candidates;
    best := first;
    var bestLen := lengths[first];
    var rest := candidates - {first};
    while rest != {}
      invariant rest <= candidates && best in candidates && bestLen == lengths[best]
      invariant forall c :: c in candidates && c !in rest ==> lengths[c] <= bestLen
      decreases rest
    {
      var c :| c in rest;
      if lengths[c] > bestLen {
        best, bestLen := c, lengths[c];
      }
      rest := rest - {c};
    }
  }

  /** `longestPathEndingWith(n)`: from `n`, step to a dependee of greatest
      length until a package without dependees. The result is a longest
      chain of dependees from `n`. A package that is not in the graph makes
      the source's assertion fail, here `None`. */
  method LongestPathEndingWith<T>(f: Finder<T>, n: T) returns (r: Option<seq<T>>)
    requires Longest(f.inverted, f.lengths)
    ensures r.None? <==> n !in f.inverted
    ensures r.Some? ==> IsPath(f.inverted, r.value) && r.value[0] == n
    ensures r.Some? ==> |r.value| == f.lengths[n] && f.inverted[r.value[|r.value| - 1]] == {}
    ensures r.Some? ==> forall i :: 0 <= i < |r.value| ==> f.lengths[r.value[i]] == f.lengths[n] - i
    ensures r.Some? ==> forall q :: IsPath(f.inverted, q) && q[0] == n ==> |q| <= |r.value|
  {
    if n !in f.inverted {
      return None;
    }
    var inv, lengths := f.inverted, f.lengths;
    var longestPath := [n];
    var toVisit: Option<T> := Some(n);
    while toVisit.Some?
      invariant IsPath(inv, longestPath) && longestPath[0] == n
      invariant forall i :: 0 <= i < |longestPath| ==> lengths[longestPath[i]] == lengths[n] - i
      invariant toVisit.Some? ==> toVisit.value == longestPath[|longestPath| - 1]
      invariant toVisit.None? ==> inv[longestPath[|longestPath| - 1]] == {}
      decreases if toVisit.Some? then lengths[toVisit.value] else 0
    {
      var current := toVisit.value;
      assert LongestAt(inv, lengths, current);
      var dependees := inv[current];
      if dependees == {} {
        toVisit := None;
      } else {
        var next := ArgMax(lengths, dependees);
        assert LongestAt(inv, lengths, next);
        ChainStep(inv, lengths, n, longestPath, next);
        longestPath := longestPath + [next];
        toVisit := Some(next);
      }
    }
    assert LongestAt(inv, lengths, longestPath[|longestPath| - 1]);
    forall q | IsPath(inv, q) && q[0] == n
      ensures |q| <= |longestPath|
    {
      ChainBound(inv, lengths, q);
    }
    return Some(longestPath);
  }

  /** Stepping to a dependee of greatest length extends the chain by a
      package whose length is one less. */
  lemma ChainStep<T>(inv: Graph<T>, lengths: map<T, int>, n: T, path: seq<T>, next: T)
    requires Longest(inv, lengths) && IsPath(inv, path) && path[0] == n
    requires forall i :: 0 <= i < |path| ==> lengths[path[i]] == lengths[n] - i
    requires next in inv[path[|path| - 1]]
    requires forall d :: d in inv[path[|path| - 1]] ==> lengths[d] <= lengths[next]
    ensures IsPath(inv, path + [next]) && (path + [next])[0] == n
    ensures forall i :: 0 <= i < |path| + 1 ==> lengths[(path + [next])[i]] == lengths[n] - i
  {
    var last := path[|path| - 1];
    assert LongestAt(inv, lengths, last);
    PathAppend(inv, path, next);
  }

  /** `longestPath()`: a longest chain of dependees among all packages. With
      no package recorded the source's assertion fails, here `None`. */
  method LongestPath<T>(f: Finder<T>) returns (r: Option<seq<T>>)
    requires Longest(f.inverted, f.lengths)
    ensures r.None? <==> f.lengths == map[]
    ensures r.Some? ==> IsPath(f.inverted, r.value) && f.inverted[r.value[|r.value| - 1]] == {}
    ensures r.Some? ==> |r.value| == f.lengths[r.value[0]]
    ensures r.Some? ==> forall m :: m in f.lengths ==> f.lengths[m] <= |r.value|
    ensures r.Some? ==> forall q :: IsPath(f.inverted, q) ==> |q| <= |r.value|
  {
    if f.lengths == map[] {
      return None;
    }
    assert f.lengths.Keys != {} by {
      var n :| n in f.lengths;
    }
    var terminal := ArgMax(f.lengths, f.lengths.Keys);
    r := LongestPathEndingWith(f, terminal);
    forall q | IsPath(f.inverted, q)
      ensures |q| <= |r.value|
    {
      ChainBound(f.inverted, f.lengths, q);
    }
  }

  /** A finder the constructor built never fails the assertions of
      `longestPath()` (index.ts:115) and `longestPathEndingWith()`
      (index.ts:124) for a node of its graph: both queries answer. */
  method BuiltFinderPaths<T(!new)>(g: Graph<T>, n: T) returns (whole: Option<seq<T>>, ending: Option<seq<T>>)
    requires Closed(g)
    ensures whole.Some? <==> g != map[] && !HasCycle(g)
    ensures ending.Some? <==> g != map[] && !HasCycle(g) && n in g
  {
    var r := NewFinder(g);
    if r.Err? {
      return None, None;
    }
    var f := r.value;
    assert f.lengths != map[] by {
      var x :| x in g;
      assert x in f.lengths;
    }
    whole := LongestPath(f);
    ending := LongestPathEndingWith(f, n);
  }

  /** The graph with edges `C -> B`, `C -> A` and `B -> A`. */
  function Chain3(): Graph<char>
  {
    map['C' := {'B', 'A'}, 'B' := {'A'}, 'A' := {}]
  }

  /** Inverting `Chain3`: `A` has dependees `B` and `C`, `B` has `C`. */
  lemma Chain3Inverted()
    ensures Closed(Chain3()) && !HasCycle(Chain3())
    ensures Reverse(Chain3()) == map['C' := {}, 'B' := {'C'}, 'A' := {'B', 'C'}]
  {
    var g := Chain3();
    RankedNoCycle(g, g.Keys, map['C' := 0, 'B' := 1, 'A' := 2]);
    NoCycleFromNodes(g);
    assert Preds(g, 'C') == {};
    assert Preds(g, 'B') == {'C'};
    assert Preds(g, 'A') == {'B', 'C'};
  }

  /** The lengths of `Chain3`: one package up to `C`, two up to `B`, three
      up to `A`. */
  lemma Chain3Lengths()
    ensures Closed(Chain3()) && !HasCycle(Chain3())
    ensures Longest(Reverse(Chain3()), map['C' := 1, 'B' := 2, 'A' := 3])
  {
    Chain3Inverted();
    var inv: Graph<char> := map['C' := {}, 'B' := {'C'}, 'A' := {'B', 'C'}];
    var lengths := map['C' := 1, 'B' := 2, 'A' := 3];
    assert LongestAt(inv, lengths, 'C');
    assert LongestAt(inv, lengths, 'B') by {
      assert 'C' in inv['B'] && lengths['C'] + 1 == lengths['B'];
    }
    assert LongestAt(inv, lengths, 'A') by {
      assert 'B' in inv['A'] && lengths['B'] + 1 == lengths['A'];
    }
  }

  /** The finder built over `Chain3` records exactly those lengths. */
  method Chain3Finder() returns (r: Result<Finder<char>, TopoError>)
    ensures r.Ok? && r.value.lengths == map['C' := 1, 'B' := 2, 'A' := 3]
  {
    Chain3Lengths();
    assert 'C' in Chain3();
    r := NewFinder(Chain3());
    LongestUnique(r.value.inverted, r.value.lengths, map['C' := 1, 'B' := 2, 'A' := 3]);
  }
}
