/** The `Sets` helper class of index.ts, and the set view of a sequence. */
module Sets {

  /** The elements of a sequence, as a set. */
  function Elems<T>(xs: seq<T>): set<T>
  {
    set x | x in xs
  }

  /** No element occurs twice in `xs`. */
  predicate NoDup<T(==)>(xs: seq<T>)
  {
    forall i, j :: 0 <= i < j < |xs| ==> xs[i] != xs[j]
  }

  /** `Sets.addAll(s, xs)`: insert the elements of `xs` into `s`, one at a time,
      in iteration order. */
  function AddAll<T>(s: set<T>, xs: seq<T>): (r: set<T>)
    ensures r == s + Elems(xs)
    decreases |xs|
  {
    if |xs| == 0 then s
    else
      ElemsCons(xs);
      AddAll(s + {xs[0]}, xs[1..])
  }

  /** The elements of a non-empty sequence are its head and the elements of its tail. */
  lemma ElemsCons<T>(xs: seq<T>)
    requires |xs| > 0
    ensures Elems(xs) == {xs[0]} + Elems(xs[1..])
  {
    assert xs == [xs[0]] + xs[1..];
  }

  /** Appending a new element keeps a sequence duplicate-free and adds it to
      the elements. */
  lemma NoDupSnoc<T>(xs: seq<T>, x: T)
    requires NoDup(xs) && x !in Elems(xs)
    ensures NoDup(xs + [x])
    ensures Elems(xs + [x]) == Elems(xs) + {x}
  {
    ElemsSnoc(xs, x);
  }

  /** The elements of `xs + [x]` are those of `xs` and `x`. */
  lemma ElemsSnoc<T>(xs: seq<T>, x: T)
    ensures Elems(xs + [x]) == Elems(xs) + {x}
  {
    assert forall y :: y in xs + [x] <==> y in xs || y == x;
  }

  /** Dropping the last element of a duplicate-free sequence leaves a
      duplicate-free sequence without it. */
  lemma NoDupUnsnoc<T>(xs: seq<T>)
    requires NoDup(xs) && |xs| > 0
    ensures NoDup(xs[..|xs| - 1]) && xs[|xs| - 1] !in Elems(xs[..|xs| - 1])
    ensures xs == xs[..|xs| - 1] + [xs[|xs| - 1]]
  {
  }

  /** Adding a new element to `a` grows `p * a` by one exactly when the
      element is in `p`. */
  lemma InterAddCard<T>(p: set<T>, a: set<T>, x: T)
    requires x !in a
    ensures |p * (a + {x})| == |p * a| + (if x in p then 1 else 0)
  {
    if x in p {
      assert p * (a + {x}) == p * a + {x};
    } else {
      assert p * (a + {x}) == p * a;
    }
  }

  /** A sequence without duplicates has as many elements as its set. */
  lemma {:induction false} NoDupCard<T>(xs: seq<T>)
    requires NoDup(xs)
    ensures |Elems(xs)| == |xs|
  {
    if |xs| > 0 {
      var last := xs[|xs| - 1];
      var init := xs[..|xs| - 1];
      assert Elems(xs) == Elems(init) + {last} by {
        assert forall x :: x in xs <==> x in init || x == last;
      }
      assert last !in Elems(init);
      NoDupCard(init);
    }
  }

  /** Pigeonhole: a duplicate-free sequence drawn from `r` is no longer than `r`. */
  lemma NoDupBound<T>(xs: seq<T>, r: set<T>)
    requires NoDup(xs)
    requires Elems(xs) <= r
    ensures |xs| <= |r|
  {
    NoDupCard(xs);
    assert |Elems(xs)| <= |r| by {
      SubsetCard(Elems(xs), r);
    }
  }

  /** A set of at most one element holds no two different elements. */
  lemma AtMostOne<T>(p: set<T>, a: T, b: T)
    requires |p| <= 1 && a in p && b in p
    ensures a == b
  {
    if a != b {
      SubsetCard({a, b}, p);
    }
  }

  /** A subset is no larger than its superset. */
  lemma SubsetCard<T>(a: set<T>, b: set<T>)
    requires a <= b
    ensures |a| <= |b|
  {
    assert b == a + (b - a);
  }

  /** `[...s]`: the elements of a set, in some order, each once. */
  method Enumerate<T>(s: set<T>) returns (xs: seq<T>)
    ensures Elems(xs) == s && NoDup(xs)
  {
    xs := [];
    var rest := s;
    while rest != {}
      invariant rest + Elems(xs) == s && rest !! Elems(xs)
      invariant NoDup(xs)
      decreases rest
    {
      var x :| x in rest;
      NoDupSnoc(xs, x);
      xs := xs + [x];
      rest := rest - {x};
    }
  }

  /** In a duplicate-free sequence every element occurs once. */
  lemma {:induction false} NoDupCount<T>(xs: seq<T>)
    requires NoDup(xs)
    ensures forall v :: multiset(xs)[v] == if v in xs then 1 else 0
  {
    if |xs| > 0 {
      var init := xs[..|xs| - 1];
      NoDupUnsnoc(xs);
      NoDupCount(init);
      assert multiset(xs) == multiset(init) + multiset{xs[|xs| - 1]};
      assert forall v :: v in xs <==> v in init || v == xs[|xs| - 1];
    }
  }
}
