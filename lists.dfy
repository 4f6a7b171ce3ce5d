/** `Array.prototype.map` and `Array.prototype.filter` over sequences, with the
    facts the modelled code relies on. */
module Lists {

  /** `l.map(f)`. */
  function Map<A, B>(f: A -> B, l: seq<A>): (r: seq<B>)
    ensures |r| == |l|
  {
    if l == [] then [] else Map(f, l[..|l| - 1]) + [f(l[|l| - 1])]
  }

  /** Entry `i` of the result is `f` of entry `i` of the input. */
  lemma {:induction false} MapAt<A, B>(f: A -> B, l: seq<A>, i: nat)
    requires i < |l|
    ensures Map(f, l)[i] == f(l[i])
  {
    if i < |l| - 1 {
      MapAt(f, l[..|l| - 1], i);
    }
  }

  lemma {:induction false} MapAppend<A, B>(f: A -> B, a: seq<A>, b: seq<A>)
    ensures Map(f, a + b) == Map(f, a) + Map(f, b)
    decreases |b|
  {
    if b != [] {
      var b0 := b[..|b| - 1];
      assert (a + b)[..|a + b| - 1] == a + b0;
      MapAppend(f, a, b0);
    } else {
      assert a + b == a;
    }
  }

  /** A map that changes no entry returns its input. */
  lemma {:induction false} MapFixed<A>(f: A -> A, l: seq<A>)
    requires forall i :: 0 <= i < |l| ==> f(l[i]) == l[i]
    ensures Map(f, l) == l
  {
    if l != [] {
      var init := l[..|l| - 1];
      MapFixed(f, init);
      assert init + [l[|l| - 1]] == l;
    }
  }

  /** `x` is a result of the map exactly when some entry maps to it. */
  lemma MapMembers<A, B>(f: A -> B, l: seq<A>, y: B)
    ensures y in Map(f, l) <==> exists i :: 0 <= i < |l| && f(l[i]) == y
  {
    if y in Map(f, l) {
      var i :| 0 <= i < |l| && Map(f, l)[i] == y;
      MapAt(f, l, i);
    }
    if exists i :: 0 <= i < |l| && f(l[i]) == y {
      var i :| 0 <= i < |l| && f(l[i]) == y;
      MapAt(f, l, i);
    }
  }

  /** `l.filter(p)`. */
  function Filter<A>(p: A -> bool, l: seq<A>): (r: seq<A>)
    ensures |r| <= |l|
  {
    if l == [] then []
    else if p(l[|l| - 1]) then Filter(p, l[..|l| - 1]) + [l[|l| - 1]]
    else Filter(p, l[..|l| - 1])
  }

  /** An entry is kept exactly when it is in the input and passes the test. */
  lemma {:induction false} FilterMembers<A>(p: A -> bool, l: seq<A>, x: A)
    ensures x in Filter(p, l) <==> x in l && p(x)
  {
    if l != [] {
      var init := l[..|l| - 1];
      FilterMembers(p, init, x);
      assert l == init + [l[|l| - 1]];
    }
  }

  /** Every kept entry passes the test. */
  lemma FilterPasses<A>(p: A -> bool, l: seq<A>, i: nat)
    requires i < |Filter(p, l)|
    ensures p(Filter(p, l)[i])
  {
    FilterMembers(p, l, Filter(p, l)[i]);
  }

  lemma {:induction false} FilterAppend<A>(p: A -> bool, a: seq<A>, b: seq<A>)
    ensures Filter(p, a + b) == Filter(p, a) + Filter(p, b)
    decreases |b|
  {
    if b != [] {
      var b0 := b[..|b| - 1];
      assert (a + b)[..|a + b| - 1] == a + b0;
      FilterAppend(p, a, b0);
    } else {
      assert a + b == a;
    }
  }

  /** A filter every entry passes returns its input. */
  lemma {:induction false} FilterAll<A>(p: A -> bool, l: seq<A>)
    requires forall i :: 0 <= i < |l| ==> p(l[i])
    ensures Filter(p, l) == l
  {
    if l != [] {
      var init := l[..|l| - 1];
      FilterAll(p, init);
      assert init + [l[|l| - 1]] == l;
    }
  }

  /** A filter no entry passes returns nothing. */
  lemma {:induction false} FilterNone<A>(p: A -> bool, l: seq<A>)
    requires forall i :: 0 <= i < |l| ==> !p(l[i])
    ensures Filter(p, l) == []
  {
    if l != [] {
      FilterNone(p, l[..|l| - 1]);
    }
  }

  /** Filtering by two tests one after the other is filtering by both. */
  lemma {:induction false} FilterFilter<A>(p: A -> bool, q: A -> bool, both: A -> bool, l: seq<A>)
    requires forall x :: both(x) == (q(x) && p(x))
    ensures Filter(p, Filter(q, l)) == Filter(both, l)
  {
    if l != [] {
      var init := l[..|l| - 1];
      var last := l[|l| - 1];
      FilterFilter(p, q, both, init);
      if q(last) {
        var kept := Filter(q, init);
        assert (kept + [last])[..|kept + [last]| - 1] == kept;
      }
    }
  }

  /** Tests that agree on every entry filter alike. */
  lemma {:induction false} FilterSame<A>(p: A -> bool, q: A -> bool, l: seq<A>)
    requires forall i :: 0 <= i < |l| ==> p(l[i]) == q(l[i])
    ensures Filter(p, l) == Filter(q, l)
  {
    if l != [] {
      FilterSame(p, q, l[..|l| - 1]);
    }
  }

  /** No entry occurs twice. */
  predicate Distinct<A(==)>(l: seq<A>) {
    forall i, j :: 0 <= i < j < |l| ==> l[i] != l[j]
  }

  /** Filtering a list without repeats leaves none. */
  lemma {:induction false} FilterDistinct<A>(p: A -> bool, l: seq<A>)
    requires Distinct(l)
    ensures Distinct(Filter(p, l))
  {
    if l != [] {
      var init := l[..|l| - 1];
      var last := l[|l| - 1];
      assert Distinct(init);
      FilterDistinct(p, init);
      FilterMembers(p, init, last);
      assert last !in init;
    }
  }
}
