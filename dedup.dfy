/** First-occurrence de-duplication by a key, in first-seen order. It is what
    `Array.from(new Set(list))` computes (key = the element itself) and what
    `filter((x, i, self) => i === self.findIndex(y => y.id === x.id))`
    computes (key = the `id` field). */
module Dedup {

  predicate HasKey<T, K(==)>(s: seq<T>, key: T -> K, k: K) {
    exists j :: 0 <= j < |s| && key(s[j]) == k
  }

  /** No two elements share a key. */
  predicate DistinctKeys<T, K(==)>(s: seq<T>, key: T -> K) {
    forall i, j :: 0 <= i < j < |s| ==> key(s[i]) != key(s[j])
  }

  /** `findIndex(x => key(x) === k)`, with `|s|` standing for -1. */
  function FirstIndexBy<T, K(==)>(s: seq<T>, key: T -> K, k: K): (i: nat)
    ensures i <= |s|
    ensures i < |s| ==> key(s[i]) == k
    ensures forall j :: 0 <= j < i ==> key(s[j]) != k
    ensures i < |s| <==> HasKey(s, key, k)
  {
    if s == [] then 0 else if key(s[0]) == k then 0 else 1 + FirstIndexBy(s[1..], key, k)
  }

  /** Keeps an element exactly when no earlier element has its key. */
  function DedupBy<T, K(==)>(s: seq<T>, key: T -> K): (r: seq<T>)
    ensures |r| <= |s|
  {
    if s == [] then []
    else
      var init := DedupBy(s[..|s| - 1], key);
      if HasKey(s[..|s| - 1], key, key(s[|s| - 1])) then init else init + [s[|s| - 1]]
  }

  /** The keys present in the result are exactly the keys present in the input. */
  lemma {:induction false} DedupByKeys<T, K>(s: seq<T>, key: T -> K, k: K)
    ensures HasKey(DedupBy(s, key), key, k) <==> HasKey(s, key, k)
  {
    if s != [] {
      var init := s[..|s| - 1];
      var x := s[|s| - 1];
      var d := DedupBy(init, key);
      DedupByKeys(init, key, k);
      DedupByKeys(init, key, key(x));
      if HasKey(s, key, k) {
        var j :| 0 <= j < |s| && key(s[j]) == k;
        if j < |s| - 1 {
          assert key(init[j]) == k;
        }
        if HasKey(d, key, k) {
          var m :| 0 <= m < |d| && key(d[m]) == k;
          assert key(DedupBy(s, key)[m]) == k;
        } else if !HasKey(init, key, key(x)) {
          assert DedupBy(s, key)[|d|] == x;
        }
      }
      if HasKey(DedupBy(s, key), key, k) {
        var m :| 0 <= m < |DedupBy(s, key)| && key(DedupBy(s, key)[m]) == k;
        if m < |d| {
          assert key(d[m]) == k;
          var j :| 0 <= j < |init| && key(init[j]) == k;
          assert key(s[j]) == k;
        } else {
          assert key(s[|s| - 1]) == k;
        }
      }
    }
  }

  /** No two retained elements share a key. */
  lemma {:induction false} DedupByDistinct<T, K>(s: seq<T>, key: T -> K)
    ensures DistinctKeys(DedupBy(s, key), key)
  {
    if s != [] {
      var init := s[..|s| - 1];
      var x := s[|s| - 1];
      DedupByDistinct(init, key);
      DedupByKeys(init, key, key(x));
    }
  }

  /** Extending the input does not disturb the earlier result. */
  lemma DedupBySnoc<T, K>(s: seq<T>, x: T, key: T -> K)
    ensures DedupBy(s + [x], key) == if HasKey(s, key, key(x)) then DedupBy(s, key) else DedupBy(s, key) + [x]
  {
    assert (s + [x])[..|s + [x]| - 1] == s;
  }

  lemma FirstIndexBySnoc<T, K>(s: seq<T>, x: T, key: T -> K, k: K)
    ensures FirstIndexBy(s + [x], key, k) ==
      if HasKey(s, key, k) then FirstIndexBy(s, key, k) else if key(x) == k then |s| else |s| + 1
  {
    var t := s + [x];
    if HasKey(s, key, k) {
      var i0 := FirstIndexBy(s, key, k);
      assert key(t[i0]) == k;
      assert forall j :: 0 <= j < i0 ==> key(t[j]) != k by {
        assert forall j :: 0 <= j < i0 ==> t[j] == s[j];
      }
    } else {
      assert forall j :: 0 <= j < |s| ==> key(t[j]) != k by {
        assert forall j :: 0 <= j < |s| ==> t[j] == s[j];
      }
      assert key(t[|s|]) == key(x);
    }
  }

  /** Each retained element is the first element of the input with its key. */
  lemma {:induction false} DedupByFirstOccurrence<T, K>(s: seq<T>, key: T -> K)
    ensures var r := DedupBy(s, key);
      forall m :: 0 <= m < |r| ==>
        FirstIndexBy(s, key, key(r[m])) < |s| && r[m] == s[FirstIndexBy(s, key, key(r[m]))]
  {
    if s != [] {
      var init := s[..|s| - 1];
      var x := s[|s| - 1];
      assert s == init + [x];
      DedupByFirstOccurrence(init, key);
      DedupBySnoc(init, x, key);
      var d := DedupBy(init, key);
      var r := DedupBy(s, key);
      forall m | 0 <= m < |r|
        ensures FirstIndexBy(s, key, key(r[m])) < |s| && r[m] == s[FirstIndexBy(s, key, key(r[m]))]
      {
        FirstIndexBySnoc(init, x, key, key(r[m]));
        if m < |d| {
          assert r[m] == d[m];
          DedupByKeys(init, key, key(d[m]));
          assert HasKey(d, key, key(d[m]));
        } else {
          assert r[m] == x;
        }
      }
    }
  }

  /** Retained elements appear in the order of their keys' first occurrences. */
  lemma {:induction false} DedupByOrder<T, K>(s: seq<T>, key: T -> K)
    ensures var r := DedupBy(s, key);
      forall i, j :: 0 <= i < j < |r| ==>
        FirstIndexBy(s, key, key(r[i])) < FirstIndexBy(s, key, key(r[j]))
  {
    if s != [] {
      var init := s[..|s| - 1];
      var x := s[|s| - 1];
      assert s == init + [x];
      DedupByOrder(init, key);
      DedupBySnoc(init, x, key);
      var d := DedupBy(init, key);
      var r := DedupBy(s, key);
      forall i, j | 0 <= i < j < |r|
        ensures FirstIndexBy(s, key, key(r[i])) < FirstIndexBy(s, key, key(r[j]))
      {
        FirstIndexBySnoc(init, x, key, key(r[i]));
        FirstIndexBySnoc(init, x, key, key(r[j]));
        DedupByKeys(init, key, key(r[i]));
        assert HasKey(d, key, key(d[i]));
        if j < |d| {
          DedupByKeys(init, key, key(r[j]));
          assert HasKey(d, key, key(d[j]));
        } else {
          assert r[j] == x && !HasKey(init, key, key(x));
        }
      }
    }
  }

  /** An input whose keys are already distinct is returned unchanged. */
  lemma {:induction false} DedupByOfDistinct<T, K>(s: seq<T>, key: T -> K)
    requires DistinctKeys(s, key)
    ensures DedupBy(s, key) == s
  {
    if s != [] {
      var init := s[..|s| - 1];
      var x := s[|s| - 1];
      assert s == init + [x];
      assert DistinctKeys(init, key);
      DedupByOfDistinct(init, key);
      forall j | 0 <= j < |init|
        ensures key(init[j]) != key(x)
      {
        assert init[j] == s[j];
      }
    }
  }

  /** De-duplicating twice is the same as de-duplicating once. */
  lemma DedupByIdempotent<T, K>(s: seq<T>, key: T -> K)
    ensures DedupBy(DedupBy(s, key), key) == DedupBy(s, key)
  {
    DedupByDistinct(s, key);
    DedupByOfDistinct(DedupBy(s, key), key);
  }

  /** The result for a prefix of the input is a prefix of the result. */
  lemma {:induction false} DedupByPrefix<T, K>(s: seq<T>, t: seq<T>, key: T -> K)
    ensures var d := DedupBy(s, key);
      |d| <= |DedupBy(s + t, key)| && DedupBy(s + t, key)[..|d|] == d
    decreases |t|
  {
    if t != [] {
      var t0 := t[..|t| - 1];
      var x := t[|t| - 1];
      assert s + t == (s + t0) + [x];
      DedupByPrefix(s, t0, key);
      DedupBySnoc(s + t0, x, key);
    } else {
      assert s + t == s;
    }
  }
}
