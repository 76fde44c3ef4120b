/**
  Sorting of keyed entries, as `sorted(mapping, key=...)` does it. The result is pinned down
  independently of the algorithm: it is the only strictly ordered arrangement of the entries.
 */
module Sorting {

  /** `less` is a strict total order. */
  ghost predicate StrictTotal<K(!new)>(less: (K, K) -> bool) {
    && (forall a :: !less(a, a))
    && (forall a, b, c :: less(a, b) && less(b, c) ==> less(a, c))
    && (forall a, b :: a == b || less(a, b) || less(b, a))
  }

  predicate StrictlyOrdered<K, V>(less: (K, K) -> bool, s: seq<(K, V)>) {
    forall i, j :: 0 <= i < j < |s| ==> less(s[i].0, s[j].0)
  }

  predicate DistinctKeys<K(==), V>(s: seq<(K, V)>) {
    forall i, j :: 0 <= i < j < |s| ==> s[i].0 != s[j].0
  }

  ghost predicate SameMembers<T(!new)>(s: seq<T>, t: seq<T>) {
    forall x :: x in s <==> x in t
  }

  function Insert<K, V>(less: (K, K) -> bool, e: (K, V), s: seq<(K, V)>): (r: seq<(K, V)>)
    ensures |r| == |s| + 1
  {
    if s == [] then [e]
    else if less(e.0, s[0].0) then [e] + s
    else [s[0]] + Insert(less, e, s[1..])
  }

  function Sort<K, V>(less: (K, K) -> bool, s: seq<(K, V)>): (r: seq<(K, V)>)
    ensures |r| == |s|
  {
    if s == [] then [] else Insert(less, s[0], Sort(less, s[1..]))
  }

  lemma {:induction false} InsertKeeps<K, V>(less: (K, K) -> bool, e: (K, V), s: seq<(K, V)>)
    ensures multiset(Insert(less, e, s)) == multiset([e] + s)
  {
    if s != [] && !less(e.0, s[0].0) {
      InsertKeeps(less, e, s[1..]);
      assert s == [s[0]] + s[1..];
    }
  }

  /** Sorting only rearranges. */
  lemma {:induction false} SortKeeps<K, V>(less: (K, K) -> bool, s: seq<(K, V)>)
    ensures multiset(Sort(less, s)) == multiset(s)
  {
    if s != [] {
      SortKeeps(less, s[1..]);
      InsertKeeps(less, s[0], Sort(less, s[1..]));
      assert s == [s[0]] + s[1..];
    }
  }

  lemma SortMembers<K(!new), V(!new)>(less: (K, K) -> bool, s: seq<(K, V)>)
    ensures SameMembers(Sort(less, s), s)
  {
    SortKeeps(less, s);
    SameElements(Sort(less, s), s);
  }

  lemma {:induction false} InsertOrdered<K(!new), V(!new)>(less: (K, K) -> bool, e: (K, V), s: seq<(K, V)>)
    requires StrictTotal(less) && StrictlyOrdered(less, s)
    requires forall x :: x in s ==> x.0 != e.0
    ensures StrictlyOrdered(less, Insert(less, e, s))
  {
    if s != [] && !less(e.0, s[0].0) {
      var t := Insert(less, e, s[1..]);
      assert forall x :: x in s[1..] ==> x in s;
      InsertOrdered(less, e, s[1..]);
      InsertKeeps(less, e, s[1..]);
      SameElements(t, [e] + s[1..]);
      assert s[0] in s;
      forall x | x in t ensures less(s[0].0, x.0) {
        if x != e {
          assert x in s[1..];
          var i :| 0 <= i < |s[1..]| && s[1..][i] == x;
          assert s[i + 1] == x;
        }
      }
    }
  }

  /** Sorting entries with distinct keys gives a strictly ordered permutation of them. */
  lemma {:induction false} SortOrdered<K(!new), V(!new)>(less: (K, K) -> bool, s: seq<(K, V)>)
    requires StrictTotal(less) && DistinctKeys(s)
    ensures StrictlyOrdered(less, Sort(less, s))
    ensures DistinctKeys(Sort(less, s))
  {
    if s != [] {
      var t := Sort(less, s[1..]);
      SortOrdered(less, s[1..]);
      SortMembers(less, s[1..]);
      forall x | x in t ensures x.0 != s[0].0 {
        assert x in s[1..];
        var i :| 0 <= i < |s[1..]| && s[1..][i] == x;
        assert s[i + 1] == x;
      }
      InsertOrdered(less, s[0], t);
    }
  }

  /** Two strictly ordered arrangements of the same entries are the same sequence. */
  lemma {:induction false} OrderedUnique<K(!new), V(!new)>(less: (K, K) -> bool, s: seq<(K, V)>, t: seq<(K, V)>)
    requires StrictTotal(less) && StrictlyOrdered(less, s) && StrictlyOrdered(less, t)
    requires SameMembers(s, t)
    ensures s == t
  {
    assert s != [] ==> s[0] in t;
    assert t != [] ==> t[0] in s;
    if s != [] {
      assert s[0] == t[0];
      forall x ensures x in s[1..] <==> x in t[1..] {
        if x in s[1..] {
          var i :| 0 <= i < |s[1..]| && s[1..][i] == x;
          assert s[i + 1] == x && less(s[0].0, x.0);
          assert x in t;
        }
        if x in t[1..] {
          var i :| 0 <= i < |t[1..]| && t[1..][i] == x;
          assert t[i + 1] == x && less(t[0].0, x.0);
          assert x in s;
        }
      }
      assert SameMembers(s[1..], t[1..]);
      OrderedUnique(less, s[1..], t[1..]);
      assert s == [s[0]] + s[1..] && t == [t[0]] + t[1..];
    }
  }

  lemma SameElements<T(!new)>(s: seq<T>, t: seq<T>)
    requires multiset(s) == multiset(t)
    ensures SameMembers(s, t)
  {
    forall x ensures x in s <==> x in t {
      assert x in s <==> x in multiset(s);
      assert x in t <==> x in multiset(t);
    }
  }

  /** The sorted form depends only on which entries there are, never on their arrangement. */
  lemma SortCanonical<K(!new), V(!new)>(less: (K, K) -> bool, s: seq<(K, V)>, t: seq<(K, V)>)
    requires StrictTotal(less) && DistinctKeys(s) && DistinctKeys(t)
    requires SameMembers(s, t)
    ensures Sort(less, s) == Sort(less, t)
  {
    SortOrdered(less, s);
    SortOrdered(less, t);
    SortMembers(less, s);
    SortMembers(less, t);
    OrderedUnique(less, Sort(less, s), Sort(less, t));
  }

  lemma SortFixed<K(!new), V(!new)>(less: (K, K) -> bool, s: seq<(K, V)>)
    requires StrictTotal(less) && StrictlyOrdered(less, s)
    ensures Sort(less, s) == s
  {
    forall i, j | 0 <= i < j < |s| ensures s[i].0 != s[j].0 {
      assert less(s[i].0, s[j].0);
    }
    SortOrdered(less, s);
    SortMembers(less, s);
    OrderedUnique(less, Sort(less, s), s);
  }

  function MapValues<K, V, W>(f: V -> W, s: seq<(K, V)>): (r: seq<(K, W)>) {
    seq(|s|, i requires 0 <= i < |s| => (s[i].0, f(s[i].1)))
  }

  lemma {:induction false} InsertMap<K, V, W>(less: (K, K) -> bool, f: V -> W, e: (K, V), s: seq<(K, V)>)
    ensures Insert(less, (e.0, f(e.1)), MapValues(f, s)) == MapValues(f, Insert(less, e, s))
  {
    if s != [] && !less(e.0, s[0].0) {
      InsertMap(less, f, e, s[1..]);
      assert MapValues(f, s)[1..] == MapValues(f, s[1..]);
    }
  }

  /** Sorting by key commutes with any change of the values. */
  lemma {:induction false} SortMap<K, V, W>(less: (K, K) -> bool, f: V -> W, s: seq<(K, V)>)
    ensures Sort(less, MapValues(f, s)) == MapValues(f, Sort(less, s))
  {
    if s != [] {
      SortMap(less, f, s[1..]);
      InsertMap(less, f, s[0], Sort(less, s[1..]));
      assert MapValues(f, s)[1..] == MapValues(f, s[1..]);
    }
  }

  /** Lexicographic order on pairs. */
  function PairLess<A(==), B>(la: (A, A) -> bool, lb: (B, B) -> bool): ((A, B), (A, B)) -> bool {
    (p: (A, B), q: (A, B)) => la(p.0, q.0) || (p.0 == q.0 && lb(p.1, q.1))
  }

  lemma PairTotal<A(!new), B(!new)>(la: (A, A) -> bool, lb: (B, B) -> bool)
    requires StrictTotal(la) && StrictTotal(lb)
    ensures StrictTotal(PairLess(la, lb))
  {
    var less := PairLess(la, lb);
    forall p, q, r | less(p, q) && less(q, r) ensures less(p, r) {
      assert la(p.0, q.0) && la(q.0, r.0) ==> la(p.0, r.0);
    }
    forall p, q ensures p == q || less(p, q) || less(q, p) {
      assert p.0 == q.0 || la(p.0, q.0) || la(q.0, p.0);
    }
  }
}
