/** Finite sequences as query results: filtering, first-appearance
    deduplication, stable sorting, windows, and how they commute. */
module Seqs {

  datatype Option<+T> = None | Some(value: T)

  function ToSet<T>(s: seq<T>): set<T> {
    set x | x in s
  }

  ghost predicate NoDup<T>(s: seq<T>) {
    forall i, j :: 0 <= i < j < |s| ==> s[i] != s[j]
  }

  function Map<T, U>(f: T -> U, s: seq<T>): (r: seq<U>)
    ensures |r| == |s|
    ensures forall i :: 0 <= i < |s| ==> r[i] == f(s[i])
  {
    seq(|s|, i requires 0 <= i < |s| => f(s[i]))
  }

  function Filter<T(!new)>(p: T -> bool, s: seq<T>): (r: seq<T>)
    ensures forall x :: x in r <==> x in s && p(x)
    ensures |r| <= |s|
  {
    if s == [] then []
    else
      var r := Filter(p, s[..|s| - 1]);
      if p(s[|s| - 1]) then r + [s[|s| - 1]] else r
  }

  /** Each value once, in order of first appearance. */
  function Distinct<T(==, !new)>(s: seq<T>): (r: seq<T>)
    ensures forall x :: x in r <==> x in s
    ensures |r| <= |s|
  {
    if s == [] then []
    else
      var r := Distinct(s[..|s| - 1]);
      if s[|s| - 1] in r then r else r + [s[|s| - 1]]
  }

  lemma {:induction false} DistinctNoDup<T(!new)>(s: seq<T>)
    ensures NoDup(Distinct(s))
  {
    if s != [] {
      DistinctNoDup(s[..|s| - 1]);
    }
  }

  lemma {:induction false} DistinctIdentity<T(!new)>(s: seq<T>)
    requires NoDup(s)
    ensures Distinct(s) == s
  {
    if s != [] {
      DistinctIdentity(s[..|s| - 1]);
      assert s == s[..|s| - 1] + [s[|s| - 1]];
    }
  }

  lemma {:induction false} FilterNoDup<T(!new)>(p: T -> bool, s: seq<T>)
    requires NoDup(s)
    ensures NoDup(Filter(p, s))
  {
    if s != [] {
      FilterNoDup(p, s[..|s| - 1]);
    }
  }

  lemma {:induction false} FilterConcat<T(!new)>(p: T -> bool, a: seq<T>, b: seq<T>)
    ensures Filter(p, a + b) == Filter(p, a) + Filter(p, b)
  {
    if b == [] {
      assert a + b == a;
    } else {
      FilterConcat(p, a, b[..|b| - 1]);
      assert (a + b)[..|a + b| - 1] == a + b[..|b| - 1];
    }
  }

  lemma FilterLast<T(!new)>(p: T -> bool, s: seq<T>, x: T)
    ensures Filter(p, s + [x]) == Filter(p, s) + if p(x) then [x] else []
  {
    assert (s + [x])[..|s|] == s;
  }

  lemma {:induction false} FilterCongruent<T(!new)>(p: T -> bool, q: T -> bool, s: seq<T>)
    requires forall x :: x in s ==> p(x) == q(x)
    ensures Filter(p, s) == Filter(q, s)
  {
    if s != [] {
      FilterCongruent(p, q, s[..|s| - 1]);
    }
  }

  lemma {:induction false} FilterAll<T(!new)>(p: T -> bool, s: seq<T>)
    requires forall x :: x in s ==> p(x)
    ensures Filter(p, s) == s
  {
    if s != [] {
      FilterAll(p, s[..|s| - 1]);
      assert s == s[..|s| - 1] + [s[|s| - 1]];
    }
  }

  lemma {:induction false} FilterNone<T(!new)>(p: T -> bool, s: seq<T>)
    requires forall x :: x in s ==> !p(x)
    ensures Filter(p, s) == []
  {
    if s != [] {
      FilterNone(p, s[..|s| - 1]);
    }
  }

  function And<T>(p: T -> bool, q: T -> bool): T -> bool {
    (x: T) => p(x) && q(x)
  }

  lemma {:induction false} FilterFilter<T(!new)>(p: T -> bool, q: T -> bool, s: seq<T>)
    ensures Filter(p, Filter(q, s)) == Filter(And(p, q), s)
  {
    if s != [] {
      var t, x := s[..|s| - 1], s[|s| - 1];
      FilterFilter(p, q, t);
      FilterLast(p, Filter(q, t), x);
    }
  }

  lemma {:induction false} FilterDistinct<T(!new)>(p: T -> bool, s: seq<T>)
    ensures Filter(p, Distinct(s)) == Distinct(Filter(p, s))
  {
    if s != [] {
      var t, x := s[..|s| - 1], s[|s| - 1];
      FilterDistinct(p, t);
      FilterLast(p, Distinct(t), x);
      if p(x) {
        assert (Filter(p, t) + [x])[..|Filter(p, t)|] == Filter(p, t);
      }
    }
  }

  /** `x` goes behind every element whose key is not larger. */
  function Insert<T>(key: T -> int, x: T, s: seq<T>): (r: seq<T>)
    ensures multiset(r) == multiset(s) + multiset{x}
  {
    if s == [] then [x]
    else if key(s[|s| - 1]) <= key(x) then s + [x]
    else
      assert s == s[..|s| - 1] + [s[|s| - 1]];
      Insert(key, x, s[..|s| - 1]) + [s[|s| - 1]]
  }

  function StableSort<T>(key: T -> int, s: seq<T>): (r: seq<T>)
    ensures multiset(r) == multiset(s)
  {
    if s == [] then []
    else
      assert s == s[..|s| - 1] + [s[|s| - 1]];
      Insert(key, s[|s| - 1], StableSort(key, s[..|s| - 1]))
  }

  ghost predicate SortedBy<T(!new)>(key: T -> int, s: seq<T>) {
    forall i, j :: 0 <= i < j < |s| ==> key(s[i]) <= key(s[j])
  }

  lemma {:induction false} InsertSorted<T(!new)>(key: T -> int, x: T, s: seq<T>)
    requires SortedBy(key, s)
    ensures SortedBy(key, Insert(key, x, s))
  {
    if s != [] && key(s[|s| - 1]) > key(x) {
      var t, y := s[..|s| - 1], s[|s| - 1];
      var r := Insert(key, x, t);
      assert SortedBy(key, r) by { InsertSorted(key, x, t); }
      forall i | 0 <= i < |r| ensures key(r[i]) <= key(y) {
        assert r[i] in multiset(r);
        assert r[i] == x || r[i] in t;
      }
    }
  }

  lemma {:induction false} StableSortSorted<T(!new)>(key: T -> int, s: seq<T>)
    ensures SortedBy(key, StableSort(key, s))
  {
    if s != [] {
      StableSortSorted(key, s[..|s| - 1]);
      InsertSorted(key, s[|s| - 1], StableSort(key, s[..|s| - 1]));
    }
  }

  lemma LastKept<T(!new)>(p: T -> bool, key: T -> int, s: seq<T>)
    requires SortedBy(key, s)
    ensures var f := Filter(p, s); f != [] ==> s != [] && key(f[|f| - 1]) <= key(s[|s| - 1])
  {
    var f := Filter(p, s);
    if f != [] {
      assert f[|f| - 1] in s;
      var k :| 0 <= k < |s| && s[k] == f[|f| - 1];
      assert key(s[k]) <= key(s[|s| - 1]);
    }
  }

  lemma InsertAtEnd<T>(key: T -> int, x: T, s: seq<T>)
    requires s == [] || key(s[|s| - 1]) <= key(x)
    ensures Insert(key, x, s) == s + [x]
  {
  }

  lemma InsertBefore<T>(key: T -> int, x: T, s: seq<T>, y: T)
    requires key(x) < key(y)
    ensures Insert(key, x, s + [y]) == Insert(key, x, s) + [y]
  {
    assert (s + [y])[..|s|] == s;
  }

  lemma {:induction false} FilterInsert<T(!new)>(p: T -> bool, key: T -> int, x: T, s: seq<T>)
    requires SortedBy(key, s)
    ensures Filter(p, Insert(key, x, s)) == if p(x) then Insert(key, x, Filter(p, s)) else Filter(p, s)
  {
    hide Insert, Filter;
    if s == [] || key(s[|s| - 1]) <= key(x) {
      InsertAtEnd(key, x, s);
      FilterLast(p, s, x);
      LastKept(p, key, s);
      assert Filter(p, s) + [] == Filter(p, s);
      InsertAtEnd(key, x, Filter(p, s));
    } else {
      var t, y := s[..|s| - 1], s[|s| - 1];
      FilterInsert(p, key, x, t);
      assert s == t + [y];
      InsertBefore(key, x, t, y);
      FilterLast(p, t, y);
      FilterLast(p, Insert(key, x, t), y);
      InsertBefore(key, x, Filter(p, t), y);
      assert Filter(p, t) + [] == Filter(p, t) && Insert(key, x, Filter(p, t)) + [] == Insert(key, x, Filter(p, t));
      assert Filter(p, Insert(key, x, t)) + [] == Filter(p, Insert(key, x, t));
    }
  }

  /** Filtering commutes with stable sorting: a batched, ordered query can be
      split by foreign key without changing any row's position. */
  lemma {:induction false} FilterSort<T(!new)>(p: T -> bool, key: T -> int, s: seq<T>)
    ensures Filter(p, StableSort(key, s)) == StableSort(key, Filter(p, s))
  {
    if s != [] {
      var t, x := s[..|s| - 1], s[|s| - 1];
      FilterSort(p, key, t);
      StableSortSorted(key, t);
      FilterInsert(p, key, x, StableSort(key, t));
      if p(x) {
        assert (Filter(p, t) + [x])[..|Filter(p, t)|] == Filter(p, t);
      }
    }
  }

  /** ORDER BY k0, k1, ...: the first key is the most significant. */
  function SortBy<T>(keys: seq<T -> int>, s: seq<T>): (r: seq<T>)
    ensures multiset(r) == multiset(s)
  {
    if keys == [] then s else StableSort(keys[0], SortBy(keys[1..], s))
  }

  /** x may stand before y: smaller in the first key in which they differ. */
  predicate InOrder<T>(keys: seq<T -> int>, x: T, y: T) {
    keys == [] || keys[0](x) < keys[0](y) || (keys[0](x) == keys[0](y) && InOrder(keys[1..], x, y))
  }

  /** Pairwise by key, and by an earlier order where keys are equal. */
  ghost predicate Ordered<T(!new)>(key: T -> int, before: (T, T) -> bool, s: seq<T>) {
    forall i, j :: 0 <= i < j < |s| ==> key(s[i]) < key(s[j]) || (key(s[i]) == key(s[j]) && before(s[i], s[j]))
  }

  lemma {:induction false} InsertOrdered<T(!new)>(key: T -> int, before: (T, T) -> bool, x: T, s: seq<T>)
    requires Ordered(key, before, s) && forall y :: y in s ==> before(y, x)
    ensures Ordered(key, before, Insert(key, x, s))
  {
    if s != [] {
      var t, y := s[..|s| - 1], s[|s| - 1];
      assert s == t + [y];
      if key(y) <= key(x) {
        var r := s + [x];
        forall i, j | 0 <= i < j < |r| ensures key(r[i]) < key(r[j]) || (key(r[i]) == key(r[j]) && before(r[i], r[j])) {
          assert i < |s| && r[i] in s;
          assert j == |s| && i < |s| - 1 ==> key(s[i]) <= key(y);
        }
      } else {
        InsertOrdered(key, before, x, t);
        var r := Insert(key, x, t);
        forall i | 0 <= i < |r| ensures key(r[i]) < key(y) || (key(r[i]) == key(y) && before(r[i], y)) {
          assert r[i] in multiset(r);
          if r[i] != x {
            var k :| 0 <= k < |t| && t[k] == r[i];
            assert s[k] == t[k] && s[|s| - 1] == y;
          }
        }
      }
    }
  }

  lemma {:induction false} StableSortOrdered<T(!new)>(key: T -> int, before: (T, T) -> bool, s: seq<T>)
    requires forall i, j :: 0 <= i < j < |s| ==> before(s[i], s[j])
    ensures Ordered(key, before, StableSort(key, s))
  {
    if s != [] {
      var t, x := s[..|s| - 1], s[|s| - 1];
      assert s == t + [x];
      StableSortOrdered(key, before, t);
      forall y | y in StableSort(key, t) ensures before(y, x) {
        assert y in multiset(t);
        var k :| 0 <= k < |t| && t[k] == y;
        assert s[k] == t[k];
      }
      InsertOrdered(key, before, x, StableSort(key, t));
    }
  }

  /** Sorted rows stand in the order of the keys. */
  lemma {:induction false} SortByInOrder<T(!new)>(keys: seq<T -> int>, s: seq<T>)
    ensures forall i, j :: 0 <= i < j < |SortBy(keys, s)| ==> InOrder(keys, SortBy(keys, s)[i], SortBy(keys, s)[j])
  {
    if keys != [] {
      SortByInOrder(keys[1..], s);
      StableSortOrdered(keys[0], (x, y) => InOrder(keys[1..], x, y), SortBy(keys[1..], s));
    }
  }

  lemma {:induction false} FilterSortBy<T(!new)>(p: T -> bool, keys: seq<T -> int>, s: seq<T>)
    ensures Filter(p, SortBy(keys, s)) == SortBy(keys, Filter(p, s))
  {
    if keys != [] {
      FilterSortBy(p, keys[1..], s);
      FilterSort(p, keys[0], SortBy(keys[1..], s));
    }
  }

  lemma SortByMembers<T(!new)>(keys: seq<T -> int>, s: seq<T>)
    ensures forall x :: x in SortBy(keys, s) <==> x in s
  {
    forall x ensures x in SortBy(keys, s) <==> x in s {
      assert x in SortBy(keys, s) <==> x in multiset(SortBy(keys, s));
    }
  }

  lemma NoDupMultiset<T(!new)>(s: seq<T>)
    ensures NoDup(s) <==> forall x :: multiset(s)[x] <= 1
  {
    if s != [] {
      var t, x := s[..|s| - 1], s[|s| - 1];
      NoDupMultiset(t);
      assert s == t + [x];
      assert multiset(s) == multiset(t) + multiset{x};
      if NoDup(s) {
        assert NoDup(t);
        assert x !in t;
        forall y ensures multiset(s)[y] <= 1 {
          assert y in multiset(t) <==> y in t;
        }
      }
      if forall y :: multiset(s)[y] <= 1 {
        forall y ensures multiset(t)[y] <= 1 {
          assert multiset(s)[y] <= 1;
        }
        assert multiset(s)[x] <= 1;
        assert x !in multiset(t);
      }
    }
  }

  lemma SortByNoDup<T(!new)>(keys: seq<T -> int>, s: seq<T>)
    requires NoDup(s)
    ensures NoDup(SortBy(keys, s))
  {
    NoDupMultiset(s);
    NoDupMultiset(SortBy(keys, s));
  }

  function Take<T>(n: nat, s: seq<T>): seq<T> {
    if n <= |s| then s[..n] else s
  }

  function Drop<T>(n: nat, s: seq<T>): seq<T> {
    if n <= |s| then s[n..] else []
  }

  function FlatMap<T(!new), U(!new)>(f: T -> seq<U>, s: seq<T>): (r: seq<U>)
    ensures forall y :: y in r <==> exists x :: x in s && y in f(x)
  {
    if s == [] then []
    else
      assert s == s[..|s| - 1] + [s[|s| - 1]];
      FlatMap(f, s[..|s| - 1]) + f(s[|s| - 1])
  }

  function Sum(s: seq<nat>): nat {
    if s == [] then 0 else Sum(s[..|s| - 1]) + s[|s| - 1]
  }

  function Compose<T, U>(p: U -> bool, f: T -> U): T -> bool {
    (x: T) => p(f(x))
  }

  lemma {:induction false} FilterMap<T(!new), U(!new)>(p: U -> bool, f: T -> U, s: seq<T>)
    ensures Filter(p, Map(f, s)) == Map(f, Filter(Compose(p, f), s))
  {
    if s != [] {
      var m := |s| - 1;
      FilterMap(p, f, s[..m]);
      assert Map(f, s)[..m] == Map(f, s[..m]);
      if p(f(s[m])) {
        assert Map(f, Filter(Compose(p, f), s[..m]) + [s[m]]) == Map(f, Filter(Compose(p, f), s[..m])) + [f(s[m])];
      }
    }
  }

  /** Filtering distributes over everything a windowless query does. */
  lemma FilterPipeline<T(!new), U(!new)>(p: U -> bool, f: T -> U, u: bool, keys: seq<T -> int>, q: T -> bool,
      r: T -> bool, base: seq<T>)
    requires forall x :: x in base ==> (r(x) <==> q(x) && p(f(x)))
    ensures Filter(p,
      (if u then Distinct(Map(f, SortBy(keys, Filter(q, base)))) else Map(f, SortBy(keys, Filter(q, base)))))
         == if u then Distinct(Map(f, SortBy(keys, Filter(r, base)))) else Map(f, SortBy(keys, Filter(r, base)))
  {
    var mid := Map(f, SortBy(keys, Filter(q, base)));
    FilterDistinct(p, mid);
    FilterMap(p, f, SortBy(keys, Filter(q, base)));
    FilterSortBy(Compose(p, f), keys, Filter(q, base));
    FilterFilter(Compose(p, f), q, base);
    FilterCongruent(And(Compose(p, f), q), r, base);
  }
}
