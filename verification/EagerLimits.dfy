/** A limit or offset on an eager-loaded edge counts rows of the whole batch, not
    rows per entity: exactly when the two readings agree, on every kind of edge. */
module EagerLimits {
  import opened Seqs
  import opened Schema
  import opened EagerSpec
  import opened EagerTheorems
  import opened EagerSelect

  // ------------------------------------------------- cutting and grouping

  function Cut<T>(o: nat, n: nat, s: seq<T>): seq<T> {
    Take(n, Drop(o, s))
  }

  function KeyIs<T>(key: T -> int, k: int): T -> bool {
    (x: T) => key(x) == k
  }

  function Group<T(!new)>(key: T -> int, k: int, s: seq<T>): seq<T> {
    Filter(KeyIs(key, k), s)
  }

  /** The group of k is cut as it would be alone. */
  ghost predicate Survives<T(!new)>(key: T -> int, s: seq<T>, o: nat, n: nat, k: int) {
    Group(key, k, Cut(o, n, s)) == Cut(o, n, Group(key, k, s))
  }

  ghost predicate OneKeyUpTo<T(!new)>(key: T -> int, s: seq<T>, m: nat) {
    forall i :: 0 <= i < m && i < |s| ==> key(s[i]) == key(s[0])
  }

  /** One group fills everything up to the end of the window, and no other group is
      larger than the offset. */
  ghost predicate Dominated<T(!new)>(key: T -> int, s: seq<T>, o: nat, n: nat) {
    OneKeyUpTo(key, s, o + n) && forall k :: s != [] && k != key(s[0]) ==> |Group(key, k, s)| <= o
  }

  /** Nothing is cut, or everything is, or one group takes the window. */
  ghost predicate PerGroup<T(!new)>(key: T -> int, s: seq<T>, o: nat, n: nat) {
    (o == 0 && |s| <= n) || o >= |s| || Dominated(key, s, o, n)
  }

  lemma {:induction false} FilterSize<T(!new)>(p: T -> bool, s: seq<T>)
    ensures |Filter(p, s)| == |s| <==> forall i :: 0 <= i < |s| ==> p(s[i])
  {
    if s != [] {
      FilterSize(p, s[..|s| - 1]);
    }
  }

  /** Cutting before or after grouping by key gives the same groups exactly when
      nothing is cut, or everything, or one group takes the window. */
  lemma CutGroups<T(!new)>(key: T -> int, s: seq<T>, o: nat, n: nat)
    requires n > 0 && (o > 0 ==> NoDup(s))
    ensures (forall k :: Survives(key, s, o, n, k)) <==> PerGroup(key, s, o, n)
  {
    hide Survives, Dominated;
    if PerGroup(key, s, o, n) {
      forall k ensures Survives(key, s, o, n, k) {
        if (o == 0 && |s| <= n) || o >= |s| {
          CutAlike(key, s, o, n, k);
        } else {
          CutDominated(key, s, o, n, k);
        }
      }
    } else {
      var k := CutApart(key, s, o, n);
    }
  }

  lemma CutAlike<T(!new)>(key: T -> int, s: seq<T>, o: nat, n: nat, k: int)
    requires (o == 0 && |s| <= n) || o >= |s|
    ensures Survives(key, s, o, n, k)
  {
    var g := Group(key, k, s);
    assert |g| <= |s|;
    if o >= |s| {
      assert Drop(o, s) == [] && Drop(o, g) == [];
    } else {
      assert Cut(o, n, s) == s && Cut(o, n, g) == g;
    }
  }

  lemma CutDominated<T(!new)>(key: T -> int, s: seq<T>, o: nat, n: nat, k: int)
    requires n > 0 && o < |s| && Dominated(key, s, o, n)
    ensures Survives(key, s, o, n, k)
  {
    var m := if o + n <= |s| then o + n else |s|;
    CutIsSlice(s, o, n, m);
    if k == key(s[0]) {
      CutPrefix(KeyIs(key, k), s, o, n, m);
    } else {
      FilterNone(KeyIs(key, k), s[o..m]);
      assert Drop(o, Group(key, k, s)) == [];
    }
  }

  lemma CutIsSlice<T>(s: seq<T>, o: nat, n: nat, m: nat)
    requires o < |s| && m == if o + n <= |s| then o + n else |s|
    ensures Cut(o, n, s) == s[o..m]
  {
  }

  lemma CutPrefix<T(!new)>(p: T -> bool, s: seq<T>, o: nat, n: nat, m: nat)
    requires n > 0 && o < |s| && m == if o + n <= |s| then o + n else |s|
    requires forall i :: 0 <= i < m ==> p(s[i])
    ensures Filter(p, Cut(o, n, s)) == Cut(o, n, Filter(p, s))
  {
    hide Filter, Cut;
    CutIsSlice(s, o, n, m);
    FilterAll(p, s[o..m]);
    var rest := KeptPrefix(p, s, m);
    CutIsSlice(s[..m] + rest, o, n, m);
    assert (s[..m] + rest)[o..m] == s[o..m];
  }

  lemma KeptPrefix<T(!new)>(p: T -> bool, s: seq<T>, m: nat) returns (rest: seq<T>)
    requires m <= |s| && forall i :: 0 <= i < m ==> p(s[i])
    ensures Filter(p, s) == s[..m] + rest && (m == |s| ==> rest == [])
  {
    FilterAll(p, s[..m]);
    assert s == s[..m] + s[m..];
    FilterConcat(p, s[..m], s[m..]);
    rest := Filter(p, s[m..]);
  }

  /** Otherwise some group is cut differently. */
  lemma CutApart<T(!new)>(key: T -> int, s: seq<T>, o: nat, n: nat) returns (k: int)
    requires n > 0 && (o > 0 ==> NoDup(s)) && !PerGroup(key, s, o, n)
    ensures !Survives(key, s, o, n, k)
  {
    hide Survives;
    if OneKeyUpTo(key, s, o + n) {
      k :| k != key(s[0]) && |Group(key, k, s)| > o;
      LeftOut(key, s, o, n, k);
    } else if o == 0 {
      k := CutTwoKeys(key, s, n);
    } else {
      var p := FirstOther(key, s, o + n);
      if p <= o && key(s[o]) == key(s[0]) {
        FilterSize(KeyIs(key, key(s[o])), s[..o]);
        assert !KeyIs(key, key(s[o]))(s[..o][p]);
        LostRow(key, s, o, n, o);
        k := key(s[o]);
      } else {
        var q := if p <= o then o else p;
        FilterSize(KeyIs(key, key(s[q])), s[..q]);
        OthersBefore(key, s, o, q, p);
        LostRow(key, s, o, n, q);
        k := key(s[q]);
      }
    }
  }

  lemma LeftOut<T(!new)>(key: T -> int, s: seq<T>, o: nat, n: nat, k: int)
    requires n > 0 && s != [] && OneKeyUpTo(key, s, o + n) && k != key(s[0]) && |Group(key, k, s)| > o
    ensures !Survives(key, s, o, n, k)
  {
    var cut := Cut(o, n, s);
    forall i | 0 <= i < |cut| ensures !KeyIs(key, k)(cut[i]) {
      assert cut[i] == s[o + i];
    }
    FilterNone(KeyIs(key, k), cut);
  }

  /** A row of the window whose group skips it: too few of its group precede it. */
  lemma LostRow<T(!new)>(key: T -> int, s: seq<T>, o: nat, n: nat, p: nat)
    requires NoDup(s) && o <= p < |s| && p < o + n
    requires |Group(key, key(s[p]), s[..p])| < o
    ensures !Survives(key, s, o, n, key(s[p]))
  {
    hide Filter;
    var f := KeyIs(key, key(s[p]));
    var g, c := Filter(f, s), |Filter(f, s[..p])|;
    RankOf(f, s, p);
    FilterNoDup(f, s);
    InCut(s, o, n, p);
    assert forall i :: 0 <= i < |Cut(o, n, g)| ==> Cut(o, n, g)[i] == g[o + i];
    assert s[p] !in Cut(o, n, g);
  }

  /** Where an element stands among those that a filter keeps. */
  lemma RankOf<T(!new)>(f: T -> bool, s: seq<T>, p: nat)
    requires p < |s| && f(s[p])
    ensures var c := |Filter(f, s[..p])|; c < |Filter(f, s)| && Filter(f, s)[c] == s[p]
  {
    hide Filter;
    assert s == s[..p] + s[p..] && s[p..] == [s[p]] + s[p + 1..];
    FilterConcat(f, s[..p], s[p..]);
    FilterConcat(f, [s[p]], s[p + 1..]);
    FilterAll(f, [s[p]]);
  }

  lemma InCut<T>(s: seq<T>, o: nat, n: nat, p: nat)
    requires o <= p < |s| && p < o + n
    ensures s[p] in Cut(o, n, s)
  {
    assert Cut(o, n, s)[p - o] == s[p];
  }

  lemma FirstOther<T(!new)>(key: T -> int, s: seq<T>, m: nat) returns (p: nat)
    requires !OneKeyUpTo(key, s, m)
    ensures 0 < p < |s| && p < m && key(s[p]) != key(s[0]) && OneKeyUpTo(key, s, p)
    decreases m
  {
    if OneKeyUpTo(key, s, m - 1) {
      p := m - 1;
    } else {
      p := FirstOther(key, s, m - 1);
    }
  }

  lemma OthersBefore<T(!new)>(key: T -> int, s: seq<T>, o: nat, q: nat, p: nat)
    requires 0 < o && 0 < p < |s| && OneKeyUpTo(key, s, p) && key(s[p]) != key(s[0]) && q < |s|
    requires (q == o && p <= o && key(s[o]) != key(s[0])) || (q == p && p > o)
    ensures |Group(key, key(s[q]), s[..q])| < o
  {
    var f := KeyIs(key, key(s[q]));
    if q == p {
      FilterNone(f, s[..q]);
    } else {
      FilterSize(f, s[..q]);
      assert !f(s[..q][0]);
    }
  }

  /** Without an offset: the key of the first row that was cut loses a row, unless
      it had them all; then another key loses all of its own. */
  lemma CutTwoKeys<T(!new)>(key: T -> int, s: seq<T>, n: nat) returns (k: int)
    requires 0 < n < |s| && !OneKeyUpTo(key, s, n)
    ensures !Survives(key, s, 0, n, k)
  {
    assert Drop(0, s) == s;
    k := key(s[n]);
    if forall i :: 0 <= i < n ==> key(s[i]) == k {
      assert OneKeyUpTo(key, s, n);
      assert false;
    }
    var p := KeyIs(key, k);
    assert s == s[..n] + s[n..];
    FilterConcat(p, s[..n], s[n..]);
    FilterSize(p, s[..n]);
    var i :| 0 <= i < n && key(s[i]) != key(s[n]);
    assert !p(s[..n][i]);
    assert s[n..][0] == s[n] && s[n] in s[n..];
    assert s[n] in Filter(p, s[n..]);
    assert Drop(0, Filter(p, s)) == Filter(p, s);
  }

  /** With unique keys a group is one row, which the window drops or keeps. */
  lemma UniqueKeyExact<T(!new)>(key: T -> int, s: seq<T>, o: nat, n: nat)
    requires n > 0 && forall i, j :: 0 <= i < j < |s| ==> key(s[i]) != key(s[j])
    ensures PerGroup(key, s, o, n) <==> (o == 0 && |s| <= n) || o >= |s|
  {
    if |s| > 1 {
      assert s[1] in Group(key, key(s[1]), s);
    }
  }

  lemma AbsentKey<T(!new)>(key: T -> int, s: seq<T>, o: nat, n: nat, k: int)
    requires forall x :: x in s ==> key(x) != k
    ensures Survives(key, s, o, n, k)
  {
    CutMembers(o, n, s);
    FilterNone(KeyIs(key, k), s);
    FilterNone(KeyIs(key, k), Cut(o, n, s));
  }

  lemma CutMembers<T(!new)>(o: nat, n: nat, s: seq<T>)
    ensures forall x :: x in Cut(o, n, s) ==> x in s
  {
  }

  // --------------------------------------------------------------- queries

  function Unlimited(sub: Query): Query {
    sub.(opts := sub.opts.(limit := None, offset := None))
  }

  /** How many rows a window skips, and how many it then takes. */
  function Skips(o: Opts): nat {
    if NonZero(o.offset).Some? then NonZero(o.offset).value else 0
  }

  function Takes(o: Opts): (n: nat)
    requires !NoWindow(o)
    ensures n > 0
  {
    if NonZero(o.limit).Some? then NonZero(o.limit).value else MAX_INT32
  }

  lemma WindowCuts<T>(o: Opts, s: seq<T>)
    requires !NoWindow(o)
    ensures SpecWindow(o, s) == Cut(Skips(o), Takes(o), s)
    ensures SpecWindow(o.(limit := None, offset := None), s) == s
  {
  }

  lemma QueryCuts(db: Database, sub: Query, p: Row -> bool)
    requires !NoWindow(sub.opts)
    ensures QueryNodes(db, Where(sub, p)) ==
      Cut(Skips(sub.opts), Takes(sub.opts), QueryNodes(db, Where(Unlimited(sub), p)))
  {
    hide Cut, Skips, Takes, Selected, SpecColumns;
    var q, u := Where(sub, p), Where(Unlimited(sub), p);
    assert Base(db, q) == Base(db, u);
    SameSpec(q, u);
    var rows := DistinctIf(SpecUnique(q), Map(Projecting(SpecColumns(q)), Selected(q.opts, Base(db, q))));
    SelectedAlike(q.opts, u.opts, Base(db, q));
    WindowCuts(q.opts, rows);
    assert u.opts == q.opts.(limit := None, offset := None);
    assert QueryNodes(db, u) == SpecWindow(u.opts, rows);
    assert QueryNodes(db, q) == SpecWindow(q.opts, rows);
    SameTakes(sub.opts, q.opts);
  }

  lemma SameTakes(a: Opts, b: Opts)
    requires a.limit == b.limit && a.offset == b.offset && !NoWindow(a)
    ensures !NoWindow(b) && Skips(a) == Skips(b) && Takes(a) == Takes(b)
  {
  }

  lemma SameSpec(a: Query, b: Query)
    requires a == b.(opts := a.opts) && a.opts.unique == b.opts.unique
    ensures SpecColumns(a) == SpecColumns(b) && SpecUnique(a) == SpecUnique(b)
  {
  }

  lemma SelectedAlike(a: Opts, b: Opts, base: seq<Row>)
    requires a.preds == b.preds && a.order == b.order
    ensures Selected(a, base) == Selected(b, base)
  {
  }

  function FkKey(e: Edge): Row -> int {
    (r: Row) => var v := ReadFk(e, r); if v.Some? then v.value else 0
  }

  /** The rows that a batched load finds in all, before its window. */
  function Whole(db: Database, e: Edge, sub: Query, rows: seq<Row>): seq<Row> {
    QueryNodes(db, LoadQuery(e, Unlimited(sub), rows))
  }

  /** A window on a child load (or on the managed proxy lease) gives every entity
      what it would get alone if and only if it cuts nothing, or everything, or one
      entity takes the window and no other has more rows than are skipped. */
  lemma WindowIsPerBatch(db: Database, e: Edge, sub: Query, rows: seq<Row>)
    requires (Kind(e).O2M? || Kind(e).O2O?) && sub.path.NoPath? && !NoWindow(sub.opts)
    requires Skips(sub.opts) > 0 ==> NoDup(Whole(db, e, sub, rows))
    ensures var batch := QueryNodes(db, LoadQuery(e, sub, rows));
      (forall i :: 0 <= i < |rows| ==>
         Filter(RowHasFk(e, rows[i].id), batch) == QueryNodes(db, RowQuery(db, e, sub, rows[i])))
      <==> PerGroup(FkKey(e), Whole(db, e, sub, rows), Skips(sub.opts), Takes(sub.opts))
  {
    hide QueryNodes, Filter, Cut, Survives, PerGroup, Skips, Takes;
    var child, ids := NeedField(sub, FkColumn(e)), Ids(rows);
    assert NeedField(Unlimited(sub), FkColumn(e)) == Unlimited(child);
    var whole, o, n := Whole(db, e, sub, rows), Skips(sub.opts), Takes(sub.opts);
    QueryCuts(db, child, FkIn(e, ids));
    CutGroups(FkKey(e), whole, o, n);
    forall r | r in whole ensures ReadFk(e, r).Some? && ReadFk(e, r).value in ids {
      BatchedFkIn(db, e, Unlimited(sub), ids, r);
    }
    forall i | 0 <= i < |rows|
      ensures Survives(FkKey(e), whole, o, n, ids[i]) <==>
        Filter(RowHasFk(e, rows[i].id), Cut(o, n, whole)) == QueryNodes(db, RowQuery(db, e, sub, rows[i]))
    {
      QueryCuts(db, child, FkIn(e, [ids[i]]));
      assert ids[i] in ids;
      SplitByFk(db, e, Unlimited(sub), ids, ids[i]);
      FkGroupSurvives(e, ids[i], o, n, whole);
    }
    forall k | k !in ids ensures Survives(FkKey(e), whole, o, n, k) {
      AbsentKey(FkKey(e), whole, o, n, k);
    }
    assert forall k :: k in ids ==> exists i :: 0 <= i < |rows| && ids[i] == k;
  }

  /** Without an offset: the batch holds at most n rows or belongs to one entity. */
  lemma LimitIsPerBatch(db: Database, e: Edge, sub: Query, rows: seq<Row>, n: nat)
    requires (Kind(e).O2M? || Kind(e).O2O?) && sub.path.NoPath?
    requires sub.opts.limit == Some(n) && n > 0 && NonZero(sub.opts.offset).None?
    ensures var batch, whole := QueryNodes(db, LoadQuery(e, sub, rows)), Whole(db, e, sub, rows);
      (forall i :: 0 <= i < |rows| ==>
         Filter(RowHasFk(e, rows[i].id), batch) == QueryNodes(db, RowQuery(db, e, sub, rows[i])))
      <==> |whole| <= n || OneKeyUpTo(FkKey(e), whole, |whole|)
  {
    hide QueryNodes, Filter, Whole;
    WindowIsPerBatch(db, e, sub, rows);
    LimitExact(FkKey(e), Whole(db, e, sub, rows), n);
  }

  lemma LimitExact<T(!new)>(key: T -> int, s: seq<T>, n: nat)
    requires n > 0
    ensures PerGroup(key, s, 0, n) <==> |s| <= n || OneKeyUpTo(key, s, |s|)
  {
    if s != [] && Dominated(key, s, 0, n) {
      forall i | 0 <= i < |s| ensures key(s[i]) == key(s[0]) {
        assert s[i] in Group(key, key(s[i]), s);
      }
    }
    if s != [] && OneKeyUpTo(key, s, |s|) {
      forall k | k != key(s[0]) ensures |Group(key, k, s)| <= 0 {
        FilterNone(KeyIs(key, k), s);
      }
    }
  }

  lemma FkGroupSurvives(e: Edge, k: int, o: nat, n: nat, s: seq<Row>)
    requires forall r :: r in s ==> ReadFk(e, r).Some?
    ensures Survives(FkKey(e), s, o, n, k) <==>
      Filter(RowHasFk(e, k), Cut(o, n, s)) == Cut(o, n, Filter(RowHasFk(e, k), s))
  {
    CutMembers(o, n, s);
    FilterCongruent(KeyIs(FkKey(e), k), RowHasFk(e, k), s);
    FilterCongruent(KeyIs(FkKey(e), k), RowHasFk(e, k), Cut(o, n, s));
  }

  lemma BatchedFkIn(db: Database, e: Edge, sub: Query, ids: seq<int>, r: Row)
    requires r in QueryNodes(db, Where(NeedField(sub, FkColumn(e)), FkIn(e, ids)))
    ensures ReadFk(e, r).Some? && ReadFk(e, r).value in ids
  {
    var q := Where(NeedField(sub, FkColumn(e)), FkIn(e, ids));
    EvalRows(db, q);
    var ts := Eval(db, q);
    var i :| 0 <= i < |QueryNodes(db, q)| && QueryNodes(db, q)[i] == r;
    assert RowsOf(ts)[i] == r;
    NarrowedFks(db, e, sub, ids, ts[i]);
  }

  /** The rows found are distinct if they have ids, or if what is read of an account
      group identifies it. */
  lemma WholeNoDup(db: Database, q: Query)
    requires ValidKeys(db) && q.path.NoPath? && ReadsKeys(q)
    ensures NoDup(QueryNodes(db, q))
  {
    hide SpecColumns, Selected, ReadsKeys, ValidKeys, SpecWindow;
    var base, cols := TableRows(db, q.table), SpecColumns(q);
    TableNoDup(db, q.table);
    FilterNoDup(Meets(q.opts.preds), base);
    SelectedNoDup(q.opts, base);
    var sel := Selected(q.opts, base);
    SelectedInTable(db, q);
    forall i, j | 0 <= i < j < |sel| ensures Project(cols, sel[i]) != Project(cols, sel[j]) {
      if Project(cols, sel[i]) == Project(cols, sel[j]) {
        KeysIdentify(db, q, sel[i], sel[j]);
        assert false;
      }
    }
    DistinctIdentity(Map(Projecting(cols), sel));
    WindowNoDup(q.opts, Map(Projecting(cols), sel));
  }

  lemma WindowNoDup(o: Opts, s: seq<Row>)
    requires NoDup(s)
    ensures NoDup(SpecWindow(o, s))
  {
  }

  lemma SelectedNoDup(o: Opts, base: seq<Row>)
    requires NoDup(Filter(Meets(o.preds), base))
    ensures NoDup(Selected(o, base))
  {
    SortByNoDup(o.order, Filter(Meets(o.preds), base));
  }

  lemma TableNoDup(db: Database, t: Table)
    requires ValidKeys(db)
    ensures NoDup(TableRows(db, t))
  {
    var rows := TableRows(db, t);
    if HasID(t) {
      assert UniqueIds(rows);
    } else {
      assert UniquePairs(rows);
    }
  }

  function IdKey(): Row -> int {
    (r: Row) => r.id
  }

  /** A window on a many-to-one load gives every entity its own row if and only if
      it cuts nothing or everything. */
  lemma LookupWindowIsPerBatch(db: Database, e: Edge, sub: Query, rows: seq<Row>)
    requires Kind(e).M2O? && sub.path.NoPath? && !NoWindow(sub.opts) && UniqueIds(TableRows(db, sub.table))
    ensures var batch, whole := QueryNodes(db, LoadQuery(e, sub, rows)), Whole(db, e, sub, rows);
      (forall k :: k in FkIds(e, rows) ==> Filter(RowHasId(k), batch) == QueryNodes(db, Where(sub, IdIn([k]))))
      <==> (Skips(sub.opts) == 0 && |whole| <= Takes(sub.opts)) || Skips(sub.opts) >= |whole|
  {
    hide QueryNodes, Filter, Cut, Survives, PerGroup, Skips, Takes;
    var ids, o, n := FkIds(e, rows), Skips(sub.opts), Takes(sub.opts);
    var whole := Whole(db, e, sub, rows);
    QueryCuts(db, sub, IdIn(ids));
    QueryUnique(db, LoadQuery(e, Unlimited(sub), rows));
    UniqueKeyExact(IdKey(), whole, o, n);
    CutGroups(IdKey(), whole, o, n);
    forall k | k in ids
      ensures Survives(IdKey(), whole, o, n, k) <==>
        Filter(RowHasId(k), Cut(o, n, whole)) == QueryNodes(db, Where(sub, IdIn([k])))
    {
      QueryCuts(db, sub, IdIn([k]));
      SplitById(db, Unlimited(sub), ids, k);
      IdGroupSurvives(k, o, n, whole);
    }
    forall k | k !in ids ensures Survives(IdKey(), whole, o, n, k) {
      forall r | r in whole ensures r.id != k {
        BatchedIdIn(db, Unlimited(sub), ids, r);
      }
      AbsentKey(IdKey(), whole, o, n, k);
    }
  }

  lemma IdGroupSurvives(k: int, o: nat, n: nat, s: seq<Row>)
    ensures Survives(IdKey(), s, o, n, k) <==> Filter(RowHasId(k), Cut(o, n, s)) == Cut(o, n, Filter(RowHasId(k), s))
  {
    FilterCongruent(KeyIs(IdKey(), k), RowHasId(k), s);
    FilterCongruent(KeyIs(IdKey(), k), RowHasId(k), Cut(o, n, s));
  }

  lemma BatchedIdIn(db: Database, sub: Query, ids: seq<int>, r: Row)
    requires r in QueryNodes(db, Where(sub, IdIn(ids)))
    ensures r.id in ids
  {
    var q := Where(sub, IdIn(ids));
    EvalRows(db, q);
    var i :| 0 <= i < |QueryNodes(db, q)| && QueryNodes(db, q)[i] == r;
    assert RowsOf(Eval(db, q))[i] == r;
    NarrowedIds(db, sub, ids, Eval(db, q)[i]);
  }

  // ---------------------------------------------------------------- groups

  function SourceKey(): ((int, Row)) -> int {
    (p: (int, Row)) => p.0
  }

  lemma {:induction false} SplitLinks(db: Database, e: Edge, ids: seq<int>, a: int, cols: Option<seq<string>>,
      sel: seq<Row>)
    requires a in ids
    ensures Group(SourceKey(), a, FlatMap(Linking(db, e, ids, cols), sel)) == FlatMap(Linking(db, e, [a], cols), sel)
  {
    hide Links, Project;
    if sel != [] {
      var m := |sel| - 1;
      SplitLinks(db, e, ids, a, cols, sel[..m]);
      FilterConcat(KeyIs(SourceKey(), a), FlatMap(Linking(db, e, ids, cols), sel[..m]),
        LinkPairs(db, e, ids, cols, sel[m]));
      SplitPairs(db, e, ids, a, cols, sel[m]);
    }
  }

  lemma SplitPairs(db: Database, e: Edge, ids: seq<int>, a: int, cols: Option<seq<string>>, y: Row)
    requires a in ids
    ensures Group(SourceKey(), a, LinkPairs(db, e, ids, cols, y)) == LinkPairs(db, e, [a], cols, y)
  {
    hide Links, Project, Filter, Map;
    var links := Links(db, e, y.id);
    var f, g, one := (x: int) => (x, Project(cols, y)), (x: int) => x in ids, (x: int) => x in [a];
    var p := KeyIs(SourceKey(), a);
    FilterMap(p, f, Filter(g, links));
    FilterFilter(Compose(p, f), g, links);
    FilterCongruent(And(Compose(p, f), g), one, links);
  }

  lemma JoinCuts(db: Database, e: Edge, sub: Query, ids: seq<int>)
    requires !NoWindow(sub.opts)
    ensures JoinRows(db, e, sub, ids) == Cut(Skips(sub.opts), Takes(sub.opts), JoinRows(db, e, Unlimited(sub), ids))
  {
    hide SpecColumns, Selected, Cut, Skips, Takes;
    var u := Unlimited(sub);
    SameSpec(sub, u);
    SelectedAlike(sub.opts, u.opts, TableRows(db, sub.table));
    WindowCuts(sub.opts, FlatMap(Linking(db, e, ids, SpecColumns(sub)), Selected(sub.opts, TableRows(db, sub.table))));
  }

  lemma JoinSplits(db: Database, e: Edge, sub: Query, ids: seq<int>, a: int)
    requires a in ids
    ensures Group(SourceKey(), a, JoinRows(db, e, Unlimited(sub), ids)) == JoinRows(db, e, Unlimited(sub), [a])
  {
    hide SpecColumns, Selected, FlatMap;
    var u := Unlimited(sub);
    SplitLinks(db, e, ids, a, SpecColumns(u), Selected(u.opts, TableRows(db, u.table)));
  }

  /** A window on the load of groups counts join rows of the whole batch: every
      entity gets the join rows that it would get alone under the same condition. */
  lemma GroupsWindowIsPerBatch(db: Database, e: Edge, sub: Query, ids: seq<int>)
    requires !NoWindow(sub.opts)
    requires Skips(sub.opts) > 0 ==> NoDup(JoinRows(db, e, Unlimited(sub), ids))
    ensures var batch, whole := JoinRows(db, e, sub, ids), JoinRows(db, e, Unlimited(sub), ids);
      (forall a :: a in ids ==> Group(SourceKey(), a, batch) == JoinRows(db, e, sub, [a]))
      <==> PerGroup(SourceKey(), whole, Skips(sub.opts), Takes(sub.opts))
  {
    hide JoinRows, Cut, PerGroup, Skips, Takes, Group;
    var whole, o, n := JoinRows(db, e, Unlimited(sub), ids), Skips(sub.opts), Takes(sub.opts);
    JoinCuts(db, e, sub, ids);
    CutGroups(SourceKey(), whole, o, n);
    forall a | a in ids
      ensures Survives(SourceKey(), whole, o, n, a) <==>
        Group(SourceKey(), a, Cut(o, n, whole)) == JoinRows(db, e, sub, [a])
    {
      JoinCuts(db, e, sub, [a]);
      JoinSplits(db, e, sub, ids, a);
    }
    forall a | a !in ids ensures Survives(SourceKey(), whole, o, n, a) {
      forall p | p in whole ensures SourceKey()(p) != a {
        JoinSources(db, e, Unlimited(sub), ids, p);
      }
      AbsentKey(SourceKey(), whole, o, n, a);
    }
  }

  /** Join rows are distinct, because account_groups has a composite key. */
  lemma JoinRowsNoDup(db: Database, sub: Query, ids: seq<int>)
    requires ValidKeys(db) && HasID(sub.table)
    ensures NoDup(JoinRows(db, GroupsEdge, Unlimited(sub), ids))
  {
    hide SpecColumns, Selected, ValidKeys, Links;
    var u, rows := Unlimited(sub), TableRows(db, sub.table);
    assert UniqueIds(rows) by { TableUnique(db, sub.table); }
    SelectedUnique(db, u);
    LinkingNoDup(db, ids, SpecColumns(u), Selected(u.opts, rows));
    WindowIdle(u.opts, FlatMap(Linking(db, GroupsEdge, ids, SpecColumns(u)), Selected(u.opts, rows)));
  }

  lemma TableUnique(db: Database, t: Table)
    requires ValidKeys(db) && HasID(t)
    ensures UniqueIds(TableRows(db, t))
  {
  }

  lemma WindowIdle<T>(o: Opts, s: seq<T>)
    requires o.limit.None? && o.offset.None?
    ensures SpecWindow(o, s) == s
  {
  }

  lemma {:induction false} LinkingNoDup(db: Database, ids: seq<int>, cols: Option<seq<string>>, sel: seq<Row>)
    requires ValidKeys(db) && UniqueIds(sel)
    ensures NoDup(FlatMap(Linking(db, GroupsEdge, ids, cols), sel))
    ensures forall p :: p in FlatMap(Linking(db, GroupsEdge, ids, cols), sel) ==> p.1.id in Ids(sel)
  {
    hide ValidKeys, Links;
    if sel != [] {
      var m := |sel| - 1;
      LinkingNoDup(db, ids, cols, sel[..m]);
      var before, last :=
        FlatMap(Linking(db, GroupsEdge, ids, cols), sel[..m]), LinkPairs(db, GroupsEdge, ids, cols, sel[m]);
      LinkPairsNoDup(db, ids, cols, sel[m]);
      assert forall id :: id in Ids(sel[..m]) ==> id in Ids(sel) && id != sel[m].id by {
        forall j | 0 <= j < m ensures Ids(sel[..m])[j] == Ids(sel)[j] != sel[m].id {
        }
      }
      assert Ids(sel)[m] == sel[m].id;
      NoDupConcat(before, last);
    }
  }

  lemma NoDupConcat<T(!new)>(a: seq<T>, b: seq<T>)
    requires NoDup(a) && NoDup(b) && forall x :: x in a ==> x !in b
    ensures NoDup(a + b)
  {
    forall i, j | 0 <= i < j < |a + b| ensures (a + b)[i] != (a + b)[j] {
      if i < |a| && |a| <= j {
        assert a[i] in a && b[j - |a|] in b;
      }
    }
  }

  lemma LinkPairsNoDup(db: Database, ids: seq<int>, cols: Option<seq<string>>, y: Row)
    requires ValidKeys(db)
    ensures NoDup(LinkPairs(db, GroupsEdge, ids, cols, y))
    ensures forall p :: p in LinkPairs(db, GroupsEdge, ids, cols, y) ==> p.1.id == y.id
  {
    hide ValidKeys, Links;
    LinksNoDup(db, y.id);
    FilterNoDup((a: int) => a in ids, Links(db, GroupsEdge, y.id));
  }

  lemma LinksNoDup(db: Database, to: int)
    requires ValidKeys(db)
    ensures NoDup(Links(db, GroupsEdge, to))
  {
    hide ValidDb;
    var p := (j: Row) => Col(j, "account_id").Some? && Col(j, FkColumn(GroupsEdge)) == Some(to);
    var f := (j: Row) => var v := Col(j, "account_id"); if v.Some? then v.value else 0;
    var rows := TableRows(db, AccountGroups);
    assert Links(db, GroupsEdge, to) == Map(f, Filter(p, rows));
    TableNoDup(db, AccountGroups);
    FilterNoDup(p, rows);
    var kept := Filter(p, rows);
    forall i, j | 0 <= i < j < |kept| ensures f(kept[i]) != f(kept[j]) {
      assert kept[i] in kept && kept[j] in kept;
      var x :| 0 <= x < |rows| && rows[x] == kept[i];
      var z :| 0 <= z < |rows| && rows[z] == kept[j];
    }
  }
}
