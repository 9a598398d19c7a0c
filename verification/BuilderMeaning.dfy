/** What calls on a query builder mean for the rows and edges that it returns. */
module BuilderMeaning {
  import opened Seqs
  import opened Schema
  import opened EagerSpec
  import opened EagerTheorems
  import opened EagerAccess
  import opened Traversal
  import opened Builder
  import opened EagerFair
  import opened EndToEnd

  /** What All returns. */
  function Rows(db: Database, p: Plan): seq<Row> {
    QueryNodes(db, Compile(p))
  }

  // ------------------------------------------------------------ compilation

  lemma {:induction false} SlotsOnly(a: Plan, b: Plan, es: seq<Edge>)
    requires a.slots == b.slots
    ensures CompileSlots(a, es) == CompileSlots(b, es)
    decreases |es|
  {
    if es != [] {
      SlotsOnly(a, b, es[1..]);
    }
  }

  lemma OptsOnly(p: Plan, o: Opts)
    ensures Compile(p.(opts := o)) == Compile(p).(opts := o)
  {
    SlotsOnly(p.(opts := o), p, EdgeOrder(p.table));
  }

  lemma One(op: Op, p: Plan)
    ensures Steps([op], p) == Step(op, p)
  {
    assert [op][..0] == [];
  }

  lemma Two(a: Op, b: Op, p: Plan)
    ensures Steps([a, b], p) == Step(b, Step(a, p))
  {
    assert [a, b][..1] == [a];
    One(a, p);
  }

  /** A new builder returns the whole table. */
  lemma NewReturnsTable(db: Database, t: Table)
    ensures Rows(db, Empty(t)) == TableRows(db, t)
  {
    var rows := TableRows(db, t);
    FilterAll(Meets([]), rows);
    MapIdentity(rows);
  }

  /** A builder that QueryX returns starts from the neighbours of the rows that the
      builder before it selects, each once. */
  lemma StepReturnsNeighbors(db: Database, prev: Query, e: Edge)
    requires TypedPath(prev) && Source(e) == prev.table
    ensures var rows := Rows(db, Empty(Target(e)).(path := Via(prev, e)));
      ToSet(rows) == Image(EdgeRelation(db, e), ToSet(SqlQuery(db, prev))) && NoDup(rows)
  {
    hide Image, EdgeRelation;
    var p := Empty(Target(e)).(path := Via(prev, e));
    assert [e][..0] == [];
    SlotsEmpty(p, EdgeOrder(p.table));
    assert Compile(p) == Chain(prev, [e]);
    ChainIsComposition(db, prev, [e]);
  }

  lemma {:induction false} SlotsEmpty(p: Plan, es: seq<Edge>)
    requires p.slots == map[]
    ensures CompileSlots(p, es) == Done
    decreases |es|
  {
    if es != [] {
      SlotsEmpty(p, es[1..]);
    }
  }

  // --------------------------------------------------------------- windows

  predicate Unlimited(p: Plan) {
    p.opts.limit.None? && p.opts.offset.None?
  }

  function Min(a: nat, b: nat): nat {
    if a <= b then a else b
  }

  /** The n rows behind the first m. */
  function Slice<T>(m: nat, n: nat, s: seq<T>): seq<T> {
    s[Min(m, |s|)..Min(m + n, |s|)]
  }

  lemma WindowApplies(db: Database, q: Query)
    ensures QueryNodes(db, q) == SpecWindow(q.opts, QueryNodes(db, q.(opts := q.opts.(limit := None, offset := None))))
    ensures SqlQuery(db, q) ==
      Window(q.opts.limit, q.opts.offset, SqlQuery(db, q.(opts := q.opts.(limit := None, offset := None))))
  {
    hide SpecColumns, Selected;
    var u := q.(opts := q.opts.(limit := None, offset := None));
    assert Base(db, q) == Base(db, u);
    assert SpecColumns(q) == SpecColumns(u) by { ColumnsOnly(q, u); }
    assert Selected(q.opts, Base(db, q)) ==
      Selected(u.opts, Base(db, u)) by { SelectedOnly(q.opts, u.opts, Base(db, q)); }
  }

  lemma ColumnsOnly(a: Query, b: Query)
    requires a == b.(opts := a.opts)
    ensures SpecColumns(a) == SpecColumns(b)
  {
  }

  lemma SelectedOnly(a: Opts, b: Opts, base: seq<Row>)
    requires a.preds == b.preds && a.order == b.order
    ensures Selected(a, base) == Selected(b, base)
  {
  }

  /** Which settings the calls leave. */
  lemma WindowSettings(p: Plan, m: nat, n: nat)
    ensures var q := Compile(p);
      && Compile(Steps([LimitOp(n)], p)) == q.(opts := q.opts.(limit := Some(n)))
      && Compile(Steps([OffsetOp(m)], p)) == q.(opts := q.opts.(offset := Some(m)))
      && Compile(Steps([OffsetOp(m), LimitOp(n)], p)) == q.(opts := q.opts.(limit := Some(n), offset := Some(m)))
      && Compile(Steps([LimitOp(n), OffsetOp(m)], p)) == q.(opts := q.opts.(limit := Some(n), offset := Some(m)))
  {
    hide Compile, Steps;
    var o := p.opts;
    One(LimitOp(n), p);
    One(OffsetOp(m), p);
    Two(OffsetOp(m), LimitOp(n), p);
    Two(LimitOp(n), OffsetOp(m), p);
    OptsOnly(p, o.(limit := Some(n)));
    OptsOnly(p, o.(offset := Some(m)));
    OptsOnly(p, o.(limit := Some(n), offset := Some(m)));
    CompiledOpts(p);
  }

  lemma CompiledOpts(p: Plan)
    ensures Compile(p).opts == p.opts && Compile(p).fields == p.fields
  {
  }

  lemma Slices<T>(m: nat, n: nat, s: seq<T>)
    ensures Window(Some(n), None, s) == Slice(0, n, s)
    ensures Window(None, Some(m), s) == Slice(m, 0x7fff_ffff, s)
    ensures Window(Some(n), Some(m), s) == Slice(m, n, s)
    ensures Window(None, None, s) == s
  {
  }

  lemma WindowBoth(db: Database, q: Query, limit: Option<nat>, offset: Option<nat>)
    requires q.opts.limit.None? && q.opts.offset.None?
    ensures var w := q.(opts := q.opts.(limit := limit, offset := offset));
      && QueryNodes(db, w) == Window(NonZero(limit), NonZero(offset), QueryNodes(db, q))
      && SqlQuery(db, w) == Window(limit, offset, SqlQuery(db, q))
  {
    hide QueryNodes, SqlQuery, Window;
    var w := q.(opts := q.opts.(limit := limit, offset := offset));
    assert w.(opts := w.opts.(limit := None, offset := None)) == q;
    WindowApplies(db, w);
  }

  /** Limit(n) keeps the first n rows and Offset(m) skips the first m, in any order of
      the calls; alone, Offset keeps 2147483647 rows; zero means nothing. */
  lemma WindowCalls(db: Database, p: Plan, m: nat, n: nat)
    requires Unlimited(p)
    ensures var s := Rows(db, p);
      && Rows(db, Steps([LimitOp(n)], p)) == (if n > 0 then Slice(0, n, s) else s)
      && Rows(db, Steps([OffsetOp(m)], p)) == (if m > 0 then Slice(m, 0x7fff_ffff, s) else s)
      && (m > 0 && n > 0 ==> Rows(db, Steps([OffsetOp(m), LimitOp(n)], p)) == Slice(m, n, s))
      && (m > 0 && n > 0 ==> Rows(db, Steps([LimitOp(n), OffsetOp(m)], p)) == Slice(m, n, s))
  {
    hide QueryNodes, Compile, Steps, Window, Slice;
    var q := Compile(p);
    CompiledOpts(p);
    WindowSettings(p, m, n);
    WindowBoth(db, q, Some(n), None);
    WindowBoth(db, q, None, Some(m));
    WindowBoth(db, q, Some(n), Some(m));
    Slices(m, n, QueryNodes(db, q));
  }

  /** As the source of a further step, a builder takes zero at its word. */
  lemma WindowCallsAsSource(db: Database, p: Plan, m: nat, n: nat)
    requires Unlimited(p)
    ensures var s := SqlQuery(db, Compile(p));
      && SqlQuery(db, Compile(Steps([LimitOp(n)], p))) == Slice(0, n, s)
      && SqlQuery(db, Compile(Steps([OffsetOp(m)], p))) == Slice(m, 0x7fff_ffff, s)
      && SqlQuery(db, Compile(Steps([OffsetOp(m), LimitOp(n)], p))) == Slice(m, n, s)
      && SqlQuery(db, Compile(Steps([LimitOp(n), OffsetOp(m)], p))) == Slice(m, n, s)
  {
    hide SqlQuery, Compile, Steps, Window, Slice;
    var q := Compile(p);
    CompiledOpts(p);
    WindowSettings(p, m, n);
    WindowBoth(db, q, Some(n), None);
    WindowBoth(db, q, None, Some(m));
    WindowBoth(db, q, Some(n), Some(m));
    Slices(m, n, SqlQuery(db, q));
  }

  /** The last limit and the last offset count. */
  lemma LastWindowCounts(p: Plan, a: nat, b: nat)
    ensures Steps([LimitOp(a), LimitOp(b)], p) == Steps([LimitOp(b)], p)
    ensures Steps([OffsetOp(a), OffsetOp(b)], p) == Steps([OffsetOp(b)], p)
  {
    One(LimitOp(b), p);
    One(OffsetOp(b), p);
    Two(LimitOp(a), LimitOp(b), p);
    Two(OffsetOp(a), OffsetOp(b), p);
  }

  // ------------------------------------------------- predicates and order

  /** Where keeps the rows that meet the predicate, in their order. */
  lemma WhereCall(db: Database, p: Plan, f: Row -> bool)
    requires Unlimited(p) && p.fields == []
    ensures Rows(db, Steps([WhereOp(f)], p)) == Filter(f, Rows(db, p))
  {
    hide Base, Selected, Filter, Distinct;
    One(WhereOp(f), p);
    OptsOnly(p, p.opts.(preds := p.opts.preds + [f]));
    var q := Compile(p);
    var base := Base(db, q);
    var narrowed := q.(opts := q.opts.(preds := q.opts.preds + [f]));
    assert Base(db, narrowed) == base by { SameBase(db, narrowed, q); }
    SelectedWhere(q.opts, f, base);
    MapIdentity(Selected(q.opts, base));
    MapIdentity(Selected(narrowed.opts, base));
    FilterDistinct(f, Selected(q.opts, base));
  }

  /** A window counts the rows that meet the predicates, whenever Where is called. */
  lemma WhereComesFirst(p: Plan, f: Row -> bool, n: nat)
    ensures Steps([LimitOp(n), WhereOp(f)], p) == Steps([WhereOp(f), LimitOp(n)], p)
    ensures Steps([OffsetOp(n), WhereOp(f)], p) == Steps([WhereOp(f), OffsetOp(n)], p)
  {
    Two(LimitOp(n), WhereOp(f), p);
    Two(WhereOp(f), LimitOp(n), p);
    Two(OffsetOp(n), WhereOp(f), p);
    Two(WhereOp(f), OffsetOp(n), p);
  }

  function Wheres(fs: seq<Row -> bool>): (r: seq<Op>)
    ensures |r| == |fs| && forall i :: 0 <= i < |fs| ==> r[i] == WhereOp(fs[i])
  {
    seq(|fs|, i requires 0 <= i < |fs| => WhereOp(fs[i]))
  }

  lemma {:induction false} WheresSettings(fs: seq<Row -> bool>, p: Plan)
    ensures var r := Steps(Wheres(fs), p); r == p.(opts := p.opts.(preds := p.opts.preds + fs))
  {
    if fs == [] {
      assert p.opts.preds + fs == p.opts.preds;
    } else {
      var n := |fs| - 1;
      WheresSettings(fs[..n], p);
      assert Wheres(fs)[..n] == Wheres(fs[..n]);
      assert fs == fs[..n] + [fs[n]];
    }
  }

  /** A new builder with some predicates returns the rows that meet them all. */
  lemma WhereCalls(db: Database, t: Table, fs: seq<Row -> bool>, y: Row)
    ensures y in Rows(db, Steps(Wheres(fs), Empty(t))) <==>
      y in TableRows(db, t) && forall i :: 0 <= i < |fs| ==> fs[i](y)
  {
    hide Selected, Compile, Steps;
    WheresSettings(fs, Empty(t));
    assert [] + fs == fs;
    var o := Empty(t).opts.(preds := fs);
    PlainRows(db, t, o);
    SelectedMembers(o, TableRows(db, t));
  }

  lemma PlainRows(db: Database, t: Table, o: Opts)
    requires o.limit.None? && o.offset.None? && o.unique.None?
    ensures Rows(db, Empty(t).(opts := o)) == Selected(o, TableRows(db, t))
  {
    hide Selected;
    OptsOnly(Empty(t), o);
    MapIdentity(Selected(o, TableRows(db, t)));
  }

  function Orders(keys: seq<Row -> int>): (r: seq<Op>)
    ensures |r| == |keys| && forall i :: 0 <= i < |keys| ==> r[i] == OrderOp(keys[i])
  {
    seq(|keys|, i requires 0 <= i < |keys| => OrderOp(keys[i]))
  }

  lemma {:induction false} OrdersSettings(keys: seq<Row -> int>, p: Plan)
    ensures Steps(Orders(keys), p) == p.(opts := p.opts.(order := p.opts.order + keys))
  {
    if keys == [] {
      assert p.opts.order + keys == p.opts.order;
    } else {
      var n := |keys| - 1;
      OrdersSettings(keys[..n], p);
      assert Orders(keys)[..n] == Orders(keys[..n]);
      assert keys == keys[..n] + [keys[n]];
    }
  }

  ghost predicate AllInOrder(keys: seq<Row -> int>, rows: seq<Row>) {
    forall i, j :: 0 <= i < j < |rows| ==> InOrder(keys, rows[i], rows[j])
  }

  lemma {:induction false} DistinctInOrder(keys: seq<Row -> int>, s: seq<Row>)
    requires AllInOrder(keys, s)
    ensures AllInOrder(keys, Distinct(s))
  {
    hide InOrder;
    if s != [] {
      var m := |s| - 1;
      DistinctInOrder(keys, s[..m]);
      var d := Distinct(s[..m]);
      forall i | 0 <= i < |d| ensures InOrder(keys, d[i], s[m]) {
        assert d[i] in s[..m];
        var k :| 0 <= k < |s[..m]| && s[..m][k] == d[i];
        assert s[k] == d[i];
      }
    }
  }

  /** All rows of a query with whole rows stand in the order of its keys. */
  lemma RowsInOrder(db: Database, q: Query)
    requires q.fields == []
    ensures AllInOrder(q.opts.order, QueryNodes(db, q))
  {
    hide InOrder, SortBy, Base, Distinct;
    var kept := Filter(Meets(q.opts.preds), Base(db, q));
    SortByInOrder(q.opts.order, kept);
    var sel := Selected(q.opts, Base(db, q));
    MapIdentity(sel);
    DistinctInOrder(q.opts.order, sel);
    WindowInOrder(q.opts, DistinctIf(SpecUnique(q), sel));
  }

  lemma WindowInOrder(o: Opts, s: seq<Row>)
    requires AllInOrder(o.order, s)
    ensures AllInOrder(o.order, SpecWindow(o, s))
  {
    hide InOrder;
  }

  /** OrderBy sorts by the first key given, then by the second, and so on, and returns
      the same rows. */
  lemma OrderCalls(db: Database, p: Plan, keys: seq<Row -> int>)
    requires p.fields == [] && p.opts.order == []
    ensures var r := Rows(db, Steps(Orders(keys), p));
      AllInOrder(keys, r) && (Unlimited(p) ==> forall y :: y in r <==> y in Rows(db, p))
  {
    hide Base, AllInOrder, Selected;
    OrdersSettings(keys, p);
    assert [] + keys == keys;
    OptsOnly(p, p.opts.(order := keys));
    var q := Compile(p);
    var sorted := q.(opts := q.opts.(order := keys));
    RowsInOrder(db, sorted);
    assert Base(db, sorted) == Base(db, q) by { SameBase(db, sorted, q); }
    SelectedMembers(q.opts, Base(db, q));
    SelectedMembers(sorted.opts, Base(db, q));
    MapIdentity(Selected(q.opts, Base(db, q)));
    MapIdentity(Selected(sorted.opts, Base(db, q)));
  }

  // --------------------------------------------- columns, duplicates, edges

  lemma {:induction false} AddFksExact(w: Withs, cols: seq<string>, c: string)
    ensures c in AddFks(w, cols) <==> c in cols || exists e :: e in Edges(w) && Kind(e).M2O? && FkColumn(e) == c
    decreases w
  {
    match w
    case Done =>
    case Load(e, _, rest) => AddFksExact(rest, if Kind(e).M2O? then AddOnce(cols, FkColumn(e)) else cols, c);
  }

  /** The columns that a call of Select leaves: the ones given, the id, and the keys of
      the requested many-to-one edges. */
  ghost predicate Reads(p: Plan, fs: seq<string>, c: string) {
    || c in fs
    || (HasID(p.table) && c == "id")
    || exists e :: e in Edges(Compile(p).with) && Kind(e).M2O? && FkColumn(e) == c
  }

  lemma SelectColumns(p: Plan, fs: seq<string>, c: string)
    requires p.fields == [] && fs != []
    ensures var q := Compile(Steps([SelectOp(fs)], p));
      && q == Compile(p).(fields := fs)
      && SpecColumns(q).Some? && (c in SpecColumns(q).value <==> Reads(p, fs, c))
  {
    hide AddFks, Edges, Filter;
    One(SelectOp(fs), p);
    assert [] + fs == fs;
    var narrowed := p.(fields := fs);
    SlotsOnly(narrowed, p, EdgeOrder(p.table));
    var q := Compile(narrowed);
    var own := if HasID(p.table) then ["id"] + Filter((f: string) => f != "id", fs) else fs;
    AddFksExact(q.with, own, c);
  }

  /** Select keeps the rows, where none are merged, and drops the other columns. */
  lemma SelectCall(db: Database, p: Plan, fs: seq<string>, i: nat, c: string)
    requires p.fields == [] && fs != [] && !SpecUnique(Compile(p)) && i < |Rows(db, p)|
    ensures var r, s := Rows(db, Steps([SelectOp(fs)], p)), Rows(db, p);
      && |r| == |s| && r[i].id == s[i].id
      && (c in r[i].cols <==> c in s[i].cols && Reads(p, fs, c))
      && (c in r[i].cols ==> r[i].cols[c] == s[i].cols[c])
  {
    hide Selected, Base, SpecColumns, Reads, Compile;
    SelectColumns(p, fs, c);
    CompiledOpts(p);
    var q := Compile(p);
    var narrowed := Compile(Steps([SelectOp(fs)], p));
    WholeRows(q);
    assert Base(db, narrowed) == Base(db, q) by { SameBase(db, narrowed, q); }
    var sel := Selected(q.opts, Base(db, q));
    MapIdentity(sel);
    WindowProjects(q.opts, SpecColumns(narrowed), sel);
  }

  lemma WholeRows(q: Query)
    ensures q.fields == [] ==> SpecColumns(q) == None
  {
  }

  lemma WindowProjects(o: Opts, cols: Option<seq<string>>, s: seq<Row>)
    ensures SpecWindow(o, Map(Projecting(cols), s)) == Map(Projecting(cols), SpecWindow(o, s))
  {
  }

  /** Unique(true) returns each row of Unique(false) once, and so does a builder with a
      path unless it is told otherwise. */
  lemma UniqueCall(db: Database, p: Plan)
    requires Unlimited(p)
    ensures var r := Rows(db, Steps([UniqueOp(false)], p));
      && Rows(db, Steps([UniqueOp(true)], p)) == Distinct(r)
      && (p.opts.unique.None? ==> Rows(db, p) == if p.path.Via? then Distinct(r) else r)
  {
    hide Base, Selected, SpecColumns;
    One(UniqueOp(false), p);
    One(UniqueOp(true), p);
    OptsOnly(p, p.opts.(unique := Some(false)));
    OptsOnly(p, p.opts.(unique := Some(true)));
    var q := Compile(p);
    var no, yes := q.(opts := q.opts.(unique := Some(false))), q.(opts := q.opts.(unique := Some(true)));
    assert Base(db, no) == Base(db, q) == Base(db, yes) by {
      SameBase(db, no, q);
      SameBase(db, yes, q);
    }
    ColumnsOnly(no, q);
    ColumnsOnly(yes, q);
    SelectedOnly(no.opts, q.opts, Base(db, q));
    SelectedOnly(yes.opts, q.opts, Base(db, q));
  }

  /** Locking gives up DISTINCT on PostgreSQL and changes no row elsewhere. */
  lemma LockCall(p: Plan, lock: string)
    ensures Compile(Steps([LockOp(lock, true)], p)) == Compile(Steps([UniqueOp(false)], p))
    ensures Compile(Steps([LockOp(lock, false)], p)) == Compile(p)
    ensures forall pg :: Steps([LockOp(lock, pg)], p).locks == p.locks + [lock]
  {
    forall pg ensures Steps([LockOp(lock, pg)], p) == Step(LockOp(lock, pg), p) {
      One(LockOp(lock, pg), p);
    }
    One(UniqueOp(false), p);
    SlotsOnly(Step(LockOp(lock, true), p), Step(UniqueOp(false), p), EdgeOrder(p.table));
    SlotsOnly(Step(LockOp(lock, false), p), p, EdgeOrder(p.table));
  }

  lemma {:induction false} SlotLoads(p: Plan, es: seq<Edge>, e: Edge)
    requires NoDup(es)
    ensures var w := CompileSlots(p, es);
      && (e in Edges(w) <==> e in es && e in p.slots)
      && (e in Edges(w) ==> SubOf(w, e) == Compile(p.slots[e]))
    decreases |es|
  {
    hide Compile;
    if es != [] {
      SlotLoads(p, es[1..], e);
      assert es == [es[0]] + es[1..];
    }
  }

  /** WithX requests its edge, configured by the options given and nothing else, and
      leaves the other edges and all settings as they were. */
  lemma WithCall(p: Plan, e: Edge, ops: seq<Op>, x: Edge)
    requires Source(e) == p.table
    ensures var q, q' := Compile(p), Compile(Steps([WithOp(e, ops)], p));
      && q' == q.(with := q'.with)
      && e in Edges(q'.with) && SubOf(q'.with, e) == Compile(Steps(ops, Empty(Target(e))))
      && (x != e ==>
        (x in Edges(q'.with) <==> x in Edges(q.with)) && (x in Edges(q.with) ==> SubOf(q'.with, x) == SubOf(q.with, x)))
  {
    hide Compile, EdgeOrder;
    One(WithOp(e, ops), p);
    var p' := Step(WithOp(e, ops), p);
    CompiledWith(p);
    CompiledWith(p');
    EdgeOrderSound(p.table, e);
    EdgeOrderSound(p.table, x);
    SlotLoads(p', EdgeOrder(p.table), e);
    SlotLoads(p', EdgeOrder(p.table), x);
    SlotLoads(p, EdgeOrder(p.table), x);
  }

  lemma CompiledWith(p: Plan)
    ensures Compile(p) == Query(p.table, p.opts, p.fields, p.path, CompileSlots(p, EdgeOrder(p.table)))
  {
  }

  lemma {:induction false} NaiveTreeAt(db: Database, t: Table, w: Withs, tree: Tree, e: Edge)
    requires WellTyped(t, w)
    ensures var r := NaiveTree(db, w, tree);
      && (e in Edges(w) ==> e in r.edges && r.edges[e] == NaiveEdge(db, e, SubOf(w, e), tree.row))
      && (e !in Edges(w) ==> (e in r.edges <==> e in tree.edges) && (e in r.edges ==> r.edges[e] == tree.edges[e]))
    decreases w
  {
    hide NaiveEdge;
    match w
    case Done =>
    case Load(x, sub, rest) => NaiveTreeAt(db, t, rest, NaiveLoad(db, x, sub, tree), e);
  }

  /** And the edge of every entity holds what a query for it alone returns, configured
      by those options. */
  lemma WithLoads(db: Database, p: Plan, e: Edge, ops: seq<Op>, i: nat)
    requires Source(e) == p.table && Typed(p) && AllApplicable(ops, Target(e)) && ValidDb(db)
    requires var q := Compile(Steps([WithOp(e, ops)], p));
      FairWindows(db, q.with, QueryNodes(db, q)) && (HasID(q.table) ==> UniqueIds(QueryNodes(db, q))) &&
        i < |QueryNodes(db, q)|
    ensures var q := Compile(Steps([WithOp(e, ops)], p)); var t := Eval(db, q)[i];
      && t.row == QueryNodes(db, q)[i]
      && e in t.edges && t.edges[e] == NaiveEdge(db, e, Compile(Steps(ops, Empty(Target(e)))), t.row)
  {
    hide QueryNodes, Eval, FairWindows, NaiveEdge, Compile;
    var q := Compile(Steps([WithOp(e, ops)], p));
    One(WithOp(e, ops), p);
    StepTyped(WithOp(e, ops), p);
    CompiledTyped(Step(WithOp(e, ops), p));
    CompiledWith(Step(WithOp(e, ops), p));
    WithCall(p, e, ops, e);
    EvalIsNaive(db, q);
    var row := QueryNodes(db, q)[i];
    NaiveTreeAt(db, q.table, q.with, Tree(row, Nothing(q.with)), e);
    NaiveKeepsRow(db, q.with, Tree(row, Nothing(q.with)));
  }
}
