/** `WithGroups` against `QueryGroups` on the same builder: when the groups
    attached to the returned accounts are the groups the traversal returns. */
module EagerVsTraversal {
  import opened Seqs
  import opened Schema
  import opened EagerSpec
  import opened EagerTheorems
  import opened Traversal

  const E: Edge := GroupsEdge

  /** The rows attached on the edge across a whole result. */
  ghost function Attached(ts: seq<Tree>): set<Row> {
    set i, g | 0 <= i < |ts| && g in GetEdge(ts[i], E) :: g.row
  }

  /** `q.QueryGroups()` configured like the eager-loading sub-builder. */
  function GroupsOf(q: Query, sub: Query): Query {
    Query(Groups, sub.opts, sub.fields, Via(q, E), Done)
  }

  /** The targets that a set of source ids links to. */
  ghost function LinkedTargets(db: Database, sub: Query, ids: seq<int>): set<Row> {
    set y | y in TableRows(db, Groups) && Holds(sub.opts.preds, y) && (exists a :: a in Links(db, E, y.id) && a in ids)
          :: Project(SpecColumns(sub), y)
  }

  lemma ReceivedTargets(db: Database, sub: Query, ids: seq<int>)
    requires sub.table == Groups && sub.path.NoPath? && NoWindow(sub.opts) && sub.with.Done?
    ensures ToSet(FirstById(JoinRows(db, E, sub, ids))) <= LinkedTargets(db, sub, ids)
  {
    hide SpecColumns;
    var pairs := JoinRows(db, E, sub, ids);
    forall r | r in FirstById(pairs) ensures r in LinkedTargets(db, sub, ids) {
      FirstByIdMember(pairs, r);
      var k :| 0 <= k < |pairs| && pairs[k].1 == r;
      var p := JoinMember(db, sub, ids, pairs[k]);
    }
  }

  lemma JoinMember(db: Database, sub: Query, ids: seq<int>, p: (int, Row)) returns (y: Row)
    requires sub.table == Groups && p in JoinRows(db, E, sub, ids)
    ensures y in TableRows(db, Groups) && Holds(sub.opts.preds, y) && p.0 in Links(db, E, y.id) && p.0 in ids
    ensures p.1 == Project(SpecColumns(sub), y)
  {
    hide SpecColumns, Links;
    var cols := SpecColumns(sub);
    var sel := Selected(sub.opts, TableRows(db, Groups));
    assert p in FlatMap(Linking(db, E, ids, cols), sel);
    y :| y in sel && p in Linking(db, E, ids, cols)(y);
    SelectedMembers(sub.opts, TableRows(db, Groups));
    LinkPairsMember(db, E, ids, cols, y, p);
  }

  lemma {:induction false} FirstByIdMember(pairs: seq<(int, Row)>, r: Row)
    requires r in FirstById(pairs)
    ensures exists k :: 0 <= k < |pairs| && pairs[k].1 == r
  {
    var m := |pairs| - 1;
    if r in FirstById(pairs[..m]) {
      FirstByIdMember(pairs[..m], r);
      var k :| 0 <= k < |pairs[..m]| && pairs[..m][k].1 == r;
      assert pairs[k].1 == r;
    } else {
      assert pairs[m].1 == r;
    }
  }

  /** Every entity holds the targets that it receives. */
  lemma AttachedEdges(db: Database, sub: Query, rows: seq<Row>)
    requires sub.table == Groups && sub.with.Done?
    ensures var w, pairs := Load(E, sub, Done), JoinRows(db, E, sub, Ids(rows));
      var done := Attach(db, w, Bare(w, rows));
      forall i :: 0 <= i < |rows| ==>
        GetEdge(done[i], E) == Filter(ReceivedBy(Ids(rows), pairs, i), Bare(Done, FirstById(pairs)))
  {
    hide SpecColumns, JoinRows, FirstById, Links, Receives, ScatterM2M, LoadEdge;
    var w := Load(E, sub, Done);
    var bare, pairs := Bare(w, rows), JoinRows(db, E, sub, Ids(rows));
    assert RowsOf(bare) == rows;
    var ns := Bare(Done, FirstById(pairs));
    var done := Attach(db, w, bare);
    LoadEdgeM2M(db, E, sub, bare, pairs);
    assert done == Attach(db, Done, LoadEdge(db, E, sub, bare));
    assert done == ScatterM2M(E, Init(E, bare), ns, pairs);
    assert RowsOf(Init(E, bare)) == rows;
    forall i | 0 <= i < |rows| ensures GetEdge(done[i], E) == Filter(ReceivedBy(Ids(rows), pairs, i), ns) {
      ScatterM2MAt(E, Init(E, bare), ns, pairs, i);
      CollectFresh(E, Init(E, bare)[i], Filter(ReceivedBy(Ids(rows), pairs, i), ns));
    }
  }

  /** Each linked target is attached to the owner of the id it links. */
  lemma AttachedIs(db: Database, sub: Query, rows: seq<Row>)
    requires UniqueIds(TableRows(db, Groups))
    requires sub.table == Groups && sub.path.NoPath? && NoWindow(sub.opts) && sub.with.Done?
    ensures var w := Load(E, sub, Done); Attached(Attach(db, w, Bare(w, rows))) == LinkedTargets(db, sub, Ids(rows))
  {
    hide SpecColumns, JoinRows, FirstById, Links, Receives, Attach, Filter;
    var w := Load(E, sub, Done);
    var ids := Ids(rows);
    var pairs := JoinRows(db, E, sub, ids);
    var ns, done := Bare(Done, FirstById(pairs)), Attach(db, w, Bare(w, rows));
    AttachedEdges(db, sub, rows);
    ReceivedTargets(db, sub, ids);
    forall r | r in Attached(done) ensures r in LinkedTargets(db, sub, ids) {
      var i, g :| 0 <= i < |done| && g in GetEdge(done[i], E) && g.row == r;
      assert g in ns;
      var j :| 0 <= j < |ns| && ns[j] == g;
      assert r in ToSet(FirstById(pairs));
    }
    forall r | r in LinkedTargets(db, sub, ids) ensures r in Attached(done) {
      var y, a :| y in TableRows(db, Groups) && Holds(sub.opts.preds, y) && a in Links(db, E, y.id) && a in ids &&
        r == Project(SpecColumns(sub), y);
      var i, j := AttachedWitness(db, sub, ids, y, a);
      assert ns[j].row == r;
      assert ReceivedBy(ids, pairs, i)(ns[j]);
      assert ns[j] in ns;
      assert ns[j] in GetEdge(done[i], E);
    }
  }

  lemma AttachedWitness(db: Database, sub: Query, ids: seq<int>, y: Row, a: int) returns (i: nat, j: nat)
    requires UniqueIds(TableRows(db, Groups))
    requires sub.table == Groups && sub.path.NoPath? && NoWindow(sub.opts)
    requires y in TableRows(db, Groups) && Holds(sub.opts.preds, y) && a in Links(db, E, y.id) && a in ids
    ensures var pairs := JoinRows(db, E, sub, ids);
      i < |ids| && j < |FirstById(pairs)| && FirstById(pairs)[j] == Project(SpecColumns(sub), y) &&
        Receives(ids, pairs, i, y.id)
  {
    hide SpecColumns, Links;
    var cols := SpecColumns(sub);
    var base := TableRows(db, Groups);
    var sel := Selected(sub.opts, base);
    var pairs := JoinRows(db, E, sub, ids);
    assert pairs == FlatMap(Linking(db, E, ids, cols), sel);
    SelectedMembers(sub.opts, base);
    LinkPairsHas(db, E, ids, cols, y, a);
    assert (a, Project(cols, y)) in Linking(db, E, ids, cols)(y);
    var p := (a, Project(cols, y));
    assert y in sel && p in pairs;
    var k :| 0 <= k < |pairs| && pairs[k] == p;
    i := Owner(ids, a).value;
    SelectedUnique(db, sub);
    JoinTargets(db, E, ids, cols, sel);
    var kept := Filter(LinkedToAny(db, E, ids), sel);
    assert y in kept;
    j :| 0 <= j < |kept| && kept[j] == y;
  }

  /** The traversal selects the targets linked to the source's rows. */
  lemma TraversedIs(db: Database, q: Query, sub: Query)
    requires q.table == Accounts && sub.table == Groups && NoWindow(sub.opts) && sub.with.Done?
    ensures ToSet(QueryNodes(db, GroupsOf(q, sub))) == LinkedTargets(db, sub, Ids(SqlQuery(db, q)))
  {
    hide SpecColumns, Links, SqlQuery, Selected, LinkedTargets, Map;
    var t := GroupsOf(q, sub);
    SameGroupColumns(q, sub);
    var sel := Selected(t.opts, Base(db, t));
    var mapped := Map(Projecting(SpecColumns(sub)), sel);
    assert QueryNodes(db, t) == DistinctIf(SpecUnique(t), mapped);
    TraversedMembers(db, q, sub, mapped);
  }

  lemma TraversedMembers(db: Database, q: Query, sub: Query, mapped: seq<Row>)
    requires q.table == Accounts && sub.table == Groups
    requires mapped == Map(Projecting(SpecColumns(sub)), Selected(sub.opts, SetNeighbors(db, E, SqlQuery(db, q))))
    ensures ToSet(mapped) == LinkedTargets(db, sub, Ids(SqlQuery(db, q)))
  {
    hide SpecColumns, Links, SqlQuery, Selected, Neighbors;
    var rows := SqlQuery(db, q);
    var base := SetNeighbors(db, E, rows);
    var sel := Selected(sub.opts, base);
    SelectedMembers(sub.opts, base);
    forall r | r in mapped ensures r in LinkedTargets(db, sub, Ids(rows)) {
      var i :| 0 <= i < |mapped| && mapped[i] == r;
      var y := sel[i];
      assert y in base;
      var x :| x in rows && y in NeighborsOf(db, E)(x);
      GroupNeighbor(db, x, y);
      var h :| 0 <= h < |rows| && rows[h] == x;
      assert Ids(rows)[h] == x.id;
    }
    forall r | r in LinkedTargets(db, sub, Ids(rows)) ensures r in mapped {
      var y, a :| y in TableRows(db, Groups) && Holds(sub.opts.preds, y) && a in Links(db, E, y.id) &&
        a in Ids(rows) && r == Project(SpecColumns(sub), y);
      var h :| 0 <= h < |rows| && Ids(rows)[h] == a;
      GroupNeighbor(db, rows[h], y);
      assert y in NeighborsOf(db, E)(rows[h]);
      var i :| 0 <= i < |sel| && sel[i] == y;
      assert mapped[i] == r;
    }
  }

  lemma SameGroupColumns(q: Query, sub: Query)
    requires sub.table == Groups && sub.with.Done?
    ensures SpecColumns(GroupsOf(q, sub)) == SpecColumns(sub)
  {
  }

  lemma GroupNeighbor(db: Database, x: Row, y: Row)
    ensures y in Neighbors(db, E, x) <==> y in TableRows(db, Groups) && x.id in Links(db, E, y.id)
  {
    hide Links;
    var f := (z: Row) => Map((_: int) => z, Filter((a: int) => a == x.id, Links(db, E, z.id)));
    assert Neighbors(db, E, x) == FlatMap(f, TableRows(db, Groups));
    if y in Neighbors(db, E, x) {
      var z :| z in TableRows(db, Groups) && y in f(z);
      var hits := Filter((a: int) => a == x.id, Links(db, E, z.id));
      assert hits[0] in hits;
    }
    if y in TableRows(db, Groups) && x.id in Links(db, E, y.id) {
      var hits := Filter((a: int) => a == x.id, Links(db, E, y.id));
      assert x.id in hits;
      assert f(y)[0] == y;
      assert y in f(y);
    }
  }

  // ------------------------------------------- which rows each side uses

  /** The rows `All` returns and the rows a further step joins, out of what the
      statement selects before DISTINCT, OFFSET and LIMIT. */
  function EngineRows(o: Opts, path: bool, s: seq<Row>): seq<Row> {
    SpecWindow(o, DistinctIf(if o.unique.Some? then o.unique.value else path, s))
  }

  function SourceRows(o: Opts, s: seq<Row>): seq<Row> {
    Window(o.limit, o.offset, DistinctIf(o.unique == Some(true), s))
  }

  /** What a caller can check before running either query. */
  predicate Agrees(o: Opts, path: bool) {
    if o.unique.Some? || !path then o.limit != Some(0) && !(o.limit.None? && o.offset == Some(0))
    else (o.limit.None? && o.offset.None?) || (o.limit == Some(1) && NonZero(o.offset).None?)
  }

  lemma RowsAgree(o: Opts, path: bool, s: seq<Row>)
    requires Agrees(o, path) && (path || NoDup(s))
    ensures ToSet(EngineRows(o, path, s)) == ToSet(SourceRows(o, s))
  {
    if !path {
      DistinctIdentity(s);
    }
    if o.unique.None? && path && o.limit == Some(1) {
      DistinctFirst(s);
      assert o.offset == Some(0) ==> Drop(0, s) == s;
    } else {
      assert forall t: seq<Row> :: Drop(0, t) == t;
    }
  }

  lemma {:induction false} DistinctFirst(s: seq<Row>)
    ensures Take(1, Distinct(s)) == Take(1, s)
  {
    if |s| > 1 {
      DistinctFirst(s[..|s| - 1]);
    }
  }

  lemma {:induction false} DistinctMap(cols: Option<seq<string>>, s: seq<Row>)
    requires forall x, y :: x in s && y in s && Project(cols, x) == Project(cols, y) ==> x == y
    ensures Distinct(Map(Projecting(cols), s)) == Map(Projecting(cols), Distinct(s))
  {
    hide Project;
    if s != [] {
      var m, f := |s| - 1, Projecting(cols);
      DistinctMap(cols, s[..m]);
      var d := Distinct(s[..m]);
      assert Map(f, s)[..m] == Map(f, s[..m]);
      assert forall y :: y in d ==> f(y) == Project(cols, y);
      InMap(f, d, s[m]);
      assert Map(f, d + [s[m]]) == Map(f, d) + [f(s[m])];
    }
  }

  lemma InMap(f: Row -> Row, s: seq<Row>, x: Row)
    requires forall y :: y in s && f(y) == f(x) ==> y == x
    ensures f(x) in Map(f, s) <==> x in s
  {
    if x in s {
      var j :| 0 <= j < |s| && s[j] == x;
      assert Map(f, s)[j] == f(x);
    }
  }

  lemma WindowMap(f: Row -> Row, limit: Option<nat>, offset: Option<nat>, s: seq<Row>)
    ensures Window(limit, offset, Map(f, s)) == Map(f, Window(limit, offset, s))
  {
  }

  /** Narrowing the columns of the accounts' own query changes none of this. */
  lemma EngineIds(db: Database, q: Query)
    requires ValidDb(db) && TypedPath(q) && HasID(q.table)
    ensures Ids(QueryNodes(db, q)) == Ids(EngineRows(q.opts, q.path.Via?, Selected(q.opts, Base(db, q))))
  {
    hide Selected, Base;
    var s, cols := Selected(q.opts, Base(db, q)), SpecColumns(q);
    BaseInTable(db, q);
    SelectedMembers(q.opts, Base(db, q));
    forall x, y | x in s && y in s && x.id == y.id ensures x == y {
      SameRow(TableRows(db, q.table), x, y);
    }
    DistinctMap(cols, s);
    var kept := DistinctIf(SpecUnique(q), s);
    WindowMap(Projecting(cols), NonZero(q.opts.limit), NonZero(q.opts.offset), kept);
  }

  ghost function EagerGroups(db: Database, q: Query, sub: Query): set<Row> {
    Attached(Eval(db, q.(with := Load(E, sub, Done))))
  }

  ghost function TraversedGroups(db: Database, q: Query, sub: Query): set<Row> {
    ToSet(QueryNodes(db, GroupsOf(q, sub)))
  }

  /** A group sub-builder without limit, offset or nested loads. */
  ghost predicate PlainSub(sub: Query) {
    sub.table == Groups && sub.path.NoPath? && NoWindow(sub.opts) && sub.with.Done?
  }

  lemma SameLinks(db: Database, sub: Query, a: seq<Row>, b: seq<Row>)
    requires ToSet(a) == ToSet(b)
    ensures LinkedTargets(db, sub, Ids(a)) == LinkedTargets(db, sub, Ids(b))
  {
    hide Links, SpecColumns;
    SameIds(a, b);
    SameIds(b, a);
  }

  lemma SameIds(a: seq<Row>, b: seq<Row>)
    requires ToSet(a) == ToSet(b)
    ensures forall k :: k in Ids(a) ==> k in Ids(b)
  {
    forall k | k in Ids(a) ensures k in Ids(b) {
      var i :| 0 <= i < |a| && Ids(a)[i] == k;
      assert a[i] in ToSet(b);
      var j :| 0 <= j < |b| && b[j] == a[i];
      assert Ids(b)[j] == k;
    }
  }

  lemma EagerIs(db: Database, q: Query, sub: Query)
    requires ValidDb(db) && TypedPath(q) && q.table == Accounts && PlainSub(sub)
    ensures EagerGroups(db, q, sub) ==
      LinkedTargets(db, sub, Ids(EngineRows(q.opts, q.path.Via?, Selected(q.opts, Base(db, q)))))
  {
    hide QueryNodes, LinkedTargets, EngineRows, Selected, Attached, Attach;
    var q' := q.(with := Load(E, sub, Done));
    assert Base(db, q') == Base(db, q);
    EngineIds(db, q');
    AttachedIs(db, sub, QueryNodes(db, q'));
  }

  /** Eager loading agrees with traversal on every database. */
  lemma EagerAgrees(db: Database, q: Query, sub: Query)
    requires ValidDb(db) && TypedPath(q) && q.table == Accounts && PlainSub(sub)
    requires Agrees(q.opts, q.path.Via?)
    ensures EagerGroups(db, q, sub) == TraversedGroups(db, q, sub)
  {
    hide LinkedTargets, EngineRows, EagerGroups, Agrees, QueryNodes;
    EagerIs(db, q, sub);
    TraversedIs(db, q, sub);
    var s := Selected(q.opts, Base(db, q));
    assert SqlQuery(db, q) == SourceRows(q.opts, s);
    if q.path.NoPath? {
      SelectedUnique(db, q);
      assert NoDup(s);
    }
    RowsAgree(q.opts, q.path.Via?, s);
    SameLinks(db, sub, EngineRows(q.opts, q.path.Via?, s), SqlQuery(db, q));
  }
}
