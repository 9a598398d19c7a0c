/** Select narrows the entities' own fields: exactly when it changes nothing else,
    for entities with an id and for the composite-key entity without one. */
module EagerSelect {
  import opened Seqs
  import opened Schema
  import opened EagerSpec
  import opened EagerAccess
  import opened Traversal
  import opened EagerVsTraversal
  import opened EagerExact

  /** The composite key of account_groups. */
  ghost predicate UniquePairs(rows: seq<Row>) {
    forall i, j :: 0 <= i < j < |rows| ==>
      Col(rows[i], "account_id") != Col(rows[j], "account_id") || Col(rows[i], "group_id") != Col(rows[j], "group_id")
  }

  ghost predicate ValidKeys(db: Database) {
    ValidDb(db) && UniquePairs(TableRows(db, AccountGroups))
  }

  /** The columns that a narrowed query reads identify its rows. */
  predicate ReadsKeys(q: Query) {
    || HasID(q.table)
    || q.fields == []
    || ("account_id" in SpecColumns(q).value && "group_id" in SpecColumns(q).value)
  }

  /** Only the first row is asked for. */
  predicate FirstOnly(o: Opts) {
    o.limit == Some(1) && NonZero(o.offset).None?
  }

  /** What a caller can check before the call. */
  predicate SelectSafe(q: Query) {
    ReadsKeys(q) || !SpecUnique(q) || FirstOnly(q.opts)
  }

  lemma {:induction false} SelectedInTable(db: Database, q: Query)
    requires TypedPath(q)
    ensures forall x :: x in Selected(q.opts, Base(db, q)) ==> x in TableRows(db, q.table)
  {
    BaseInTable(db, q);
    SelectedMembers(q.opts, Base(db, q));
  }

  lemma ProjectedCol(cols: Option<seq<string>>, x: Row, c: string)
    requires cols.None? || c in cols.value
    ensures Col(Project(cols, x), c) == Col(x, c)
  {
  }

  /** Rows of one table that read alike are the same row. */
  lemma KeysIdentify(db: Database, q: Query, x: Row, y: Row)
    requires ValidKeys(db) && ReadsKeys(q)
    requires q.table != AccountGroups ==> HasID(q.table)
    requires x in TableRows(db, q.table) && y in TableRows(db, q.table)
    requires Project(SpecColumns(q), x) == Project(SpecColumns(q), y)
    ensures x == y
  {
    hide SpecColumns;
    var rows, cols := TableRows(db, q.table), SpecColumns(q);
    var i :| 0 <= i < |rows| && rows[i] == x;
    var j :| 0 <= j < |rows| && rows[j] == y;
    if HasID(q.table) {
      assert x.id == Project(cols, x).id == y.id;
    } else {
      ReadsBoth(q);
      ProjectedCol(cols, x, "account_id");
      ProjectedCol(cols, y, "account_id");
      ProjectedCol(cols, x, "group_id");
      ProjectedCol(cols, y, "group_id");
    }
  }

  lemma ReadsBoth(q: Query)
    requires !HasID(q.table) && ReadsKeys(q)
    ensures SpecColumns(q).None? || ("account_id" in SpecColumns(q).value && "group_id" in SpecColumns(q).value)
  {
  }

  lemma NarrowedDistinct(q: Query, s: seq<Row>)
    requires ReadsKeys(q) ==>
      forall x, y :: x in s && y in s && Project(SpecColumns(q), x) == Project(SpecColumns(q), y) ==> x == y
    requires SelectSafe(q)
    ensures var f := Projecting(SpecColumns(q)); var u := SpecUnique(q);
      SpecWindow(q.opts, DistinctIf(u, Map(f, s))) == Map(f, SpecWindow(q.opts, DistinctIf(u, s)))
  {
    hide SpecColumns, SpecUnique, ReadsKeys;
    var cols := SpecColumns(q);
    var f := Projecting(cols);
    var limit, offset := NonZero(q.opts.limit), NonZero(q.opts.offset);
    if ReadsKeys(q) || !SpecUnique(q) {
      DistinctMap'(cols, s, ReadsKeys(q));
      WindowMap(f, limit, offset, DistinctIf(SpecUnique(q), s));
    } else {
      DistinctFirst(s);
      DistinctFirst(Map(f, s));
      assert Take(1, Map(f, s)) == Map(f, Take(1, s));
    }
  }

  lemma DistinctMap'(cols: Option<seq<string>>, s: seq<Row>, keys: bool)
    requires keys ==> forall x, y :: x in s && y in s && Project(cols, x) == Project(cols, y) ==> x == y
    ensures keys ==> Distinct(Map(Projecting(cols), s)) == Map(Projecting(cols), Distinct(s))
  {
    if keys {
      DistinctMap(cols, s);
    }
  }

  /** Select changes neither which entities are returned nor any attached edge, at
      any depth, if the read columns identify the rows, or nothing is deduplicated,
      or only the first row is asked for. */
  lemma ProjectionIndependence(db: Database, q: Query)
    requires ValidKeys(db) && TypedPath(q) && SelectSafe(q)
    ensures SameEdges(Eval(db, q), Eval(db, q.(fields := [])))
    ensures Ids(RowsOf(Eval(db, q))) == Ids(RowsOf(Eval(db, q.(fields := []))))
  {
    hide Selected, Base, ReadsKeys, SelectSafe, SpecColumns;
    var wide := q.(fields := []);
    var s, cols := Selected(q.opts, Base(db, q)), SpecColumns(q);
    SameBase(db, q, wide);
    WideColumns(q);
    SelectedInTable(db, q);
    forall x, y | x in s && y in s && ReadsKeys(q) && Project(cols, x) == Project(cols, y) ensures x == y {
      KeysIdentify(db, q, x, y);
    }
    NarrowedDistinct(q, s);
    MapIdentity(s);
    var full := SpecWindow(q.opts, DistinctIf(SpecUnique(q), s));
    assert QueryNodes(db, q) == Map(Projecting(cols), full);
    assert QueryNodes(db, wide) == full;
    NarrowedAttach(db, q, full);
    EvalRows(db, q);
    EvalRows(db, wide);
  }

  lemma WideColumns(q: Query)
    ensures SpecColumns(q.(fields := [])) == None && SpecUnique(q.(fields := [])) == SpecUnique(q)
  {
  }

  // ------------------------------------------------------------ the converse

  /** Join row i of a family that differs in one key column only. */
  function J(i: int, byGroup: bool): Row {
    Row(0, map["account_id" := Some(if byGroup then 0 else i), "group_id" := Some(if byGroup then i else 0)])
  }

  function Join(n: nat, byGroup: bool): (r: seq<Row>)
    ensures |r| == n && forall i :: 0 <= i < n ==> r[i] == J(i, byGroup)
  {
    seq(n, i => J(i, byGroup))
  }

  function Owners(n: nat): (r: seq<Row>)
    ensures |r| == n && forall i :: 0 <= i < n ==> r[i] == Row(i, map[])
  {
    seq(n, i => Row(i, map[]))
  }

  function JoinDb(n: nat, byGroup: bool): Database {
    map[Accounts := Owners(if byGroup then 1 else n), AccountGroups := Join(n, byGroup)]
  }

  /** `AccountGroup.Query()` or `Account.Query().QueryAccountGroups()`, narrowed. */
  function JoinQuery(o: Opts, path: bool, fields: seq<string>, w: Withs): Query {
    Query(AccountGroups, o, fields,
          if path then Via(Query(Accounts, PLAIN, [], NoPath, Done), AccountGroupsEdge) else NoPath, w)
  }

  lemma JoinDbValid(n: nat, byGroup: bool)
    ensures ValidKeys(JoinDb(n, byGroup))
  {
    var db := JoinDb(n, byGroup);
    forall t | HasID(t) ensures UniqueIds(TableRows(db, t)) {
    }
  }

  lemma JoinCols(i: int, byGroup: bool)
    ensures Col(J(i, byGroup), "account_id") == Some(if byGroup then 0 else i)
    ensures Col(J(i, byGroup), "group_id") == Some(if byGroup then i else 0)
  {
    assert "account_id"[0] != "group_id"[0];
  }

  lemma OwnNeighbors(n: nat, a: nat)
    requires a < n
    ensures Neighbors(JoinDb(n, false), AccountGroupsEdge, Owners(n)[a]) == [J(a, false)]
  {
    hide J, Col, Filter;
    var rows := Join(n, false);
    var p := (y: Row) => Col(y, FkColumn(AccountGroupsEdge)) == Some(Owners(n)[a].id);
    assert TableRows(JoinDb(n, false), AccountGroups) == rows;
    forall j | 0 <= j < n ensures p(rows[j]) <==> j == a {
      JoinCols(j, false);
    }
    OnlyMatch(rows, a, p);
  }

  lemma AllNeighbors(n: nat)
    ensures Neighbors(JoinDb(n, true), AccountGroupsEdge, Owners(1)[0]) == Join(n, true)
  {
    hide J, Col, Filter;
    var rows := Join(n, true);
    var p := (y: Row) => Col(y, FkColumn(AccountGroupsEdge)) == Some(Owners(1)[0].id);
    assert TableRows(JoinDb(n, true), AccountGroups) == rows;
    forall j | 0 <= j < n ensures p(rows[j]) {
      JoinCols(j, true);
    }
    FilterAll(p, rows);
  }

  lemma {:induction false} OwnersJoined(n: nat, k: nat)
    requires k <= n
    ensures SetNeighbors(JoinDb(n, false), AccountGroupsEdge, Owners(n)[..k]) == Join(n, false)[..k]
  {
    hide Neighbors, JoinDb;
    if k > 0 {
      OwnersJoined(n, k - 1);
      OwnNeighbors(n, k - 1);
      assert Owners(n)[..k][..k - 1] == Owners(n)[..k - 1];
    }
  }

  lemma JoinBase(n: nat, byGroup: bool, o: Opts, path: bool, fields: seq<string>, w: Withs)
    ensures Base(JoinDb(n, byGroup), JoinQuery(o, path, fields, w)) == Join(n, byGroup)
  {
    hide Neighbors;
    var db := JoinDb(n, byGroup);
    if path {
      var owners := TableRows(db, Accounts);
      SelectedPlain(PLAIN, owners);
      assert SqlQuery(db, Query(Accounts, PLAIN, [], NoPath, Done)) == owners;
      if byGroup {
        AllNeighbors(n);
        assert owners[..0] == [];
      } else {
        OwnersJoined(n, n);
        assert owners[..n] == owners && Join(n, false)[..n] == Join(n, false);
      }
    }
  }

  lemma JoinNoDup(n: nat, byGroup: bool)
    ensures NoDup(Join(n, byGroup))
  {
    forall i, j | 0 <= i < j < n ensures Join(n, byGroup)[i] != Join(n, byGroup)[j] {
      var x, y := Join(n, byGroup)[i], Join(n, byGroup)[j];
      assert Col(x, "account_id") != Col(y, "account_id") || Col(x, "group_id") != Col(y, "group_id");
    }
  }

  /** All rows read alike once the column in which they differ is left out. */
  lemma {:induction false} JoinMerges(n: nat, byGroup: bool, cols: Option<seq<string>>, k: nat)
    requires 0 < k <= n && cols.Some? && (if byGroup then "group_id" else "account_id") !in cols.value
    ensures Distinct(Map(Projecting(cols), Join(n, byGroup)[..k])) == [Project(cols, Join(n, byGroup)[0])]
  {
    var rows := Join(n, byGroup);
    var m := Map(Projecting(cols), rows[..k]);
    assert Project(cols, rows[k - 1]) == Project(cols, rows[0]) by {
      var a, b := Project(cols, rows[k - 1]).cols, Project(cols, rows[0]).cols;
      assert a == b;
    }
    assert m[..k - 1] == Map(Projecting(cols), rows[..k - 1]);
    if k > 1 {
      JoinMerges(n, byGroup, cols, k - 1);
    } else {
      assert m[..0] == [];
    }
  }

  /** How many rows the full and the narrowed query return. */
  lemma WideCount(n: nat, byGroup: bool, o: Opts, path: bool, w: Withs)
    requires o.preds == [] && o.order == []
    ensures |QueryNodes(JoinDb(n, byGroup), JoinQuery(o, path, [], w))| == |SpecWindow(o, Join(n, byGroup))|
  {
    hide Base, JoinDb, SpecUnique, Join;
    var rows := Join(n, byGroup);
    JoinBase(n, byGroup, o, path, [], w);
    SelectedPlain(o, rows);
    JoinNoDup(n, byGroup);
    DistinctIdentity(rows);
    MapIdentity(rows);
  }

  lemma WindowLength(o: Opts, a: seq<Row>, b: seq<Row>)
    requires |a| == |b|
    ensures |SpecWindow(o, a)| == |SpecWindow(o, b)|
  {
  }

  lemma NarrowCount(n: nat, byGroup: bool, o: Opts, path: bool, fields: seq<string>, w: Withs)
    requires n > 0 && o.preds == [] && o.order == []
    requires var q := JoinQuery(o, path, fields, w); var cols := SpecColumns(q);
      SpecUnique(q) && cols.Some? && (if byGroup then "group_id" else "account_id") !in cols.value
    ensures |QueryNodes(JoinDb(n, byGroup), JoinQuery(o, path, fields, w))| == |SpecWindow(o, [J(0, byGroup)])|
  {
    hide Base, SpecColumns, SpecUnique, JoinDb, Join, Selected, Projecting, Project, J, Distinct, SpecWindow;
    var rows, cols := Join(n, byGroup), SpecColumns(JoinQuery(o, path, fields, w));
    JoinBase(n, byGroup, o, path, fields, w);
    SelectedPlain(o, rows);
    JoinMerges(n, byGroup, cols, n);
    assert rows[..n] == rows;
    WindowLength(o, [Project(cols, rows[0])], [J(0, byGroup)]);
  }

  /** If Select is not safe, join rows that it cannot tell apart are merged. */
  lemma SelectMerges(o: Opts, path: bool, fields: seq<string>, w: Withs) returns (db: Database)
    requires o.preds == [] && o.order == [] && !SelectSafe(JoinQuery(o, path, fields, w))
    ensures ValidKeys(db)
    ensures var q := JoinQuery(o, path, fields, w); !SameEdges(Eval(db, q), Eval(db, q.(fields := [])))
  {
    hide SpecColumns, Eval, QueryNodes, SelectSafe, JoinDb, SpecUnique, ValidKeys;
    var q := JoinQuery(o, path, fields, w);
    NotSafe(q);
    var byGroup := "group_id" !in SpecColumns(q).value;
    var n := (if o.offset.Some? then o.offset.value else 0) + 2;
    db := JoinDb(n, byGroup);
    JoinDbValid(n, byGroup);
    NarrowCount(n, byGroup, o, path, fields, w);
    WideCount(n, byGroup, o, path, w);
    assert JoinQuery(o, path, [], w) == q.(fields := []);
    EvalRows(db, q);
    EvalRows(db, q.(fields := []));
  }

  lemma NotSafe(q: Query)
    requires !SelectSafe(q)
    ensures SpecColumns(q).Some? && ("account_id" !in SpecColumns(q).value || "group_id" !in SpecColumns(q).value)
    ensures SpecUnique(q) && !FirstOnly(q.opts)
  {
  }

  /** Select leaves the entities and edges of every account group query with these
      settings alone, on every database, exactly when it is safe. */
  lemma SelectSafeExact(limit: Option<nat>, offset: Option<nat>, unique: Option<bool>, path: bool, fields: seq<string>,
      w: Withs)
    ensures SelectHarmless(limit, offset, unique, path, fields, w) <==>
      SelectSafe(JoinQuery(Opts([], [], limit, offset, unique), path, fields, w))
  {
    hide ValidKeys, Eval, SameEdges;
    var o := Opts([], [], limit, offset, unique);
    var plain := JoinQuery(o, path, fields, w);
    if SelectSafe(plain) {
      forall db, q | ValidKeys(db) && Like(q, limit, offset, unique, path, fields, w)
        ensures SameEdges(Eval(db, q), Eval(db, q.(fields := [])))
      {
        SafeAlike(q, plain);
        ProjectionIndependence(db, q);
      }
    } else {
      var db := SelectMerges(o, path, fields, w);
      assert TypedPath(Query(Accounts, PLAIN, [], NoPath, Done));
      assert TypedPath(plain);
      assert Like(plain, limit, offset, unique, path, fields, w);
    }
  }

  lemma SafeAlike(a: Query, b: Query)
    requires a.table == b.table && a.fields == b.fields && a.with == b.with && a.path.Via? == b.path.Via?
    requires a.opts.limit == b.opts.limit && a.opts.offset == b.opts.offset && a.opts.unique == b.opts.unique
    ensures SelectSafe(a) == SelectSafe(b)
  {
    assert SpecColumns(a) == SpecColumns(b);
  }

  ghost predicate Like(q: Query, limit: Option<nat>, offset: Option<nat>, unique: Option<bool>, path: bool,
      fields: seq<string>, w: Withs) {
    && TypedPath(q) && q.table == AccountGroups && q.path.Via? == path && q.fields == fields && q.with == w
    && q.opts.limit == limit && q.opts.offset == offset && q.opts.unique == unique
  }

  ghost predicate SelectHarmless(limit: Option<nat>, offset: Option<nat>, unique: Option<bool>, path: bool,
      fields: seq<string>, w: Withs) {
    forall db: Database, q: Query :: ValidKeys(db) && Like(q, limit, offset, unique, path, fields, w) ==>
      SameEdges(Eval(db, q), Eval(db, q.(fields := [])))
  }
}
