/** The converse: for every setting of Unique, Limit and Offset outside
    `Agrees` there is a database on which eager loading and traversal differ. */
module EagerExact {
  import opened Seqs
  import opened Schema
  import opened EagerSpec
  import opened Traversal
  import opened EagerVsTraversal

  function P(i: int): Row {
    Row(i, map[])
  }

  function Parents(n: nat): seq<Row> {
    seq(n, i => P(i))
  }

  /** One child account for each entry of `t`, naming its parent. */
  function Children(n: nat, t: seq<nat>): seq<Row> {
    seq(|t|, j requires 0 <= j < |t| => Row(n + j, map["parent_account_id" := Some(t[j])]))
  }

  function JoinRow(i: int): Row {
    Row(0, map["account_id" := Some(i), "group_id" := Some(i)])
  }

  /** n parent accounts, each in a group of its own, and the children of `t`. */
  function Witness(n: nat, t: seq<nat>): Database {
    map[Accounts := Parents(n) + Children(n, t), Groups := Parents(n), AccountGroups := seq(n, i => JoinRow(i))]
  }

  function AllAccounts(o: Opts): Query {
    Query(Accounts, o, [], NoPath, Done)
  }

  /** `Account.Query().QueryParent()` with the given settings, or, without a
      path, `Account.Query()` itself. */
  function Shape(o: Opts, path: bool): Query {
    if path then Query(Accounts, o, [], Via(AllAccounts(PLAIN), ParentEdge), Done) else AllAccounts(o)
  }

  function Settings(limit: Option<nat>, offset: Option<nat>, unique: Option<bool>): Opts {
    Opts([], [], limit, offset, unique)
  }

  const PLAIN_SUB := Query(Groups, PLAIN, [], NoPath, Done)

  lemma WitnessValid(n: nat, t: seq<nat>)
    ensures ValidDb(Witness(n, t))
  {
    var db := Witness(n, t);
    forall x | HasID(x) ensures UniqueIds(TableRows(db, x)) {
    }
  }

  /** Group i links account i and no other. */
  lemma WitnessLinks(n: nat, t: seq<nat>, i: int, a: int)
    requires 0 <= i < n
    ensures a in Links(Witness(n, t), E, i) <==> a == i
  {
    var db := Witness(n, t);
    var joins := TableRows(db, AccountGroups);
    var keep := (j: Row) => Col(j, "account_id").Some? && Col(j, FkColumn(E)) == Some(i);
    var get := (j: Row) => var v := Col(j, "account_id"); if v.Some? then v.value else 0;
    var kept := Filter(keep, joins);
    assert Links(db, E, i) == Map(get, kept);
    assert joins[i] in joins && keep(joins[i]);
    assert joins[i] in kept;
    var h :| 0 <= h < |kept| && kept[h] == joins[i];
    assert Links(db, E, i)[h] == i;
    forall k | 0 <= k < |kept| ensures get(kept[k]) == i {
      assert kept[k] in joins;
    }
  }

  lemma WitnessTargets(n: nat, t: seq<nat>, ids: seq<int>, i: int)
    requires 0 <= i < n
    ensures P(i) in LinkedTargets(Witness(n, t), PLAIN_SUB, ids) <==> i in ids
  {
    hide Links;
    var db := Witness(n, t);
    assert TableRows(db, Groups)[i] == P(i);
    WitnessLinks(n, t, i, i);
    if P(i) in LinkedTargets(db, PLAIN_SUB, ids) {
      var y :| y in TableRows(db, Groups) && (exists a :: a in Links(db, E, y.id) && a in ids) &&
        P(i) == Project(SpecColumns(PLAIN_SUB), y);
      var a :| a in Links(db, E, y.id) && a in ids;
      WitnessLinks(n, t, i, a);
    }
  }

  // ------------------------------------------------ what the shapes select

  lemma {:induction false} ParentsOfParents(db: Database, rows: seq<Row>)
    requires forall r :: r in rows ==> r.cols == map[]
    ensures SetNeighbors(db, ParentEdge, rows) == []
  {
    if rows != [] {
      var r := rows[|rows| - 1];
      ParentsOfParents(db, rows[..|rows| - 1]);
      assert r in rows;
      FilterNone((y: Row) => ReadFk(ParentEdge, r) == Some(y.id), TableRows(db, Accounts));
      assert Neighbors(db, ParentEdge, r) == [];
    }
  }

  lemma {:induction false} OnlyMatch(rows: seq<Row>, i: nat, p: Row -> bool)
    requires i < |rows| && forall j :: 0 <= j < |rows| ==> (p(rows[j]) <==> j == i)
    ensures Filter(p, rows) == [rows[i]]
  {
    var m := |rows| - 1;
    if i == m {
      FilterNone(p, rows[..m]);
    } else {
      OnlyMatch(rows[..m], i, p);
    }
  }

  lemma ParentOfChild(n: nat, t: seq<nat>, j: nat)
    requires j < |t| && t[j] < n
    ensures Neighbors(Witness(n, t), ParentEdge, Children(n, t)[j]) == [P(t[j])]
  {
    var accounts := Parents(n) + Children(n, t);
    var r := Children(n, t)[j];
    var p := (y: Row) => ReadFk(ParentEdge, r) == Some(y.id);
    assert ReadFk(ParentEdge, r) == Some(t[j]);
    assert TableRows(Witness(n, t), Accounts) == accounts;
    forall k | 0 <= k < |accounts| ensures accounts[k].id == k { }
    OnlyMatch(accounts, t[j], p);
    assert accounts[t[j]] == P(t[j]);
  }

  lemma {:induction false} ParentsOfChildren(n: nat, t: seq<nat>, k: nat)
    requires k <= |t| && forall j :: 0 <= j < |t| ==> t[j] < n
    ensures SetNeighbors(Witness(n, t), ParentEdge, Children(n, t)[..k]) == seq(k, j requires 0 <= j < k => P(t[j]))
  {
    hide Neighbors, Witness;
    if k > 0 {
      ParentsOfChildren(n, t, k - 1);
      ParentOfChild(n, t, k - 1);
      assert Children(n, t)[..k][..k - 1] == Children(n, t)[..k - 1];
    }
  }

  lemma {:induction false} NeighborsConcat(db: Database, a: seq<Row>, b: seq<Row>)
    ensures SetNeighbors(db, ParentEdge, a + b) == SetNeighbors(db, ParentEdge, a) + SetNeighbors(db, ParentEdge, b)
  {
    hide Neighbors;
    if b == [] {
      assert a + b == a;
    } else {
      NeighborsConcat(db, a, b[..|b| - 1]);
      assert (a + b)[..|a + b| - 1] == a + b[..|b| - 1];
    }
  }

  function Rows(t: seq<nat>): (r: seq<Row>)
    ensures |r| == |t| && forall j :: 0 <= j < |t| ==> r[j] == P(t[j])
  {
    seq(|t|, j requires 0 <= j < |t| => P(t[j]))
  }

  lemma SelectedPlain(o: Opts, s: seq<Row>)
    requires o.preds == [] && o.order == []
    ensures Selected(o, s) == s
  {
    FilterAll(Meets(o.preds), s);
  }

  /** QueryParent joins the parents of all children, one row per child. */
  lemma PathSelects(n: nat, t: seq<nat>, o: Opts)
    requires o.preds == [] && o.order == [] && forall j :: 0 <= j < |t| ==> t[j] < n
    ensures Selected(o, Base(Witness(n, t), Shape(o, true))) == Rows(t)
  {
    hide SetNeighbors, Selected;
    var db := Witness(n, t);
    var accounts := Parents(n) + Children(n, t);
    SelectedPlain(PLAIN, accounts);
    assert TableRows(db, Accounts) == accounts;
    assert SqlQuery(db, AllAccounts(PLAIN)) == accounts;
    NeighborsConcat(db, Parents(n), Children(n, t));
    ParentsOfParents(db, Parents(n));
    ParentsOfChildren(n, t, |t|);
    assert Children(n, t)[..|t|] == Children(n, t);
    assert Base(db, Shape(o, true)) == Rows(t);
    SelectedPlain(o, Rows(t));
  }

  /** The group of account i tells the two results apart. */
  lemma Differ(n: nat, t: seq<nat>, o: Opts, path: bool, s: seq<Row>, i: nat)
    requires i < n && s == Selected(o, Base(Witness(n, t), Shape(o, path)))
    requires i in Ids(EngineRows(o, path, s)) <==> i !in Ids(SourceRows(o, s))
    ensures var db := Witness(n, t);
      EagerGroups(db, Shape(o, path), PLAIN_SUB) != TraversedGroups(db, Shape(o, path), PLAIN_SUB)
  {
    hide EagerGroups, LinkedTargets, Selected, EngineRows, QueryNodes;
    var db, q := Witness(n, t), Shape(o, path);
    WitnessValid(n, t);
    EagerIs(db, q, PLAIN_SUB);
    TraversedIs(db, q, PLAIN_SUB);
    assert SqlQuery(db, q) == SourceRows(o, s);
    WitnessTargets(n, t, Ids(EngineRows(o, path, s)), i);
    WitnessTargets(n, t, Ids(SourceRows(o, s)), i);
  }

  // -------------------------------------------- one database per setting

  function Iota(n: nat): seq<nat> {
    seq(n, i => i)
  }

  function Straight(n: nat, path: bool): seq<nat> {
    if path then Iota(n) else []
  }

  lemma StraightSelects(n: nat, o: Opts, path: bool)
    requires o.preds == [] && o.order == []
    ensures Selected(o, Base(Witness(n, Straight(n, path)), Shape(o, path))) == Parents(n)
  {
    hide Selected;
    if path {
      PathSelects(n, Iota(n), o);
    } else {
      assert Parents(n) + Children(n, []) == Parents(n);
      SelectedPlain(o, Parents(n));
    }
  }

  lemma DistinctParents(n: nat, u: bool)
    ensures DistinctIf(u, Parents(n)) == Parents(n)
  {
    forall i, j | 0 <= i < j < n ensures Parents(n)[i] != Parents(n)[j] {
      assert Parents(n)[i].id == i && Parents(n)[j].id == j;
    }
    DistinctIdentity(Parents(n));
  }

  /** Limit(0): the engine reads it as no limit, a further step as LIMIT 0. */
  lemma DifferLimitZero(offset: Option<nat>, unique: Option<bool>, path: bool) returns (db: Database)
    ensures ValidDb(db)
    ensures var q := Shape(Settings(Some(0), offset, unique), path);
      EagerGroups(db, q, PLAIN_SUB) != TraversedGroups(db, q, PLAIN_SUB)
  {
    hide EagerGroups, TraversedGroups, Selected, Base, Distinct;
    var o := Settings(Some(0), offset, unique);
    var k := if offset.Some? then offset.value else 0;
    var n := k + 1;
    db := Witness(n, Straight(n, path));
    WitnessValid(n, Straight(n, path));
    StraightSelects(n, o, path);
    DistinctParents(n, if unique.Some? then unique.value else path);
    var s := Parents(n);
    var engine := EngineRows(o, path, s);
    assert Drop(k, s) == s[k..];
    assert engine == if k == 0 then s else s[k..];
    assert engine[0] == P(k);
    assert Ids(engine)[0] == k;
    assert SourceRows(o, s) == [];
    Differ(n, Straight(n, path), o, path, s, k);
  }

  /** Offset(0) without a limit: only a further step adds LIMIT 2147483647. */
  lemma DifferOffsetZero(unique: Option<bool>, path: bool) returns (db: Database)
    ensures ValidDb(db)
    ensures var q := Shape(Settings(None, Some(0), unique), path);
      EagerGroups(db, q, PLAIN_SUB) != TraversedGroups(db, q, PLAIN_SUB)
  {
    hide EagerGroups, TraversedGroups, Selected, Base, Distinct;
    var o := Settings(None, Some(0), unique);
    var n := MAX_INT32 + 1;
    db := Witness(n, Straight(n, path));
    WitnessValid(n, Straight(n, path));
    StraightSelects(n, o, path);
    DistinctParents(n, if unique.Some? then unique.value else path);
    DistinctParents(n, unique == Some(true));
    var s := Parents(n);
    assert EngineRows(o, path, s) == s;
    assert Ids(s)[MAX_INT32] == MAX_INT32;
    assert Drop(0, s) == s;
    var source := SourceRows(o, s);
    assert source == s[..MAX_INT32];
    forall j | 0 <= j < |source| ensures Ids(source)[j] != MAX_INT32 {
      assert source[j] == P(j);
    }
    Differ(n, Straight(n, path), o, path, s, MAX_INT32);
  }

  function Zeros(n: nat): seq<nat> {
    seq(n, i => 0)
  }

  lemma {:induction false} DistinctZeros(n: nat)
    requires n > 0
    ensures Distinct(Rows(Zeros(n))) == [P(0)]
  {
    assert Rows(Zeros(n))[..n - 1] == Rows(Zeros(n - 1));
    if n > 1 {
      DistinctZeros(n - 1);
    } else {
      assert Distinct(Rows(Zeros(0))) == [];
    }
  }

  /** An offset skips distinct rows on one side and duplicates on the other. */
  lemma DifferOffset(limit: Option<nat>, offset: nat) returns (db: Database)
    requires offset > 0 && limit != Some(0)
    ensures ValidDb(db)
    ensures var q := Shape(Settings(limit, Some(offset), None), true);
      EagerGroups(db, q, PLAIN_SUB) != TraversedGroups(db, q, PLAIN_SUB)
  {
    hide EagerGroups, TraversedGroups, Selected, Base, Distinct;
    var o := Settings(limit, Some(offset), None);
    var t := Zeros(offset + 1);
    db := Witness(1, t);
    WitnessValid(1, t);
    PathSelects(1, t, o);
    var s := Rows(t);
    DistinctZeros(offset + 1);
    assert EngineRows(o, true, s) == [];
    var source := SourceRows(o, s);
    assert s[offset..] == [P(0)];
    assert source == [P(0)];
    assert Ids(source)[0] == 0;
    Differ(1, t, o, true, s, 0);
  }

  lemma DistinctZerosOne(n: nat)
    requires n > 0
    ensures Distinct(Rows(Zeros(n) + [1])) == [P(0), P(1)]
  {
    DistinctZeros(n);
    assert Rows(Zeros(n) + [1])[..n] == Rows(Zeros(n));
  }

  /** Limit(k), k >= 2: k children of one parent fill the limit of a further
      step, while DISTINCT leaves the engine room for another parent. */
  lemma DifferLimit(limit: nat, offset: Option<nat>) returns (db: Database)
    requires limit >= 2 && NonZero(offset).None?
    ensures ValidDb(db)
    ensures var q := Shape(Settings(Some(limit), offset, None), true);
      EagerGroups(db, q, PLAIN_SUB) != TraversedGroups(db, q, PLAIN_SUB)
  {
    hide EagerGroups, TraversedGroups, Selected, Base, Distinct;
    var o := Settings(Some(limit), offset, None);
    var t := Zeros(limit) + [1];
    db := Witness(2, t);
    WitnessValid(2, t);
    PathSelects(2, t, o);
    var s := Rows(t);
    DistinctZerosOne(limit);
    var engine, source := EngineRows(o, true, s), SourceRows(o, s);
    assert engine == [P(0), P(1)];
    assert Ids(engine)[1] == 1;
    assert Drop(0, s) == s;
    assert source == s[..limit];
    forall j | 0 <= j < |source| ensures Ids(source)[j] != 1 {
      assert source[j] == P(t[j]);
    }
    Differ(2, t, o, true, s, 1);
  }

  ghost predicate AgreeEverywhere(o: Opts, path: bool) {
    forall db: Database, q: Query, sub: Query ::
      ValidDb(db) && TypedPath(q) && q.table == Accounts && PlainSub(sub)
      && q.opts.limit == o.limit && q.opts.offset == o.offset && q.opts.unique == o.unique && q.path.Via? == path
      ==> EagerGroups(db, q, sub) == TraversedGroups(db, q, sub)
  }

  /** WithGroups attaches what QueryGroups returns, on every database and for
      every builder with these settings, exactly when `Agrees` holds. */
  lemma ExactlyWhenEagerAgrees(limit: Option<nat>, offset: Option<nat>, unique: Option<bool>, path: bool)
    ensures AgreeEverywhere(Settings(limit, offset, unique), path) <==> Agrees(Settings(limit, offset, unique), path)
  {
    hide EagerGroups, TraversedGroups, ValidDb;
    var o := Settings(limit, offset, unique);
    var q := Shape(o, path);
    if Agrees(o, path) {
      forall db: Database, q: Query, sub: Query |
        ValidDb(db) && TypedPath(q) && q.table == Accounts && PlainSub(sub)
        && q.opts.limit == o.limit && q.opts.offset == o.offset && q.opts.unique == o.unique && q.path.Via? == path
        ensures EagerGroups(db, q, sub) == TraversedGroups(db, q, sub)
      {
        assert Agrees(q.opts, path);
        EagerAgrees(db, q, sub);
      }
    } else {
      assert TypedPath(q) && q.table == Accounts && PlainSub(PLAIN_SUB);
      var db: Database;
      if limit == Some(0) {
        db := DifferLimitZero(offset, unique, path);
      } else if limit.None? && offset == Some(0) {
        db := DifferOffsetZero(unique, path);
      } else if NonZero(offset).Some? {
        db := DifferOffset(limit, offset.value);
      } else {
        db := DifferLimit(limit.value, offset);
      }
      assert EagerGroups(db, q, PLAIN_SUB) != TraversedGroups(db, q, PLAIN_SUB);
    }
  }
}
