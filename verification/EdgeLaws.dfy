/** Edges by the columns of the tables: which rows they join, how they relate to each
    other, and that attaching and traversing them give the same rows. */
module EdgeLaws {
  import opened Seqs
  import opened Schema
  import opened EagerSpec
  import opened EagerTheorems
  import opened EagerAccess
  import opened Traversal
  import opened EagerVsTraversal
  import opened EagerSelect
  import opened EagerLimits
  import opened EagerOwn
  import opened EagerFair
  import opened BuilderMeaning

  /** A required key that is NULL is read as zero. */
  function Required(v: Option<int>): int {
    if v.Some? then v.value else 0
  }

  ghost predicate Between(db: Database, s: Table, t: Table, x: Row, y: Row) {
    x in TableRows(db, s) && y in TableRows(db, t)
  }

  ghost predicate Related(db: Database, e: Edge, x: Row, y: Row) {
    (x, y) in EdgeRelation(db, e)
  }

  /** The join table links account a to group g. */
  ghost predicate Joined(db: Database, a: int, g: int) {
    exists j :: j in TableRows(db, AccountGroups) && Col(j, "account_id") == Some(a) && Col(j, "group_id") == Some(g)
  }

  lemma LinksExact(db: Database, a: int, g: int)
    ensures a in Links(db, GroupsEdge, g) <==> Joined(db, a, g)
  {
    var p := (j: Row) => Col(j, "account_id").Some? && Col(j, FkColumn(GroupsEdge)) == Some(g);
    var f := (j: Row) => var v := Col(j, "account_id"); if v.Some? then v.value else 0;
    var kept := Filter(p, TableRows(db, AccountGroups));
    assert Links(db, GroupsEdge, g) == Map(f, kept);
    if a in Links(db, GroupsEdge, g) {
      var i :| 0 <= i < |kept| && f(kept[i]) == a;
      assert kept[i] in kept;
    }
    if j :| j in TableRows(db, AccountGroups) && Col(j, "account_id") == Some(a) && Col(j, "group_id") == Some(g) {
      assert j in kept;
      var i :| 0 <= i < |kept| && kept[i] == j;
      assert Map(f, kept)[i] == a;
    }
  }

  /** Which rows every edge relates, in terms of the columns of the tables. */
  lemma RelationColumns(db: Database, x: Row, y: Row)
    ensures Related(db, GroupsEdge, x, y) <==> Between(db, Accounts, Groups, x, y) && Joined(db, x.id, y.id)
    ensures Related(db, ProxyEdge, x, y) <==> Between(db, Accounts, Proxies, x, y) && Col(x, "proxy_id") == Some(y.id)
    ensures Related(db, ParentEdge, x, y) <==>
      Between(db, Accounts, Accounts, x, y) && Col(x, "parent_account_id") == Some(y.id)
    ensures Related(db, ChildrenEdge, x, y) <==>
      Between(db, Accounts, Accounts, x, y) && Col(y, "parent_account_id") == Some(x.id)
    ensures Related(db, UsageLogsEdge, x, y) <==>
      Between(db, Accounts, UsageLogs, x, y) && Col(y, "account_id") == Some(x.id)
    ensures Related(db, LeaseEdge, x, y) <==> Between(db, Accounts, Leases, x, y) && Col(y, "account_id") == Some(x.id)
    ensures Related(db, AccountGroupsEdge, x, y) <==>
      Between(db, Accounts, AccountGroups, x, y) && Col(y, "account_id") == Some(x.id)
    ensures Related(db, KeyUserEdge, x, y) <==>
      Between(db, APIKeys, Users, x, y) && Required(Col(x, "user_id")) == y.id
    ensures Related(db, KeyGroupEdge, x, y) <==> Between(db, APIKeys, Groups, x, y) && Col(x, "group_id") == Some(y.id)
    ensures Related(db, KeyUsageLogsEdge, x, y) <==>
      Between(db, APIKeys, UsageLogs, x, y) && Col(y, "api_key_id") == Some(x.id)
    ensures Related(db, AgAccountEdge, x, y) <==>
      Between(db, AccountGroups, Accounts, x, y) && Required(Col(x, "account_id")) == y.id
    ensures Related(db, AgGroupEdge, x, y) <==>
      Between(db, AccountGroups, Groups, x, y) && Required(Col(x, "group_id")) == y.id
  {
    hide Related;
    GroupRelation(db, x, y);
    AccountKeyRelations(db, x, y);
    AccountRowRelations(db, x, y);
    OtherRelations(db, x, y);
  }

  lemma GroupRelation(db: Database, x: Row, y: Row)
    ensures Related(db, GroupsEdge, x, y) <==> Between(db, Accounts, Groups, x, y) && Joined(db, x.id, y.id)
  {
    hide Links, Joined;
    GroupNeighbor(db, x, y);
    LinksExact(db, x.id, y.id);
  }

  lemma RelatedMeans(db: Database, e: Edge, x: Row, y: Row)
    requires !Kind(e).M2M?
    ensures Related(db, e, x, y) <==>
      Between(db, Source(e), Target(e), x, y) && if Kind(e).M2O? then ReadFk(e, x) == Some(y.id)
        else Col(y, FkColumn(e)) == Some(x.id)
  {
  }

  lemma AccountKeyRelations(db: Database, x: Row, y: Row)
    ensures Related(db, ProxyEdge, x, y) <==> Between(db, Accounts, Proxies, x, y) && Col(x, "proxy_id") == Some(y.id)
    ensures Related(db, ParentEdge, x, y) <==>
      Between(db, Accounts, Accounts, x, y) && Col(x, "parent_account_id") == Some(y.id)
    ensures Related(db, ChildrenEdge, x, y) <==>
      Between(db, Accounts, Accounts, x, y) && Col(y, "parent_account_id") == Some(x.id)
  {
    hide Related, Between, Col;
    RelatedMeans(db, ProxyEdge, x, y);
    RelatedMeans(db, ParentEdge, x, y);
    RelatedMeans(db, ChildrenEdge, x, y);
  }

  lemma AccountRowRelations(db: Database, x: Row, y: Row)
    ensures Related(db, UsageLogsEdge, x, y) <==>
      Between(db, Accounts, UsageLogs, x, y) && Col(y, "account_id") == Some(x.id)
    ensures Related(db, LeaseEdge, x, y) <==> Between(db, Accounts, Leases, x, y) && Col(y, "account_id") == Some(x.id)
    ensures Related(db, AccountGroupsEdge, x, y) <==>
      Between(db, Accounts, AccountGroups, x, y) && Col(y, "account_id") == Some(x.id)
    ensures Related(db, KeyUsageLogsEdge, x, y) <==>
      Between(db, APIKeys, UsageLogs, x, y) && Col(y, "api_key_id") == Some(x.id)
  {
    hide Related, Between, Col;
    RelatedMeans(db, UsageLogsEdge, x, y);
    RelatedMeans(db, LeaseEdge, x, y);
    RelatedMeans(db, AccountGroupsEdge, x, y);
    RelatedMeans(db, KeyUsageLogsEdge, x, y);
  }

  lemma OtherRelations(db: Database, x: Row, y: Row)
    ensures Related(db, KeyUserEdge, x, y) <==>
      Between(db, APIKeys, Users, x, y) && Required(Col(x, "user_id")) == y.id
    ensures Related(db, KeyGroupEdge, x, y) <==> Between(db, APIKeys, Groups, x, y) && Col(x, "group_id") == Some(y.id)
    ensures Related(db, AgAccountEdge, x, y) <==>
      Between(db, AccountGroups, Accounts, x, y) && Required(Col(x, "account_id")) == y.id
    ensures Related(db, AgGroupEdge, x, y) <==>
      Between(db, AccountGroups, Groups, x, y) && Required(Col(x, "group_id")) == y.id
  {
    hide Related, Between, Col;
    RelatedMeans(db, KeyUserEdge, x, y);
    RelatedMeans(db, KeyGroupEdge, x, y);
    RelatedMeans(db, AgAccountEdge, x, y);
    RelatedMeans(db, AgGroupEdge, x, y);
  }

  /** Parents and children are each other's converse, and so are the join rows of an
      account and the account of a join row. */
  lemma Converses(db: Database, x: Row, y: Row)
    ensures Related(db, ParentEdge, x, y) <==> Related(db, ChildrenEdge, y, x)
    ensures Col(y, "account_id").Some? ==> (Related(db, AccountGroupsEdge, x, y) <==> Related(db, AgAccountEdge, y, x))
  {
    hide Related, Col;
    RelationColumns(db, x, y);
    RelationColumns(db, y, x);
  }

  /** Both keys of every join row are set. */
  ghost predicate KeysSet(db: Database) {
    forall j :: j in TableRows(db, AccountGroups) ==> Col(j, "account_id").Some? && Col(j, "group_id").Some?
  }

  /** The groups of an account are the groups of its join rows. */
  lemma GroupsAreComposed(db: Database)
    requires KeysSet(db)
    ensures EdgeRelation(db, GroupsEdge) == Then(EdgeRelation(db, AccountGroupsEdge), EdgeRelation(db, AgGroupEdge))
  {
    hide EdgeRelation;
    var a, b := EdgeRelation(db, AccountGroupsEdge), EdgeRelation(db, AgGroupEdge);
    forall p ensures p in EdgeRelation(db, GroupsEdge) <==> p in Then(a, b) {
      var (x, y) := p;
      RelationColumns(db, x, y);
      if Related(db, GroupsEdge, x, y) {
        var j :| j in TableRows(db, AccountGroups) && Col(j, "account_id") == Some(x.id) &&
          Col(j, "group_id") == Some(y.id);
        RelationColumns(db, x, j);
        RelationColumns(db, j, y);
        assert (x, j) in a && (j, y) in b;
      }
      if p in Then(a, b) {
        var q, r :| q in a && r in b && q.1 == r.0 && p == (q.0, r.1);
        RelationColumns(db, x, q.1);
        RelationColumns(db, q.1, y);
        assert Related(db, AccountGroupsEdge, x, q.1) && Related(db, AgGroupEdge, q.1, y);
      }
    }
  }

  // ----------------------------------------------------- rows attached alone

  /** A sub-builder that returns whole rows, all of them that meet its predicates. */
  ghost predicate WholeSub(e: Edge, sub: Query) {
    sub.table == Target(e) && sub.path.NoPath? && NoWindow(sub.opts) && sub.fields == []
  }

  lemma WholeMembers(db: Database, sub: Query, p: Row -> bool, y: Row)
    requires sub.path.NoPath? && NoWindow(sub.opts) && sub.fields == []
    ensures y in QueryNodes(db, Where(sub, p)) <==> y in TableRows(db, sub.table) && Holds(sub.opts.preds, y) && p(y)
  {
    hide QueryNodes, Holds;
    var q := Where(sub, p);
    WholeRows(q);
    MeetsWhere(sub.opts.preds, p, y);
    if y in QueryNodes(db, q) {
      QueryMembers(db, q, y);
    }
    if y in TableRows(db, sub.table) && Holds(sub.opts.preds, y) && p(y) {
      EveryRowReturned(db, q, y);
    }
  }

  /** Alone, an entity gets the rows that the edge relates it to. */
  lemma AloneMembers(db: Database, e: Edge, sub: Query, x: Row, y: Row)
    requires WholeSub(e, sub) && x in TableRows(db, Source(e))
    ensures y in Alone(db, e, sub, x) <==> Related(db, e, x, y) && Holds(sub.opts.preds, y)
  {
    hide QueryNodes, Holds, Links;
    match Kind(e)
    case M2O =>
      match ReadFk(e, x) {
        case None => WholeMembers(db, sub, IdIn([]), y);
        case Some(k) => WholeMembers(db, sub, IdIn([k]), y);
      }
    case O2M | O2O => WholeMembers(db, sub, FkIn(e, [x.id]), y);
    case M2M =>
      WholeMembers(db, sub, LinkedTo(db, e, x.id), y);
      GroupNeighbor(db, x, y);
  }

  // ---------------------------------------- attached rows, traversed rows

  /** The rows attached on an edge across a whole result. */
  ghost function AttachedOn(e: Edge, ts: seq<Tree>): set<Row> {
    set i, g | 0 <= i < |ts| && g in GetEdge(ts[i], e) :: g.row
  }

  /** The rows that an edge leads to from some rows, as far as a sub-builder admits
      them. */
  ghost function Reachable(db: Database, e: Edge, sub: Query, rows: seq<Row>): set<Row> {
    set x, y | x in rows && y in TableRows(db, Target(e)) && Related(db, e, x, y) && Holds(sub.opts.preds, y) :: y
  }

  /** Every account has one lease at most. */
  ghost predicate OneLeaseEach(db: Database) {
    forall i, j :: 0 <= i < j < |TableRows(db, Leases)| ==>
      Col(TableRows(db, Leases)[i], "account_id") != Col(TableRows(db, Leases)[j], "account_id")
  }

  lemma LeaseShown(db: Database, e: Edge, sub: Query, x: Row)
    requires ValidDb(db) && OneLeaseEach(db) && WholeSub(e, sub) && x in TableRows(db, Source(e))
    ensures Shown(e, Alone(db, e, sub, x)) == Alone(db, e, sub, x)
  {
    hide Alone, Related;
    var own := Alone(db, e, sub, x);
    if Kind(e).O2O? && |own| > 1 {
      assert e == LeaseEdge;
      AloneUnique(db, e, sub, x);
      var a, b := own[0], own[|own| - 1];
      AloneMembers(db, e, sub, x, a);
      AloneMembers(db, e, sub, x, b);
      RelationColumns(db, x, a);
      RelationColumns(db, x, b);
      SameLease(db, a, b);
      assert false;
    }
  }

  lemma SameLease(db: Database, a: Row, b: Row)
    requires OneLeaseEach(db) && a in TableRows(db, Leases) && b in TableRows(db, Leases)
    requires Col(a, "account_id") == Col(b, "account_id")
    ensures a == b
  {
  }

  lemma AloneUnique(db: Database, e: Edge, sub: Query, x: Row)
    requires ValidDb(db) && WholeSub(e, sub) && HasID(Target(e))
    ensures UniqueIds(Alone(db, e, sub, x))
  {
    hide QueryNodes;
    QueryUnique(db, RowQuery(db, e, sub, x));
  }

  /** One load attaches exactly the rows that its edge reaches from the result. */
  lemma AttachedIsReachable(db: Database, e: Edge, sub: Query, rows: seq<Row>)
    requires ValidDb(db) && OneLeaseEach(db) && WholeSub(e, sub) && sub.with.Done?
    requires forall x :: x in rows ==> x in TableRows(db, Source(e))
    ensures var w := Load(e, sub, Done); AttachedOn(e, Attach(db, w, Bare(w, rows))) == Reachable(db, e, sub, rows)
  {
    hide Attach, Related, Alone, IsLast, NoWindow, AttachedOn, GetEdge, Holds, ValidDb, OneLeaseEach;
    var w := Load(e, sub, Done);
    var ts := Attach(db, w, Bare(w, rows));
    forall i | 0 <= i < |rows|
      ensures RowsOf(GetEdge(ts[i], e)) == if Kind(e).M2O? || IsLast(rows, i) then Alone(db, e, sub, rows[i]) else []
    {
      AttachedRows(db, e, sub, rows, i);
    }
    forall y ensures y in AttachedOn(e, ts) <==> y in Reachable(db, e, sub, rows) {
      AttachedOnMembers(e, ts, y);
      if i :| 0 <= i < |ts| && y in RowsOf(GetEdge(ts[i], e)) {
        AloneMembers(db, e, sub, rows[i], y);
        RelatedRows(db, e, rows[i], y);
      }
      if y in Reachable(db, e, sub, rows) {
        var x :| x in rows && Related(db, e, x, y) && Holds(sub.opts.preds, y);
        var i := Speaker(db, e, rows, x, y);
        AloneMembers(db, e, sub, rows[i], y);
        assert y in RowsOf(GetEdge(ts[i], e));
      }
    }
  }

  lemma AttachedOnMembers(e: Edge, ts: seq<Tree>, y: Row)
    ensures y in AttachedOn(e, ts) <==> exists i :: 0 <= i < |ts| && y in RowsOf(GetEdge(ts[i], e))
  {
    hide GetEdge;
    if y in AttachedOn(e, ts) {
      var i, g :| 0 <= i < |ts| && g in GetEdge(ts[i], e) && g.row == y;
      var own := GetEdge(ts[i], e);
      var j :| 0 <= j < |own| && own[j] == g;
      assert RowsOf(own)[j] == y;
    }
    if i :| 0 <= i < |ts| && y in RowsOf(GetEdge(ts[i], e)) {
      var own := GetEdge(ts[i], e);
      var j :| 0 <= j < |own| && RowsOf(own)[j] == y;
      assert own[j] in own;
    }
  }

  lemma RelatedRows(db: Database, e: Edge, x: Row, y: Row)
    requires Related(db, e, x, y)
    ensures y in TableRows(db, Target(e)) && x in TableRows(db, Source(e))
  {
  }

  lemma AttachedRows(db: Database, e: Edge, sub: Query, rows: seq<Row>, i: nat)
    requires ValidDb(db) && OneLeaseEach(db) && WholeSub(e, sub) && sub.with.Done? && i < |rows|
    requires forall x :: x in rows ==> x in TableRows(db, Source(e))
    ensures var w := Load(e, sub, Done);
      RowsOf(GetEdge(Attach(db, w, Bare(w, rows))[i], e)) ==
        if Kind(e).M2O? || IsLast(rows, i) then Alone(db, e, sub, rows[i]) else []
  {
    hide Attach, Alone, IsLast, FairWindow, Distinguished, NaiveAll, EagerOwn.Found;
    var w := Load(e, sub, Done);
    var bare := Bare(w, rows);
    assert RowsOf(bare) == rows;
    NoWindowsFair(db, w, rows);
    AttachShape(db, w, Source(e), bare);
    assert Shape(db, w, bare[i], IsLast(rows, i)) == ShapeOne(db, e, sub, bare[i], IsLast(rows, i)) by {
      assert forall t, last :: Shape(db, Done, t, last) == t;
    }
    NaiveIsGiven(db, e, sub, bare[i]);
    LeaseShown(db, e, sub, rows[i]);
    NaiveRows(db, Done, Alone(db, e, sub, rows[i]));
  }

  /** The entity on which the rows of x end up: x itself, or the last one with its id. */
  lemma Speaker(db: Database, e: Edge, rows: seq<Row>, x: Row, y: Row) returns (i: nat)
    requires x in rows && Related(db, e, x, y) && forall r :: r in rows ==> r in TableRows(db, Source(e))
    ensures i < |rows| && Related(db, e, rows[i], y) && (Kind(e).M2O? || IsLast(rows, i))
  {
    hide Related;
    var k :| 0 <= k < |rows| && rows[k] == x;
    if Kind(e).M2O? {
      i := k;
    } else {
      i := LastWithId(rows, k);
      SameIdRelates(db, e, x, rows[i], y);
    }
  }

  lemma LastWithId(rows: seq<Row>, k: nat) returns (i: nat)
    requires k < |rows|
    ensures i < |rows| && rows[i].id == rows[k].id && IsLast(rows, i)
    decreases |rows| - k
  {
    if IsLast(rows, k) {
      i := k;
    } else {
      var j :| 0 <= j < |Ids(rows)[k + 1..]| && Ids(rows)[k + 1..][j] == rows[k].id;
      i := LastWithId(rows, k + 1 + j);
    }
  }

  lemma SameIdRelates(db: Database, e: Edge, x: Row, z: Row, y: Row)
    requires Related(db, e, x, y) && z.id == x.id && !Kind(e).M2O? && z in TableRows(db, Source(e))
    ensures Related(db, e, z, y)
  {
    hide Related, Joined;
    RelationColumns(db, x, y);
    RelationColumns(db, z, y);
  }

  /** A further step returns exactly the rows that its edge reaches from the rows of the
      compiled source. */
  lemma TraversedIsReachable(db: Database, e: Edge, sub: Query, q: Query)
    requires TypedPath(q) && Source(e) == q.table && WholeSub(e, sub)
    ensures ToSet(QueryNodes(db, Query(Target(e), sub.opts, [], Via(q, e), Done))) ==
      Reachable(db, e, sub, SqlQuery(db, q))
  {
    hide SqlQuery, Selected, Related, Holds, QueryNodes, Base, SetNeighbors, Distinct;
    var next := Query(Target(e), sub.opts, [], Via(q, e), Done);
    var rows, base := SqlQuery(db, q), SetNeighbors(db, e, SqlQuery(db, q));
    SqlQueryInTable(db, q);
    SelectedMembers(sub.opts, base);
    StepRows(db, next);
    forall y ensures y in QueryNodes(db, next) <==> y in Reachable(db, e, sub, rows) {
      ReachedBase(db, e, rows, y);
      if x :| x in rows && Related(db, e, x, y) {
        RelatedRows(db, e, x, y);
      }
    }
  }

  lemma StepRows(db: Database, q: Query)
    requires q.path.Via? && NoWindow(q.opts) && q.fields == []
    ensures var sel := Selected(q.opts, SetNeighbors(db, q.path.edge, SqlQuery(db, q.path.prev)));
      forall y :: y in QueryNodes(db, q) <==> y in sel
  {
    hide Selected, SetNeighbors, SqlQuery;
    WholeRows(q);
    MapIdentity(Selected(q.opts, Base(db, q)));
  }

  lemma ReachedBase(db: Database, e: Edge, rows: seq<Row>, y: Row)
    requires forall x :: x in rows ==> x in TableRows(db, Source(e))
    ensures y in SetNeighbors(db, e, rows) <==> exists x :: x in rows && Related(db, e, x, y)
  {
    hide Neighbors;
    if x :| x in rows && y in NeighborsOf(db, e)(x) {
      NeighborsInTarget(db, e, x, y);
      assert Related(db, e, x, y);
    }
    if x :| x in rows && Related(db, e, x, y) {
      assert y in NeighborsOf(db, e)(x);
    }
  }

  /** For every edge, and every builder whose two compilations agree, what WithX
      attaches across the result is what QueryX returns. */
  lemma AttachedIsTraversed(db: Database, q: Query, e: Edge, sub: Query)
    requires ValidKeys(db) && OneLeaseEach(db) && TypedPath(q) && q.fields == [] && Source(e) == q.table
    requires WholeSub(e, sub) && sub.with.Done? && Agrees(q.opts, q.path.Via?)
    ensures AttachedOn(e, Eval(db, q.(with := Load(e, sub, Done)))) ==
      ToSet(QueryNodes(db, Query(Target(e), sub.opts, [], Via(q, e), Done)))
  {
    hide Attach, SqlQuery, QueryNodes, Reachable, AttachedOn, Agrees, WholeSub, ValidKeys;
    var w := Load(e, sub, Done);
    var loading := q.(with := w);
    ResultIsSource(db, loading);
    SameSqlQuery(db, loading, q);
    TraversedIsReachable(db, e, sub, q);
    SqlQueryInTable(db, q);
    var rows := QueryNodes(db, loading);
    assert forall x :: x in rows ==> x in ToSet(rows);
    KeysValid(db);
    AttachedIsReachable(db, e, sub, rows);
    SameReachable(db, e, sub, rows, SqlQuery(db, q));
  }

  lemma KeysValid(db: Database)
    requires ValidKeys(db)
    ensures ValidDb(db)
  {
  }

  lemma SameSqlQuery(db: Database, a: Query, b: Query)
    requires a == b.(with := a.with)
    ensures SqlQuery(db, a) == SqlQuery(db, b)
  {
    assert Base(db, a) == Base(db, b);
  }

  lemma SameReachable(db: Database, e: Edge, sub: Query, a: seq<Row>, b: seq<Row>)
    requires ToSet(a) == ToSet(b)
    ensures Reachable(db, e, sub, a) == Reachable(db, e, sub, b)
  {
    hide Related;
    forall x ensures x in a <==> x in b {
      assert x in ToSet(a) <==> x in ToSet(b);
    }
  }

  /** The two compilations of a builder with whole rows return the same set. */
  lemma ResultIsSource(db: Database, q: Query)
    requires ValidKeys(db) && TypedPath(q) && q.fields == [] && Agrees(q.opts, q.path.Via?)
    ensures ToSet(QueryNodes(db, q)) == ToSet(SqlQuery(db, q))
  {
    hide Selected, Agrees, ValidKeys, SpecColumns, Base;
    var base := Base(db, q);
    var s := Selected(q.opts, base);
    WholeRows(q);
    MapIdentity(s);
    if q.path.NoPath? {
      BaseWithoutPath(db, q);
      TableNoDup(db, q.table);
      FilterNoDup(Meets(q.opts.preds), base);
      SelectedNoDup(q.opts, base);
    }
    RowsAgree(q.opts, q.path.Via?, s);
    assert QueryNodes(db, q) == EngineRows(q.opts, q.path.Via?, s);
    assert SqlQuery(db, q) == SourceRows(q.opts, s);
  }

  lemma BaseWithoutPath(db: Database, q: Query)
    requires q.path.NoPath?
    ensures Base(db, q) == TableRows(db, q.table)
  {
  }

  /** Edges to a proxy, a parent, a lease, a user, an account or the group of a key or
      join row hold one entity at most, whatever the tables hold. */
  lemma AtMostOneAttached(db: Database, q: Query, i: nat, e: Edge)
    requires WellTyped(q.table, q.with) && i < |Eval(db, q)|
    requires e in {ProxyEdge, ParentEdge, LeaseEdge, KeyUserEdge, KeyGroupEdge, AgAccountEdge, AgGroupEdge}
    ensures |GetEdge(Eval(db, q)[i], e)| <= 1
  {
    hide QueryNodes, Attach, WellTyped, Filter, OwnedBy;
    var bare := Bare(q.with, QueryNodes(db, q));
    if e !in Edges(q.with) {
      AttachFrame(db, q.with, bare, i, e);
    } else if e == LeaseEdge {
      AttachLease(db, q.with, q.table, bare, i, e);
    } else {
      AttachUnique(db, q.with, q.table, bare, i, e);
    }
  }

  // ------------------------------------------- groups through the join rows

  /** A new builder over `t` with the given loads. */
  function Plain(t: Table, w: Withs): Query {
    Query(t, Opts([], [], None, None, None), [], NoPath, w)
  }

  /** WithGroups, and WithAccountGroups with the group of every join row. */
  function BothWays(): Withs {
    Load(GroupsEdge, Plain(Groups, Done), Load(AccountGroupsEdge, Plain(AccountGroups, JoinLoads()), Done))
  }

  function JoinLoads(): Withs {
    Load(AgGroupEdge, Plain(Groups, Done), Done)
  }

  /** The rows that a load made for one entity alone returns. */
  lemma NaiveEdgeRows(db: Database, e: Edge, sub: Query, x: Row, y: Row)
    requires WholeSub(e, sub) && x in TableRows(db, Source(e)) && !Kind(e).O2O?
    ensures y in RowsOf(NaiveEdge(db, e, sub, x)) <==> Related(db, e, x, y) && Holds(sub.opts.preds, y)
    ensures forall i :: 0 <= i < |NaiveEdge(db, e, sub, x)| ==>
      var g := NaiveEdge(db, e, sub, x)[i]; g == NaiveTree(db, sub.with, Tree(g.row, Nothing(sub.with)))
  {
    hide Related, Holds, QueryNodes, RowQuery, NaiveTree;
    AloneMembers(db, e, sub, x, y);
    NaiveRows(db, sub.with, Alone(db, e, sub, x));
  }

  /** The groups of the join rows of an account. */
  lemma JoinedGroups(db: Database, x: Row, y: Row)
    requires KeysSet(db) && x in TableRows(db, Accounts)
    ensures var held := NaiveEdge(db, AccountGroupsEdge, Plain(AccountGroups, JoinLoads()), x);
      y in AttachedOn(AgGroupEdge, held) <==> Related(db, GroupsEdge, x, y)
  {
    hide Related, NaiveEdge, AttachedOn, KeysSet, Nothing;
    var sub := Plain(AccountGroups, JoinLoads());
    var held := NaiveEdge(db, AccountGroupsEdge, sub, x);
    AttachedOnMembers(AgGroupEdge, held, y);
    GroupsAreComposed(db);
    forall i | 0 <= i < |held|
      ensures RowsOf(held)[i] in TableRows(db, AccountGroups) && Related(db, AccountGroupsEdge, x, RowsOf(held)[i])
      ensures y in RowsOf(GetEdge(held[i], AgGroupEdge)) <==> Related(db, AgGroupEdge, RowsOf(held)[i], y)
    {
      var j := RowsOf(held)[i];
      NaiveEdgeRows(db, AccountGroupsEdge, sub, x, j);
      RelatedRows(db, AccountGroupsEdge, x, j);
      NaiveTreeAt(db, AccountGroups, JoinLoads(), Tree(j, Nothing(JoinLoads())), AgGroupEdge);
      NaiveEdgeRows(db, AgGroupEdge, Plain(Groups, Done), j, y);
    }
    ThenMembers(db, x, y);
    if j :| Related(db, AccountGroupsEdge, x, j) && Related(db, AgGroupEdge, j, y) {
      NaiveEdgeRows(db, AccountGroupsEdge, sub, x, j);
      var i :| 0 <= i < |held| && RowsOf(held)[i] == j;
    }
  }

  lemma ThenMembers(db: Database, x: Row, y: Row)
    requires KeysSet(db)
    ensures Related(db, GroupsEdge, x, y) <==>
      exists j :: Related(db, AccountGroupsEdge, x, j) && Related(db, AgGroupEdge, j, y)
  {
    hide EdgeRelation;
    GroupsAreComposed(db);
    var a, b := EdgeRelation(db, AccountGroupsEdge), EdgeRelation(db, AgGroupEdge);
    if Related(db, GroupsEdge, x, y) {
      assert (x, y) in Then(a, b);
      var p, r :| p in a && r in b && p.1 == r.0 && (x, y) == (p.0, r.1);
      assert (x, p.1) == p && (p.1, y) == r;
      assert Related(db, AccountGroupsEdge, x, p.1) && Related(db, AgGroupEdge, p.1, y);
    }
    if j :| Related(db, AccountGroupsEdge, x, j) && Related(db, AgGroupEdge, j, y) {
      var p, r := (x, j), (j, y);
      assert p in a && r in b && p.1 == r.0;
      assert (p.0, r.1) in Then(a, b);
    }
  }

  /** Every account is given the same groups both ways. */
  lemma GroupsThroughJoin(db: Database, q: Query, i: nat, y: Row)
    requires ValidDb(db) && KeysSet(db) && q.table == Accounts && q.with == BothWays()
    requires TypedPath(q) && q.fields == [] && i < |Eval(db, q)|
    ensures var t := Eval(db, q)[i];
      y in RowsOf(GetEdge(t, GroupsEdge)) <==> y in AttachedOn(AgGroupEdge, GetEdge(t, AccountGroupsEdge))
  {
    hide QueryNodes, ValidDb, KeysSet, NaiveTree, Shape, Attach, IsLast, AttachedOn, BothWays, WellTyped, NoWindows;
    var w, rows := BothWays(), QueryNodes(db, q);
    BothWaysTyped();
    var bare := Bare(w, rows);
    assert RowsOf(bare) == rows;
    NoWindowsFair(db, w, rows);
    AttachShape(db, w, Accounts, bare);
    if IsLast(rows, i) {
      ShapeIsNaive(db, w, bare[i]);
      WholeInTable(db, q, rows[i]);
      GroupsBothWays(db, rows[i], y);
    } else {
      RepeatedGetsNeither(db, bare[i]);
      AttachedOnMembers(AgGroupEdge, [], y);
    }
  }

  lemma BothWaysTyped()
    ensures WellTyped(Accounts, BothWays()) && NoWindows(BothWays())
  {
  }

  /** In a tree that was loaded naively. */
  lemma GroupsBothWays(db: Database, x: Row, y: Row)
    requires KeysSet(db) && x in TableRows(db, Accounts)
    ensures var w := BothWays(); var t := NaiveTree(db, w, Tree(x, Nothing(w)));
      y in RowsOf(GetEdge(t, GroupsEdge)) <==> y in AttachedOn(AgGroupEdge, GetEdge(t, AccountGroupsEdge))
  {
    hide Related, KeysSet, NaiveEdge, NaiveTree, AttachedOn;
    var w := BothWays();
    NaiveTreeAt(db, Accounts, w, Tree(x, Nothing(w)), GroupsEdge);
    NaiveTreeAt(db, Accounts, w, Tree(x, Nothing(w)), AccountGroupsEdge);
    NaiveEdgeRows(db, GroupsEdge, Plain(Groups, Done), x, y);
    JoinedGroups(db, x, y);
  }

  lemma RepeatedGetsNeither(db: Database, t: Tree)
    ensures var r := Shape(db, BothWays(), t, false);
      GetEdge(r, GroupsEdge) == [] && GetEdge(r, AccountGroupsEdge) == []
  {
  }

  lemma WholeInTable(db: Database, q: Query, r: Row)
    requires TypedPath(q) && q.fields == [] && r in QueryNodes(db, q)
    ensures r in TableRows(db, q.table)
  {
    hide QueryNodes, Base;
    WholeRows(q);
    QueryMembers(db, q, r);
    BaseInTable(db, q);
  }
}
