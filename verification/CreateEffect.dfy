/** What inserting the specification of a new account does to the tables: its neighbours
    on every edge. */
module CreateEffect {
  import opened Seqs
  import opened AccountFields
  import Schema
  import EdgeLaws
  import opened Codec

  type Database = Schema.Database
  type Row = Schema.Row

  /** The ids that a specification gives for a kind of edge. */
  function NodesOf(edges: seq<EdgeSpec>, kind: EdgeKind): seq<int> {
    if edges == [] then []
    else
      NodesOf(edges[..|edges| - 1], kind) + if edges[|edges| - 1].kind == kind then edges[|edges| - 1].nodes else []
  }

  lemma {:induction false} NodesConcat(a: seq<EdgeSpec>, b: seq<EdgeSpec>, kind: EdgeKind)
    ensures NodesOf(a + b, kind) == NodesOf(a, kind) + NodesOf(b, kind)
  {
    if b == [] {
      assert a + b == a;
    } else {
      NodesConcat(a, b[..|b| - 1], kind);
      assert (a + b)[..|a + b| - 1] == a + b[..|b| - 1];
    }
  }

  lemma NodesOfOne(k: EdgeKind, nodes: seq<int>, kind: EdgeKind)
    ensures NodesOf(SpecEdge(k, nodes), kind) == if k == kind then nodes else []
  {
    if nodes != [] {
      assert SpecEdge(k, nodes)[..0] == [];
      assert [] + nodes == nodes;
    }
  }

  /** Every kind of edge gets the ids that were given for it. */
  lemma SpecNodes(m: Mutation, others: Neighbors, kind: EdgeKind)
    ensures NodesOf(SpecOf(m, others).edges, kind) ==
      match kind
      case GroupsM2M => others.groups
      case ProxyM2O => ParentIds(m, ProxyID)
      case ParentM2O => ParentIds(m, ParentAccountID)
      case ChildrenO2M => others.children
      case UsageLogsO2M => others.usageLogs
      case LeaseO2O => LeaseIds(others)
  {
    hide SpecEdge, NodesOf, ParentIds, LeaseIds;
    var a, b, c :=
      SpecEdge(GroupsM2M, others.groups), SpecEdge(ProxyM2O, ParentIds(m, ProxyID)),
      SpecEdge(ParentM2O, ParentIds(m, ParentAccountID));
    var d, e, g :=
      SpecEdge(ChildrenO2M, others.children), SpecEdge(UsageLogsO2M, others.usageLogs),
      SpecEdge(LeaseO2O, LeaseIds(others));
    NodesOfOne(GroupsM2M, others.groups, kind);
    NodesOfOne(ProxyM2O, ParentIds(m, ProxyID), kind);
    NodesOfOne(ParentM2O, ParentIds(m, ParentAccountID), kind);
    NodesOfOne(ChildrenO2M, others.children, kind);
    NodesOfOne(UsageLogsO2M, others.usageLogs, kind);
    NodesOfOne(LeaseO2O, LeaseIds(others), kind);
    NodesConcat(a, b, kind);
    NodesConcat(a + b, c, kind);
    NodesConcat(a + b + c, d, kind);
    NodesConcat(a + b + c + d, e, kind);
    NodesConcat(a + b + c + d + e, g, kind);
  }

  // -------------------------------------------------------------- insertion

  function OnlyKey(ids: seq<int>): Option<int> {
    if ids == [] then None else Some(ids[0])
  }

  /** The key columns of the new row. */
  function NewRow(spec: CreateSpec, id: int): Row {
    Schema.Row(id, map["proxy_id" := OnlyKey(NodesOf(spec.edges, ProxyM2O)),
        "parent_account_id" := OnlyKey(NodesOf(spec.edges, ParentM2O))])
  }

  /** The rows with these ids get a key. */
  function Rekeyed(column: string, id: int, nodes: seq<int>, rows: seq<Row>): (r: seq<Row>)
    ensures |r| == |rows|
    ensures forall i :: 0 <= i < |rows| ==> r[i] == Connected(column, id, nodes, rows[i])
  {
    seq(|rows|, i requires 0 <= i < |rows| => Connected(column, id, nodes, rows[i]))
  }

  function Connected(column: string, id: int, nodes: seq<int>, r: Row): Row {
    if r.id in nodes then r.(cols := r.cols[column := Some(id)]) else r
  }

  function JoinRow(id: int, g: int): Row {
    Schema.Row(0, map["account_id" := Some(id), "group_id" := Some(g)])
  }

  function JoinRowsOf(id: int, groups: seq<int>): (r: seq<Row>)
    ensures |r| == |groups| && forall i :: 0 <= i < |groups| ==> r[i] == JoinRow(id, groups[i])
  {
    seq(|groups|, i requires 0 <= i < |groups| => JoinRow(id, groups[i]))
  }

  /** CreateNode, as far as keys are concerned: the row itself, its join rows, and the
      keys of its children, usage logs and lease. */
  function Insert(db: Database, spec: CreateSpec, id: int): Database {
    var accounts := Schema.TableRows(db, Schema.Accounts);
    db[Schema.Accounts :=
       Rekeyed("parent_account_id", id, NodesOf(spec.edges, ChildrenO2M), accounts) + [NewRow(spec, id)]]
      [Schema.AccountGroups :=
       Schema.TableRows(db, Schema.AccountGroups) + JoinRowsOf(id, NodesOf(spec.edges, GroupsM2M))]
      [Schema.UsageLogs :=
       Rekeyed("account_id", id, NodesOf(spec.edges, UsageLogsO2M), Schema.TableRows(db, Schema.UsageLogs))]
      [Schema.Leases :=
       Rekeyed("account_id", id, NodesOf(spec.edges, LeaseO2O), Schema.TableRows(db, Schema.Leases))]
  }

  /** No row has this account id yet, or refers to it. */
  ghost predicate Fresh(db: Database, id: int) {
    && (forall r :: r in Schema.TableRows(db, Schema.Accounts) ==>
      r.id != id && Schema.Col(r, "parent_account_id") != Some(id))
    && (forall r :: r in Schema.TableRows(db, Schema.AccountGroups) ==> Schema.Col(r, "account_id") != Some(id))
    && (forall r :: r in Schema.TableRows(db, Schema.UsageLogs) ==> Schema.Col(r, "account_id") != Some(id))
    && forall r :: r in Schema.TableRows(db, Schema.Leases) ==> Schema.Col(r, "account_id") != Some(id)
  }

  lemma RekeyedOwn(column: string, id: int, nodes: seq<int>, rows: seq<Row>, y: Row)
    requires forall r :: r in rows ==> Schema.Col(r, column) != Some(id)
    requires y in Rekeyed(column, id, nodes, rows)
    ensures Schema.Col(y, column) == Some(id) <==> y.id in nodes
  {
    var all := Rekeyed(column, id, nodes, rows);
    var i :| 0 <= i < |all| && all[i] == y;
    assert rows[i] in rows;
  }

  lemma Inserted(db: Database, spec: CreateSpec, id: int)
    ensures var db' := Insert(db, spec, id);
      && Schema.TableRows(db', Schema.Accounts) ==
        Rekeyed("parent_account_id", id, NodesOf(spec.edges, ChildrenO2M), Schema.TableRows(db, Schema.Accounts)) +
        [NewRow(spec, id)]
      && Schema.TableRows(db', Schema.AccountGroups) ==
        Schema.TableRows(db, Schema.AccountGroups) + JoinRowsOf(id, NodesOf(spec.edges, GroupsM2M))
      && Schema.TableRows(db', Schema.UsageLogs) ==
        Rekeyed("account_id", id, NodesOf(spec.edges, UsageLogsO2M), Schema.TableRows(db, Schema.UsageLogs))
      && Schema.TableRows(db', Schema.Leases) ==
        Rekeyed("account_id", id, NodesOf(spec.edges, LeaseO2O), Schema.TableRows(db, Schema.Leases))
  {
    hide Rekeyed, JoinRowsOf, NewRow, NodesOf;
  }

  lemma JoinRowColumns(id: int, g: int)
    ensures Schema.Col(JoinRow(id, g), "account_id") == Some(id) && Schema.Col(JoinRow(id, g), "group_id") == Some(g)
  {
    assert "account_id"[0] != "group_id"[0];
  }

  lemma JoinedBy(db: Database, spec: CreateSpec, id: int, a: int, g: int)
    requires Fresh(db, id)
    ensures EdgeLaws.Joined(Insert(db, spec, id), a, g) <==>
      if a == id then g in NodesOf(spec.edges, GroupsM2M) else EdgeLaws.Joined(db, a, g)
  {
    hide Insert, NodesOf;
    Inserted(db, spec, id);
    var before, nodes := Schema.TableRows(db, Schema.AccountGroups), NodesOf(spec.edges, GroupsM2M);
    var all := before + JoinRowsOf(id, nodes);
    if EdgeLaws.Joined(Insert(db, spec, id), a, g) {
      var j :| j in all && Schema.Col(j, "account_id") == Some(a) && Schema.Col(j, "group_id") == Some(g);
      var k :| 0 <= k < |all| && all[k] == j;
      if k >= |before| {
        assert j == JoinRow(id, nodes[k - |before|]);
        JoinRowColumns(id, nodes[k - |before|]);
      } else {
        assert before[k] == j;
      }
    }
    if a == id && g in nodes {
      var i :| 0 <= i < |nodes| && nodes[i] == g;
      JoinRowColumns(id, g);
      assert all[|before| + i] == JoinRow(id, g);
    }
    if a != id && EdgeLaws.Joined(db, a, g) {
      var j :| j in before && Schema.Col(j, "account_id") == Some(a) && Schema.Col(j, "group_id") == Some(g);
      assert j in all;
    }
  }

  /** The new account is related to exactly the rows that the mutation gave for each
      edge, and no other account's groups change. */
  lemma NewNeighbours(db: Database, m: Mutation, others: Neighbors, id: int, y: Row)
    requires Codec.WellTyped(m) && Fresh(db, id)
    requires id !in others.children && !(ParentAccountID in m && m[ParentAccountID] == IntV(id))
    ensures var db' := Insert(db, SpecOf(m, others), id);
      var x := NewRow(SpecOf(m, others), id);
      && (y in Schema.TableRows(db', Schema.Groups) ==>
        (EdgeLaws.Related(db', Schema.GroupsEdge, x, y) <==> y.id in others.groups))
      && (y in Schema.TableRows(db', Schema.Proxies) ==>
        (EdgeLaws.Related(db', Schema.ProxyEdge, x, y) <==> ProxyID in m && m[ProxyID] == IntV(y.id)))
      && (y in Schema.TableRows(db', Schema.Accounts) ==>
        (EdgeLaws.Related(db', Schema.ParentEdge, x, y) <==> ParentAccountID in m && m[ParentAccountID] == IntV(y.id)))
      && (y in Schema.TableRows(db', Schema.Accounts) ==>
        (EdgeLaws.Related(db', Schema.ChildrenEdge, x, y) <==> y.id in others.children))
      && (y in Schema.TableRows(db', Schema.UsageLogs) ==>
        (EdgeLaws.Related(db', Schema.UsageLogsEdge, x, y) <==> y.id in others.usageLogs))
      && (y in Schema.TableRows(db', Schema.Leases) ==>
        (EdgeLaws.Related(db', Schema.LeaseEdge, x, y) <==> others.lease == Some(y.id)))
  {
    hide Insert, NodesOf, EdgeLaws.Related, EdgeLaws.Joined, SpecOf, NewRow, Rekeyed, Fresh, Codec.WellTyped;
    var spec := SpecOf(m, others);
    var db', x := Insert(db, spec, id), NewRow(spec, id);
    Inserted(db, spec, id);
    EdgeLaws.RelationColumns(db', x, y);
    JoinedBy(db, spec, id, id, y.id);
    NewRowKeys(m, others, id);
    SpecNodes(m, others, GroupsM2M);
    assert x in Schema.TableRows(db', Schema.Accounts);
    OwnRows(db, m, others, id, y);
  }

  lemma NewRowKeys(m: Mutation, others: Neighbors, id: int)
    requires Codec.WellTyped(m)
    ensures var x := NewRow(SpecOf(m, others), id);
      && x.id == id
      && (forall k :: Schema.Col(x, "proxy_id") == Some(k) <==> ProxyID in m && m[ProxyID] == IntV(k))
      && (forall k :: Schema.Col(x, "parent_account_id") == Some(k) <==>
        ParentAccountID in m && m[ParentAccountID] == IntV(k))
  {
    hide NodesOf, SpecOf;
    SpecNodes(m, others, ProxyM2O);
    SpecNodes(m, others, ParentM2O);
    assert "proxy_id"[1] != "parent_account_id"[1];
  }

  lemma OwnRows(db: Database, m: Mutation, others: Neighbors, id: int, y: Row)
    requires Codec.WellTyped(m) && Fresh(db, id)
    requires id !in others.children && !(ParentAccountID in m && m[ParentAccountID] == IntV(id))
    ensures var db' := Insert(db, SpecOf(m, others), id);
      && (y in Schema.TableRows(db', Schema.Accounts) ==>
        (Schema.Col(y, "parent_account_id") == Some(id) <==> y.id in others.children))
      && (y in Schema.TableRows(db', Schema.UsageLogs) ==>
        (Schema.Col(y, "account_id") == Some(id) <==> y.id in others.usageLogs))
      && (y in Schema.TableRows(db', Schema.Leases) ==>
        (Schema.Col(y, "account_id") == Some(id) <==> others.lease == Some(y.id)))
  {
    hide Insert, NodesOf, SpecOf, NewRow, Rekeyed, Schema.Col;
    var spec := SpecOf(m, others);
    var db', x := Insert(db, spec, id), NewRow(spec, id);
    Inserted(db, spec, id);
    SpecNodes(m, others, ChildrenO2M);
    SpecNodes(m, others, UsageLogsO2M);
    SpecNodes(m, others, LeaseO2O);
    NewRowKeys(m, others, id);
    if y in Schema.TableRows(db', Schema.Accounts) && y != x {
      RekeyedOwn("parent_account_id", id, others.children, Schema.TableRows(db, Schema.Accounts), y);
    }
    if y in Schema.TableRows(db', Schema.UsageLogs) {
      RekeyedOwn("account_id", id, others.usageLogs, Schema.TableRows(db, Schema.UsageLogs), y);
    }
    if y in Schema.TableRows(db', Schema.Leases) {
      RekeyedOwn("account_id", id, LeaseIds(others), Schema.TableRows(db, Schema.Leases), y);
    }
  }
}
