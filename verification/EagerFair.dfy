/** Eager loading against one query per entity and edge, at every depth, with windows
    on the loads and repeated entities: exactly when they agree. */
module EagerFair {
  import opened Seqs
  import opened Schema
  import opened EagerSpec
  import opened EagerTheorems
  import opened EagerSelect
  import opened EagerLimits
  import opened EagerOwn

  // ---------------------------------------------------- groups of one entity

  lemma OneLink(db: Database, e: Edge, a: int, cols: Option<seq<string>>, y: Row)
    requires NoDup(Links(db, e, y.id))
    ensures Map(Second(), LinkPairs(db, e, [a], cols, y)) == if a in Links(db, e, y.id) then [Project(cols, y)] else []
  {
    hide Links, Project;
    var links := Links(db, e, y.id);
    var p := (x: int) => x in [a];
    FilterNoDup(p, links);
    var kept := Filter(p, links);
    if a in links {
      assert a in kept;
      forall k | 0 <= k < |kept| ensures kept[k] == a {
        assert kept[k] in kept;
      }
      var first, last := kept[0], kept[|kept| - 1];
      assert first == last;
      assert kept == [a];
    } else {
      FilterNone(p, links);
    }
  }

  lemma {:induction false} AloneTargets(db: Database, e: Edge, a: int, cols: Option<seq<string>>, sel: seq<Row>)
    requires forall y :: y in sel ==> NoDup(Links(db, e, y.id))
    ensures Map(Second(), FlatMap(Linking(db, e, [a], cols), sel)) ==
      Map(Projecting(cols), Filter(LinkedTo(db, e, a), sel))
  {
    hide Links, Project, LinkPairs, Filter;
    if sel == [] {
      FilterNone(LinkedTo(db, e, a), sel);
    } else {
      var m, f := |sel| - 1, Projecting(cols);
      AloneTargets(db, e, a, cols, sel[..m]);
      OneLink(db, e, a, cols, sel[m]);
      FilterLast(LinkedTo(db, e, a), sel[..m], sel[m]);
      assert sel == sel[..m] + [sel[m]];
      MapAppend(Second(), FlatMap(Linking(db, e, [a], cols), sel[..m]), LinkPairs(db, e, [a], cols, sel[m]));
      MapAppend(f, Filter(LinkedTo(db, e, a), sel[..m]), if LinkedTo(db, e, a)(sel[m]) then [sel[m]] else []);
    }
  }

  lemma MapAppend<T, U>(f: T -> U, a: seq<T>, b: seq<T>)
    ensures Map(f, a + b) == Map(f, a) + Map(f, b)
  {
  }

  /** Alone, an entity gets the targets of its own join rows, window included. */
  lemma AloneGroups(db: Database, e: Edge, sub: Query, a: int)
    requires ValidKeys(db) && e == GroupsEdge && HasID(sub.table) && sub.path.NoPath? && !NoWindow(sub.opts)
    ensures Map(Second(), JoinRows(db, e, sub, [a])) == QueryNodes(db, Where(sub, LinkedTo(db, e, a)))
  {
    hide QueryNodes, SpecColumns, Selected, FlatMap, Links, ValidKeys, Filter, Cut, Skips, Takes;
    var u, o, n := Unlimited(sub), Skips(sub.opts), Takes(sub.opts);
    var cols, sel := SpecColumns(u), Selected(u.opts, TableRows(db, u.table));
    TableUnique(db, u.table);
    forall y | y in sel ensures NoDup(Links(db, e, y.id)) {
      LinksNoDup(db, y.id);
    }
    AloneTargets(db, e, a, cols, sel);
    NarrowedSelection(db, u, LinkedTo(db, e, a));
    WindowIdle(u.opts, FlatMap(Linking(db, e, [a], cols), sel));
    JoinCuts(db, e, sub, [a]);
    TargetsCut(o, n, JoinRows(db, e, u, [a]));
    QueryCuts(db, sub, LinkedTo(db, e, a));
  }

  // --------------------------------------------------------------- windows

  /** A window on a load that treats every entity as if it were alone. */
  ghost predicate FairWindow(db: Database, e: Edge, sub: Query, rows: seq<Row>) {
    NoWindow(sub.opts) ||
      var o, n := Skips(sub.opts), Takes(sub.opts);
      match Kind(e)
      case M2O => var whole := Whole(db, e, sub, rows); (o == 0 && |whole| <= n) || o >= |whole|
      case O2M | O2O => PerGroup(FkKey(e), Whole(db, e, sub, rows), o, n)
      case M2M => PerGroup(SourceKey(), JoinRows(db, e, Unlimited(sub), Ids(rows)), o, n)
  }

  /** What a window may rely on: rows that can be told apart. */
  ghost predicate Distinguished(db: Database, e: Edge, sub: Query, rows: seq<Row>) {
    NoWindow(sub.opts) ||
      match Kind(e)
      case M2O => true
      case O2M | O2O => Skips(sub.opts) > 0 ==> NoDup(Whole(db, e, sub, rows))
      case M2M => ValidKeys(db)
  }

  ghost predicate TypedLoad(e: Edge, sub: Query) {
    sub.table == Target(e) && sub.path.NoPath?
  }

  /** Every entity gets the rows that it would get alone. */
  ghost predicate AllAlone(db: Database, e: Edge, sub: Query, rows: seq<Row>) {
    forall i :: 0 <= i < |rows| ==> Own(db, e, sub, rows, i) == Alone(db, e, sub, rows[i])
  }

  /** Of a many-to-one load. */
  lemma LookupExact(db: Database, e: Edge, sub: Query, rows: seq<Row>)
    requires ValidDb(db) && TypedLoad(e, sub) && Kind(e).M2O?
    ensures AllAlone(db, e, sub, rows) <==> FairWindow(db, e, sub, rows)
  {
    hide QueryNodes, Filter, FkIds, Skips, Takes;
    var ids := FkIds(e, rows);
    SplitNone(db, sub);
    if NoWindow(sub.opts) {
      forall k | k in ids
        ensures Filter(RowHasId(k), Found(db, e, sub, rows)) == QueryNodes(db, Where(sub, IdIn([k]))) {
        SplitById(db, sub, ids, k);
      }
    } else {
      LookupWindowIsPerBatch(db, e, sub, rows);
    }
    forall i | 0 <= i < |rows| && ReadFk(e, rows[i]).Some? ensures ReadFk(e, rows[i]).value in ids {
      FkIdsComplete(e, rows, i);
    }
    forall k | k in ids ensures exists i :: 0 <= i < |rows| && ReadFk(e, rows[i]) == Some(k) {
      FkIdsOnly(e, rows, k);
    }
  }

  lemma {:induction false} FkIdsOnly(e: Edge, rows: seq<Row>, k: int)
    requires k in FkIds(e, rows)
    ensures exists i :: 0 <= i < |rows| && ReadFk(e, rows[i]) == Some(k)
  {
    hide ReadFk;
    var m := |rows| - 1;
    if ReadFk(e, rows[m]) != Some(k) {
      FkIdsOnly(e, rows[..m], k);
      var i :| 0 <= i < |rows[..m]| && ReadFk(e, rows[..m][i]) == Some(k);
      assert rows[i] == rows[..m][i];
    }
  }

  /** Of a load of children, and of the lease before the last one is kept. */
  lemma ChildrenExact(db: Database, e: Edge, sub: Query, rows: seq<Row>)
    requires TypedLoad(e, sub) && (Kind(e).O2M? || Kind(e).O2O?) && Distinguished(db, e, sub, rows)
    ensures FairWindow(db, e, sub, rows) ==>
      forall i :: 0 <= i < |rows| && IsLast(rows, i) ==> Own(db, e, sub, rows, i) == Alone(db, e, sub, rows[i])
    ensures UniqueIds(rows) && AllAlone(db, e, sub, rows) ==> FairWindow(db, e, sub, rows)
  {
    hide QueryNodes, Own, Alone, Skips, Takes, PerGroup, Distinguished;
    if NoWindow(sub.opts) {
      forall i | 0 <= i < |rows| && IsLast(rows, i) ensures Own(db, e, sub, rows, i) == Alone(db, e, sub, rows[i]) {
        ChildWindowless(db, e, sub, rows, i);
      }
    } else {
      ChildrenWindowed(db, e, sub, rows);
      if UniqueIds(rows) {
        AllLast(rows);
      }
    }
  }

  lemma ChildWindowless(db: Database, e: Edge, sub: Query, rows: seq<Row>, i: nat)
    requires TypedLoad(e, sub) && (Kind(e).O2M? || Kind(e).O2O?) && NoWindow(sub.opts) && i < |rows| && IsLast(rows, i)
    ensures Own(db, e, sub, rows, i) == Alone(db, e, sub, rows[i])
  {
    hide QueryNodes, Filter, Own;
    LastOwnsFk(db, e, sub, rows, i);
    assert Ids(rows)[i] in Ids(rows);
    SplitByFk(db, e, sub, Ids(rows), rows[i].id);
  }

  /** The rows compared by WindowIsPerBatch are those of the entities. */
  lemma ChildrenWindowed(db: Database, e: Edge, sub: Query, rows: seq<Row>)
    requires TypedLoad(e, sub) && (Kind(e).O2M? || Kind(e).O2O?) && Distinguished(db, e, sub, rows) &&
      !NoWindow(sub.opts)
    ensures FairWindow(db, e, sub, rows) ==>
      forall i :: 0 <= i < |rows| && IsLast(rows, i) ==> Own(db, e, sub, rows, i) == Alone(db, e, sub, rows[i])
    ensures (forall i :: 0 <= i < |rows| ==> IsLast(rows, i)) && AllAlone(db, e, sub, rows) ==>
      FairWindow(db, e, sub, rows)
  {
    hide QueryNodes, Filter, Own, Skips, Takes, PerGroup, IsLast;
    forall i | 0 <= i < |rows| && IsLast(rows, i)
      ensures Own(db, e, sub, rows, i) == Filter(RowHasFk(e, rows[i].id), QueryNodes(db, LoadQuery(e, sub, rows)))
    {
      LastOwnsFk(db, e, sub, rows, i);
    }
    WindowIsPerBatch(db, e, sub, rows);
  }

  lemma AllLast(rows: seq<Row>)
    requires UniqueIds(rows)
    ensures forall i :: 0 <= i < |rows| ==> IsLast(rows, i)
  {
    forall i | 0 <= i < |rows| ensures IsLast(rows, i) {
      assert forall j :: i < j < |rows| ==> Ids(rows)[j] != rows[i].id;
    }
  }

  /** Of the load of groups. */
  lemma GroupsExact(db: Database, e: Edge, sub: Query, rows: seq<Row>)
    requires ValidDb(db) && TypedLoad(e, sub) && Kind(e).M2M? && Distinguished(db, e, sub, rows)
    ensures FairWindow(db, e, sub, rows) ==>
      forall i :: 0 <= i < |rows| && IsLast(rows, i) ==> Own(db, e, sub, rows, i) == Alone(db, e, sub, rows[i])
    ensures UniqueIds(rows) && AllAlone(db, e, sub, rows) ==> FairWindow(db, e, sub, rows)
  {
    hide QueryNodes, Own, JoinRows, Skips, Takes, PerGroup, Group, ValidKeys;
    var ids := Ids(rows);
    if NoWindow(sub.opts) {
      forall i | 0 <= i < |rows| && IsLast(rows, i) ensures Own(db, e, sub, rows, i) == Alone(db, e, sub, rows[i]) {
        OwnWindowless(db, e, sub, rows, i);
      }
    } else {
      GroupsNoDup(db, e, sub, ids);
      GroupsWindowIsPerBatch(db, e, sub, ids);
      forall i | 0 <= i < |rows| && IsLast(rows, i)
        ensures Own(db, e, sub, rows, i) == Alone(db, e, sub, rows[i]) <==>
          Group(SourceKey(), ids[i], JoinRows(db, e, sub, ids)) == JoinRows(db, e, sub, [ids[i]])
      {
        OwnWindowed(db, e, sub, rows, i);
      }
      if UniqueIds(rows) {
        AllLast(rows);
      }
      assert forall a :: a in ids ==> exists i :: 0 <= i < |rows| && ids[i] == a;
      forall i | 0 <= i < |rows| ensures ids[i] in ids {
      }
    }
  }

  lemma GroupsNoDup(db: Database, e: Edge, sub: Query, ids: seq<int>)
    requires ValidKeys(db) && Kind(e).M2M? && sub.table == Target(e)
    ensures e == GroupsEdge && NoDup(JoinRows(db, e, Unlimited(sub), ids))
  {
    JoinRowsNoDup(db, sub, ids);
  }

  lemma OwnWindowless(db: Database, e: Edge, sub: Query, rows: seq<Row>, i: nat)
    requires ValidDb(db) && TypedLoad(e, sub) && Kind(e).M2M? && NoWindow(sub.opts) && i < |rows| && IsLast(rows, i)
    ensures Own(db, e, sub, rows, i) == Alone(db, e, sub, rows[i])
  {
    hide JoinRows, QueryNodes, FirstById, Receives, Filter;
    SplitJoin(db, e, sub, Ids(rows), i);
  }

  lemma OwnWindowed(db: Database, e: Edge, sub: Query, rows: seq<Row>, i: nat)
    requires ValidKeys(db) && TypedLoad(e, sub) && Kind(e).M2M? && !NoWindow(sub.opts) && i < |rows| && IsLast(rows, i)
    ensures var ids := Ids(rows);
      Own(db, e, sub, rows, i) == Alone(db, e, sub, rows[i]) <==>
        Group(SourceKey(), ids[i], JoinRows(db, e, sub, ids)) == JoinRows(db, e, sub, [ids[i]])
  {
    hide QueryNodes, JoinRows, Skips, Takes, ValidKeys, FirstById, Receives, Filter, Cut;
    var ids, whole := Ids(rows), JoinRows(db, e, Unlimited(sub), Ids(rows));
    var batch, mine := JoinRows(db, e, sub, Ids(rows)), JoinRows(db, e, sub, [Ids(rows)[i]]);
    GroupsNoDup(db, e, sub, ids);
    JoinBlocks(db, e, sub, ids);
    JoinCuts(db, e, sub, ids);
    CutKeeps(Skips(sub.opts), Takes(sub.opts), whole);
    OwnTargets(ids, batch, i);
    AloneGroups(db, e, sub, ids[i]);
    forall p | p in mine ensures p.0 == ids[i] {
      JoinSources(db, e, sub, [ids[i]], p);
    }
    SameTargets(Group(SourceKey(), ids[i], batch), mine, ids[i]);
  }

  lemma JoinBlocks(db: Database, e: Edge, sub: Query, ids: seq<int>)
    requires ValidKeys(db) && HasID(sub.table)
    ensures Blocks(JoinRows(db, e, Unlimited(sub), ids))
  {
    hide SpecColumns, Selected, ValidKeys, Blocks, FlatMap;
    var u := Unlimited(sub);
    TableUnique(db, u.table);
    SelectedUnique(db, u);
    var sel := Selected(u.opts, TableRows(db, u.table));
    LinkingBlocks(db, e, ids, SpecColumns(u), sel);
    WindowIdle(u.opts, FlatMap(Linking(db, e, ids, SpecColumns(u)), sel));
  }

  /** Join rows of one source are told apart by their targets. */
  lemma SameTargets(a: seq<(int, Row)>, b: seq<(int, Row)>, source: int)
    requires (forall p :: p in a ==> p.0 == source) && forall p :: p in b ==> p.0 == source
    ensures Map(Second(), a) == Map(Second(), b) <==> a == b
  {
    if Map(Second(), a) == Map(Second(), b) {
      assert |a| == |Map(Second(), a)| == |b|;
      forall k | 0 <= k < |a| ensures a[k] == b[k] {
        assert a[k] in a && b[k] in b;
        assert Map(Second(), a)[k] == Map(Second(), b)[k];
      }
    }
  }

  // -------------------------------------------------------- all the edges

  /** Every window of a nested request is fair, and relies on rows that can be told
      apart, for the entities that its load sees. */
  ghost predicate FairWindows(db: Database, w: Withs, rows: seq<Row>)
    decreases w
  {
    match w
    case Done => true
    case Load(e, sub, rest) =>
      && FairWindow(db, e, sub, rows) && Distinguished(db, e, sub, rows)
      && FairWindows(db, sub.with, Found(db, e, sub, rows))
      && FairWindows(db, rest, rows)
  }

  predicate NoWindows(w: Withs) {
    match w
    case Done => true
    case Load(_, sub, rest) => NoWindow(sub.opts) && NoWindows(sub.with) && NoWindows(rest)
  }

  lemma {:induction false} NoWindowsFair(db: Database, w: Withs, rows: seq<Row>)
    requires NoWindows(w)
    ensures FairWindows(db, w, rows)
    decreases w
  {
    hide Found;
    match w
    case Done =>
    case Load(e, sub, rest) =>
      NoWindowsFair(db, sub.with, Found(db, e, sub, rows));
      NoWindowsFair(db, rest, rows);
  }

  /** What eager loading makes of an entity: the naive tree, except that an entity
      which is repeated later gets nothing on the edges that refer to its id. */
  function Shape(db: Database, w: Withs, t: Tree, last: bool): Tree
    decreases w
  {
    match w
    case Done => t
    case Load(e, sub, rest) => Shape(db, rest, ShapeOne(db, e, sub, t, last), last)
  }

  function ShapeOne(db: Database, e: Edge, sub: Query, t: Tree, last: bool): Tree {
    if Kind(e).M2O? || last then NaiveLoad(db, e, sub, t) else SetEdge(t, e, [])
  }

  lemma {:induction false} ShapeIsNaive(db: Database, w: Withs, t: Tree)
    ensures Shape(db, w, t, true) == NaiveTree(db, w, t)
    decreases w
  {
    hide NaiveEdge;
    match w
    case Done =>
    case Load(e, sub, rest) => ShapeIsNaive(db, rest, NaiveLoad(db, e, sub, t));
  }

  /** Entities without an id have many-to-one edges only. */
  lemma {:induction false} ShapeWithoutIds(db: Database, t: Table, w: Withs, tree: Tree)
    requires !HasID(t) && WellTyped(t, w)
    ensures Shape(db, w, tree, false) == Shape(db, w, tree, true)
    decreases w
  {
    hide NaiveEdge;
    match w
    case Done =>
    case Load(e, sub, rest) =>
      assert Kind(e).M2O?;
      ShapeWithoutIds(db, t, rest, NaiveLoad(db, e, sub, tree));
  }

  ghost predicate Untouched(w: Withs, nodes: seq<Tree>) {
    forall i, e :: 0 <= i < |nodes| && e in Edges(w) ==> e in nodes[i].edges && nodes[i].edges[e] == []
  }

  /** One load, for one entity. */
  lemma OneLoad(db: Database, e: Edge, sub: Query, nodes: seq<Tree>, i: nat)
    requires ValidDb(db) && TypedLoad(e, sub) && WellTyped(sub.table, sub.with)
    requires var rows := RowsOf(nodes);
      FairWindow(db, e, sub, rows) && Distinguished(db, e, sub, rows) &&
        FairWindows(db, sub.with, Found(db, e, sub, rows))
    requires i < |nodes| && e in nodes[i].edges && nodes[i].edges[e] == []
    ensures LoadEdge(db, e, sub, nodes)[i] == ShapeOne(db, e, sub, nodes[i], IsLast(RowsOf(nodes), i))
    decreases sub.with, 4
  {
    hide LoadEdge, QueryNodes, FirstById, JoinRows, Own, Alone, FairWindow, FairWindows, Distinguished, NaiveAll;
    var rows := RowsOf(nodes);
    LoadGives(db, e, sub, nodes, i);
    NaiveIsGiven(db, e, sub, nodes[i]);
    if Kind(e).M2O? {
      LookupExact(db, e, sub, rows);
    } else {
      if Kind(e).M2M? {
        GroupsExact(db, e, sub, rows);
      } else {
        ChildrenExact(db, e, sub, rows);
      }
      if !IsLast(rows, i) {
        ShadowedGetsNothing(db, e, sub, rows, i);
        NaiveNothing(db, sub.with);
      }
    }
  }

  /** Whatever a load attaches to an entity is itself loaded naively. */
  lemma LoadGives(db: Database, e: Edge, sub: Query, nodes: seq<Tree>, i: nat)
    requires ValidDb(db) && TypedLoad(e, sub) && WellTyped(sub.table, sub.with)
    requires FairWindows(db, sub.with, Found(db, e, sub, RowsOf(nodes)))
    requires i < |nodes| && e in nodes[i].edges && nodes[i].edges[e] == []
    ensures LoadEdge(db, e, sub, nodes)[i] == Given(db, e, sub, nodes[i], Own(db, e, sub, RowsOf(nodes), i))
    decreases sub.with, 3
  {
    hide LoadEdge, QueryNodes, Own, FairWindows, NaiveAll, Eval, Given;
    var rows := RowsOf(nodes);
    if Kind(e).M2M? {
      FoundUnique(db, e, sub, rows);
      AttachUniqueNaive(db, sub.with, sub.table, Found(db, e, sub, rows));
      GroupsGive(db, e, sub, nodes, i);
    } else {
      if HasID(sub.table) {
        QueryUnique(db, LoadQuery(e, sub, rows));
      }
      EvalIsNaive(db, LoadQuery(e, sub, rows));
      if Kind(e).M2O? {
        LookupGives(db, e, sub, nodes, i);
      } else {
        ChildrenGive(db, e, sub, nodes, i);
      }
    }
  }

  lemma FoundUnique(db: Database, e: Edge, sub: Query, rows: seq<Row>)
    requires Kind(e).M2M?
    ensures UniqueIds(Found(db, e, sub, rows))
  {
    hide JoinRows;
    FirstByIdUnique(JoinRows(db, e, sub, Ids(rows)));
  }

  /** One tree is another one with edge e set. */
  ghost predicate OnlyEdge(e: Edge, a: Tree, b: Tree) {
    exists ns :: b == SetEdge(a, e, ns)
  }

  lemma StillUntouched(db: Database, e: Edge, sub: Query, rest: Withs, nodes: seq<Tree>, loaded: seq<Tree>)
    requires Untouched(Load(e, sub, rest), nodes) && e !in Edges(rest) && |loaded| == |nodes|
    requires forall i :: 0 <= i < |nodes| ==> OnlyEdge(e, nodes[i], loaded[i])
    ensures Untouched(rest, loaded)
  {
    forall i, x | 0 <= i < |nodes| && x in Edges(rest) ensures x in loaded[i].edges && loaded[i].edges[x] == [] {
      assert x in Edges(Load(e, sub, rest)) && x != e;
      assert OnlyEdge(e, nodes[i], loaded[i]);
      var ns :| loaded[i] == SetEdge(nodes[i], e, ns);
    }
  }

  lemma {:induction false} AttachShape(db: Database, w: Withs, t: Table, nodes: seq<Tree>)
    requires ValidDb(db) && WellTyped(t, w) && FairWindows(db, w, RowsOf(nodes)) && Untouched(w, nodes)
    ensures forall i :: 0 <= i < |nodes| ==> Attach(db, w, nodes)[i] == Shape(db, w, nodes[i], IsLast(RowsOf(nodes), i))
    decreases w, 0
  {
    hide LoadEdge, ShapeOne, IsLast, FairWindow, Distinguished, Found, Untouched;
    match w
    case Done =>
    case Load(e, sub, rest) =>
      var rows, loaded := RowsOf(nodes), LoadEdge(db, e, sub, nodes);
      forall i | 0 <= i < |nodes|
        ensures loaded[i] == ShapeOne(db, e, sub, nodes[i], IsLast(rows, i)) && OnlyEdge(e, nodes[i], loaded[i])
      {
        UntouchedEdge(w, nodes, i, e);
        OneLoad(db, e, sub, nodes, i);
        ShapeOneOnly(db, e, sub, nodes[i], IsLast(rows, i));
      }
      LoadKeepsRows(db, e, sub, nodes);
      StillUntouched(db, e, sub, rest, nodes, loaded);
      AttachShape(db, rest, t, loaded);
  }

  lemma UntouchedEdge(w: Withs, nodes: seq<Tree>, i: nat, e: Edge)
    requires Untouched(w, nodes) && i < |nodes| && e in Edges(w)
    ensures e in nodes[i].edges && nodes[i].edges[e] == []
  {
  }

  lemma ShapeOneOnly(db: Database, e: Edge, sub: Query, t: Tree, last: bool)
    ensures OnlyEdge(e, t, ShapeOne(db, e, sub, t, last))
  {
    hide NaiveEdge;
    assert ShapeOne(db, e, sub, t, last) ==
      SetEdge(t, e, if Kind(e).M2O? || last then NaiveEdge(db, e, sub, t.row) else []);
  }

  /** Distinct entities, or entities without an id, are all loaded naively. */
  lemma AttachUniqueNaive(db: Database, w: Withs, t: Table, rows: seq<Row>)
    requires ValidDb(db) && WellTyped(t, w) && FairWindows(db, w, rows) && (HasID(t) ==> UniqueIds(rows))
    ensures Attach(db, w, Bare(w, rows)) == NaiveAll(db, w, rows)
    decreases w, 1
  {
    hide Attach, NaiveTree, FairWindows, IsLast;
    var nodes := Bare(w, rows);
    assert RowsOf(nodes) == rows;
    AttachShape(db, w, t, nodes);
    if HasID(t) {
      AllLast(rows);
    }
    forall i | 0 <= i < |rows| ensures Attach(db, w, nodes)[i] == NaiveAll(db, w, rows)[i] {
      ShapeIsNaive(db, w, nodes[i]);
      if !HasID(t) {
        ShapeWithoutIds(db, t, w, nodes[i]);
      }
    }
  }

  /** Eager loading is the naive reading: for every nested request whose windows are
      fair, the batched engine returns what one query per entity and edge returns. */
  lemma EvalIsNaive(db: Database, q: Query)
    requires ValidDb(db) && WellTyped(q.table, q.with) && FairWindows(db, q.with, QueryNodes(db, q))
    requires HasID(q.table) ==> UniqueIds(QueryNodes(db, q))
    ensures Eval(db, q) == NaiveAll(db, q.with, QueryNodes(db, q))
    decreases q.with, 2
  {
    AttachUniqueNaive(db, q.with, q.table, QueryNodes(db, q));
  }

  // ------------------------------------------------ repeated entities exactly

  /** Alone, this row has no neighbours on the edges that refer to its id. */
  ghost predicate NoneOwn(db: Database, w: Withs, row: Row)
    decreases w
  {
    match w
    case Done => true
    case Load(e, sub, rest) => (Kind(e).M2O? || NaiveEdge(db, e, sub, row) == []) && NoneOwn(db, rest, row)
  }

  ghost predicate SameBut(a: Tree, b: Tree, edges: set<Edge>) {
    a.row == b.row && a.edges - edges == b.edges - edges
  }

  lemma SetBoth(a: Tree, b: Tree, e: Edge, x: seq<Tree>, y: seq<Tree>, edges: set<Edge>)
    requires e !in edges
    ensures SameBut(SetEdge(a, e, x), SetEdge(b, e, y), edges) <==> SameBut(a, b, {e} + edges) && x == y
  {
    var a', b' := SetEdge(a, e, x), SetEdge(b, e, y);
    if SameBut(a', b', edges) {
      assert (a'.edges - edges)[e] == x && (b'.edges - edges)[e] == y;
      assert a.edges - ({e} + edges) == (a'.edges - edges) - {e};
      assert b.edges - ({e} + edges) == (b'.edges - edges) - {e};
    }
    if SameBut(a, b, {e} + edges) && x == y {
      assert a'.edges - edges == (a.edges - ({e} + edges))[e := x];
      assert b'.edges - edges == (b.edges - ({e} + edges))[e := y];
    }
  }

  /** A shadowed tree is the naive one exactly if nothing was there to lose. */
  lemma {:induction false} ShapeExact(db: Database, t: Table, w: Withs, a: Tree, b: Tree)
    requires WellTyped(t, w)
    ensures Shape(db, w, a, false) == NaiveTree(db, w, b) && a.row == b.row <==>
      SameBut(a, b, Edges(w)) && NoneOwn(db, w, b.row)
    decreases w
  {
    hide NaiveEdge, SameBut;
    match w
    case Done =>
      NoEdges(a, b);
    case Load(e, sub, rest) =>
      var x := if Kind(e).M2O? then NaiveEdge(db, e, sub, a.row) else [];
      var y := NaiveEdge(db, e, sub, b.row);
      var a', b' := SetEdge(a, e, x), SetEdge(b, e, y);
      assert ShapeOne(db, e, sub, a, false) == a' && NaiveLoad(db, e, sub, b) == b';
      ShapeExact(db, t, rest, a', b');
      SetBoth(a, b, e, x, y, Edges(rest));
      SameRows(a, b, {e} + Edges(rest));
  }

  lemma NoEdges(a: Tree, b: Tree)
    ensures SameBut(a, b, {}) <==> a == b
  {
    assert a.edges - {} == a.edges && b.edges - {} == b.edges;
  }

  lemma SameRows(a: Tree, b: Tree, edges: set<Edge>)
    ensures SameBut(a, b, edges) ==> a.row == b.row
  {
  }

  /** For any result, repeated entities included: entity i is loaded naively if and
      only if it has no id, or is the last one with its id, or has nothing to lose. */
  lemma EvalExact(db: Database, q: Query, i: nat)
    requires ValidDb(db) && WellTyped(q.table, q.with) && FairWindows(db, q.with, QueryNodes(db, q))
    requires i < |QueryNodes(db, q)|
    ensures var rows := QueryNodes(db, q);
      Eval(db, q)[i] == NaiveAll(db, q.with, rows)[i] <==>
        !HasID(q.table) || IsLast(rows, i) || NoneOwn(db, q.with, rows[i])
  {
    hide QueryNodes, Attach, NaiveTree, FairWindows, IsLast, NoneOwn, Shape;
    var rows := QueryNodes(db, q);
    var nodes := Bare(q.with, rows);
    assert RowsOf(nodes) == rows;
    AttachShape(db, q.with, q.table, nodes);
    ShapeIsNaive(db, q.with, nodes[i]);
    if !HasID(q.table) {
      ShapeWithoutIds(db, q.table, q.with, nodes[i]);
    } else if !IsLast(rows, i) {
      ShapeExact(db, q.table, q.with, nodes[i], nodes[i]);
    }
  }

  // ------------------------------------------------------ windows exactly

  /** The keys of the leases found are distinct, as their column is unique. */
  ghost predicate UniqueFks(e: Edge, rows: seq<Row>) {
    forall i, j :: 0 <= i < j < |rows| ==> FkKey(e)(rows[i]) != FkKey(e)(rows[j])
  }

  lemma ShownWhole(db: Database, e: Edge, sub: Query, rows: seq<Row>, i: nat)
    requires TypedLoad(e, sub) && i < |rows| && IsLast(rows, i)
    requires Kind(e).O2O? ==> UniqueFks(e, Whole(db, e, sub, rows))
    ensures Shown(e, Own(db, e, sub, rows, i)) == Own(db, e, sub, rows, i)
    ensures Shown(e, Alone(db, e, sub, rows[i])) == Alone(db, e, sub, rows[i])
  {
    hide Own, Alone, Whole;
    if Kind(e).O2O? {
      OneLease(db, e, sub, rows, i);
    }
  }

  /** A window on one load gives every entity, as a loaded tree, what it would get
      alone if and only if it is fair. */
  lemma WindowExact(db: Database, e: Edge, sub: Query, nodes: seq<Tree>)
    requires ValidDb(db) && TypedLoad(e, sub) && WellTyped(sub.table, sub.with)
    requires var rows := RowsOf(nodes);
      && Distinguished(db, e, sub, rows) && FairWindows(db, sub.with, Found(db, e, sub, rows))
      && (HasID(Source(e)) ==> UniqueIds(rows))
      && (Kind(e).O2O? ==> UniqueFks(e, Whole(db, e, sub, rows)))
    requires forall i :: 0 <= i < |nodes| ==> e in nodes[i].edges && nodes[i].edges[e] == []
    ensures (forall i :: 0 <= i < |nodes| ==> LoadEdge(db, e, sub, nodes)[i] == NaiveLoad(db, e, sub, nodes[i]))
      <==> FairWindow(db, e, sub, RowsOf(nodes))
  {
    hide LoadEdge, NaiveLoad, Own, Alone, FairWindow, FairWindows, Distinguished, Found, Given, UniqueFks;
    var rows := RowsOf(nodes);
    forall i | 0 <= i < |nodes|
      ensures LoadEdge(db, e, sub, nodes)[i] == NaiveLoad(db, e, sub, nodes[i]) <==>
        Own(db, e, sub, rows, i) == Alone(db, e, sub, rows[i])
    {
      LoadGives(db, e, sub, nodes, i);
      NaiveIsGiven(db, e, sub, nodes[i]);
      GivenExact(db, e, sub, nodes[i], Own(db, e, sub, rows, i), Alone(db, e, sub, rows[i]));
      if !Kind(e).M2O? {
        AllLast(rows);
        ShownWhole(db, e, sub, rows, i);
      }
    }
    match Kind(e)
    case M2O => LookupExact(db, e, sub, rows);
    case O2M | O2O =>
      AllLast(rows);
      ChildrenExact(db, e, sub, rows);
    case M2M =>
      AllLast(rows);
      GroupsExact(db, e, sub, rows);
  }

  lemma {:induction false} OneWithFk(e: Edge, s: seq<Row>, k: int)
    requires UniqueFks(e, s)
    ensures |Filter(RowHasFk(e, k), s)| <= 1
  {
    hide ReadFk;
    if s != [] {
      var m := |s| - 1;
      OneWithFk(e, s[..m], k);
      if RowHasFk(e, k)(s[m]) {
        forall i | 0 <= i < m ensures !RowHasFk(e, k)(s[i]) {
          assert FkKey(e)(s[i]) != FkKey(e)(s[m]);
        }
        FilterNone(RowHasFk(e, k), s[..m]);
      }
    }
  }

  lemma CutFks(e: Edge, o: nat, n: nat, s: seq<Row>)
    requires UniqueFks(e, s)
    ensures UniqueFks(e, Cut(o, n, s)) && |Cut(o, n, s)| <= |s|
  {
    var cut := Cut(o, n, s);
    forall i, j | 0 <= i < j < |cut| ensures FkKey(e)(cut[i]) != FkKey(e)(cut[j]) {
      assert cut[i] == s[o + i] && cut[j] == s[o + j];
    }
  }

  lemma CutShrinks(o: nat, n: nat, s: seq<Row>)
    ensures |Cut(o, n, s)| <= |s|
  {
  }

  lemma Windowless(db: Database, sub: Query, p: Row -> bool)
    requires NoWindow(sub.opts)
    ensures QueryNodes(db, Where(sub, p)) == QueryNodes(db, Where(Unlimited(sub), p))
  {
    hide Selected, SpecColumns;
    var q, u := Where(sub, p), Where(Unlimited(sub), p);
    assert Base(db, q) == Base(db, u);
    SameSpec(q, u);
    SelectedAlike(q.opts, u.opts, Base(db, q));
  }

  lemma UnlimitedChild(e: Edge, sub: Query)
    ensures NeedField(Unlimited(sub), FkColumn(e)) == Unlimited(NeedField(sub, FkColumn(e)))
    ensures NeedField(sub, FkColumn(e)).opts == sub.opts
  {
  }

  /** An account has one lease at most, with a window or without. */
  lemma OneLease(db: Database, e: Edge, sub: Query, rows: seq<Row>, i: nat)
    requires TypedLoad(e, sub) && Kind(e).O2O? && i < |rows| && IsLast(rows, i) && UniqueFks(e, Whole(db, e, sub, rows))
    ensures |Own(db, e, sub, rows, i)| <= 1 && |Alone(db, e, sub, rows[i])| <= 1
  {
    hide QueryNodes, Filter, Owner, Cut, Skips, Takes, NeedField, UniqueFks;
    var ids, id, child := Ids(rows), rows[i].id, NeedField(sub, FkColumn(e));
    var whole := Whole(db, e, sub, rows);
    LastOwnsFk(db, e, sub, rows, i);
    assert ids[i] in ids;
    UnlimitedChild(e, sub);
    OneWithFk(e, whole, id);
    SplitByFk(db, e, Unlimited(sub), ids, id);
    if NoWindow(sub.opts) {
      Windowless(db, child, FkIn(e, ids));
      Windowless(db, child, FkIn(e, [id]));
    } else {
      var o, n := Skips(sub.opts), Takes(sub.opts);
      QueryCuts(db, child, FkIn(e, ids));
      QueryCuts(db, child, FkIn(e, [id]));
      CutFks(e, o, n, whole);
      OneWithFk(e, Cut(o, n, whole), id);
      CutShrinks(o, n, QueryNodes(db, Where(Unlimited(child), FkIn(e, [id]))));
    }
  }
}
