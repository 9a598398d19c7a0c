/** What a batched load attaches to one entity, and what a query for it alone would
    return: entities that are repeated, and join rows target by target. */
module EagerOwn {
  import opened Seqs
  import opened Schema
  import opened EagerSpec
  import opened EagerTheorems
  import opened EagerLimits

  // ------------------------------------------------- rows of one entity

  /** No later entity has the same id. */
  predicate IsLast(rows: seq<Row>, i: nat)
    requires i < |rows|
  {
    rows[i].id !in Ids(rows)[i + 1..]
  }

  function RowOwnedBy(e: Edge, ids: seq<int>, i: nat): Row -> bool {
    (r: Row) => var v := ReadFk(e, r); v.Some? && Owner(ids, v.value) == Some(i)
  }

  /** All rows that a load finds for all entities. */
  function Found(db: Database, e: Edge, sub: Query, rows: seq<Row>): seq<Row> {
    if Kind(e).M2M? then FirstById(JoinRows(db, e, sub, Ids(rows))) else QueryNodes(db, LoadQuery(e, sub, rows))
  }

  /** Those that it attaches to entity i. */
  function Own(db: Database, e: Edge, sub: Query, rows: seq<Row>, i: nat): seq<Row>
    requires i < |rows|
  {
    match Kind(e)
    case M2O =>
      var fk := ReadFk(e, rows[i]);
      if fk.None? then [] else Filter(RowHasId(fk.value), Found(db, e, sub, rows))
    case O2M | O2O => Filter(RowOwnedBy(e, Ids(rows), i), Found(db, e, sub, rows))
    case M2M => Filter(RowReceivedBy(Ids(rows), JoinRows(db, e, sub, Ids(rows)), i), Found(db, e, sub, rows))
  }

  /** Those that a query for this entity alone returns. */
  function Alone(db: Database, e: Edge, sub: Query, row: Row): seq<Row> {
    QueryNodes(db, RowQuery(db, e, sub, row))
  }

  function Shown(e: Edge, rows: seq<Row>): seq<Row> {
    if Kind(e).O2O? then LastOnly(rows) else rows
  }

  /** An entity with these neighbours on edge e, each loaded naively. */
  function Given(db: Database, e: Edge, sub: Query, t: Tree, rows: seq<Row>): Tree {
    SetEdge(t, e, NaiveAll(db, sub.with, Shown(e, rows)))
  }

  lemma NaiveLast(db: Database, w: Withs, rows: seq<Row>)
    ensures LastOnly(NaiveAll(db, w, rows)) == NaiveAll(db, w, LastOnly(rows))
  {
    hide NaiveTree;
  }

  lemma NaiveIsGiven(db: Database, e: Edge, sub: Query, t: Tree)
    ensures NaiveLoad(db, e, sub, t) == Given(db, e, sub, t, Alone(db, e, sub, t.row))
  {
    hide NaiveAll, QueryNodes, RowQuery;
    NaiveLast(db, sub.with, Alone(db, e, sub, t.row));
  }

  lemma NaiveRows(db: Database, w: Withs, rows: seq<Row>)
    ensures RowsOf(NaiveAll(db, w, rows)) == rows
  {
    hide NaiveTree;
    forall i | 0 <= i < |rows| ensures NaiveAll(db, w, rows)[i].row == rows[i] {
      NaiveKeepsRow(db, w, Tree(rows[i], Nothing(w)));
    }
  }

  /** Naively loaded neighbours are told apart by their rows. */
  lemma GivenExact(db: Database, e: Edge, sub: Query, t: Tree, a: seq<Row>, b: seq<Row>)
    ensures Given(db, e, sub, t, a) == Given(db, e, sub, t, b) <==> Shown(e, a) == Shown(e, b)
  {
    hide NaiveAll;
    NaiveRows(db, sub.with, Shown(e, a));
    NaiveRows(db, sub.with, Shown(e, b));
    if Given(db, e, sub, t, a) == Given(db, e, sub, t, b) {
      assert Given(db, e, sub, t, a).edges[e] == Given(db, e, sub, t, b).edges[e];
    }
  }

  // ------------------------------------------- what one load makes of it

  lemma LookupGives(db: Database, e: Edge, sub: Query, nodes: seq<Tree>, i: nat)
    requires Kind(e).M2O? && i < |nodes| && e in nodes[i].edges && nodes[i].edges[e] == []
    requires UniqueIds(TableRows(db, sub.table)) && sub.path.NoPath?
    requires var q := LoadQuery(e, sub, RowsOf(nodes)); Eval(db, q) == NaiveAll(db, sub.with, QueryNodes(db, q))
    ensures LoadEdge(db, e, sub, nodes)[i] == Given(db, e, sub, nodes[i], Own(db, e, sub, RowsOf(nodes), i))
  {
    hide QueryNodes, Eval, NaiveAll, NaiveTree, ScatterM2O, Filter, FkIds;
    var rows := RowsOf(nodes);
    var q := LoadQuery(e, sub, rows);
    var found, ns := QueryNodes(db, q), Eval(db, q);
    ScatterM2OAt(e, nodes, ns, i);
    match ReadFk(e, rows[i])
    case None =>
      NaiveNothing(db, sub.with);
      assert IsEmptyEdge(nodes[i], e);
    case Some(k) =>
      NaiveFilter(db, sub.with, HasId(k), RowHasId(k), found);
      QueryUnique(db, q);
      AtMostOne(RowHasId(k), found, k);
      CollectFresh(e, nodes[i], Filter(HasId(k), ns));
  }

  lemma ChildrenGive(db: Database, e: Edge, sub: Query, nodes: seq<Tree>, i: nat)
    requires (Kind(e).O2M? || Kind(e).O2O?) && i < |nodes| && e in nodes[i].edges && nodes[i].edges[e] == []
    requires var q := LoadQuery(e, sub, RowsOf(nodes)); Eval(db, q) == NaiveAll(db, sub.with, QueryNodes(db, q))
    ensures LoadEdge(db, e, sub, nodes)[i] == Given(db, e, sub, nodes[i], Own(db, e, sub, RowsOf(nodes), i))
  {
    hide QueryNodes, Eval, NaiveAll, NaiveTree, ScatterO2M, Filter, Owner;
    var rows := RowsOf(nodes);
    var ids, q := Ids(rows), LoadQuery(e, sub, rows);
    var found, ns, started := QueryNodes(db, q), Eval(db, q), Init(e, nodes);
    assert RowsOf(started) == rows;
    ScatterO2MAt(e, started, ns, i);
    NaiveFilter(db, sub.with, OwnedBy(e, ids, i), RowOwnedBy(e, ids, i), found);
    CollectFresh(e, started[i], Filter(OwnedBy(e, ids, i), ns));
    NaiveLast(db, sub.with, Filter(RowOwnedBy(e, ids, i), found));
    assert IsEmptyEdge(nodes[i], e);
  }

  lemma GroupsGive(db: Database, e: Edge, sub: Query, nodes: seq<Tree>, i: nat)
    requires Kind(e).M2M? && i < |nodes| && e in nodes[i].edges && nodes[i].edges[e] == []
    requires var rows := Found(db, e, sub, RowsOf(nodes));
      Attach(db, sub.with, Bare(sub.with, rows)) == NaiveAll(db, sub.with, rows)
    ensures LoadEdge(db, e, sub, nodes)[i] == Given(db, e, sub, nodes[i], Own(db, e, sub, RowsOf(nodes), i))
  {
    hide QueryNodes, Attach, NaiveAll, NaiveTree, ScatterM2M, Filter, Owner, JoinRows, FirstById, Receives;
    var rows := RowsOf(nodes);
    var ids := Ids(rows);
    var pairs := JoinRows(db, e, sub, ids);
    var found := FirstById(pairs);
    var ns, started := NaiveAll(db, sub.with, found), Init(e, nodes);
    assert RowsOf(started) == rows;
    ScatterM2MAt(e, started, ns, pairs, i);
    NaiveFilter(db, sub.with, ReceivedBy(ids, pairs, i), RowReceivedBy(ids, pairs, i), found);
    CollectFresh(e, started[i], Filter(ReceivedBy(ids, pairs, i), ns));
    assert IsEmptyEdge(nodes[i], e);
  }

  // ----------------------------------------- repeated entities, own rows

  /** An entity that is repeated later gets nothing on edges that refer to its id. */
  lemma ShadowedGetsNothing(db: Database, e: Edge, sub: Query, rows: seq<Row>, i: nat)
    requires i < |rows| && !IsLast(rows, i) && !Kind(e).M2O?
    ensures Own(db, e, sub, rows, i) == []
  {
    hide Filter, Owner, Found, JoinRows;
    var ids := Ids(rows);
    forall k ensures Owner(ids, k) != Some(i) {
      OwnerOfLast(ids, i, k);
    }
    if Kind(e).M2M? {
      FilterNone(RowReceivedBy(ids, JoinRows(db, e, sub, ids), i), Found(db, e, sub, rows));
    } else {
      FilterNone(RowOwnedBy(e, ids, i), Found(db, e, sub, rows));
    }
  }

  lemma LastOwnsFk(db: Database, e: Edge, sub: Query, rows: seq<Row>, i: nat)
    requires i < |rows| && IsLast(rows, i) && (Kind(e).O2M? || Kind(e).O2O?)
    ensures Own(db, e, sub, rows, i) == Filter(RowHasFk(e, rows[i].id), Found(db, e, sub, rows))
  {
    hide Filter, Owner, Found;
    var ids, k := Ids(rows), rows[i].id;
    forall r ensures RowOwnedBy(e, ids, i)(r) == RowHasFk(e, k)(r) {
      if ReadFk(e, r).Some? {
        OwnerOfLast(ids, i, ReadFk(e, r).value);
      }
    }
    FilterCongruent(RowOwnedBy(e, ids, i), RowHasFk(e, k), Found(db, e, sub, rows));
  }

  // ----------------------------------------------------- join rows in order

  /** Target after target: rows of one target are the same and stand together. */
  ghost predicate Blocks(pairs: seq<(int, Row)>) {
    forall i, k :: 0 <= i < k < |pairs| && pairs[i].1.id == pairs[k].1.id ==>
      pairs[i].1 == pairs[k].1 && pairs[k - 1].1 == pairs[k].1
  }

  function Second(): ((int, Row)) -> Row {
    (p: (int, Row)) => p.1
  }

  /** The targets of the join rows of one source. */
  function Targets(pairs: seq<(int, Row)>, a: int): seq<Row> {
    Map(Second(), Group(SourceKey(), a, pairs))
  }

  lemma {:induction false} LastBlock(pairs: seq<(int, Row)>)
    requires pairs != [] && Blocks(pairs)
    ensures var f := FirstById(pairs); f != [] && f[|f| - 1] == pairs[|pairs| - 1].1
  {
    var m := |pairs| - 1;
    FirstByIdIds(pairs[..m], pairs[m].1.id);
    if m > 0 {
      LastBlock(pairs[..m]);
    }
  }

  lemma TargetsNext(pairs: seq<(int, Row)>, p: (int, Row), a: int)
    ensures Targets(pairs + [p], a) == Targets(pairs, a) + if p.0 == a then [p.1] else []
  {
    hide Filter;
    FilterLast(KeyIs(SourceKey(), a), pairs, p);
  }

  lemma ReceivesNext(ids: seq<int>, pairs: seq<(int, Row)>, p: (int, Row), i: nat, id: int)
    ensures Receives(ids, pairs + [p], i, id) <==>
      Receives(ids, pairs, i, id) || (p.1.id == id && Owner(ids, p.0) == Some(i))
  {
    hide Owner;
    var all := pairs + [p];
    assert all[|pairs|] == p;
    assert forall k :: 0 <= k < |pairs| ==> all[k] == pairs[k];
    if Receives(ids, pairs, i, id) {
      var k :| 0 <= k < |pairs| && pairs[k].1.id == id && Owner(ids, pairs[k].0) == Some(i);
      assert all[k].1.id == id;
    }
  }

  /** In that order, the distinct targets of one source are the targets of its own
      join rows. */
  lemma {:induction false} OwnTargets(ids: seq<int>, pairs: seq<(int, Row)>, i: nat)
    requires i < |ids| && ids[i] !in ids[i + 1..] && Blocks(pairs) && NoDup(pairs)
    ensures Filter(RowReceivedBy(ids, pairs, i), FirstById(pairs)) == Targets(pairs, ids[i])
  {
    hide Owner, Receives, Targets, FirstById;
    if pairs == [] {
      NoTargets(ids, i);
    } else {
      var m := |pairs| - 1;
      var prev, p := pairs[..m], pairs[m];
      assert pairs == prev + [p];
      OwnTargets(ids, prev, i);
      TargetsNext(prev, p, ids[i]);
      OwnerOfLast(ids, i, p.0);
      forall id ensures Receives(ids, pairs, i, id) <==> Receives(ids, prev, i, id) || (p.1.id == id && p.0 == ids[i]) {
        ReceivesNext(ids, prev, p, i, id);
      }
      OwnNext(ids, prev, p, i);
    }
  }

  lemma NoTargets(ids: seq<int>, i: nat)
    requires i < |ids|
    ensures Filter(RowReceivedBy(ids, [], i), FirstById([])) == [] && Targets([], ids[i]) == []
  {
  }

  lemma NewTarget(ids: seq<int>, prev: seq<(int, Row)>, p: (int, Row), i: nat)
    requires i < |ids| && p.1.id !in Ids(FirstById(prev))
    requires forall id :: Receives(ids, prev + [p], i, id) <==>
               Receives(ids, prev, i, id) || (p.1.id == id && p.0 == ids[i])
    ensures Filter(RowReceivedBy(ids, prev + [p], i), FirstById(prev + [p])) ==
      Filter(RowReceivedBy(ids, prev, i), FirstById(prev)) + if p.0 == ids[i] then [p.1] else []
  {
    hide Owner, Filter;
    var all, y, seen := prev + [p], p.1, FirstById(prev);
    var f, g := RowReceivedBy(ids, prev, i), RowReceivedBy(ids, all, i);
    assert all[..|prev|] == prev;
    FirstByIdIds(prev, y.id);
    FilterLast(g, seen, y);
    forall r | r in seen ensures f(r) == g(r) {
      var j :| 0 <= j < |seen| && seen[j] == r;
      assert Ids(seen)[j] == r.id;
    }
    FilterCongruent(f, g, seen);
  }

  lemma OldTarget(ids: seq<int>, prev: seq<(int, Row)>, p: (int, Row), i: nat)
    requires i < |ids| && Blocks(prev + [p]) && NoDup(prev + [p]) && p.1.id in Ids(FirstById(prev))
    requires forall id :: Receives(ids, prev + [p], i, id) <==>
               Receives(ids, prev, i, id) || (p.1.id == id && p.0 == ids[i])
    ensures Filter(RowReceivedBy(ids, prev + [p], i), FirstById(prev + [p])) ==
      Filter(RowReceivedBy(ids, prev, i), FirstById(prev)) + if p.0 == ids[i] then [p.1] else []
  {
    hide Owner, Filter, Receives, FirstById, Blocks;
    var all, y, seen := prev + [p], p.1, FirstById(prev);
    var f, g := RowReceivedBy(ids, prev, i), RowReceivedBy(ids, all, i);
    FirstByIdUnique(prev);
    LastIsOld(prev, p);
    OldKept(prev, p);
    var front := seen[..|seen| - 1];
    assert seen == front + [y];
    FilterLast(f, front, y);
    FilterLast(g, front, y);
    OthersReceiveAlike(seen, p, f, g);
    FilterCongruent(f, g, front);
    if p.0 == ids[i] {
      NotReceivedTwice(ids, prev, p, i);
    }
  }

  lemma OldKept(prev: seq<(int, Row)>, p: (int, Row))
    requires p.1.id in Ids(FirstById(prev))
    ensures FirstById(prev + [p]) == FirstById(prev)
  {
    assert (prev + [p])[..|prev|] == prev;
  }

  lemma OthersReceiveAlike(seen: seq<Row>, p: (int, Row), f: Row -> bool, g: Row -> bool)
    requires seen != [] && UniqueIds(seen) && seen[|seen| - 1] == p.1
    requires forall r: Row :: r.id != p.1.id ==> f(r) == g(r)
    ensures forall r :: r in seen[..|seen| - 1] ==> f(r) == g(r)
  {
    var front := seen[..|seen| - 1];
    forall r | r in front ensures f(r) == g(r) {
      var j :| 0 <= j < |front| && front[j] == r;
      assert seen[j].id != seen[|seen| - 1].id;
    }
  }

  lemma LastIsOld(prev: seq<(int, Row)>, p: (int, Row))
    requires Blocks(prev + [p]) && p.1.id in Ids(FirstById(prev))
    ensures prev != [] && var f := FirstById(prev); f != [] && f[|f| - 1] == p.1
  {
    var all := prev + [p];
    FirstByIdIds(prev, p.1.id);
    var k :| 0 <= k < |prev| && prev[k].1.id == p.1.id;
    assert all[k] == prev[k] && all[|prev|] == p && all[|prev| - 1] == prev[|prev| - 1];
    BlocksPrefix(prev, p);
    LastBlock(prev);
  }

  lemma BlocksPrefix(prev: seq<(int, Row)>, p: (int, Row))
    requires Blocks(prev + [p])
    ensures Blocks(prev)
  {
    var all := prev + [p];
    assert forall k :: 0 <= k < |prev| ==> all[k] == prev[k];
  }

  lemma NotReceivedTwice(ids: seq<int>, prev: seq<(int, Row)>, p: (int, Row), i: nat)
    requires i < |ids| && Blocks(prev + [p]) && NoDup(prev + [p]) && p.0 == ids[i]
    ensures !Receives(ids, prev, i, p.1.id)
  {
    var all := prev + [p];
    assert all[|prev|] == p;
    forall k | 0 <= k < |prev| && prev[k].1.id == p.1.id ensures Owner(ids, prev[k].0) != Some(i) {
      assert all[k] == prev[k];
    }
  }

  lemma OwnNext(ids: seq<int>, prev: seq<(int, Row)>, p: (int, Row), i: nat)
    requires i < |ids| && Blocks(prev + [p]) && NoDup(prev + [p])
    requires forall id :: Receives(ids, prev + [p], i, id) <==>
               Receives(ids, prev, i, id) || (p.1.id == id && p.0 == ids[i])
    ensures Filter(RowReceivedBy(ids, prev + [p], i), FirstById(prev + [p])) ==
      Filter(RowReceivedBy(ids, prev, i), FirstById(prev)) + if p.0 == ids[i] then [p.1] else []
  {
    if p.1.id !in Ids(FirstById(prev)) {
      NewTarget(ids, prev, p, i);
    } else {
      OldTarget(ids, prev, p, i);
    }
  }

  lemma {:induction false} LinkingBlocks(db: Database, e: Edge, ids: seq<int>, cols: Option<seq<string>>, sel: seq<Row>)
    requires UniqueIds(sel)
    ensures Blocks(FlatMap(Linking(db, e, ids, cols), sel))
    ensures forall p :: p in FlatMap(Linking(db, e, ids, cols), sel) ==> p.1.id in Ids(sel)
  {
    hide Links, Project;
    if sel != [] {
      var m := |sel| - 1;
      LinkingBlocks(db, e, ids, cols, sel[..m]);
      var a, b := FlatMap(Linking(db, e, ids, cols), sel[..m]), LinkPairs(db, e, ids, cols, sel[m]);
      forall k | 0 <= k < |b| ensures b[k].1 == Project(cols, sel[m]) {
        LinkPairsMember(db, e, ids, cols, sel[m], b[k]);
      }
      ProjectKeepsId(cols, sel[m]);
      assert forall id :: id in Ids(sel[..m]) ==> id in Ids(sel) && id != sel[m].id by {
        forall j | 0 <= j < m ensures Ids(sel[..m])[j] == Ids(sel)[j] != sel[m].id {
        }
      }
      assert Ids(sel)[m] == sel[m].id;
      BlocksConcat(a, b, Project(cols, sel[m]));
    }
  }

  lemma ProjectKeepsId(cols: Option<seq<string>>, r: Row)
    ensures Project(cols, r).id == r.id
  {
  }

  lemma BlocksConcat(a: seq<(int, Row)>, b: seq<(int, Row)>, r: Row)
    requires Blocks(a) && (forall k :: 0 <= k < |b| ==> b[k].1 == r) && forall p :: p in a ==> p.1.id != r.id
    ensures Blocks(a + b)
  {
    var all := a + b;
    forall i, k | 0 <= i < k < |all| && all[i].1.id == all[k].1.id
      ensures all[i].1 == all[k].1 && all[k - 1].1 == all[k].1
    {
      if i < |a| {
        assert all[i] in a;
      }
    }
  }

  lemma CutKeeps(o: nat, n: nat, pairs: seq<(int, Row)>)
    ensures Blocks(pairs) ==> Blocks(Cut(o, n, pairs))
    ensures NoDup(pairs) ==> NoDup(Cut(o, n, pairs))
  {
    var cut := Cut(o, n, pairs);
    assert forall k :: 0 <= k < |cut| ==> cut[k] == pairs[o + k];
  }

  lemma TargetsCut(o: nat, n: nat, pairs: seq<(int, Row)>)
    ensures Map(Second(), Cut(o, n, pairs)) == Cut(o, n, Map(Second(), pairs))
  {
  }
}
