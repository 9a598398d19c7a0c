/** A builder that runs again after its tables have changed: exactly which entities
    get the neighbours that a fresh builder would give them. */
module EagerRerun {
  import opened Seqs
  import opened Schema
  import opened EagerSpec
  import opened EagerTheorems
  import opened EagerAccess
  import opened EagerReuse

  /** The neighbour rows that a load attaches to entity i. */
  function Got(db: Database, e: Edge, sub: Query, nodes: seq<Tree>, i: nat): seq<Row>
    requires i < |nodes|
  {
    RowsOf(GetEdge(LoadEdge(db, e, sub, nodes)[i], e))
  }

  /** A plain sub-builder, as WithX makes it. */
  ghost predicate Plain(sub: Query) {
    sub.path.NoPath? && NoWindow(sub.opts)
  }

  /** A row that the load's own predicates admit. */
  ghost predicate Admits(db: Database, sub: Query, p: Row -> bool) {
    exists y :: y in TableRows(db, sub.table) && Holds(sub.opts.preds, y) && p(y)
  }

  // -------------------------------------------------- rows of one entity

  lemma {:induction false} RowsOfFilter(p: Tree -> bool, g: Row -> bool, ts: seq<Tree>)
    requires forall t :: t in ts ==> p(t) == g(t.row)
    ensures RowsOf(Filter(p, ts)) == Filter(g, RowsOf(ts))
  {
    hide Filter;
    if ts == [] {
      FilterNone(p, ts);
      FilterNone(g, RowsOf(ts));
    } else {
      var m := |ts| - 1;
      RowsOfFilter(p, g, ts[..m]);
      FilterLast(p, ts[..m], ts[m]);
      FilterLast(g, RowsOf(ts[..m]), ts[m].row);
      assert ts == ts[..m] + [ts[m]];
      assert RowsOf(ts) == RowsOf(ts[..m]) + [ts[m].row];
    }
  }

  lemma RowsOfLast(ts: seq<Tree>)
    ensures RowsOf(LastOnly(ts)) == LastOnly(RowsOf(ts))
  {
  }

  /** An entity gets, of a many-to-one load, the row that its key names. */
  lemma LookupGot(db: Database, e: Edge, sub: Query, nodes: seq<Tree>, i: nat)
    requires Kind(e).M2O? && Plain(sub) && i < |nodes| && IsEmptyEdge(nodes[i], e)
    ensures var fk := ReadFk(e, nodes[i].row);
      Got(db, e, sub, nodes, i) == if fk.None? then [] else LastOnly(QueryNodes(db, Where(sub, IdIn([fk.value]))))
  {
    hide QueryNodes, Eval, LoadQuery, LoadEdge, ScatterM2O, Filter, FkIds;
    var rows := RowsOf(nodes);
    var q := LoadQuery(e, sub, rows);
    var ns := Eval(db, q);
    LoadIsScatter(db, e, sub, nodes);
    ScatterM2OAt(e, nodes, ns, i);
    match ReadFk(e, nodes[i].row)
    case None =>
    case Some(k) =>
      FkIdsComplete(e, rows, i);
      LookupQuery(e, sub, rows);
      SplitById(db, sub, FkIds(e, rows), k);
      RowsOfFilter(HasId(k), RowHasId(k), ns);
      EvalRows(db, q);
      RowsOfLast(Filter(HasId(k), ns));
  }

  lemma LookupQuery(e: Edge, sub: Query, rows: seq<Row>)
    requires Kind(e).M2O?
    ensures LoadQuery(e, sub, rows) == Where(sub, IdIn(FkIds(e, rows)))
  {
  }

  /** An entity gets, of a child load, the rows that name it. */
  lemma ChildGot(db: Database, e: Edge, sub: Query, nodes: seq<Tree>, i: nat)
    requires (Kind(e).O2M? || Kind(e).O2O?) && Plain(sub)
    requires i < |nodes| && IsEmptyEdge(nodes[i], e) && UniqueIds(RowsOf(nodes))
    ensures var own := QueryNodes(db, Where(NeedField(sub, FkColumn(e)), FkIn(e, [nodes[i].row.id])));
      Got(db, e, sub, nodes, i) == if Kind(e).O2O? then LastOnly(own) else own
  {
    hide QueryNodes, Eval, ScatterO2M, Filter, Owner;
    var rows := RowsOf(nodes);
    var ids, k := Ids(rows), rows[i].id;
    var q := LoadQuery(e, sub, rows);
    var ns, started := Eval(db, q), Init(e, nodes);
    assert RowsOf(started) == rows;
    ScatterO2MAt(e, started, ns, i);
    forall t | t in ns ensures OwnedBy(e, ids, i)(t) == RowHasFk(e, k)(t.row) {
      if ReadFk(e, t.row).Some? {
        OwnerWhenUnique(ids, i, ReadFk(e, t.row).value);
      }
    }
    RowsOfFilter(OwnedBy(e, ids, i), RowHasFk(e, k), ns);
    EvalRows(db, q);
    assert ids[i] == k;
    SplitByFk(db, e, sub, ids, k);
    var mine := Filter(OwnedBy(e, ids, i), ns);
    CollectFresh(e, started[i], mine);
    RowsOfLast(mine);
  }

  // ----------------------------------------------------- narrowed queries

  lemma Returned(db: Database, sub: Query, p: Row -> bool)
    requires Plain(sub)
    ensures QueryNodes(db, Where(sub, p)) != [] <==> Admits(db, sub, p)
  {
    hide QueryNodes, SpecColumns;
    var q := Where(sub, p);
    if QueryNodes(db, q) != [] {
      QueryMembers(db, q, QueryNodes(db, q)[0]);
      var x :| x in Base(db, q) && Holds(q.opts.preds, x);
      MeetsWhere(sub.opts.preds, p, x);
    }
    if y :| y in TableRows(db, sub.table) && Holds(sub.opts.preds, y) && p(y) {
      MeetsWhere(sub.opts.preds, p, y);
      EveryRowReturned(db, q, y);
    }
  }

  /** A predicate kept from an earlier run either makes no difference to what is
      asked now or excludes all of it. */
  lemma KeptPredicate(db: Database, q: Query, old': Row -> bool, now: Row -> bool, included: bool)
    requires Plain(q)
    requires forall y :: now(y) ==> (old'(y) <==> included)
    ensures QueryNodes(db, Where(Where(q, old'), now)) == if included then QueryNodes(db, Where(q, now)) else []
  {
    hide QueryNodes, Selected, Holds;
    var twice := Where(Where(q, old'), now);
    var base := TableRows(db, q.table);
    forall y ensures Holds(twice.opts.preds, y) <==> Holds(q.opts.preds, y) && old'(y) && now(y) {
      MeetsWhere(q.opts.preds, old', y);
      MeetsWhere(q.opts.preds + [old'], now, y);
    }
    forall y ensures Holds(q.opts.preds + [now], y) <==> Holds(q.opts.preds, y) && now(y) {
      MeetsWhere(q.opts.preds, now, y);
    }
    if included {
      SameSelection(db, twice, Where(q, now));
    } else {
      Returned(db, Where(q, old'), now);
      MeetsNone(db, q, old', now);
    }
  }

  lemma MeetsNone(db: Database, q: Query, a: Row -> bool, b: Row -> bool)
    requires forall y :: b(y) ==> !a(y)
    ensures !Admits(db, Where(q, a), b)
  {
    hide Holds;
    forall y | Holds(Where(q, a).opts.preds, y) ensures a(y) {
      MeetsWhere(q.opts.preds, a, y);
    }
  }

  lemma SameSelection(db: Database, a: Query, b: Query)
    requires a.path.NoPath? && a == b.(opts := a.opts) && a.opts == b.opts.(preds := a.opts.preds)
    requires forall y :: Holds(a.opts.preds, y) <==> Holds(b.opts.preds, y)
    ensures QueryNodes(db, a) == QueryNodes(db, b)
  {
    hide SpecColumns;
    FilterCongruent(Meets(a.opts.preds), Meets(b.opts.preds), TableRows(db, a.table));
    SameColumns'(a, b);
  }

  lemma SameColumns'(a: Query, b: Query)
    requires a == b.(opts := a.opts)
    ensures SpecColumns(a) == SpecColumns(b)
  {
  }

  // ---------------------------------------------------------- second runs

  lemma UsedIs(db: Database, e: Edge, sub: Query, rows: seq<Row>)
    ensures var used := Used(db, e, sub, rows);
      used == if Kind(e).M2O? && FkIds(e, rows) == [] then sub else LoadQuery(e, sub, rows).(with := used.with)
    ensures forall cols :: AddFks(Used(db, e, sub, rows).with, cols) == AddFks(sub.with, cols)
  {
    hide UsedWiths;
    var once := LoadQuery(e, sub, rows);
    UsedEdges(db, once.with, Bare(once.with, QueryNodes(db, once)));
  }

  /** A second run on changed tables gives an entity the row that a fresh builder
      would give it if and only if its key is nil, or the first run asked for that
      key or asked for none, or there is no such row. */
  lemma LookupRerunExact(db: Database, db': Database, e: Edge, sub: Query, rows: seq<Row>, nodes: seq<Tree>, i: nat)
    requires Kind(e).M2O? && Plain(sub) && i < |nodes| && IsEmptyEdge(nodes[i], e)
    ensures var fk, asked := ReadFk(e, nodes[i].row), FkIds(e, rows);
      Got(db', e, Used(db, e, sub, rows), nodes, i) == Got(db', e, sub, nodes, i)
      <==> fk.None? || asked == [] || fk.value in asked || !Admits(db', sub, IdIn([fk.value]))
  {
    hide Used, QueryNodes, LoadEdge, FkIds;
    var used, fk, asked := Used(db, e, sub, rows), ReadFk(e, nodes[i].row), FkIds(e, rows);
    UsedIs(db, e, sub, rows);
    LookupQuery(e, sub, rows);
    LookupGot(db', e, sub, nodes, i);
    LookupGot(db', e, used, nodes, i);
    if fk.Some? && asked != [] {
      var now := IdIn([fk.value]);
      KeptPredicate(db', sub, IdIn(asked), now, fk.value in asked);
      SameRows(db', Where(Where(sub, IdIn(asked)), now), Where(used, now));
      Returned(db', sub, now);
    }
  }

  /** And it gives an entity the children that a fresh builder would if and only if
      the first run saw that entity or it has none. */
  lemma ChildRerunExact(db: Database, db': Database, e: Edge, sub: Query, rows: seq<Row>, nodes: seq<Tree>, i: nat)
    requires (Kind(e).O2M? || Kind(e).O2O?) && Plain(sub)
    requires i < |nodes| && IsEmptyEdge(nodes[i], e) && UniqueIds(RowsOf(nodes))
    ensures var id := nodes[i].row.id;
      Got(db', e, Used(db, e, sub, rows), nodes, i) == Got(db', e, sub, nodes, i)
      <==> id in Ids(rows) || !Admits(db', sub, FkIn(e, [id]))
  {
    hide Used, QueryNodes, LoadEdge, NeedField;
    var used, id := Used(db, e, sub, rows), nodes[i].row.id;
    var child, now := NeedField(sub, FkColumn(e)), FkIn(e, [nodes[i].row.id]);
    UsedIs(db, e, sub, rows);
    NeedTwice(e, sub, FkIn(e, Ids(rows)), used.with);
    ChildGot(db', e, sub, nodes, i);
    ChildGot(db', e, used, nodes, i);
    KeptPredicate(db', child, FkIn(e, Ids(rows)), now, id in Ids(rows));
    SameRows(db', Where(Where(child, FkIn(e, Ids(rows))), now), Where(used, now));
    Returned(db', child, now);
    SameAdmits(db', e, sub, now);
  }

  lemma NeedTwice(e: Edge, sub: Query, p: Row -> bool, w: Withs)
    ensures var child := NeedField(sub, FkColumn(e)); var used := Where(child, p).(with := w);
      NeedField(used, FkColumn(e)) == used && Plain(sub) == Plain(child) == Plain(used) && child.with == sub.with
  {
  }

  lemma SameAdmits(db: Database, e: Edge, sub: Query, p: Row -> bool)
    ensures Admits(db, NeedField(sub, FkColumn(e)), p) == Admits(db, sub, p)
  {
  }
}
