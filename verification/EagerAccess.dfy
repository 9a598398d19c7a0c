/** What a caller sees of a loaded result: the three-way answer of the edge
    accessors, loads that do not disturb each other, and the columns that a
    narrowed query still reads. */
module EagerAccess {
  import opened Seqs
  import opened Schema
  import opened EagerSpec
  import opened EagerTheorems
  import opened Traversal

  datatype Access = Found(node: Tree) | NotFound | NotLoaded

  /** ProxyOrErr, ParentOrErr, ManagedProxyLeaseOrErr: the loaded flags are the
      edges requested of the query. */
  function UniqueOrErr(t: Tree, e: Edge): Access {
    if GetEdge(t, e) != [] then Found(GetEdge(t, e)[|GetEdge(t, e)| - 1])
    else if e in t.edges then NotFound
    else NotLoaded
  }

  function SubOf(w: Withs, e: Edge): Query
    requires e in Edges(w)
  {
    match w
    case Load(x, sub, rest) => if x == e then sub else SubOf(rest, e)
  }

  predicate SameExcept(e: Edge, a: Tree, b: Tree) {
    a.row == b.row && a.edges - {e} == b.edges - {e}
  }

  lemma CollectFrame(e: Edge, t: Tree, started: Tree, got: seq<Tree>)
    requires started == t || started == SetEdge(t, e, [])
    ensures SameExcept(e, t, Collect(e, started, got))
  {
  }

  lemma CollectNothing(e: Edge, t: Tree)
    ensures Collect(e, t, []) == t
  {
  }

  /** A load writes its own edge and nothing else. */
  lemma LoadFrame(db: Database, e: Edge, sub: Query, nodes: seq<Tree>, i: nat)
    requires i < |nodes|
    ensures SameExcept(e, nodes[i], LoadEdge(db, e, sub, nodes)[i])
  {
    hide Eval, Attach, JoinRows, QueryNodes, Filter, Receives, Owner, FkIds, Collect, SameExcept, LoadEdge, ScatterM2O,
      ScatterO2M, ScatterM2M;
    var rows := RowsOf(nodes);
    CollectNothing(e, nodes[i]);
    forall got ensures SameExcept(e, nodes[i], Collect(e, nodes[i], got)) &&
      SameExcept(e, nodes[i], Collect(e, Init(e, nodes)[i], got)) {
      CollectFrame(e, nodes[i], nodes[i], got);
      CollectFrame(e, nodes[i], Init(e, nodes)[i], got);
    }
    match Kind(e)
    case M2O =>
      LoadEdgeM2O(db, e, sub, nodes);
      ScatterM2OAt(e, nodes, Eval(db, Where(sub, IdIn(FkIds(e, rows)))), i);
    case O2M | O2O =>
      LoadEdgeO2M(db, e, sub, nodes);
      ScatterO2MAt(e, Init(e, nodes), Eval(db, Where(NeedField(sub, FkColumn(e)), FkIn(e, Ids(rows)))), i);
    case M2M =>
      var pairs := JoinRows(db, e, sub, Ids(rows));
      LoadEdgeM2M(db, e, sub, nodes, pairs);
      ScatterM2MAt(e, Init(e, nodes), Attach(db, sub.with, Bare(sub.with, FirstById(pairs))), pairs, i);
  }

  lemma SameExceptKeeps(e: Edge, a: Tree, b: Tree, x: Edge)
    requires SameExcept(e, a, b) && x != e
    ensures x in a.edges <==> x in b.edges
    ensures GetEdge(a, x) == GetEdge(b, x)
  {
    assert x in a.edges <==> x in a.edges - {e};
    assert x in b.edges <==> x in b.edges - {e};
  }

  /** Loads that were not requested leave an edge as it was. */
  lemma {:induction false} AttachFrame(db: Database, w: Withs, nodes: seq<Tree>, i: nat, x: Edge)
    requires i < |nodes| && x !in Edges(w)
    ensures x in Attach(db, w, nodes)[i].edges <==> x in nodes[i].edges
    ensures GetEdge(Attach(db, w, nodes)[i], x) == GetEdge(nodes[i], x)
    decreases w
  {
    match w
    case Done =>
    case Load(e, sub, rest) =>
      var loaded := LoadEdge(db, e, sub, nodes);
      LoadFrame(db, e, sub, nodes, i);
      SameExceptKeeps(e, nodes[i], loaded[i], x);
      AttachFrame(db, rest, loaded, i, x);
  }

  /** The last neighbor with a given id. */
  function LastMatch(ns: seq<Tree>, k: Option<int>): seq<Tree> {
    match k
    case None => []
    case Some(id) => LastOnly(Filter(HasId(id), ns))
  }

  lemma {:induction false} AttachUnique(db: Database, w: Withs, t: Table, nodes: seq<Tree>, i: nat, e: Edge)
    requires WellTyped(t, w) && e in Edges(w) && Kind(e).M2O?
    requires i < |nodes| && e in nodes[i].edges && nodes[i].edges[e] == []
    ensures e in Attach(db, w, nodes)[i].edges
    ensures GetEdge(Attach(db, w, nodes)[i], e) ==
      LastMatch(Eval(db, LoadQuery(e, SubOf(w, e), RowsOf(nodes))), ReadFk(e, nodes[i].row))
    decreases w
  {
    hide Eval, QueryNodes, Filter, LoadEdge, FkIds;
    match w
    case Load(x, sub, rest) =>
      var loaded := LoadEdge(db, x, sub, nodes);
      LoadKeepsRows(db, x, sub, nodes);
      assert RowsOf(loaded)[i] == nodes[i].row;
      if x == e {
        AttachFrame(db, rest, loaded, i, e);
        LoadEdgeM2O(db, e, sub, nodes);
        ScatterM2OAt(e, nodes, Eval(db, LoadQuery(e, sub, RowsOf(nodes))), i);
      } else {
        LoadFrame(db, x, sub, nodes, i);
        SameExceptKeeps(x, nodes[i], loaded[i], e);
        AttachUnique(db, rest, t, loaded, i, e);
      }
  }

  /** After a query: not loaded exactly when not requested, not found exactly
      when the key is nil or no returned row has it, and otherwise a row whose
      id is the key. */
  lemma ThreeWayAccess(db: Database, q: Query, i: nat, e: Edge)
    requires WellTyped(q.table, q.with) && Kind(e).M2O? && i < |QueryNodes(db, q)|
    ensures var t := Eval(db, q)[i];
      var a := UniqueOrErr(t, e);
      && t.row == QueryNodes(db, q)[i]
      && (a.NotLoaded? <==> e !in Edges(q.with))
      && (e in Edges(q.with) ==>
           var ns := Eval(db, LoadQuery(e, SubOf(q.with, e), QueryNodes(db, q)));
           var fk := ReadFk(e, t.row);
           && (a.NotFound? <==> fk.None? || forall n :: n in ns ==> n.row.id != fk.value)
           && (a.Found? ==> a.node in ns && Some(a.node.row.id) == fk))
  {
    hide QueryNodes;
    var rows := QueryNodes(db, q);
    var bare := Bare(q.with, rows);
    assert RowsOf(bare) == rows;
    EvalRows(db, q);
    var t := Eval(db, q)[i];
    assert RowsOf(Eval(db, q))[i] == t.row;
    if e !in Edges(q.with) {
      AttachFrame(db, q.with, bare, i, e);
    } else {
      AttachUnique(db, q.with, q.table, bare, i, e);
      var ns := Eval(db, LoadQuery(e, SubOf(q.with, e), rows));
      if ReadFk(e, t.row).Some? {
        var f := Filter(HasId(ReadFk(e, t.row).value), ns);
        if f != [] {
          assert f[|f| - 1] in f;
        } else {
          forall n | n in ns ensures n.row.id != ReadFk(e, t.row).value {
            assert n !in f;
          }
        }
      }
    }
  }

  lemma {:induction false} AttachLease(db: Database, w: Withs, t: Table, nodes: seq<Tree>, i: nat, e: Edge)
    requires WellTyped(t, w) && e in Edges(w) && Kind(e).O2O?
    requires i < |nodes| && e in nodes[i].edges && nodes[i].edges[e] == []
    ensures var rows := RowsOf(nodes);
      && e in Attach(db, w, nodes)[i].edges
      && GetEdge(Attach(db, w, nodes)[i], e) ==
        LastOnly(Filter(OwnedBy(e, Ids(rows), i), Eval(db, LoadQuery(e, SubOf(w, e), rows))))
    decreases w
  {
    hide Eval, QueryNodes, Filter, LoadEdge;
    match w
    case Load(x, sub, rest) =>
      var loaded := LoadEdge(db, x, sub, nodes);
      LoadKeepsRows(db, x, sub, nodes);
      if x == e {
        AttachFrame(db, rest, loaded, i, e);
        LeaseLoaded(db, e, sub, nodes, i);
      } else {
        LoadFrame(db, x, sub, nodes, i);
        SameExceptKeeps(x, nodes[i], loaded[i], e);
        AttachLease(db, rest, t, loaded, i, e);
      }
  }

  lemma LeaseLoaded(db: Database, e: Edge, sub: Query, nodes: seq<Tree>, i: nat)
    requires Kind(e).O2O? && i < |nodes| && e in nodes[i].edges && nodes[i].edges[e] == []
    ensures var rows, t := RowsOf(nodes), LoadEdge(db, e, sub, nodes)[i];
      e in t.edges && GetEdge(t, e) == LastOnly(Filter(OwnedBy(e, Ids(rows), i), Eval(db, LoadQuery(e, sub, rows))))
  {
    hide Eval, Filter;
    LoadEdgeO2M(db, e, sub, nodes);
    assert Init(e, nodes) == nodes;
    ScatterO2MAt(e, nodes, Eval(db, LoadQuery(e, sub, RowsOf(nodes))), i);
  }

  /** The same for the unique edge whose key is on the other side: not found exactly
      when no returned row names the entity, and otherwise a row that does. */
  lemma LeaseAccess(db: Database, q: Query, i: nat, e: Edge)
    requires WellTyped(q.table, q.with) && Kind(e).O2O? && i < |QueryNodes(db, q)| && UniqueIds(QueryNodes(db, q))
    ensures var t := Eval(db, q)[i];
      var a := UniqueOrErr(t, e);
      && t.row == QueryNodes(db, q)[i]
      && (a.NotLoaded? <==> e !in Edges(q.with))
      && (e in Edges(q.with) ==>
           var ns := Eval(db, LoadQuery(e, SubOf(q.with, e), QueryNodes(db, q)));
           && (a.NotFound? <==> forall n :: n in ns ==> ReadFk(e, n.row) != Some(t.row.id))
           && (a.Found? ==> a.node in ns && ReadFk(e, a.node.row) == Some(t.row.id)))
  {
    hide QueryNodes, Filter, ReadFk, LoadQuery, Owner;
    var rows := QueryNodes(db, q);
    var bare := Bare(q.with, rows);
    assert RowsOf(bare) == rows;
    EvalRows(db, q);
    var t := Eval(db, q)[i];
    assert RowsOf(Eval(db, q))[i] == t.row;
    if e !in Edges(q.with) {
      AttachFrame(db, q.with, bare, i, e);
    } else {
      AttachLease(db, q.with, q.table, bare, i, e);
      var ns := Eval(db, LoadQuery(e, SubOf(q.with, e), rows));
      var own := OwnedBy(e, Ids(rows), i);
      forall n ensures own(n) <==> ReadFk(e, n.row) == Some(t.row.id) {
        if ReadFk(e, n.row).Some? {
          OwnerWhenUnique(Ids(rows), i, ReadFk(e, n.row).value);
        }
      }
      OwnFound(own, ns);
    }
  }

  lemma OwnFound(own: Tree -> bool, ns: seq<Tree>)
    ensures var f := Filter(own, ns);
      && (f == [] <==> forall n :: n in ns ==> !own(n))
      && (f != [] ==> f[|f| - 1] in ns && own(f[|f| - 1]))
  {
    var f := Filter(own, ns);
    if f != [] {
      assert f[|f| - 1] in f;
    }
    if f == [] {
      assert forall n :: n in ns && own(n) ==> n in f;
    }
  }

  lemma {:induction false} SubOfTyped(t: Table, w: Withs, e: Edge)
    requires WellTyped(t, w) && e in Edges(w)
    ensures SubOf(w, e).table == Target(e) && SubOf(w, e).path.NoPath?
    decreases w
  {
    match w
    case Load(x, _, rest) =>
      if x != e {
        SubOfTyped(t, rest, e);
      }
  }

  /** A query without a window returns every base row that meets its predicates. */
  lemma EveryRowReturned(db: Database, q: Query, y: Row)
    requires NoWindow(q.opts) && y in Base(db, q) && Holds(q.opts.preds, y)
    ensures Project(SpecColumns(q), y) in QueryNodes(db, q)
  {
    hide SpecColumns, Base, Selected;
    var sel, f := Selected(q.opts, Base(db, q)), Projecting(SpecColumns(q));
    SelectedMembers(q.opts, Base(db, q));
    var i :| 0 <= i < |sel| && sel[i] == y;
    assert Map(f, sel)[i] == Project(SpecColumns(q), y);
    assert Project(SpecColumns(q), y) in Map(f, sel);
  }

  /** Without a window on the load, not found means that the key is nil or
      dangling: the target table has no such row meeting the load's predicates. */
  lemma NotFoundIsDangling(db: Database, q: Query, i: nat, e: Edge)
    requires WellTyped(q.table, q.with) && Kind(e).M2O? && i < |QueryNodes(db, q)|
    requires e in Edges(q.with) && NoWindow(SubOf(q.with, e).opts)
    ensures var fk := ReadFk(e, Eval(db, q)[i].row);
      UniqueOrErr(Eval(db, q)[i], e).NotFound? <==>
        fk.None? || forall y ::
                      y in TableRows(db, Target(e)) && y.id == fk.value ==> !Holds(SubOf(q.with, e).opts.preds, y)
  {
    hide QueryNodes, Eval, SubOf, UniqueOrErr, NoWindow, WellTyped;
    ThreeWayAccess(db, q, i, e);
    SubOfTyped(q.table, q.with, e);
    var rows, sub, fk := QueryNodes(db, q), SubOf(q.with, e), ReadFk(e, QueryNodes(db, q)[i]);
    if fk.Some? {
      FkIdsComplete(e, rows, i);
      FoundExact(db, sub, FkIds(e, rows), fk.value);
    }
  }

  lemma FoundExact(db: Database, sub: Query, ids: seq<int>, k: int)
    requires NoWindow(sub.opts) && sub.path.NoPath? && k in ids
    ensures (exists n :: n in Eval(db, Where(sub, IdIn(ids))) && n.row.id == k) <==>
      exists y :: y in TableRows(db, sub.table) && y.id == k && Holds(sub.opts.preds, y)
  {
    hide QueryNodes, Eval, SpecColumns;
    var q := Where(sub, IdIn(ids));
    var ns := Eval(db, q);
    EvalRows(db, q);
    if n :| n in ns && n.row.id == k {
      var j :| 0 <= j < |ns| && ns[j] == n;
      assert RowsOf(ns)[j] == n.row;
      QueryMembers(db, q, n.row);
      var y :| y in Base(db, q) && Holds(q.opts.preds, y) && n.row == Project(SpecColumns(q), y);
      MeetsWhere(sub.opts.preds, IdIn(ids), y);
      assert y in TableRows(db, sub.table) && y.id == k;
    }
    if y :| y in TableRows(db, sub.table) && y.id == k && Holds(sub.opts.preds, y) {
      MeetsWhere(sub.opts.preds, IdIn(ids), y);
      EveryRowReturned(db, q, y);
      var j :| 0 <= j < |RowsOf(ns)| && RowsOf(ns)[j] == Project(SpecColumns(q), y);
      assert ns[j] in ns && ns[j].row.id == k;
    }
  }

  // ----------------------------------------------------- selected columns

  lemma {:induction false} AddFksIncludes(w: Withs, cols: seq<string>, e: Edge)
    requires e in Edges(w) && Kind(e).M2O?
    ensures FkColumn(e) in AddFks(w, cols)
  {
    match w
    case Load(x, _, rest) =>
      var next := if Kind(x).M2O? then AddOnce(cols, FkColumn(x)) else cols;
      if x == e {
        AddFksKeeps(rest, next, FkColumn(e));
      } else {
        AddFksIncludes(rest, next, e);
      }
  }

  lemma {:induction false} AddFksTail(w: Withs, cols: seq<string>)
    requires cols != [] && cols[0] == "id" && "id" !in cols[1..]
    ensures var r := AddFks(w, cols); r != [] && r[0] == "id" && "id" !in r[1..]
  {
    match w
    case Done =>
    case Load(e, _, rest) =>
      FkNotId(e);
      var next := if Kind(e).M2O? then AddOnce(cols, FkColumn(e)) else cols;
      assert next[1..] == cols[1..] || next[1..] == cols[1..] + [FkColumn(e)];
      AddFksTail(rest, next);
  }

  /** A narrowed query reads the id first and once, which is what the join of
      loadGroups relies on, and the key of every requested many-to-one edge. */
  lemma SpecColumnsSound(q: Query)
    requires q.fields != []
    ensures SpecColumns(q).Some?
    ensures HasID(q.table) ==> var cs := SpecColumns(q).value; cs != [] && cs[0] == "id" && "id" !in cs[1..]
    ensures forall e :: e in Edges(q.with) && Kind(e).M2O? ==> FkColumn(e) in SpecColumns(q).value
  {
    var kept := Filter((f: string) => f != "id", q.fields);
    assert (["id"] + kept)[1..] == kept;
    AddFksTail(q.with, ["id"] + kept);
    forall e | e in Edges(q.with) && Kind(e).M2O? ensures FkColumn(e) in SpecColumns(q).value {
      AddFksIncludes(q.with, if HasID(q.table) then ["id"] + kept else q.fields, e);
    }
  }

  lemma ProjectionKeepsKey(q: Query, e: Edge, r: Row)
    requires e in Edges(q.with) && Kind(e).M2O?
    ensures ReadFk(e, Project(SpecColumns(q), r)) == ReadFk(e, r)
  {
    if q.fields != [] {
      SpecColumnsSound(q);
    }
  }

  /** Rows that agree on ids and on the keys of the requested edges. */
  ghost predicate SameKeys(w: Withs, a: seq<Row>, b: seq<Row>) {
    && |a| == |b| && Ids(a) == Ids(b)
    && forall e, i :: e in Edges(w) && Kind(e).M2O? && 0 <= i < |a| ==> ReadFk(e, a[i]) == ReadFk(e, b[i])
  }

  ghost predicate SameEdges(a: seq<Tree>, b: seq<Tree>) {
    |a| == |b| && forall i :: 0 <= i < |a| ==> a[i].edges == b[i].edges
  }

  lemma {:induction false} SameFkIds(e: Edge, a: seq<Row>, b: seq<Row>)
    requires |a| == |b| && forall i :: 0 <= i < |a| ==> ReadFk(e, a[i]) == ReadFk(e, b[i])
    ensures FkIds(e, a) == FkIds(e, b)
  {
    if a != [] {
      SameFkIds(e, a[..|a| - 1], b[..|b| - 1]);
    }
  }

  lemma CollectEdges(e: Edge, a: Tree, b: Tree, got: seq<Tree>)
    requires a.edges == b.edges
    ensures Collect(e, a, got).edges == Collect(e, b, got).edges
  {
  }

  /** A load sees only ids and keys, so it treats both results alike. */
  lemma LoadSameEdges(db: Database, e: Edge, sub: Query, a: seq<Tree>, b: seq<Tree>, i: nat)
    requires SameKeys(Load(e, sub, Done), RowsOf(a), RowsOf(b)) && SameEdges(a, b) && i < |a|
    ensures LoadEdge(db, e, sub, a)[i].edges == LoadEdge(db, e, sub, b)[i].edges
  {
    hide Eval, Attach, JoinRows, QueryNodes, Filter, Receives, Owner, FkIds, LoadEdge, FirstById;
    var rows := RowsOf(a);
    assert RowsOf(Init(e, a)) == rows && RowsOf(Init(e, b)) == RowsOf(b);
    match Kind(e)
    case M2O =>
      assert e in Edges(Load(e, sub, Done));
      SameFkIds(e, rows, RowsOf(b));
      LoadEdgeM2O(db, e, sub, a);
      LoadEdgeM2O(db, e, sub, b);
      var ns := Eval(db, Where(sub, IdIn(FkIds(e, rows))));
      ScatterM2OAt(e, a, ns, i);
      ScatterM2OAt(e, b, ns, i);
      assert ReadFk(e, rows[i]) == ReadFk(e, RowsOf(b)[i]);
      if ReadFk(e, rows[i]).Some? {
        CollectEdges(e, a[i], b[i], Filter(HasId(ReadFk(e, rows[i]).value), ns));
      }
    case O2M | O2O =>
      LoadEdgeO2M(db, e, sub, a);
      LoadEdgeO2M(db, e, sub, b);
      var ns := Eval(db, Where(NeedField(sub, FkColumn(e)), FkIn(e, Ids(rows))));
      ScatterO2MAt(e, Init(e, a), ns, i);
      ScatterO2MAt(e, Init(e, b), ns, i);
      CollectEdges(e, Init(e, a)[i], Init(e, b)[i], Filter(OwnedBy(e, Ids(rows), i), ns));
    case M2M =>
      var pairs := JoinRows(db, e, sub, Ids(rows));
      LoadEdgeM2M(db, e, sub, a, pairs);
      LoadEdgeM2M(db, e, sub, b, pairs);
      var ns := Attach(db, sub.with, Bare(sub.with, FirstById(pairs)));
      ScatterM2MAt(e, Init(e, a), ns, pairs, i);
      ScatterM2MAt(e, Init(e, b), ns, pairs, i);
      CollectEdges(e, Init(e, a)[i], Init(e, b)[i], Filter(ReceivedBy(Ids(rows), pairs, i), ns));
  }

  lemma {:induction false} AttachSameEdges(db: Database, w: Withs, a: seq<Tree>, b: seq<Tree>)
    requires SameKeys(w, RowsOf(a), RowsOf(b)) && SameEdges(a, b)
    ensures SameEdges(Attach(db, w, a), Attach(db, w, b))
    decreases w
  {
    match w
    case Done =>
    case Load(e, sub, rest) =>
      var a', b' := LoadEdge(db, e, sub, a), LoadEdge(db, e, sub, b);
      forall i | 0 <= i < |a| ensures a'[i].edges == b'[i].edges {
        assert forall x :: x in Edges(Load(e, sub, Done)) ==> x in Edges(w);
        LoadSameEdges(db, e, sub, a, b, i);
      }
      LoadKeepsRows(db, e, sub, a);
      LoadKeepsRows(db, e, sub, b);
      assert forall x :: x in Edges(rest) ==> x in Edges(w);
      AttachSameEdges(db, rest, a', b');
  }

  lemma SameBase(db: Database, a: Query, b: Query)
    requires a.table == b.table && a.path == b.path
    ensures Base(db, a) == Base(db, b)
  {
  }

  lemma NarrowedAttach(db: Database, q: Query, full: seq<Row>)
    ensures SameEdges(Attach(db, q.with, Bare(q.with, Map(Projecting(SpecColumns(q)), full))),
      Attach(db, q.with, Bare(q.with, full)))
  {
    hide SpecColumns, ReadFk, Attach;
    var narrow := Map(Projecting(SpecColumns(q)), full);
    var a, b := Bare(q.with, narrow), Bare(q.with, full);
    assert RowsOf(a) == narrow && RowsOf(b) == full;
    forall e, i | e in Edges(q.with) && Kind(e).M2O? && 0 <= i < |full|
      ensures ReadFk(e, narrow[i]) == ReadFk(e, full[i]) {
      ProjectionKeepsKey(q, e, full[i]);
    }
    AttachSameEdges(db, q.with, a, b);
  }
}
