/** Running one builder again: the loaders add their predicates to the stored
    sub-builders, which keep them. */
module EagerReuse {
  import opened Seqs
  import opened Schema
  import opened EagerSpec

  /** The sub-builder of a load after the run: narrowed, unless a many-to-one load
      found no key and asked nothing. */
  function Used(db: Database, e: Edge, sub: Query, rows: seq<Row>): Query
    decreases sub.with, 2
  {
    if Kind(e).M2O? && FkIds(e, rows) == [] then sub else UsedQuery(db, LoadQuery(e, sub, rows))
  }

  function UsedWiths(db: Database, w: Withs, nodes: seq<Tree>): Withs
    decreases w, 0
  {
    match w
    case Done => Done
    case Load(e, sub, rest) =>
      Load(e, Used(db, e, sub, RowsOf(nodes)), UsedWiths(db, rest, LoadEdge(db, e, sub, nodes)))
  }

  /** A builder after All: loads run only if there are entities. */
  function UsedQuery(db: Database, q: Query): Query
    decreases q.with, 1
  {
    var rows := QueryNodes(db, q);
    if rows == [] then q else q.(with := UsedWiths(db, q.with, Bare(q.with, rows)))
  }

  /** No many-to-many load, whose join is added to the statement a second time. */
  predicate NoJoins(w: Withs) {
    match w
    case Done => true
    case Load(e, sub, rest) => !Kind(e).M2M? && NoJoins(sub.with) && NoJoins(rest)
  }

  lemma {:induction false} UsedEdges(db: Database, w: Withs, nodes: seq<Tree>)
    ensures Edges(UsedWiths(db, w, nodes)) == Edges(w)
    ensures forall cols :: AddFks(UsedWiths(db, w, nodes), cols) == AddFks(w, cols)
    decreases w
  {
    hide LoadEdge, Used;
    match w
    case Done =>
    case Load(e, sub, rest) => UsedEdges(db, rest, LoadEdge(db, e, sub, nodes));
  }

  /** The rows of a query do not depend on how its loads are configured. */
  lemma SameRows(db: Database, a: Query, b: Query)
    requires b == a.(with := b.with) && forall cols :: AddFks(a.with, cols) == AddFks(b.with, cols)
    ensures QueryNodes(db, a) == QueryNodes(db, b)
  {
    assert Base(db, a) == Base(db, b);
    assert SpecColumns(a) == SpecColumns(b);
  }

  /** The predicate of a load. */
  function LoadPredicate(e: Edge, rows: seq<Row>): Row -> bool {
    if Kind(e).M2O? then IdIn(FkIds(e, rows)) else FkIn(e, Ids(rows))
  }

  /** Asking for a predicate and a column a second time changes nothing. */
  lemma AskedTwice(db: Database, e: Edge, q: Query, rows: seq<Row>)
    requires Kind(e).M2O? || q.fields == [] || FkColumn(e) in q.fields
    requires LoadPredicate(e, rows) in q.opts.preds
    ensures LoadQuery(e, q, rows) == Where(q, LoadPredicate(e, rows))
    ensures QueryNodes(db, LoadQuery(e, q, rows)) == QueryNodes(db, q)
  {
    hide SpecColumns;
    var p, again := LoadPredicate(e, rows), LoadQuery(e, q, rows);
    assert again == Where(q, p);
    assert Base(db, again) == Base(db, q);
    forall x ensures Meets(again.opts.preds)(x) == Meets(q.opts.preds)(x) {
      HoldsTwice(q.opts.preds, p, x);
    }
    FilterCongruent(Meets(again.opts.preds), Meets(q.opts.preds), Base(db, q));
    SameSpecColumns(q, p);
  }

  lemma SameSpecColumns(q: Query, p: Row -> bool)
    ensures SpecColumns(Where(q, p)) == SpecColumns(q)
  {
  }

  lemma HoldsTwice(preds: seq<Row -> bool>, p: Row -> bool, x: Row)
    requires p in preds
    ensures Holds(preds + [p], x) <==> Holds(preds, x)
  {
    assert forall i :: 0 <= i < |preds| ==> (preds + [p])[i] == preds[i];
    if Holds(preds + [p], x) {
      forall i | 0 <= i < |preds| ensures preds[i](x) {
        assert (preds + [p])[i](x);
      }
    }
  }

  lemma {:induction false} LoadAgain(db: Database, e: Edge, sub: Query, nodes: seq<Tree>)
    requires !Kind(e).M2M? && NoJoins(sub.with)
    ensures LoadEdge(db, e, Used(db, e, sub, RowsOf(nodes)), nodes) == LoadEdge(db, e, sub, nodes)
    decreases sub.with, 2
  {
    hide AddOnce, SpecColumns, QueryNodes, UsedWiths, Attach;
    var rows := RowsOf(nodes);
    if !(Kind(e).M2O? && FkIds(e, rows) == []) {
      var once := LoadQuery(e, sub, rows);
      var used := UsedQuery(db, once);
      var twice := LoadQuery(e, used, rows);
      RunAgain(db, once);
      LoadAsks(e, sub, rows);
      AskedTwice(db, e, used, rows);
      assert Eval(db, twice) == Eval(db, used);
    }
  }

  lemma LoadAsks(e: Edge, sub: Query, rows: seq<Row>)
    ensures var q := LoadQuery(e, sub, rows);
      LoadPredicate(e, rows) in q.opts.preds && (Kind(e).M2O? || q.fields == [] || FkColumn(e) in q.fields)
  {
    var q := LoadQuery(e, sub, rows);
    assert q.opts.preds[|sub.opts.preds|] == LoadPredicate(e, rows);
  }

  lemma {:induction false} AttachAgain(db: Database, w: Withs, nodes: seq<Tree>)
    requires NoJoins(w)
    ensures Attach(db, UsedWiths(db, w, nodes), nodes) == Attach(db, w, nodes)
    decreases w, 0
  {
    hide LoadEdge, Used;
    match w
    case Done =>
    case Load(e, sub, rest) =>
      LoadAgain(db, e, sub, nodes);
      AttachAgain(db, rest, LoadEdge(db, e, sub, nodes));
  }

  /** Running a builder a second time on unchanged tables gives the same result,
      although its sub-builders have collected the predicates of the first run. */
  lemma {:induction false} RunAgain(db: Database, q: Query)
    requires NoJoins(q.with)
    ensures QueryNodes(db, UsedQuery(db, q)) == QueryNodes(db, q)
    ensures Eval(db, UsedQuery(db, q)) == Eval(db, q)
    decreases q.with, 1
  {
    hide UsedWiths, QueryNodes, Attach;
    var rows := QueryNodes(db, q);
    if rows != [] {
      var nodes := Bare(q.with, rows);
      UsedEdges(db, q.with, nodes);
      SameRows(db, q, UsedQuery(db, q));
      AttachAgain(db, q.with, nodes);
      assert Nothing(UsedQuery(db, q).with) == Nothing(q.with);
    }
  }

  lemma LoadIsScatter(db: Database, e: Edge, sub: Query, nodes: seq<Tree>)
    requires Kind(e).M2O?
    ensures LoadEdge(db, e, sub, nodes) == ScatterM2O(e, nodes, Eval(db, LoadQuery(e, sub, RowsOf(nodes))))
  {
  }
}
