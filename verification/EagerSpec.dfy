/** What eager loading returns: the batched evaluation the engine performs, a
    naive one-query-per-row reading. */
module EagerSpec {
  import opened Seqs
  import opened Schema

  /** A returned entity with its loaded edges; the keys of `edges` are the
      requested ones. */
  datatype Tree = Tree(row: Row, edges: map<Edge, seq<Tree>>)

  function Nothing(w: Withs): map<Edge, seq<Tree>> {
    map e | e in Edges(w) :: []
  }

  function Bare(w: Withs, rows: seq<Row>): (r: seq<Tree>)
    ensures |r| == |rows|
    ensures forall i :: 0 <= i < |rows| ==> r[i] == Tree(rows[i], Nothing(w))
  {
    seq(|rows|, i requires 0 <= i < |rows| => Tree(rows[i], Nothing(w)))
  }

  function RowsOf(ts: seq<Tree>): (r: seq<Row>)
    ensures |r| == |ts|
    ensures forall i :: 0 <= i < |ts| ==> r[i] == ts[i].row
  {
    seq(|ts|, i requires 0 <= i < |ts| => ts[i].row)
  }

  function Ids(rows: seq<Row>): (r: seq<int>)
    ensures |r| == |rows|
    ensures forall i :: 0 <= i < |rows| ==> r[i] == rows[i].id
  {
    seq(|rows|, i requires 0 <= i < |rows| => rows[i].id)
  }

  // --------------------------------------------------- the batched engine

  /** The distinct non-nil foreign keys, in order of first appearance. */
  function FkIds(e: Edge, rows: seq<Row>): seq<int> {
    if rows == [] then []
    else
      var ids := FkIds(e, rows[..|rows| - 1]);
      match ReadFk(e, rows[|rows| - 1])
      case None => ids
      case Some(k) => if k in ids then ids else ids + [k]
  }

  /** The rows of a join with each id kept once, where it first appears. */
  function FirstById(pairs: seq<(int, Row)>): seq<Row> {
    if pairs == [] then []
    else
      var seen := FirstById(pairs[..|pairs| - 1]);
      var r := pairs[|pairs| - 1].1;
      if r.id in Ids(seen) then seen else seen + [r]
  }

  lemma {:induction false} FirstByIdIds(pairs: seq<(int, Row)>, id: int)
    ensures id in Ids(FirstById(pairs)) <==> exists k :: 0 <= k < |pairs| && pairs[k].1.id == id
  {
    if pairs != [] {
      var m := |pairs| - 1;
      FirstByIdIds(pairs[..m], id);
      var seen, r := FirstById(pairs[..m]), pairs[m].1;
      assert Ids(seen + [r]) == Ids(seen) + [r.id];
      if id in Ids(FirstById(pairs)) && id != r.id {
        var k :| 0 <= k < |pairs[..m]| && pairs[..m][k].1.id == id;
        assert pairs[k].1.id == id;
      }
      if k :| 0 <= k < |pairs| && pairs[k].1.id == id {
        assert k < m ==> pairs[..m][k].1.id == id;
      }
    }
  }

  /** The position a source id resolves to: later entities shadow earlier ones. */
  function Owner(ids: seq<int>, id: int): (r: Option<nat>)
    ensures r.None? ==> id !in ids
    ensures r.Some? ==> r.value < |ids| && ids[r.value] == id && id !in ids[r.value + 1..]
  {
    if ids == [] then None
    else if ids[|ids| - 1] == id then Some(|ids| - 1)
    else
      assert ids == ids[..|ids| - 1] + [ids[|ids| - 1]];
      Owner(ids[..|ids| - 1], id)
  }

  function GetEdge(t: Tree, e: Edge): seq<Tree> {
    if e in t.edges then t.edges[e] else []
  }

  function SetEdge(t: Tree, e: Edge, ns: seq<Tree>): Tree {
    t.(edges := t.edges[e := ns])
  }

  /** One neighbor handed to a node: overwritten on unique edges, appended on
      the others. */
  function Assign(e: Edge, t: Tree, n: Tree): Tree {
    SetEdge(t, e, if Kind(e).M2O? || Kind(e).O2O? then [n] else GetEdge(t, e) + [n])
  }

  /** One neighbor of a many-to-one load: every node holding its id gets it. */
  function StepM2O(e: Edge, rows: seq<Row>, prev: seq<Tree>, n: Tree): (r: seq<Tree>)
    requires |rows| == |prev|
    ensures |r| == |prev|
    ensures forall i :: 0 <= i < |prev| ==> r[i] == if ReadFk(e, rows[i]) == Some(n.row.id) then Assign(e, prev[i], n)
              else prev[i]
  {
    seq(|prev|, i requires 0 <= i < |prev| =>
      if ReadFk(e, rows[i]) == Some(n.row.id) then Assign(e, prev[i], n) else prev[i])
  }

  function ScatterM2O(e: Edge, nodes: seq<Tree>, ns: seq<Tree>): (r: seq<Tree>)
    ensures |r| == |nodes|
  {
    if ns == [] then nodes
    else StepM2O(e, RowsOf(nodes), ScatterM2O(e, nodes, ns[..|ns| - 1]), ns[|ns| - 1])
  }

  /** One neighbor of a one-to-many load: only the owner of its key gets it. */
  function StepO2M(e: Edge, rows: seq<Row>, prev: seq<Tree>, n: Tree): (r: seq<Tree>)
    requires |rows| == |prev|
    ensures |r| == |prev|
  {
    match ReadFk(e, n.row)
    case None => prev
    case Some(k) =>
      var o := Owner(Ids(rows), k);
      if o.None? then prev else prev[o.value := Assign(e, prev[o.value], n)]
  }

  function ScatterO2M(e: Edge, nodes: seq<Tree>, ns: seq<Tree>): (r: seq<Tree>)
    ensures |r| == |nodes|
  {
    if ns == [] then nodes
    else StepO2M(e, RowsOf(nodes), ScatterO2M(e, nodes, ns[..|ns| - 1]), ns[|ns| - 1])
  }

  /** The positions that receive target `id` of a join. */
  predicate Receives(ids: seq<int>, pairs: seq<(int, Row)>, i: nat, id: int) {
    exists k :: 0 <= k < |pairs| && pairs[k].1.id == id && Owner(ids, pairs[k].0) == Some(i)
  }

  /** One neighbor of a many-to-many load: all its receivers get it. */
  function StepM2M(e: Edge, ids: seq<int>, pairs: seq<(int, Row)>, prev: seq<Tree>, n: Tree): (r: seq<Tree>)
    ensures |r| == |prev|
    ensures forall i :: 0 <= i < |prev| ==> r[i] == if Receives(ids, pairs, i, n.row.id) then Assign(e, prev[i], n)
              else prev[i]
  {
    seq(|prev|, i requires 0 <= i < |prev| =>
      if Receives(ids, pairs, i, n.row.id) then Assign(e, prev[i], n) else prev[i])
  }

  function ScatterM2M(e: Edge, nodes: seq<Tree>, ns: seq<Tree>, pairs: seq<(int, Row)>): (r: seq<Tree>)
    ensures |r| == |nodes|
  {
    if ns == [] then nodes
    else StepM2M(e, Ids(RowsOf(nodes)), pairs, ScatterM2M(e, nodes, ns[..|ns| - 1], pairs), ns[|ns| - 1])
  }

  lemma ScatterNothing(e: Edge, nodes: seq<Tree>, ns: seq<Tree>)
    ensures ScatterM2O(e, nodes, ns[..0]) == nodes
    ensures ScatterO2M(e, nodes, ns[..0]) == nodes
    ensures forall pairs :: ScatterM2M(e, nodes, ns[..0], pairs) == nodes
  {
  }

  lemma ScatterStep(e: Edge, nodes: seq<Tree>, ns: seq<Tree>, k: nat)
    requires k < |ns|
    ensures ScatterM2O(e, nodes, ns[..k + 1]) == StepM2O(e, RowsOf(nodes), ScatterM2O(e, nodes, ns[..k]), ns[k])
    ensures ScatterO2M(e, nodes, ns[..k + 1]) == StepO2M(e, RowsOf(nodes), ScatterO2M(e, nodes, ns[..k]), ns[k])
    ensures forall pairs ::
              ScatterM2M(e, nodes, ns[..k + 1], pairs) ==
                StepM2M(e, Ids(RowsOf(nodes)), pairs, ScatterM2M(e, nodes, ns[..k], pairs), ns[k])
  {
    assert ns[..k + 1][..k] == ns[..k];
  }

  /** The neighbor query of one load: the sub-builder with the extra predicate
      and, for a narrowed child query, the foreign key column. */
  function LoadQuery(e: Edge, sub: Query, rows: seq<Row>): Query {
    if Kind(e).M2O? then Where(sub, IdIn(FkIds(e, rows)))
    else Where(NeedField(sub, FkColumn(e)), FkIn(e, Ids(rows)))
  }

  /** The `init` callback: list edges start empty, unique ones are left alone. */
  function Init(e: Edge, nodes: seq<Tree>): (r: seq<Tree>)
    ensures |r| == |nodes|
    ensures forall i :: 0 <= i < |nodes| ==> r[i] == if Kind(e).O2M? || Kind(e).M2M? then SetEdge(nodes[i], e, [])
              else nodes[i]
  {
    seq(|nodes|, i requires 0 <= i < |nodes| =>
      if Kind(e).O2M? || Kind(e).M2M? then SetEdge(nodes[i], e, []) else nodes[i])
  }

  function LoadEdge(db: Database, e: Edge, sub: Query, nodes: seq<Tree>): (r: seq<Tree>)
    ensures |r| == |nodes|
    decreases sub.with, 2
  {
    var rows := RowsOf(nodes);
    match Kind(e)
    case M2O => ScatterM2O(e, nodes, Eval(db, LoadQuery(e, sub, rows)))
    case O2M | O2O => ScatterO2M(e, Init(e, nodes), Eval(db, LoadQuery(e, sub, rows)))
    case M2M =>
      var pairs := JoinRows(db, e, sub, Ids(rows));
      ScatterM2M(e, Init(e, nodes), Attach(db, sub.with, Bare(sub.with, FirstById(pairs))), pairs)
  }

  lemma LoadEdgeO2M(db: Database, e: Edge, sub: Query, nodes: seq<Tree>)
    requires Kind(e).O2M? || Kind(e).O2O?
    ensures LoadEdge(db, e, sub, nodes) ==
      ScatterO2M(e, Init(e, nodes), Eval(db, Where(NeedField(sub, FkColumn(e)), FkIn(e, Ids(RowsOf(nodes))))))
  {
  }

  lemma LoadEdgeM2M(db: Database, e: Edge, sub: Query, nodes: seq<Tree>, pairs: seq<(int, Row)>)
    requires Kind(e).M2M? && pairs == JoinRows(db, e, sub, Ids(RowsOf(nodes)))
    ensures LoadEdge(db, e, sub, nodes) ==
      ScatterM2M(e, Init(e, nodes), Attach(db, sub.with, Bare(sub.with, FirstById(pairs))), pairs)
  {
  }

  lemma LoadEdgeM2O(db: Database, e: Edge, sub: Query, nodes: seq<Tree>)
    requires Kind(e).M2O?
    ensures LoadEdge(db, e, sub, nodes) == ScatterM2O(e, nodes, Eval(db, Where(sub, IdIn(FkIds(e, RowsOf(nodes))))))
  {
  }

  /** The requested loads, one after the other. */
  function Attach(db: Database, w: Withs, nodes: seq<Tree>): (r: seq<Tree>)
    ensures |r| == |nodes|
    decreases w, 0
  {
    match w
    case Done => nodes
    case Load(e, sub, rest) => Attach(db, rest, LoadEdge(db, e, sub, nodes))
  }

  /** sqlAll. */
  function Eval(db: Database, q: Query): seq<Tree>
    decreases q.with, 1
  {
    Attach(db, q.with, Bare(q.with, QueryNodes(db, q)))
  }

  // ------------------------------------------------- one query per row

  function LinkedTo(db: Database, e: Edge, id: int): Row -> bool {
    (y: Row) => id in Links(db, e, y.id)
  }

  /** The query that asks for the neighbors of one row alone. */
  function RowQuery(db: Database, e: Edge, sub: Query, row: Row): Query {
    match Kind(e)
    case M2O => (match ReadFk(e, row)
                 case None => Where(sub, IdIn([]))
                 case Some(k) => Where(sub, IdIn([k])))
    case O2M | O2O => Where(NeedField(sub, FkColumn(e)), FkIn(e, [row.id]))
    case M2M => Where(sub, LinkedTo(db, e, row.id))
  }

  function LastOnly<T>(s: seq<T>): seq<T> {
    if s == [] then s else s[|s| - 1..]
  }

  function NaiveEdge(db: Database, e: Edge, sub: Query, row: Row): seq<Tree>
    decreases sub.with, 2
  {
    var ns := NaiveAll(db, sub.with, QueryNodes(db, RowQuery(db, e, sub, row)));
    if Kind(e).O2O? then LastOnly(ns) else ns
  }

  function NaiveTree(db: Database, w: Withs, t: Tree): Tree
    decreases w, 0
  {
    match w
    case Done => t
    case Load(e, sub, rest) => NaiveTree(db, rest, SetEdge(t, e, NaiveEdge(db, e, sub, t.row)))
  }

  function NaiveAll(db: Database, w: Withs, rows: seq<Row>): (r: seq<Tree>)
    ensures |r| == |rows|
    ensures forall i :: 0 <= i < |rows| ==> r[i] == NaiveTree(db, w, Tree(rows[i], Nothing(w)))
    decreases w, 1
  {
    seq(|rows|, i requires 0 <= i < |rows| => NaiveTree(db, w, Tree(rows[i], Nothing(w))))
  }

  // ---------------------------------------------------- rows of a result

  /** Whatever was selected is a projected base row meeting the predicates. */
  lemma QueryMembers(db: Database, q: Query, r: Row)
    requires r in QueryNodes(db, q)
    ensures exists x :: x in Base(db, q) && Holds(q.opts.preds, x) && r == Project(SpecColumns(q), x)
  {
    hide SpecColumns, Base;
    var sel := Selected(q.opts, Base(db, q));
    var cols := SpecColumns(q);
    var f := Projecting(cols);
    assert r in Map(f, sel);
    var i :| 0 <= i < |sel| && f(sel[i]) == r;
    SortByMembers(q.opts.order, Filter(Meets(q.opts.preds), Base(db, q)));
    assert sel[i] in Base(db, q) && Meets(q.opts.preds)(sel[i]);
  }

  lemma {:induction false} ScatterM2OKeepsRows(e: Edge, nodes: seq<Tree>, ns: seq<Tree>)
    ensures RowsOf(ScatterM2O(e, nodes, ns)) == RowsOf(nodes)
  {
    if ns != [] {
      ScatterM2OKeepsRows(e, nodes, ns[..|ns| - 1]);
    }
  }

  lemma {:induction false} ScatterO2MKeepsRows(e: Edge, nodes: seq<Tree>, ns: seq<Tree>)
    ensures RowsOf(ScatterO2M(e, nodes, ns)) == RowsOf(nodes)
  {
    if ns != [] {
      ScatterO2MKeepsRows(e, nodes, ns[..|ns| - 1]);
    }
  }

  lemma {:induction false} ScatterM2MKeepsRows(e: Edge, nodes: seq<Tree>, ns: seq<Tree>, pairs: seq<(int, Row)>)
    ensures RowsOf(ScatterM2M(e, nodes, ns, pairs)) == RowsOf(nodes)
  {
    if ns != [] {
      ScatterM2MKeepsRows(e, nodes, ns[..|ns| - 1], pairs);
    }
  }

  lemma LoadKeepsRows(db: Database, e: Edge, sub: Query, nodes: seq<Tree>)
    ensures RowsOf(LoadEdge(db, e, sub, nodes)) == RowsOf(nodes)
  {
    hide Eval, Attach, ScatterM2O, ScatterO2M, ScatterM2M, JoinRows;
    var rows := RowsOf(nodes);
    match Kind(e)
    case M2O => ScatterM2OKeepsRows(e, nodes, Eval(db, LoadQuery(e, sub, rows)));
    case O2M | O2O => ScatterO2MKeepsRows(e, Init(e, nodes), Eval(db, LoadQuery(e, sub, rows)));
    case M2M =>
      var pairs := JoinRows(db, e, sub, Ids(rows));
      ScatterM2MKeepsRows(e, Init(e, nodes), Attach(db, sub.with, Bare(sub.with, FirstById(pairs))), pairs);
  }

  /** Loading edges changes no scalar field of any entity. */
  lemma {:induction false} AttachKeepsRows(db: Database, w: Withs, nodes: seq<Tree>)
    ensures RowsOf(Attach(db, w, nodes)) == RowsOf(nodes)
    decreases w
  {
    match w
    case Done =>
    case Load(e, sub, rest) =>
      LoadKeepsRows(db, e, sub, nodes);
      AttachKeepsRows(db, rest, LoadEdge(db, e, sub, nodes));
  }

  lemma EvalRows(db: Database, q: Query)
    ensures RowsOf(Eval(db, q)) == QueryNodes(db, q)
  {
    AttachKeepsRows(db, q.with, Bare(q.with, QueryNodes(db, q)));
  }

  /** A query narrowed to some ids returns no other id, and a query narrowed to
      some foreign keys returns only rows holding one of them. */
  lemma NarrowedIds(db: Database, sub: Query, ids: seq<int>, t: Tree)
    requires t in Eval(db, Where(sub, IdIn(ids)))
    ensures t.row.id in ids
  {
    var q := Where(sub, IdIn(ids));
    EvalRows(db, q);
    assert t.row in RowsOf(Eval(db, q)) by {
      var i :| 0 <= i < |Eval(db, q)| && Eval(db, q)[i] == t;
      assert RowsOf(Eval(db, q))[i] == t.row;
    }
    QueryMembers(db, q, t.row);
    assert q.opts.preds[|sub.opts.preds|] == IdIn(ids);
  }

  lemma {:induction false} AddFksKeeps(w: Withs, cols: seq<string>, c: string)
    requires c in cols
    ensures c in AddFks(w, cols)
  {
    match w
    case Done =>
    case Load(e, _, rest) => AddFksKeeps(rest, if Kind(e).M2O? then AddOnce(cols, FkColumn(e)) else cols, c);
  }

  /** A narrowed child query still reads the foreign key its loader needs. */
  lemma NeedFieldRead(q: Query, c: string, r: Row)
    requires c != "id"
    ensures Col(Project(SpecColumns(NeedField(q, c)), r), c) == Col(r, c)
  {
    if q.fields != [] {
      var q' := NeedField(q, c);
      assert c in q'.fields;
      if HasID(q.table) {
        AddFksKeeps(q.with, ["id"] + Filter((f: string) => f != "id", q'.fields), c);
      } else {
        AddFksKeeps(q.with, q'.fields, c);
      }
    }
  }

  lemma FkNotId(e: Edge)
    ensures FkColumn(e) != "id"
  {
    assert "id"[0] == 'i';
    assert FkColumn(e)[0] != 'i';
  }

  lemma NarrowedFks(db: Database, e: Edge, sub: Query, ids: seq<int>, t: Tree)
    requires t in Eval(db, Where(NeedField(sub, FkColumn(e)), FkIn(e, ids)))
    ensures ReadFk(e, t.row).Some? && ReadFk(e, t.row).value in ids
  {
    var narrowed := NeedField(sub, FkColumn(e));
    var q := Where(narrowed, FkIn(e, ids));
    EvalRows(db, q);
    assert t.row in RowsOf(Eval(db, q)) by {
      var i :| 0 <= i < |Eval(db, q)| && Eval(db, q)[i] == t;
      assert RowsOf(Eval(db, q))[i] == t.row;
    }
    QueryMembers(db, q, t.row);
    var x :| x in Base(db, q) && Holds(q.opts.preds, x) && t.row == Project(SpecColumns(q), x);
    assert q.opts.preds[|narrowed.opts.preds|] == FkIn(e, ids);
    FkNotId(e);
    NeedFieldRead(Where(sub, FkIn(e, ids)), FkColumn(e), x);
  }

  lemma JoinSources(db: Database, e: Edge, sub: Query, ids: seq<int>, p: (int, Row))
    requires p in JoinRows(db, e, sub, ids)
    ensures p.0 in ids
  {
    hide SpecColumns, Selected, Links;
    var cols := SpecColumns(sub);
    var all := FlatMap(Linking(db, e, ids, cols), Selected(sub.opts, TableRows(db, sub.table)));
    assert p in all;
    var y :| y in Selected(sub.opts, TableRows(db, sub.table)) && p in LinkPairs(db, e, ids, cols, y);
    var kept := Filter((a: int) => a in ids, Links(db, e, y.id));
    var i :| 0 <= i < |kept| && p == (kept[i], Project(cols, y));
    assert kept[i] in kept;
  }

  lemma {:induction false} FkIdsComplete(e: Edge, rows: seq<Row>, i: nat)
    requires i < |rows| && ReadFk(e, rows[i]).Some?
    ensures ReadFk(e, rows[i]).value in FkIds(e, rows)
  {
    if i < |rows| - 1 {
      FkIdsComplete(e, rows[..|rows| - 1], i);
    }
  }
}
