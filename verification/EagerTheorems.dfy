/** The batched engine against the naive reading: with no window on a loaded
    edge, one batched query per edge attaches exactly what one query per row
    would, at every depth of a nested request. */
module EagerTheorems {
  import opened Seqs
  import opened Schema
  import opened EagerSpec

  // ------------------------------------------------- what a scatter leaves

  function HasId(k: int): Tree -> bool {
    (n: Tree) => n.row.id == k
  }

  /** The neighbors whose key resolves to position `i`. */
  function OwnedBy(e: Edge, ids: seq<int>, i: nat): Tree -> bool {
    (n: Tree) => var v := ReadFk(e, n.row); v.Some? && Owner(ids, v.value) == Some(i)
  }

  function ReceivedBy(ids: seq<int>, pairs: seq<(int, Row)>, i: nat): Tree -> bool {
    (n: Tree) => Receives(ids, pairs, i, n.row.id)
  }

  /** A list edge collects its neighbors, a unique edge keeps the last one, and
      a node nobody wrote to is unchanged. */
  function Collect(e: Edge, t: Tree, got: seq<Tree>): Tree {
    if got == [] then t
    else if Kind(e).M2O? || Kind(e).O2O? then SetEdge(t, e, LastOnly(got))
    else SetEdge(t, e, GetEdge(t, e) + got)
  }

  lemma CollectNext(e: Edge, t: Tree, got: seq<Tree>, n: Tree)
    ensures Collect(e, t, got + [n]) == Assign(e, Collect(e, t, got), n)
  {
    assert (got + [n])[|got|..] == [n];
    if Kind(e).M2O? || Kind(e).O2O? {
    } else if got == [] {
      assert got + [n] == [n];
    } else {
      assert GetEdge(t, e) + (got + [n]) == (GetEdge(t, e) + got) + [n];
    }
  }

  /** Many-to-one: each node gets the last neighbor whose id is its key. */
  lemma {:induction false} ScatterM2OAt(e: Edge, nodes: seq<Tree>, ns: seq<Tree>, i: nat)
    requires Kind(e).M2O? && i < |nodes|
    ensures ScatterM2O(e, nodes, ns)[i] ==
      match ReadFk(e, nodes[i].row) { case None => nodes[i] case Some(k) => Collect(e, nodes[i], Filter(HasId(k), ns)) }
  {
    if ns != [] {
      var m := |ns| - 1;
      ScatterM2OAt(e, nodes, ns[..m], i);
      match ReadFk(e, nodes[i].row)
      case None =>
      case Some(k) => CollectNext(e, nodes[i], Filter(HasId(k), ns[..m]), ns[m]);
    }
  }

  /** One-to-many: each node gets, in order, the neighbors that resolve to it. */
  lemma {:induction false} ScatterO2MAt(e: Edge, nodes: seq<Tree>, ns: seq<Tree>, i: nat)
    requires i < |nodes|
    ensures ScatterO2M(e, nodes, ns)[i] == Collect(e, nodes[i], Filter(OwnedBy(e, Ids(RowsOf(nodes)), i), ns))
  {
    if ns != [] {
      var m := |ns| - 1;
      ScatterO2MAt(e, nodes, ns[..m], i);
      CollectNext(e, nodes[i], Filter(OwnedBy(e, Ids(RowsOf(nodes)), i), ns[..m]), ns[m]);
    }
  }

  /** Many-to-many: each node gets, in first-appearance order, the targets that
      were joined to it. */
  lemma {:induction false} ScatterM2MAt(e: Edge, nodes: seq<Tree>, ns: seq<Tree>, pairs: seq<(int, Row)>, i: nat)
    requires i < |nodes|
    ensures ScatterM2M(e, nodes, ns, pairs)[i] ==
      Collect(e, nodes[i], Filter(ReceivedBy(Ids(RowsOf(nodes)), pairs, i), ns))
  {
    if ns != [] {
      var m := |ns| - 1;
      ScatterM2MAt(e, nodes, ns[..m], pairs, i);
      CollectNext(e, nodes[i], Filter(ReceivedBy(Ids(RowsOf(nodes)), pairs, i), ns[..m]), ns[m]);
    }
  }

  function Shares(e: Edge, ids: seq<int>, ns: seq<Tree>): (r: seq<nat>)
    ensures |r| == |ids|
  {
    seq(|ids|, i requires 0 <= i < |ids| => |Filter(OwnedBy(e, ids, i), ns)|)
  }

  lemma ShareNext(e: Edge, ids: seq<int>, ns: seq<Tree>, i: nat)
    requires ns != [] && i < |ids|
    ensures |Filter(OwnedBy(e, ids, i), ns)| ==
      |Filter(OwnedBy(e, ids, i), ns[..|ns| - 1])| + if OwnedBy(e, ids, i)(ns[|ns| - 1]) then 1 else 0
  {
  }

  lemma {:induction false} SumBump(a: seq<nat>, b: seq<nat>, o: nat)
    requires |a| == |b| && o < |a| && b == a[o := a[o] + 1]
    ensures Sum(b) == Sum(a) + 1
  {
    var m := |a| - 1;
    if o == m {
      assert b[..m] == a[..m];
    } else {
      SumBump(a[..m], b[..m], o);
    }
  }

  lemma {:induction false} SumZero(a: seq<nat>)
    requires forall i :: 0 <= i < |a| ==> a[i] == 0
    ensures Sum(a) == 0
  {
    if a != [] {
      SumZero(a[..|a| - 1]);
    }
  }

  /** No neighbor is lost or handed out twice: when every key belongs to some
      node, the shares add up to the number of neighbors. */
  lemma {:induction false} SharesPartition(e: Edge, ids: seq<int>, ns: seq<Tree>)
    requires forall j :: 0 <= j < |ns| ==> ReadFk(e, ns[j].row).Some? && ReadFk(e, ns[j].row).value in ids
    ensures Sum(Shares(e, ids, ns)) == |ns|
  {
    hide Owner, ReadFk;
    if ns == [] {
      SumZero(Shares(e, ids, ns));
    } else {
      var m := |ns| - 1;
      SharesPartition(e, ids, ns[..m]);
      SharesNext(e, ids, ns, Owner(ids, ReadFk(e, ns[m].row).value).value);
    }
  }

  lemma SharesNext(e: Edge, ids: seq<int>, ns: seq<Tree>, o: nat)
    requires ns != [] && ReadFk(e, ns[|ns| - 1].row).Some? && Owner(ids, ReadFk(e, ns[|ns| - 1].row).value) == Some(o)
    ensures Sum(Shares(e, ids, ns)) == Sum(Shares(e, ids, ns[..|ns| - 1])) + 1
  {
    var a, b := Shares(e, ids, ns[..|ns| - 1]), Shares(e, ids, ns);
    forall i | 0 <= i < |ids| ensures b[i] == a[o := a[o] + 1][i] {
      ShareNext(e, ids, ns, i);
    }
    SumBump(a, b, o);
  }

  /** Of several entities with one id, the last one owns what refers to it. */
  lemma OwnerOfLast(ids: seq<int>, i: nat, k: int)
    requires i < |ids|
    ensures ids[i] !in ids[i + 1..] ==> (Owner(ids, k) == Some(i) <==> ids[i] == k)
    ensures ids[i] in ids[i + 1..] ==> Owner(ids, k) != Some(i)
  {
  }

  lemma {:induction false} OwnerWhenUnique(ids: seq<int>, i: nat, k: int)
    requires i < |ids| && NoDup(ids)
    ensures Owner(ids, k) == Some(i) <==> ids[i] == k
  {
  }

  // ------------------------------------- splitting a batched query by key

  predicate NoWindow(o: Opts) {
    NonZero(o.limit).None? && NonZero(o.offset).None?
  }

  lemma MeetsWhere(preds: seq<Row -> bool>, p: Row -> bool, x: Row)
    ensures Holds(preds + [p], x) <==> Holds(preds, x) && p(x)
  {
    assert forall i :: 0 <= i < |preds| ==> (preds + [p])[i] == preds[i];
    assert (preds + [p])[|preds|] == p;
  }

  /** A windowless query narrowed by `p`, then filtered by `g`, is the query
      narrowed by `p'` in the first place. */
  lemma SplitQuery(db: Database, q: Query, p: Row -> bool, p': Row -> bool, g: Row -> bool)
    requires NoWindow(q.opts) && q.path.NoPath?
    requires forall x :: x in TableRows(db, q.table) ==> (p'(x) <==> p(x) && g(Project(SpecColumns(q), x)))
    ensures Filter(g, QueryNodes(db, Where(q, p))) == QueryNodes(db, Where(q, p'))
  {
    var base := TableRows(db, q.table);
    var preds := q.opts.preds;
    var m, m' := Meets(preds + [p]), Meets(preds + [p']);
    assert Base(db, Where(q, p)) == base == Base(db, Where(q, p'));
    assert SpecColumns(Where(q, p)) == SpecColumns(q) == SpecColumns(Where(q, p'));
    forall x | x in base ensures m'(x) <==> m(x) && g(Projecting(SpecColumns(q))(x)) {
      MeetsWhere(preds, p, x);
      MeetsWhere(preds, p', x);
    }
    FilterPipeline(g, Projecting(SpecColumns(q)), SpecUnique(q), q.opts.order, m, m', base);
  }

  function RowHasId(k: int): Row -> bool {
    (r: Row) => r.id == k
  }

  function RowHasFk(e: Edge, k: int): Row -> bool {
    (r: Row) => ReadFk(e, r) == Some(k)
  }

  lemma SplitById(db: Database, sub: Query, ids: seq<int>, k: int)
    requires NoWindow(sub.opts) && sub.path.NoPath? && k in ids
    ensures Filter(RowHasId(k), QueryNodes(db, Where(sub, IdIn(ids)))) == QueryNodes(db, Where(sub, IdIn([k])))
  {
    SplitQuery(db, sub, IdIn(ids), IdIn([k]), RowHasId(k));
  }

  lemma SplitByFk(db: Database, e: Edge, sub: Query, ids: seq<int>, k: int)
    requires NoWindow(sub.opts) && sub.path.NoPath? && k in ids
    ensures var q := NeedField(sub, FkColumn(e));
      Filter(RowHasFk(e, k), QueryNodes(db, Where(q, FkIn(e, ids)))) == QueryNodes(db, Where(q, FkIn(e, [k])))
  {
    var q := NeedField(sub, FkColumn(e));
    var base := TableRows(db, q.table);
    var all := QueryNodes(db, Where(q, FkIn(e, ids)));
    FkNotId(e);
    var strict := (r: Row) => Col(r, FkColumn(e)) == Some(k);
    forall x | x in base ensures FkIn(e, [k])(x) <==> FkIn(e, ids)(x) && strict(Project(SpecColumns(q), x)) {
      NeedFieldRead(sub, FkColumn(e), x);
    }
    SplitQuery(db, q, FkIn(e, ids), FkIn(e, [k]), strict);
    forall r | r in all ensures strict(r) == RowHasFk(e, k)(r) {
      BatchedFk(db, e, sub, ids, r);
    }
    FilterCongruent(strict, RowHasFk(e, k), all);
  }

  lemma SameColumns(q: Query, p: Row -> bool)
    ensures SpecColumns(Where(q, p)) == SpecColumns(q)
  {
  }

  /** A child query's rows carry their key, so a required key never reads as the
      zero of a missing column. */
  lemma BatchedFk(db: Database, e: Edge, sub: Query, ids: seq<int>, r: Row)
    requires r in QueryNodes(db, Where(NeedField(sub, FkColumn(e)), FkIn(e, ids)))
    ensures Col(r, FkColumn(e)).Some? && ReadFk(e, r) == Col(r, FkColumn(e))
  {
    hide QueryNodes, Base, SpecColumns, NeedField;
    var narrowed := NeedField(sub, FkColumn(e));
    var q := Where(narrowed, FkIn(e, ids));
    QueryMembers(db, q, r);
    var x :| x in Base(db, q) && Holds(q.opts.preds, x) && r == Project(SpecColumns(q), x);
    MeetsWhere(narrowed.opts.preds, FkIn(e, ids), x);
    FkNotId(e);
    NeedFieldRead(sub, FkColumn(e), x);
    SameColumns(narrowed, FkIn(e, ids));
  }

  // --------------------------------------------- naive trees as a mapping

  lemma {:induction false} NaiveKeepsRow(db: Database, w: Withs, t: Tree)
    ensures NaiveTree(db, w, t).row == t.row
    decreases w
  {
    match w
    case Done =>
    case Load(e, sub, rest) => NaiveKeepsRow(db, rest, SetEdge(t, e, NaiveEdge(db, e, sub, t.row)));
  }

  lemma NaiveAppend(db: Database, w: Withs, rows: seq<Row>, r: Row)
    ensures NaiveAll(db, w, rows + [r]) == NaiveAll(db, w, rows) + [NaiveTree(db, w, Tree(r, Nothing(w)))]
  {
    hide NaiveTree;
  }

  lemma {:induction false} NaiveFilter(db: Database, w: Withs, p: Tree -> bool, g: Row -> bool, rows: seq<Row>)
    requires forall t: Tree :: t.row in rows ==> p(t) == g(t.row)
    ensures Filter(p, NaiveAll(db, w, rows)) == NaiveAll(db, w, Filter(g, rows))
  {
    hide NaiveTree, NaiveAll, Filter;
    if rows == [] {
      NaiveNothing(db, w);
      FilterNone(p, []);
      FilterNone(g, rows);
    } else {
      var m := |rows| - 1;
      var last := NaiveTree(db, w, Tree(rows[m], Nothing(w)));
      NaiveFilter(db, w, p, g, rows[..m]);
      NaiveAppend(db, w, rows[..m], rows[m]);
      assert rows == rows[..m] + [rows[m]];
      NaiveKeepsRow(db, w, Tree(rows[m], Nothing(w)));
      FilterLast(p, NaiveAll(db, w, rows[..m]), last);
      FilterLast(g, rows[..m], rows[m]);
      NaiveAppend(db, w, Filter(g, rows[..m]), rows[m]);
    }
  }

  lemma NaiveNothing(db: Database, w: Withs)
    ensures NaiveAll(db, w, []) == []
  {
  }

  // --------------------------------------------------- ids of a result

  lemma UniqueIdsPermutation(a: seq<Row>, b: seq<Row>)
    requires UniqueIds(a) && multiset(a) == multiset(b)
    ensures UniqueIds(b)
  {
    assert NoDup(a);
    NoDupMultiset(a);
    NoDupMultiset(b);
    forall i, j | 0 <= i < j < |b| ensures b[i].id != b[j].id {
      assert b[i] in multiset(a) && b[j] in multiset(a);
    }
  }

  lemma {:induction false} UniqueIdsFilter(p: Row -> bool, s: seq<Row>)
    requires UniqueIds(s)
    ensures UniqueIds(Filter(p, s))
  {
    if s != [] {
      var m := |s| - 1;
      UniqueIdsFilter(p, s[..m]);
      var kept := Filter(p, s[..m]);
      forall j | 0 <= j < |kept| ensures kept[j].id != s[m].id {
        assert kept[j] in s[..m];
      }
    }
  }

  lemma SelectedUnique(db: Database, q: Query)
    requires UniqueIds(TableRows(db, q.table))
    ensures UniqueIds(Selected(q.opts, TableRows(db, q.table)))
  {
    var base := TableRows(db, q.table);
    UniqueIdsFilter(Meets(q.opts.preds), base);
    UniqueIdsPermutation(Filter(Meets(q.opts.preds), base), Selected(q.opts, base));
  }

  /** Without a path, DISTINCT removes nothing. */
  lemma DistinctIdle(db: Database, q: Query)
    requires UniqueIds(TableRows(db, q.table)) && q.path.NoPath?
    ensures var mapped := Map(Projecting(SpecColumns(q)), Selected(q.opts, TableRows(db, q.table)));
      UniqueIds(mapped) && QueryNodes(db, q) == SpecWindow(q.opts, mapped)
  {
    hide Selected, Distinct;
    SelectedUnique(db, q);
    var sel := Selected(q.opts, TableRows(db, q.table));
    var mapped := Map(Projecting(SpecColumns(q)), sel);
    forall i, j | 0 <= i < j < |mapped| ensures mapped[i].id != mapped[j].id {
      assert sel[i].id != sel[j].id;
    }
    DistinctIdentity(mapped);
  }

  /** A builder without a path over a table with ids never returns an id twice. */
  lemma QueryUnique(db: Database, q: Query)
    requires UniqueIds(TableRows(db, q.table)) && q.path.NoPath?
    ensures UniqueIds(QueryNodes(db, q))
  {
    hide QueryNodes, Selected;
    DistinctIdle(db, q);
    var mapped := Map(Projecting(SpecColumns(q)), Selected(q.opts, TableRows(db, q.table)));
    UniqueIdsWindow(NonZero(q.opts.limit), NonZero(q.opts.offset), mapped);
  }

  lemma UniqueIdsWindow(limit: Option<nat>, offset: Option<nat>, s: seq<Row>)
    requires UniqueIds(s)
    ensures UniqueIds(Window(limit, offset, s))
  {
  }

  lemma {:induction false} AtMostOne(p: Row -> bool, s: seq<Row>, k: int)
    requires UniqueIds(s) && forall r :: p(r) ==> r.id == k
    ensures |Filter(p, s)| <= 1
  {
    if s != [] {
      var m := |s| - 1;
      AtMostOne(p, s[..m], k);
      if p(s[m]) {
        FilterNone(p, s[..m]);
      }
    }
  }

  // ------------------------------------------------ one edge at a time

  /** What the naive reading makes of one node's edge. */
  function NaiveLoad(db: Database, e: Edge, sub: Query, t: Tree): Tree {
    SetEdge(t, e, NaiveEdge(db, e, sub, t.row))
  }

  lemma CollectFresh(e: Edge, t: Tree, got: seq<Tree>)
    requires e in t.edges && t.edges[e] == []
    requires Kind(e).M2O? ==> |got| <= 1
    ensures Collect(e, t, got) == SetEdge(t, e, if Kind(e).O2O? then LastOnly(got) else got)
  {
    assert t.edges[e := []] == t.edges;
    assert [] + got == got;
  }

  predicate IsEmptyEdge(t: Tree, e: Edge) {
    SetEdge(t, e, []) == t
  }

  lemma SplitNone(db: Database, sub: Query)
    ensures QueryNodes(db, Where(sub, IdIn([]))) == []
  {
    var q := Where(sub, IdIn([]));
    var base := Base(db, q);
    forall x | x in base ensures !Meets(q.opts.preds)(x) {
      MeetsWhere(sub.opts.preds, IdIn([]), x);
    }
    FilterNone(Meets(q.opts.preds), base);
    SortByMembers(q.opts.order, []);
    assert Selected(q.opts, base) == [];
  }

  // ------------------------------------------------- the many-to-many edge

  lemma {:induction false} FirstByIdAppend(a: seq<(int, Row)>, b: seq<(int, Row)>, r: Row)
    requires forall k :: 0 <= k < |b| ==> b[k].1 == r
    requires r.id !in Ids(FirstById(a))
    ensures FirstById(a + b) == FirstById(a) + if b == [] then [] else [r]
  {
    if b == [] {
      assert a + b == a;
    } else {
      var m := |b| - 1;
      FirstByIdAppend(a, b[..m], r);
      assert (a + b)[..|a + b| - 1] == a + b[..m];
      assert Ids(FirstById(a) + [r])[|FirstById(a)|] == r.id;
      if m == 0 {
        assert a + b[..m] == a;
      }
    }
  }

  /** The targets that are linked to one of the ids. */
  function LinkedToAny(db: Database, e: Edge, ids: seq<int>): Row -> bool {
    (y: Row) => exists a :: a in Links(db, e, y.id) && a in ids
  }

  lemma FirstByIdEmpty()
    ensures FirstById([]) == []
  {
  }

  lemma LinkPairsSome(db: Database, e: Edge, ids: seq<int>, cols: Option<seq<string>>, y: Row)
    ensures LinkPairs(db, e, ids, cols, y) != [] <==> LinkedToAny(db, e, ids)(y)
  {
    var b := LinkPairs(db, e, ids, cols, y);
    if b != [] {
      LinkPairsMember(db, e, ids, cols, y, b[0]);
    }
    if LinkedToAny(db, e, ids)(y) {
      var x :| x in Links(db, e, y.id) && x in ids;
      LinkPairsHas(db, e, ids, cols, y, x);
    }
  }

  lemma LastIdNew(g: Row -> bool, cols: Option<seq<string>>, sel: seq<Row>)
    requires UniqueIds(sel) && sel != []
    ensures Project(cols, sel[|sel| - 1]).id !in Ids(Map(Projecting(cols), Filter(g, sel[..|sel| - 1])))
  {
    var kept := Filter(g, sel[..|sel| - 1]);
    forall j | 0 <= j < |kept| ensures Ids(Map(Projecting(cols), kept))[j] != sel[|sel| - 1].id {
      assert kept[j] in sel[..|sel| - 1];
    }
  }

  /** One neighbor per linked target, in the targets' order. */
  lemma {:induction false} JoinTargets(db: Database, e: Edge, ids: seq<int>, cols: Option<seq<string>>, sel: seq<Row>)
    requires UniqueIds(sel)
    ensures FirstById(FlatMap(Linking(db, e, ids, cols), sel)) ==
      Map(Projecting(cols), Filter(LinkedToAny(db, e, ids), sel))
  {
    hide LinkPairs, LinkedToAny, Links, FirstById, Project;
    if sel == [] {
      FirstByIdEmpty();
    } else {
      var m := |sel| - 1;
      var y, f, g := sel[m], Projecting(cols), LinkedToAny(db, e, ids);
      JoinTargets(db, e, ids, cols, sel[..m]);
      var a, b := FlatMap(Linking(db, e, ids, cols), sel[..m]), LinkPairs(db, e, ids, cols, y);
      var kept := Filter(g, sel[..m]);
      LastIdNew(g, cols, sel);
      forall k | 0 <= k < |b| ensures b[k].1 == f(y) {
        LinkPairsMember(db, e, ids, cols, y, b[k]);
      }
      FirstByIdAppend(a, b, f(y));
      LinkPairsSome(db, e, ids, cols, y);
      FilterLast(g, sel[..m], y);
      assert sel == sel[..m] + [y];
      assert Map(f, kept + [y]) == Map(f, kept) + [f(y)];
    }
  }

  lemma JoinReceives(db: Database, e: Edge, ids: seq<int>, cols: Option<seq<string>>, sel: seq<Row>, i: nat, y: Row)
    requires UniqueIds(sel) && i < |ids| && ids[i] !in ids[i + 1..] && y in sel
    ensures Receives(ids, FlatMap(Linking(db, e, ids, cols), sel), i, y.id) <==> ids[i] in Links(db, e, y.id)
  {
    var pairs := FlatMap(Linking(db, e, ids, cols), sel);
    if Receives(ids, pairs, i, y.id) {
      var k :| 0 <= k < |pairs| && pairs[k].1.id == y.id && Owner(ids, pairs[k].0) == Some(i);
      assert pairs[k] in pairs;
      var x :| x in sel && pairs[k] in Linking(db, e, ids, cols)(x);
      LinkPairsMember(db, e, ids, cols, x, pairs[k]);
      SameRow(sel, x, y);
    }
    if ids[i] in Links(db, e, y.id) {
      var p := (ids[i], Project(cols, y));
      LinkPairsHas(db, e, ids, cols, y, ids[i]);
      assert p in Linking(db, e, ids, cols)(y);
      assert p in pairs;
      var k :| 0 <= k < |pairs| && pairs[k] == p;
      OwnerOfLast(ids, i, ids[i]);
    }
  }

  lemma SameRow(s: seq<Row>, x: Row, y: Row)
    requires UniqueIds(s) && x in s && y in s && x.id == y.id
    ensures x == y
  {
  }

  lemma LinkPairsMember(db: Database, e: Edge, ids: seq<int>, cols: Option<seq<string>>, y: Row, p: (int, Row))
    requires p in LinkPairs(db, e, ids, cols, y)
    ensures p.0 in ids && p.0 in Links(db, e, y.id) && p.1 == Project(cols, y)
  {
    var links := Filter((a: int) => a in ids, Links(db, e, y.id));
    var j :| 0 <= j < |links| && p == (links[j], Project(cols, y));
    assert links[j] in links;
  }

  lemma LinkPairsHas(db: Database, e: Edge, ids: seq<int>, cols: Option<seq<string>>, y: Row, a: int)
    requires a in ids && a in Links(db, e, y.id)
    ensures (a, Project(cols, y)) in LinkPairs(db, e, ids, cols, y)
  {
    var links := Filter((x: int) => x in ids, Links(db, e, y.id));
    assert a in links;
    var j :| 0 <= j < |links| && links[j] == a;
    assert LinkPairs(db, e, ids, cols, y)[j] == (a, Project(cols, y));
  }

  function RowReceivedBy(ids: seq<int>, pairs: seq<(int, Row)>, i: nat): Row -> bool {
    (r: Row) => Receives(ids, pairs, i, r.id)
  }

  /** The neighbors of one node in the batch are its own linked targets. */
  lemma SplitJoin(db: Database, e: Edge, sub: Query, ids: seq<int>, i: nat)
    requires UniqueIds(TableRows(db, sub.table)) && sub.path.NoPath? && NoWindow(sub.opts)
    requires i < |ids| && ids[i] !in ids[i + 1..]
    ensures var pairs := JoinRows(db, e, sub, ids);
      Filter(RowReceivedBy(ids, pairs, i), FirstById(pairs)) == QueryNodes(db, Where(sub, LinkedTo(db, e, ids[i])))
  {
    hide QueryNodes, Selected, FirstById, Receives, FlatMap, Filter, Map, SpecColumns;
    var cols, sel := SpecColumns(sub), Selected(sub.opts, TableRows(db, sub.table));
    SelectedUnique(db, sub);
    var pairs := FlatMap(Linking(db, e, ids, cols), sel);
    var any, one, g, f :=
      LinkedToAny(db, e, ids), LinkedTo(db, e, ids[i]), RowReceivedBy(ids, pairs, i), Projecting(cols);
    JoinTargets(db, e, ids, cols, sel);
    FilterMap(g, f, Filter(any, sel));
    FilterFilter(Compose(g, f), any, sel);
    forall y | y in sel ensures And(Compose(g, f), any)(y) == one(y) {
      JoinReceives(db, e, ids, cols, sel, i, y);
      assert ids[i] in ids;
    }
    FilterCongruent(And(Compose(g, f), any), one, sel);
    NarrowedSelection(db, sub, one);
  }

  lemma SelectedWhere(o: Opts, p: Row -> bool, base: seq<Row>)
    ensures Selected(o.(preds := o.preds + [p]), base) == Filter(p, Selected(o, base))
  {
    var m, m' := Meets(o.preds), Meets(o.preds + [p]);
    FilterSortBy(p, o.order, Filter(m, base));
    FilterFilter(p, m, base);
    forall x | x in base ensures And(p, m)(x) == m'(x) {
      MeetsWhere(o.preds, p, x);
    }
    FilterCongruent(And(p, m), m', base);
  }

  lemma NarrowedSelection(db: Database, sub: Query, p: Row -> bool)
    requires UniqueIds(TableRows(db, sub.table)) && sub.path.NoPath? && NoWindow(sub.opts)
    ensures QueryNodes(db, Where(sub, p)) ==
      Map(Projecting(SpecColumns(sub)), Filter(p, Selected(sub.opts, TableRows(db, sub.table))))
  {
    hide QueryNodes, Selected;
    DistinctIdle(db, Where(sub, p));
    SelectedWhere(sub.opts, p, TableRows(db, sub.table));
  }

  lemma {:induction false} FirstByIdUnique(pairs: seq<(int, Row)>)
    ensures UniqueIds(FirstById(pairs))
  {
    if pairs != [] {
      var m := |pairs| - 1;
      FirstByIdUnique(pairs[..m]);
      var seen, r := FirstById(pairs[..m]), pairs[m].1;
      forall j | 0 <= j < |seen| && r.id !in Ids(seen) ensures seen[j].id != r.id {
        assert Ids(seen)[j] == seen[j].id;
      }
    }
  }
}
