/** Traversal chains (QueryParent, QueryChildren, QueryGroups, ...) as
    composition of relations. */
module Traversal {
  import opened Seqs
  import opened Schema

  type Relation = set<(Row, Row)>

  ghost function EdgeRelation(db: Database, e: Edge): Relation {
    set x, y | x in TableRows(db, Source(e)) && y in TableRows(db, Target(e)) && y in Neighbors(db, e, x) :: (x, y)
  }

  ghost function Image(r: Relation, s: set<Row>): set<Row> {
    set p | p in r && p.0 in s :: p.1
  }

  ghost function Then(r: Relation, s: Relation): Relation {
    set p, q | p in r && q in s && p.1 == q.0 :: (p.0, q.1)
  }

  lemma ImageThen(r: Relation, s: Relation, a: set<Row>)
    ensures Image(Then(r, s), a) == Image(s, Image(r, a))
  {
    forall y | y in Image(Then(r, s), a) ensures y in Image(s, Image(r, a)) {
      var t :| t in Then(r, s) && t.0 in a && t.1 == y;
      var p, q :| p in r && q in s && p.1 == q.0 && t == (p.0, q.1);
      assert p.1 in Image(r, a);
    }
    forall y | y in Image(s, Image(r, a)) ensures y in Image(Then(r, s), a) {
      var q :| q in s && q.0 in Image(r, a) && q.1 == y;
      var p :| p in r && p.0 in a && p.1 == q.0;
      assert (p.0, q.1) in Then(r, s);
    }
  }

  /** What the Go types guarantee of a path. */
  ghost predicate TypedPath(q: Query) {
    match q.path
    case NoPath => true
    case Via(prev, e) => Source(e) == prev.table && Target(e) == q.table && TypedPath(prev)
  }

  /** The builder itself is limited, so that its rows depend on their order. */
  predicate Windowed(o: Opts) {
    o.limit.Some? || o.offset.Some?
  }

  ghost function Meeting(preds: seq<Row -> bool>, s: set<Row>): set<Row> {
    set x | x in s && Holds(preds, x)
  }

  /** The meaning of a chain: start from a table, keep what meets the predicates,
      follow each edge's relation. A limited builder on the way counts as a start:
      the rows of its own statement. */
  ghost function Meaning(db: Database, q: Query): set<Row>
    decreases q, 1
  {
    if Windowed(q.opts) then ToSet(SqlQuery(db, q)) else Meeting(q.opts.preds, Start(db, q))
  }

  ghost function Start(db: Database, q: Query): set<Row>
    decreases q, 0
  {
    match q.path
    case NoPath => ToSet(TableRows(db, q.table))
    case Via(prev, e) => Image(EdgeRelation(db, e), Meaning(db, prev))
  }

  lemma NeighborsInTarget(db: Database, e: Edge, x: Row, y: Row)
    requires y in Neighbors(db, e, x)
    ensures y in TableRows(db, Target(e))
  {
    match Kind(e)
    case M2O | O2M | O2O =>
    case M2M =>
      var z :| z in TableRows(db, Target(e)) &&
        y in Map((_: int) => z, Filter((a: int) => a == x.id, Links(db, e, z.id)));
  }

  lemma StepIsImage(db: Database, e: Edge, rows: seq<Row>)
    requires forall x :: x in rows ==> x in TableRows(db, Source(e))
    ensures ToSet(SetNeighbors(db, e, rows)) == Image(EdgeRelation(db, e), ToSet(rows))
  {
    hide Neighbors;
    var r := EdgeRelation(db, e);
    forall y | y in SetNeighbors(db, e, rows) ensures y in Image(r, ToSet(rows)) {
      var x :| x in rows && y in NeighborsOf(db, e)(x);
      NeighborsInTarget(db, e, x, y);
      assert (x, y) in r;
    }
    forall y | y in Image(r, ToSet(rows)) ensures y in SetNeighbors(db, e, rows) {
      var p :| p in r && p.0 in ToSet(rows) && p.1 == y;
      assert y in NeighborsOf(db, e)(p.0);
    }
  }

  lemma {:induction false} BaseInTable(db: Database, q: Query)
    requires TypedPath(q)
    ensures forall x :: x in Base(db, q) ==> x in TableRows(db, q.table)
  {
    match q.path
    case NoPath =>
    case Via(prev, e) =>
      forall y | y in Base(db, q) ensures y in TableRows(db, q.table) {
        var x :| x in SqlQuery(db, prev) && y in NeighborsOf(db, e)(x);
        NeighborsInTarget(db, e, x, y);
      }
  }

  lemma SelectedMembers(o: Opts, base: seq<Row>)
    ensures forall x :: x in Selected(o, base) <==> x in base && Holds(o.preds, x)
  {
    SortByMembers(o.order, Filter(Meets(o.preds), base));
  }

  lemma WindowMembers(limit: Option<nat>, offset: Option<nat>, s: seq<Row>)
    ensures forall x :: x in Window(limit, offset, s) ==> x in s
  {
  }

  lemma SqlQueryInTable(db: Database, q: Query)
    requires TypedPath(q)
    ensures forall x :: x in SqlQuery(db, q) ==> x in TableRows(db, q.table)
  {
    BaseInTable(db, q);
    SelectedMembers(q.opts, Base(db, q));
    WindowMembers(q.opts.limit, q.opts.offset, DistinctIf(q.opts.unique == Some(true), Selected(q.opts, Base(db, q))));
  }

  lemma StatementMembers(db: Database, q: Query)
    requires !Windowed(q.opts)
    ensures ToSet(SqlQuery(db, q)) == Meeting(q.opts.preds, ToSet(Base(db, q)))
  {
    hide Base, Selected;
    SelectedMembers(q.opts, Base(db, q));
    assert SqlQuery(db, q) == DistinctIf(q.opts.unique == Some(true), Selected(q.opts, Base(db, q)));
  }

  /** The compiled statement of any chain of builders selects exactly the rows
      the chain means, whatever the settings of its builders. */
  lemma {:induction false} TraversalMeaning(db: Database, q: Query)
    requires TypedPath(q)
    ensures ToSet(SqlQuery(db, q)) == Meaning(db, q)
    ensures ToSet(Base(db, q)) == Start(db, q)
    decreases q
  {
    hide EdgeRelation, Image, SqlQuery, Meeting, SetNeighbors;
    match q.path {
      case NoPath =>
      case Via(prev, e) =>
        TraversalMeaning(db, prev);
        SqlQueryInTable(db, prev);
        StepIsImage(db, e, SqlQuery(db, prev));
    }
    if !Windowed(q.opts) {
      StatementMembers(db, q);
    }
  }

  const PLAIN := Opts([], [], None, None, None)

  /** A chain of traversal steps from `base`, as the QueryX methods build it. */
  function Chain(base: Query, es: seq<Edge>): Query {
    if es == [] then base
    else Query(Target(es[|es| - 1]), PLAIN, [], Via(Chain(base, es[..|es| - 1]), es[|es| - 1]), Done)
  }

  ghost predicate ChainTyped(t: Table, es: seq<Edge>) {
    && (es != [] ==> Source(es[0]) == t)
    && forall i :: 0 < i < |es| ==> Source(es[i]) == Target(es[i - 1])
  }

  ghost function Composed(db: Database, es: seq<Edge>): Relation
    requires es != []
  {
    if |es| == 1 then EdgeRelation(db, es[0])
    else Then(EdgeRelation(db, es[0]), Composed(db, es[1..]))
  }

  lemma {:induction false} ChainIsTyped(base: Query, es: seq<Edge>)
    requires ChainTyped(base.table, es) && TypedPath(base)
    ensures TypedPath(Chain(base, es))
    ensures es != [] ==> Chain(base, es).table == Target(es[|es| - 1])
  {
    if es != [] {
      ChainIsTyped(base, es[..|es| - 1]);
    }
  }

  lemma {:induction false} ChainMeaning(db: Database, base: Query, es: seq<Edge>)
    requires es != []
    ensures Meaning(db, Chain(base, es)) == Image(Composed(db, es), Meaning(db, base))
  {
    hide EdgeRelation, Image, Then;
    var m := |es| - 1;
    var last := EdgeRelation(db, es[m]);
    assert Meaning(db, Chain(base, es)) == Image(last, Meaning(db, Chain(base, es[..m])));
    if m > 0 {
      ChainMeaning(db, base, es[..m]);
      ComposedSnoc(db, es, Meaning(db, base));
    }
  }

  lemma {:induction false} ComposedSnoc(db: Database, es: seq<Edge>, s: set<Row>)
    requires |es| > 1
    ensures Image(Composed(db, es), s) == Image(EdgeRelation(db, es[|es| - 1]), Image(Composed(db, es[..|es| - 1]), s))
  {
    hide EdgeRelation, Image, Then;
    var m := |es| - 1;
    var first := EdgeRelation(db, es[0]);
    ImageThen(first, Composed(db, es[1..]), s);
    if |es| > 2 {
      ComposedSnoc(db, es[1..], Image(first, s));
      assert es[1..][..m - 1] == es[..m][1..];
      ImageThen(first, Composed(db, es[..m][1..]), s);
    }
  }

  lemma {:induction false} MapIdentity(s: seq<Row>)
    ensures Map(Projecting(None), s) == s
  {
  }

  /** A chain of any length returns, without duplicates, the image of the rows that
      its base selects, limited or not, under the composition of its edges'
      relations. */
  lemma ChainIsComposition(db: Database, base: Query, es: seq<Edge>)
    requires es != [] && ChainTyped(base.table, es) && TypedPath(base)
    ensures ToSet(QueryNodes(db, Chain(base, es))) == Image(Composed(db, es), ToSet(SqlQuery(db, base)))
    ensures ToSet(SqlQuery(db, Chain(base, es))) == Image(Composed(db, es), ToSet(SqlQuery(db, base)))
    ensures NoDup(QueryNodes(db, Chain(base, es)))
  {
    hide Base, Meaning, Image, Composed;
    var q := Chain(base, es);
    ChainIsTyped(base, es);
    ChainMeaning(db, base, es);
    TraversalMeaning(db, base);
    TraversalMeaning(db, q);
    var sel := Selected(q.opts, Base(db, q));
    MapIdentity(sel);
    assert QueryNodes(db, q) == Distinct(sel);
    DistinctNoDup(sel);
    assert SqlQuery(db, q) == sel;
  }
}
