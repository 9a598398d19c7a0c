/** Query builders as mutable objects: the chained setters, WithX, and Clone. */
module Builder {
  import opened Seqs
  import opened Schema

  /** A builder's value. `locks` are the modifiers that ForUpdate and ForShare
      append; `slots` holds one sub-builder for each requested edge. */
  datatype Plan = Plan(table: Table, opts: Opts, fields: seq<string>, path: Path, locks: seq<string>,
      slots: map<Edge, Plan>)

  /** The edges of an entity in the order the engine loads them. */
  function EdgeOrder(t: Table): seq<Edge> {
    match t
    case Accounts => [GroupsEdge, ProxyEdge, ParentEdge, ChildrenEdge, UsageLogsEdge, LeaseEdge, AccountGroupsEdge]
    case APIKeys => [KeyUserEdge, KeyGroupEdge, KeyUsageLogsEdge]
    case AccountGroups => [AgAccountEdge, AgGroupEdge]
    case _ => []
  }

  /** The query a plan compiles to. */
  function Compile(p: Plan): Query
    decreases p, 1
  {
    Query(p.table, p.opts, p.fields, p.path, CompileSlots(p, EdgeOrder(p.table)))
  }

  function CompileSlots(p: Plan, es: seq<Edge>): Withs
    decreases p, 0, |es|
  {
    if es == [] then Done
    else if es[0] in p.slots then Load(es[0], Compile(p.slots[es[0]]), CompileSlots(p, es[1..]))
    else CompileSlots(p, es[1..])
  }

  /** The plan without any lock, at every depth. */
  function Unlocked(p: Plan): Plan {
    p.(locks := [], slots := map e | e in p.slots :: Unlocked(p.slots[e]))
  }

  predicate NoLocks(p: Plan) {
    p.locks == [] && forall e :: e in p.slots ==> NoLocks(p.slots[e])
  }

  /** Clone preserves a builder's meaning exactly when nothing in it is locked. */
  lemma {:induction false} UnlockedExact(p: Plan)
    ensures Unlocked(p) == p <==> NoLocks(p)
    decreases p
  {
    forall e | e in p.slots ensures Unlocked(p.slots[e]) == p.slots[e] <==> NoLocks(p.slots[e]) {
      UnlockedExact(p.slots[e]);
    }
    var u := map e | e in p.slots :: Unlocked(p.slots[e]);
    if NoLocks(p) {
      assert u == p.slots;
    }
    if Unlocked(p) == p {
      forall e | e in p.slots ensures Unlocked(p.slots[e]) == p.slots[e] {
        assert u[e] == p.slots[e];
      }
    }
  }

  /** Locks do not take part in which rows a plan compiles to. */
  lemma {:induction false} UnlockedCompiles(p: Plan)
    ensures Compile(Unlocked(p)) == Compile(p)
    decreases p, 1
  {
    UnlockedSlots(p, EdgeOrder(p.table));
  }

  lemma {:induction false} UnlockedSlots(p: Plan, es: seq<Edge>)
    ensures CompileSlots(Unlocked(p), es) == CompileSlots(p, es)
    decreases p, 0, |es|
  {
    if es != [] {
      UnlockedSlots(p, es[1..]);
      if es[0] in p.slots {
        UnlockedCompiles(p.slots[es[0]]);
      }
    }
  }

  // ------------------------------------------------------------ operations

  datatype Op =
    | WhereOp(p: Row -> bool)
    | OrderOp(key: Row -> int)
    | LimitOp(n: nat)
    | OffsetOp(n: nat)
    | UniqueOp(u: bool)
    | SelectOp(fields: seq<string>)
    | LockOp(lock: string, postgres: bool)
    | WithOp(edge: Edge, opts: seq<Op>)

  /** `WithX` exists on the builders of the edge's source only. */
  ghost predicate Applicable(op: Op, t: Table) {
    op.WithOp? ==> Source(op.edge) == t && AllApplicable(op.opts, Target(op.edge))
  }

  ghost predicate AllApplicable(ops: seq<Op>, t: Table) {
    forall i :: 0 <= i < |ops| ==> Applicable(ops[i], t)
  }

  function Empty(t: Table): Plan {
    Plan(t, Opts([], [], None, None, None), [], NoPath, [], map[])
  }

  function Step(op: Op, p: Plan): Plan
    decreases op, 0
  {
    match op
    case WhereOp(f) => p.(opts := p.opts.(preds := p.opts.preds + [f]))
    case OrderOp(k) => p.(opts := p.opts.(order := p.opts.order + [k]))
    case LimitOp(n) => p.(opts := p.opts.(limit := Some(n)))
    case OffsetOp(n) => p.(opts := p.opts.(offset := Some(n)))
    case UniqueOp(u) => p.(opts := p.opts.(unique := Some(u)))
    case SelectOp(fs) => p.(fields := p.fields + fs)
    case LockOp(l, postgres) =>
      p.(locks := p.locks + [l], opts := if postgres then p.opts.(unique := Some(false)) else p.opts)
    case WithOp(e, ops) => p.(slots := p.slots[e := Steps(ops, Empty(Target(e)))])
  }

  function Steps(ops: seq<Op>, p: Plan): Plan
    decreases ops, 1, |ops|
  {
    if ops == [] then p else Step(ops[|ops| - 1], Steps(ops[..|ops| - 1], p))
  }

  // --------------------------------------------------------------- objects

  /** QueryContext, which a builder reaches through a pointer. */
  class Context {
    var fields: seq<string>
    var limit: Option<nat>
    var offset: Option<nat>
    var unique: Option<bool>

    constructor (fields: seq<string>, limit: Option<nat>, offset: Option<nat>, unique: Option<bool>)
      ensures this.fields == fields && this.limit == limit && this.offset == offset && this.unique == unique
    {
      this.fields, this.limit, this.offset, this.unique := fields, limit, offset, unique;
    }
  }

  class QueryBuilder {
    const table: Table
    const path: Path
    var ctx: Context
    var predicates: seq<Row -> bool>
    var order: seq<Row -> int>
    var modifiers: seq<string>
    var with: map<Edge, QueryBuilder>
    ghost var Repr: set<object>

    ghost predicate Valid()
      reads this, Repr
      ensures Valid() ==> this in Repr
      decreases Repr
    {
      && this in Repr && ctx in Repr
      && (forall e :: e in with ==> Owns(e))
      && forall e, f :: e in with && f in with && e != f ==> with[e].Repr !! with[f].Repr
    }

    ghost predicate Owns(e: Edge)
      requires e in with && this in Repr
      reads this, Repr
      decreases Repr, 0
    {
      && with[e] in Repr && with[e].Repr < Repr && this !in with[e].Repr && ctx !in with[e].Repr
      && with[e].Valid() && with[e].table == Target(e) && Source(e) == table
    }

    ghost function Abs(): Plan
      requires Valid()
      reads this, Repr
      decreases Repr, 1
    {
      Plan(table, Opts(predicates, order, ctx.limit, ctx.offset, ctx.unique), ctx.fields, path, modifiers,
           map e | e in with :: SlotAbs(e))
    }

    ghost function SlotAbs(e: Edge): Plan
      requires Valid() && e in with
      reads this, Repr
      decreases Repr, 0
    {
      assert Owns(e);
      with[e].Abs()
    }

    lemma SlotFacts(e: Edge)
      requires Valid() && e in with
      ensures Owns(e) && Abs().slots[e] == with[e].Abs()
    {
    }

    lemma SlotsAre(slots: map<Edge, Plan>)
      requires Valid() && slots.Keys == with.Keys
      requires forall e :: e in with ==> Owns(e) && with[e].Abs() == slots[e]
      ensures Abs().slots == slots
    {
      forall e | e in with ensures Abs().slots[e] == slots[e] {
        SlotFacts(e);
      }
    }

    lemma AbsIs()
      requires Valid()
      ensures ctx in Repr && this in Repr
      ensures Abs() ==
        Plan(table, Opts(predicates, order, ctx.limit, ctx.offset, ctx.unique), ctx.fields, path, modifiers,
        Abs().slots)
      ensures Abs().slots.Keys == with.Keys
    {
    }

    /** The sub-builders are untouched by a change of the builder's own fields. */
    twostate lemma SameSlots()
      requires old(Valid()) && with == old(with) && ctx == old(ctx) && Repr == old(Repr)
      requires forall o :: o in Repr && o != this && o != ctx ==> unchanged(o)
      ensures Valid() && Abs().slots == old(Abs().slots)
    {
      assert forall e :: e in with ==> old(Owns(e));
      forall e | e in with ensures Owns(e) && with[e].Abs() == old(Abs().slots)[e] {
        assert old(Abs().slots[e] == with[e].Abs());
      }
      SlotsAre(old(Abs().slots));
    }

    constructor (t: Table)
      ensures Valid() && fresh(Repr) && table == t && Abs() == Empty(t)
    {
      table, path := t, NoPath;
      var c := new Context([], None, None, None);
      ctx, predicates, order, modifiers, with := c, [], [], [], map[];
      Repr := {this, c};
    }

    /** A builder with copied settings and no sub-builders yet. */
    constructor Copy(t: Table, p: Path, preds: seq<Row -> bool>, order: seq<Row -> int>,
                     fields: seq<string>, limit: Option<nat>, offset: Option<nat>, unique: Option<bool>)
      ensures Valid() && fresh(Repr) && table == t
      ensures Abs() == Plan(t, Opts(preds, order, limit, offset, unique), fields, p, [], map[])
    {
      table, path := t, p;
      var c := new Context(fields, limit, offset, unique);
      ctx, predicates, this.order, modifiers, with := c, preds, order, [], map[];
      Repr := {this, c};
    }

    method Where(p: Row -> bool)
      requires Valid()
      modifies this
      ensures Valid() && Repr == old(Repr) && Abs() == Step(WhereOp(p), old(Abs()))
    {
      hide QueryBuilder.Abs, QueryBuilder.Valid;
      AbsIs();
      predicates := predicates + [p];
      SameSlots();
      AbsIs();
    }

    method OrderBy(key: Row -> int)
      requires Valid()
      modifies this
      ensures Valid() && Repr == old(Repr) && Abs() == Step(OrderOp(key), old(Abs()))
    {
      hide QueryBuilder.Abs, QueryBuilder.Valid;
      AbsIs();
      order := order + [key];
      SameSlots();
      AbsIs();
    }

    method Limit(n: nat)
      requires Valid()
      modifies ctx
      ensures Valid() && Repr == old(Repr) && Abs() == Step(LimitOp(n), old(Abs()))
    {
      hide QueryBuilder.Abs, QueryBuilder.Valid;
      AbsIs();
      ctx.limit := Some(n);
      SameSlots();
      AbsIs();
    }

    method Offset(n: nat)
      requires Valid()
      modifies ctx
      ensures Valid() && Repr == old(Repr) && Abs() == Step(OffsetOp(n), old(Abs()))
    {
      hide QueryBuilder.Abs, QueryBuilder.Valid;
      AbsIs();
      ctx.offset := Some(n);
      SameSlots();
      AbsIs();
    }

    method Unique(u: bool)
      requires Valid()
      modifies ctx
      ensures Valid() && Repr == old(Repr) && Abs() == Step(UniqueOp(u), old(Abs()))
    {
      hide QueryBuilder.Abs, QueryBuilder.Valid;
      AbsIs();
      ctx.unique := Some(u);
      SameSlots();
      AbsIs();
    }

    method Select(fields: seq<string>)
      requires Valid()
      modifies ctx
      ensures Valid() && Repr == old(Repr) && Abs() == Step(SelectOp(fields), old(Abs()))
    {
      hide QueryBuilder.Abs, QueryBuilder.Valid;
      AbsIs();
      ctx.fields := ctx.fields + fields;
      SameSlots();
      AbsIs();
    }

    /** ForUpdate and ForShare; on PostgreSQL they also give up DISTINCT. */
    method Lock(lock: string, postgres: bool)
      requires Valid()
      modifies this, ctx
      ensures Valid() && Repr == old(Repr) && Abs() == Step(LockOp(lock, postgres), old(Abs()))
    {
      hide QueryBuilder.Abs, QueryBuilder.Valid;
      AbsIs();
      if postgres {
        ctx.unique := Some(false);
      }
      modifiers := modifiers + [lock];
      SameSlots();
      AbsIs();
    }

    /** The assignment of a configured sub-builder in WithX. */
    method Attach(e: Edge, sub: QueryBuilder)
      requires Valid() && sub.Valid() && sub.Repr !! Repr && sub.table == Target(e) && Source(e) == table
      modifies this
      ensures Valid() && Repr == old(Repr) + sub.Repr
      ensures Abs() == old(Abs()).(slots := old(Abs()).slots[e := old(sub.Abs())])
    {
      hide QueryBuilder.Abs;
      AbsIs();
      ghost var slots := Abs().slots;
      forall f | f in with ensures Owns(f) && with[f].Abs() == slots[f] {
        SlotFacts(f);
      }
      with := with[e := sub];
      Repr := Repr + sub.Repr;
      forall f | f in with ensures Owns(f) && with[f].Abs() == slots[e := old(sub.Abs())][f] {
      }
      SlotsAre(slots[e := old(sub.Abs())]);
      AbsIs();
    }

    lemma SlotsInOrder()
      requires Valid()
      ensures forall e :: e in Abs().slots ==> e in EdgeOrder(table)
    {
      forall e | e in with ensures e in EdgeOrder(table) {
        SlotFacts(e);
      }
    }

    /** The clones of the slots among `es`. */
    ghost function Cloned(p: Plan, es: seq<Edge>): Plan {
      p.(locks := [], slots := map e | e in p.slots && e in es :: Unlocked(p.slots[e]))
    }

    /** Clone: new context, copied lists, recursively cloned sub-builders; the
        path is shared and the modifiers are not copied. */
    method Clone() returns (c: QueryBuilder)
      requires Valid()
      ensures c.Valid() && fresh(c.Repr) && c.table == table
      ensures c.Abs() == Unlocked(Abs())
      decreases Repr, 1
    {
      hide Unlocked, Cloned;
      ghost var p := Abs();
      c := new QueryBuilder.Copy(table, path, predicates, order, ctx.fields, ctx.limit, ctx.offset, ctx.unique);
      var es := EdgeOrder(table);
      ClonedNothing(p, es);
      for i := 0 to |es|
        invariant c.Valid() && fresh(c.Repr) && c.table == table
        invariant Valid() && p == Abs()
        invariant c.Abs() == Cloned(p, es[..i])
      {
        var e := es[i];
        ClonedNext(p, es, i);
        if e in with {
          CloneSlot(e, c, p);
        }
      }
      SlotsInOrder();
      ClonedAll(p, es);
    }

    method CloneSlot(e: Edge, c: QueryBuilder, ghost p: Plan)
      requires Valid() && p == Abs() && e in with
      requires c.Valid() && c.table == table && c.Repr !! Repr
      modifies c
      ensures c.Valid() && c.Repr >= old(c.Repr) && fresh(c.Repr - old(c.Repr))
      ensures c.Abs() == old(c.Abs()).(slots := old(c.Abs()).slots[e := Unlocked(p.slots[e])])
      decreases Repr, 0
    {
      hide Unlocked, QueryBuilder.Abs, QueryBuilder.SlotAbs;
      SlotFacts(e);
      var sub := with[e].Clone();
      c.Attach(e, sub);
    }

    lemma ClonedNothing(p: Plan, es: seq<Edge>)
      ensures Cloned(p, es[..0]) == p.(locks := [], slots := map[])
    {
    }

    lemma ClonedNext(p: Plan, es: seq<Edge>, i: nat)
      requires i < |es|
      ensures Cloned(p, es[..i + 1]) == if es[i] in p.slots
        then Cloned(p, es[..i]).(slots := Cloned(p, es[..i]).slots[es[i] := Unlocked(p.slots[es[i]])])
        else Cloned(p, es[..i])
    {
      assert es[..i + 1] == es[..i] + [es[i]];
    }

    lemma ClonedAll(p: Plan, es: seq<Edge>)
      requires forall e :: e in p.slots ==> e in es
      ensures Cloned(p, es[..|es|]) == Unlocked(p)
    {
      assert es[..|es|] == es;
    }

    /** One chained call. */
    method Apply(op: Op)
      requires Valid() && Applicable(op, table)
      modifies Repr
      ensures Valid() && fresh(Repr - old(Repr))
      ensures Abs() == Step(op, old(Abs()))
      decreases op, 0
    {
      match op
      case WhereOp(f) => Where(f);
      case OrderOp(k) => OrderBy(k);
      case LimitOp(n) => Limit(n);
      case OffsetOp(n) => Offset(n);
      case UniqueOp(u) => Unique(u);
      case SelectOp(fs) => Select(fs);
      case LockOp(l, postgres) => Lock(l, postgres);
      case WithOp(e, ops) => ApplyWith(e, ops);
    }

    /** WithX: a new sub-builder, configured and then stored. */
    method ApplyWith(e: Edge, ops: seq<Op>)
      requires Valid() && Source(e) == table && AllApplicable(ops, Target(e))
      modifies Repr
      ensures Valid() && fresh(Repr - old(Repr))
      ensures Abs() == Step(WithOp(e, ops), old(Abs()))
      decreases ops, 2
    {
      hide Steps, Empty;
      var sub := new QueryBuilder(Target(e));
      sub.ApplyAll(ops);
      Attach(e, sub);
    }

    /** A sequence of chained calls; also the configuration of WithX. */
    method ApplyAll(ops: seq<Op>)
      requires Valid() && AllApplicable(ops, table)
      modifies Repr
      ensures Valid() && fresh(Repr - old(Repr))
      ensures Abs() == Steps(ops, old(Abs()))
      decreases ops, 1
    {
      hide Step;
      ghost var p := Abs();
      for i := 0 to |ops|
        invariant Valid() && fresh(Repr - old(Repr))
        invariant Abs() == Steps(ops[..i], p)
      {
        Apply(ops[i]);
        assert ops[..i + 1][..i] == ops[..i];
      }
      assert ops[..|ops|] == ops;
    }
  }

  /** The calls made on one of two builders. */
  function Side(calls: seq<(bool, Op)>, side: bool): seq<Op> {
    if calls == [] then []
    else
      var rest := Side(calls[..|calls| - 1], side);
      if calls[|calls| - 1].0 == side then rest + [calls[|calls| - 1].1] else rest
  }

  /** Clone independence: whatever is then called on the original and on the
      clone, in any interleaving, each ends as if it had been alone. */
  method CloneThenUse(b: QueryBuilder, calls: seq<(bool, Op)>) returns (c: QueryBuilder)
    requires b.Valid() && forall i :: 0 <= i < |calls| ==> Applicable(calls[i].1, b.table)
    modifies b.Repr
    ensures b.Valid() && c.Valid() && b.Repr !! c.Repr
    ensures b.Abs() == Steps(Side(calls, false), old(b.Abs()))
    ensures c.Abs() == Steps(Side(calls, true), Unlocked(old(b.Abs())))
  {
    hide Step, Unlocked, Steps, Side, QueryBuilder.Abs, QueryBuilder.Valid;
    ghost var p := b.Abs();
    c := b.Clone();
    SideNothing(calls, p);
    SideNothing(calls, Unlocked(p));
    for i := 0 to |calls|
      invariant b.Valid() && c.Valid() && b.Repr !! c.Repr && c.table == b.table
      invariant fresh(b.Repr - old(b.Repr)) && fresh(c.Repr)
      invariant b.Abs() == Steps(Side(calls[..i], false), p)
      invariant c.Abs() == Steps(Side(calls[..i], true), Unlocked(p))
    {
      SideNext(calls, i);
      if calls[i].0 {
        StepsNext(Side(calls[..i], true), calls[i].1, Unlocked(p));
        c.Apply(calls[i].1);
      } else {
        StepsNext(Side(calls[..i], false), calls[i].1, p);
        b.Apply(calls[i].1);
      }
    }
    assert calls[..|calls|] == calls;
  }

  lemma SideNothing(calls: seq<(bool, Op)>, p: Plan)
    ensures forall side :: Steps(Side(calls[..0], side), p) == p
  {
  }

  lemma SideNext(calls: seq<(bool, Op)>, i: nat)
    requires i < |calls|
    ensures Side(calls[..i + 1], calls[i].0) == Side(calls[..i], calls[i].0) + [calls[i].1]
    ensures Side(calls[..i + 1], !calls[i].0) == Side(calls[..i], !calls[i].0)
  {
    assert calls[..i + 1][..i] == calls[..i];
  }

  lemma StepsNext(ops: seq<Op>, op: Op, p: Plan)
    ensures Steps(ops + [op], p) == Step(op, Steps(ops, p))
  {
    assert (ops + [op])[..|ops|] == ops;
  }
}
