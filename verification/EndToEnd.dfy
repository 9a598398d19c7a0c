/** From chained builder calls to loaded entities: what the calls build is always
    a well-typed request, and running it is the naive reading. */
module EndToEnd {
  import opened Seqs
  import opened Schema
  import opened EagerSpec
  import opened EagerTheorems
  import opened EagerFair
  import opened Builder

  /** Sub-builders belong to edges of their owner and start from a table. */
  ghost predicate Typed(p: Plan) {
    forall e :: e in p.slots ==>
      e in EdgeOrder(p.table) && p.slots[e].table == Target(e) && p.slots[e].path.NoPath? && Typed(p.slots[e])
  }

  lemma EdgeOrderSound(t: Table, e: Edge)
    ensures e in EdgeOrder(t) <==> Source(e) == t
    ensures NoDup(EdgeOrder(t))
  {
    var es := EdgeOrder(t);
    assert t == Accounts ==> es[0] == GroupsEdge && es[1] == ProxyEdge && es[2] == ParentEdge && es[3] == ChildrenEdge;
    assert t == Accounts ==> es[4] == UsageLogsEdge && es[5] == LeaseEdge && es[6] == AccountGroupsEdge;
    assert t == APIKeys ==> es[0] == KeyUserEdge && es[1] == KeyGroupEdge && es[2] == KeyUsageLogsEdge;
    assert t == AccountGroups ==> es[0] == AgAccountEdge && es[1] == AgGroupEdge;
  }

  lemma {:induction false} SlotsTyped(p: Plan, i: nat)
    requires Typed(p) && i <= |EdgeOrder(p.table)|
    ensures var w := CompileSlots(p, EdgeOrder(p.table)[i..]);
      && WellTyped(p.table, w)
      && forall e :: e in Edges(w) <==> e in EdgeOrder(p.table)[i..] && e in p.slots
    decreases p, 0, |EdgeOrder(p.table)| - i
  {
    hide EdgeOrder;
    var es := EdgeOrder(p.table);
    if i < |es| {
      var e := es[i];
      EdgeOrderSound(p.table, e);
      assert es[i..][0] == e && es[i..][1..] == es[i + 1..];
      SlotsTyped(p, i + 1);
      if e in p.slots {
        CompiledTyped(p.slots[e]);
      }
    }
  }

  /** What a plan compiles to is well typed, with one load for each slot. */
  lemma {:induction false} CompiledTyped(p: Plan)
    requires Typed(p)
    ensures WellTyped(p.table, Compile(p).with) && Edges(Compile(p).with) == p.slots.Keys
    decreases p, 1
  {
    SlotsTyped(p, 0);
    assert EdgeOrder(p.table)[0..] == EdgeOrder(p.table);
  }

  lemma {:induction false} StepTyped(op: Op, p: Plan)
    requires Typed(p) && Applicable(op, p.table)
    ensures Typed(Step(op, p)) && Step(op, p).table == p.table && Step(op, p).path == p.path
    decreases op, 0
  {
    if op.WithOp? {
      StepsTyped(op.opts, Empty(Target(op.edge)));
      EdgeOrderSound(p.table, op.edge);
    }
  }

  lemma {:induction false} StepsTyped(ops: seq<Op>, p: Plan)
    requires Typed(p) && AllApplicable(ops, p.table)
    ensures Typed(Steps(ops, p)) && Steps(ops, p).table == p.table && Steps(ops, p).path == p.path
    decreases ops, 1, |ops|
  {
    if ops != [] {
      StepsTyped(ops[..|ops| - 1], p);
      StepTyped(ops[|ops| - 1], Steps(ops[..|ops| - 1], p));
    }
  }

  /** Any calls on a new builder, with any nesting of WithX: as long as the windows of
      the eager loads are fair, as they are if there are none, the engine returns what
      one query for each entity and edge would return. */
  lemma CallsAreNaive(db: Database, t: Table, ops: seq<Op>)
    requires ValidDb(db) && AllApplicable(ops, t)
    requires var q := Compile(Steps(ops, Empty(t))); NoWindows(q.with) || FairWindows(db, q.with, QueryNodes(db, q))
    ensures var q := Compile(Steps(ops, Empty(t))); Eval(db, q) == NaiveAll(db, q.with, QueryNodes(db, q))
  {
    StepsTyped(ops, Empty(t));
    var p := Steps(ops, Empty(t));
    CompiledTyped(p);
    var q := Compile(p);
    if NoWindows(q.with) {
      NoWindowsFair(db, q.with, QueryNodes(db, q));
    }
    if HasID(t) {
      QueryUnique(db, q);
    }
    EvalIsNaive(db, q);
  }

  // ------------------------------------------------------------ statements

  /** The statements that running a plan sends, with the modifiers that sqlAll copies
      into them: its own, and one for each requested edge. */
  datatype Statement = Statement(query: Query, modifiers: seq<string>, loads: seq<Statement>)

  function Statements(p: Plan): Statement
    decreases p, 1
  {
    Statement(Compile(p), p.locks, LoadStatements(p, EdgeOrder(p.table)))
  }

  function LoadStatements(p: Plan, es: seq<Edge>): seq<Statement>
    decreases p, 0, |es|
  {
    if es == [] then []
    else (if es[0] in p.slots then [Statements(p.slots[es[0]])] else []) + LoadStatements(p, es[1..])
  }

  /** The same statements without their modifiers. */
  function Unmodified(s: Statement): Statement {
    Statement(s.query, [], seq(|s.loads|, i requires 0 <= i < |s.loads| => Unmodified(s.loads[i])))
  }

  lemma {:induction false} CloneLoads(p: Plan, es: seq<Edge>)
    ensures LoadStatements(Unlocked(p), es) ==
      seq(|LoadStatements(p, es)|, i requires 0 <= i < |LoadStatements(p, es)| => Unmodified(LoadStatements(p, es)[i]))
    decreases p, 0, |es|
  {
    if es != [] {
      CloneLoads(p, es[1..]);
      if es[0] in p.slots {
        CloneStatements(p.slots[es[0]]);
      }
    }
  }

  /** A clone sends the statements of the original without any modifier. */
  lemma {:induction false} CloneStatements(p: Plan)
    ensures Statements(Unlocked(p)) == Unmodified(Statements(p))
    decreases p, 1
  {
    UnlockedCompiles(p);
    CloneLoads(p, EdgeOrder(p.table));
  }

  /** Of the sub-builders for some edges, none is locked. */
  ghost predicate FreeSlots(p: Plan, es: seq<Edge>) {
    forall e :: e in p.slots && e in es ==> NoLocks(p.slots[e])
  }

  lemma {:induction false} LoadsUnmodified(p: Plan, es: seq<Edge>)
    requires Typed(p)
    ensures LoadStatements(Unlocked(p), es) == LoadStatements(p, es) <==> FreeSlots(p, es)
    decreases p, 0, |es|
  {
    hide Statements, LoadStatements, FreeSlots, Unlocked, NoLocks;
    if es == [] {
      NoLoads(p);
    } else {
      var e, rest, u := es[0], es[1..], Unlocked(p);
      LoadsUnmodified(p, rest);
      SameLength(p, rest);
      LoadCons(p, es);
      LoadCons(u, es);
      UnlockedSlot(p, e);
      if e in p.slots {
        SameStatementsExact(p.slots[e]);
        SameCons(Statements(u.slots[e]), Statements(p.slots[e]), LoadStatements(u, rest), LoadStatements(p, rest));
      }
    }
  }

  lemma NoLoads(p: Plan)
    ensures LoadStatements(p, []) == LoadStatements(Unlocked(p), []) && FreeSlots(p, [])
  {
  }

  lemma LoadCons(p: Plan, es: seq<Edge>)
    requires es != []
    ensures var e, rest := es[0], es[1..];
      && LoadStatements(p, es) ==
        (if e in p.slots then [Statements(p.slots[e])] + LoadStatements(p, rest) else LoadStatements(p, rest))
      && (FreeSlots(p, es) <==> (e in p.slots ==> NoLocks(p.slots[e])) && FreeSlots(p, rest))
  {
    hide Statements, NoLocks;
    assert es == [es[0]] + es[1..];
  }

  lemma UnlockedSlot(p: Plan, e: Edge)
    ensures e in Unlocked(p).slots <==> e in p.slots
    ensures e in p.slots ==> Unlocked(p).slots[e] == Unlocked(p.slots[e])
  {
  }

  lemma SameCons<T>(x: T, y: T, s: seq<T>, t: seq<T>)
    requires |s| == |t|
    ensures [x] + s == [y] + t <==> x == y && s == t
  {
    assert ([x] + s)[0] == x && ([x] + s)[1..] == s;
    assert ([y] + t)[0] == y && ([y] + t)[1..] == t;
  }

  lemma {:induction false} SameLength(p: Plan, es: seq<Edge>)
    ensures |LoadStatements(Unlocked(p), es)| == |LoadStatements(p, es)|
    decreases |es|
  {
    hide Statements;
    if es != [] {
      SameLength(p, es[1..]);
    }
  }

  /** So a clone sends the same statements exactly if no builder of the tree is
      locked. */
  lemma {:induction false} SameStatementsExact(p: Plan)
    requires Typed(p)
    ensures Statements(Unlocked(p)) == Statements(p) <==> NoLocks(p)
    decreases p, 1
  {
    UnlockedCompiles(p);
    LoadsUnmodified(p, EdgeOrder(p.table));
    assert FreeSlots(p, EdgeOrder(p.table)) <==> forall e :: e in p.slots ==> NoLocks(p.slots[e]);
  }
}
