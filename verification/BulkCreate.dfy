/** AccountCreateBulk.Save: a chain of mutators, one per builder, each wrapped
    in its hooks and calling the next, with one batch write at the bottom. */
module BulkCreate {
  import opened Seqs
  import opened AccountFields

  datatype Error = Rejected(e: CheckError) | DriverError(code: int) | HookError(code: int) | BuilderError(code: int)

  datatype Outcome = Success | Failure(error: Error)

  /** A hook calls the next mutator at most once. Before that it may refuse or
      answer itself, change the mutation in place, or pass on another mutation
      object; afterwards it may change the outcome. */
  datatype Before = Edit(m: Mutation) | Swap(m: Mutation) | Answer(out: Outcome)
  datatype Hook = Hook(before: Mutation -> Before, after: Outcome -> Outcome)

  datatype BatchResult = Written(ids: seq<Option<int>>) | Refused(code: int)

  /** Hooks per builder, the field validators, and sqlgraph.BatchCreate. */
  datatype Config = Config(hooks: seq<seq<Hook>>, valid: Validator, batch: seq<Mutation> -> BatchResult)

  /** BatchCreate fills in the id of every spec it was given, or none. */
  ghost predicate BatchContract(batch: seq<Mutation> -> BatchResult) {
    forall s :: batch(s).Written? ==> |batch(s).ids| == |s|
  }

  datatype Event = Enter(i: nat, h: nat) | Exit(i: nat, h: nat) | Batch(rows: seq<Mutation>)

  datatype Spec = Spec(fields: Mutation, id: Option<int>)
  datatype Node = Node(fields: Mutation, id: int)

  /** What Save and its closures share. */
  datatype State = State(muts: seq<Mutation>, specs: seq<Option<Spec>>, nodes: seq<Option<Node>>, done: seq<bool>,
      log: seq<Event>)

  ghost predicate Sized(st: State, n: nat) {
    |st.muts| == n && |st.specs| == n && |st.nodes| == n && |st.done| == n
  }

  function Log(st: State, e: Event): State {
    st.(log := st.log + [e])
  }

  /** The mutation a hook or mutator was handed: the builder's own object, or
      another one that a hook passed on. */
  function Content(st: State, i: nat, passed: Option<Mutation>): Mutation
    requires i < |st.muts|
  {
    if passed.Some? then passed.value else st.muts[i]
  }

  function Fields(specs: seq<Option<Spec>>): seq<Mutation> {
    seq(|specs|, i requires 0 <= i < |specs| => if specs[i].Some? then specs[i].value.fields else map[])
  }

  function SetIds(specs: seq<Option<Spec>>, ids: seq<Option<int>>): (r: seq<Option<Spec>>)
    requires |specs| == |ids|
    ensures |r| == |specs|
    ensures forall i :: 0 <= i < |r| ==> r[i] == if specs[i].Some? then Some(specs[i].value.(id := ids[i])) else None
  {
    seq(|specs|, i requires 0 <= i < |specs| => if specs[i].Some? then Some(specs[i].value.(id := ids[i])) else None)
  }

  /** The driver call at the end of the chain. */
  function WriteBatch(cfg: Config, st: State): (State, Outcome) {
    var rows := Fields(st.specs);
    var st' := Log(st, Batch(rows));
    match cfg.batch(rows)
    case Refused(code) => (st', Failure(DriverError(code)))
    case Written(ids) =>
      if |ids| == |st'.specs| then (st'.(specs := SetIds(st'.specs, ids)), Success) else (st', Success)
  }

  /** createSpec and the assignment of builder.mutation. */
  function Prepare(st: State, i: nat, passed: Option<Mutation>): State
    requires i < |st.muts| && i < |st.specs| && i < |st.nodes|
  {
    var m := Content(st, i, passed);
    st.(muts := st.muts[i := m], specs := st.specs[i := Some(Spec(m, None))], nodes := st.nodes[i := Some(Node(m, 0))])
  }

  /** The id and done assignments on the way back. */
  function Finish(st: State, i: nat): State
    requires i < |st.specs| && i < |st.nodes| && i < |st.done|
  {
    var st1 := if st.specs[i].Some? && st.specs[i].value.id.Some? && st.nodes[i].Some?
               then st.(nodes := st.nodes[i := Some(st.nodes[i].value.(id := st.specs[i].value.id.value))])
               else st;
    st1.(done := st1.done[i := true])
  }

  /** The mutator of builder i, after its hooks. */
  function RunExec(cfg: Config, st: State, i: nat, passed: Option<Mutation>): (r: (State, Outcome))
    requires Sized(st, |cfg.hooks|) && i < |cfg.hooks|
    ensures Sized(r.0, |cfg.hooks|)
    decreases |cfg.hooks| - i, 0
  {
    var e := CheckErrors(cfg.valid, st.muts[i]);
    if e.Some? then (st, Failure(Rejected(e.value)))
    else
      var st1 := Prepare(st, i, passed);
      var (st2, out) := if i < |cfg.hooks| - 1 then RunHooks(cfg, st1, i + 1, 0, None) else WriteBatch(cfg, st1);
      if out.Failure? then (st2, out) else (Finish(st2, i), Success)
  }

  /** The hooks of builder i from hook h inwards, then its mutator. */
  function RunHooks(cfg: Config, st: State, i: nat, h: nat, passed: Option<Mutation>): (r: (State, Outcome))
    requires Sized(st, |cfg.hooks|) && i < |cfg.hooks| && h <= |cfg.hooks[i]|
    ensures Sized(r.0, |cfg.hooks|)
    decreases |cfg.hooks| - i, 1, |cfg.hooks[i]| - h
  {
    if h == |cfg.hooks[i]| then RunExec(cfg, st, i, passed)
    else
      var hook := cfg.hooks[i][h];
      var st1 := Log(st, Enter(i, h));
      match hook.before(Content(st1, i, passed))
      case Answer(out) => (Log(st1, Exit(i, h)), out)
      case Edit(m) =>
        var (st2, out) := if passed.Some? then RunHooks(cfg, st1, i, h + 1, Some(m))
                          else RunHooks(cfg, st1.(muts := st1.muts[i := m]), i, h + 1, None);
        (Log(st2, Exit(i, h)), hook.after(out))
      case Swap(m) =>
        var (st2, out) := RunHooks(cfg, st1, i, h + 1, Some(m));
        (Log(st2, Exit(i, h)), hook.after(out))
  }

  function Start(muts: seq<Mutation>): State {
    State(muts, seq(|muts|, i => None), seq(|muts|, i => None), seq(|muts|, i => false), [])
  }

  function WithDefaults(reg: Registry, muts: seq<Mutation>): (r: seq<Mutation>)
    ensures |r| == |muts|
  {
    seq(|muts|, i requires 0 <= i < |muts| => Defaults(reg, muts[i]).0)
  }

  /** Save on builders whose own err field is unset. */
  function RunSave(cfg: Config, reg: Registry, muts: seq<Mutation>): (State, Outcome)
    requires |muts| == |cfg.hooks|
  {
    var st := Start(WithDefaults(reg, muts));
    if |muts| == 0 then (st, Success) else RunHooks(cfg, st, 0, 0, None)
  }

  // ------------------------------------------------------------- the object

  /** A composed mutator: the closure of one builder, or a hook around it. */
  datatype Mutator = Exec(i: nat) | Hooked(i: nat, h: nat, next: Mutator)

  function Composed(cfg: Config, i: nat, h: nat): Mutator
    requires i < |cfg.hooks| && h <= |cfg.hooks[i]|
    decreases |cfg.hooks[i]| - h
  {
    if h == |cfg.hooks[i]| then Exec(i) else Hooked(i, h, Composed(cfg, i, h + 1))
  }

  class AccountCreateBulk {
    const cfg: Config
    const err: Option<Error>
    const reg: Registry
    var muts: seq<Mutation>
    var specs: seq<Option<Spec>>
    var nodes: seq<Option<Node>>
    var mutators: seq<Mutator>
    var done: seq<bool>
    var log: seq<Event>

    ghost function Shared(): State
      reads this
    {
      State(muts, specs, nodes, done, log)
    }

    ghost predicate Ready()
      reads this
    {
      && Sized(Shared(), |cfg.hooks|) && |mutators| == |cfg.hooks|
      && forall i :: 0 <= i < |mutators| ==> mutators[i] == Composed(cfg, i, 0)
    }

    constructor (cfg: Config, reg: Registry, muts: seq<Mutation>, err: Option<Error>)
      ensures this.cfg == cfg && this.reg == reg && this.muts == muts && this.err == err
    {
      this.cfg, this.reg, this.muts, this.err := cfg, reg, muts, err;
      specs, nodes, mutators, done, log := [], [], [], [], [];
    }

    /** A call of a composed mutator; `passed` is the mutation object when it is
        not the builder's own. */
    method Mutate(mut: Mutator, passed: Option<Mutation>) returns (out: Outcome)
      requires Ready() && mut.i < |cfg.hooks|
      requires mut.Hooked? ==> mut.h < |cfg.hooks[mut.i]|
      requires mut == Composed(cfg, mut.i, if mut.Hooked? then mut.h else |cfg.hooks[mut.i]|)
      modifies this
      ensures Ready() && mutators == old(mutators)
      ensures var h := if mut.Hooked? then mut.h else |cfg.hooks[mut.i]|;
        (Shared(), out) == RunHooks(cfg, old(Shared()), mut.i, h, passed)
      decreases |cfg.hooks| - mut.i, 1, mut
    {
      match mut
      case Exec(i) => out := ExecMutator(i, passed);
      case Hooked(i, h, next) =>
        var hook := cfg.hooks[i][h];
        log := log + [Enter(i, h)];
        match hook.before(if passed.Some? then passed.value else muts[i]) {
          case Answer(o) => out := o;
          case Edit(m) =>
            if passed.Some? {
              out := Mutate(next, Some(m));
            } else {
              muts := muts[i := m];
              out := Mutate(next, None);
            }
            out := hook.after(out);
          case Swap(m) =>
            out := Mutate(next, Some(m));
            out := hook.after(out);
        }
        log := log + [Exit(i, h)];
    }

    /** The closure of builder i: check, createSpec, the rest of the chain, and
        the id and done assignments. */
    method ExecMutator(i: nat, passed: Option<Mutation>) returns (out: Outcome)
      requires Ready() && i < |cfg.hooks|
      modifies this
      ensures Ready() && mutators == old(mutators)
      ensures (Shared(), out) == RunExec(cfg, old(Shared()), i, passed)
      decreases |cfg.hooks| - i, 0
    {
      var e := CheckErrors(cfg.valid, muts[i]);
      if e.Some? {
        return Failure(Rejected(e.value));
      }
      if passed.Some? {
        muts := muts[i := passed.value];
      }
      nodes, specs := nodes[i := Some(Node(muts[i], 0))], specs[i := Some(Spec(muts[i], None))];
      assert muts == Prepare(old(Shared()), i, passed).muts;
      assert Shared() == Prepare(old(Shared()), i, passed);
      if i < |mutators| - 1 {
        out := Mutate(mutators[i + 1], None);
      } else {
        out := CallBatch();
      }
      if out.Failure? {
        return;
      }
      if specs[i].Some? && specs[i].value.id.Some? && nodes[i].Some? {
        nodes := nodes[i := Some(nodes[i].value.(id := specs[i].value.id.value))];
      }
      done := done[i := true];
    }

    method CallBatch() returns (out: Outcome)
      requires Ready()
      modifies this
      ensures Ready() && mutators == old(mutators)
      ensures (Shared(), out) == WriteBatch(cfg, old(Shared()))
    {
      var rows := Fields(specs);
      log := log + [Batch(rows)];
      match cfg.batch(rows)
      case Refused(code) => out := Failure(DriverError(code));
      case Written(ids) =>
        if |ids| == |specs| {
          specs := SetIds(specs, ids);
        }
        out := Success;
    }

    /** Save. */
    method Save() returns (out: Outcome)
      requires |muts| == |cfg.hooks|
      modifies this
      ensures err.Some? ==> out == Failure(err.value) && Shared() == old(Shared())
      ensures err.None? ==> (Shared(), out) == RunSave(cfg, reg, old(muts))
    {
      if err.Some? {
        return Failure(err.value);
      }
      ghost var given := muts;
      specs, nodes, done := seq(|muts|, i => None), seq(|muts|, i => None), seq(|muts|, i => false);
      mutators, log := [], [];
      for i := 0 to |muts|
        invariant |muts| == |given| && |mutators| == i
        invariant forall j :: 0 <= j < i ==> muts[j] == Defaults(reg, given[j]).0
        invariant forall j :: i <= j < |muts| ==> muts[j] == given[j]
        invariant forall j :: 0 <= j < i ==> mutators[j] == Composed(cfg, j, 0)
        invariant specs == Start(given).specs && nodes == Start(given).nodes && done == Start(given).done && log == []
      {
        var (m, _) := Defaults(reg, muts[i]);
        muts := muts[i := m];
        var mut := Exec(i);
        for h := |cfg.hooks[i]| downto 0
          invariant mut == Composed(cfg, i, h)
        {
          mut := Hooked(i, h, mut);
        }
        mutators := mutators + [mut];
      }
      assert muts == WithDefaults(reg, given);
      assert Shared() == Start(WithDefaults(reg, given));
      out := Success;
      if |mutators| > 0 {
        out := Mutate(mutators[0], None);
      }
    }
  }

  // ------------------------------------------------------- order of events

  /** The hooks from (i, h) inwards, outermost first, builder after builder. */
  function Positions(hooks: seq<seq<Hook>>, i: nat, h: nat): seq<(nat, nat)>
    decreases |hooks| - i, if i < |hooks| then |hooks[i]| - h else 0
  {
    if i >= |hooks| then []
    else if h < |hooks[i]| then [(i, h)] + Positions(hooks, i, h + 1)
    else Positions(hooks, i + 1, 0)
  }

  function Enters(ps: seq<(nat, nat)>): seq<Event> {
    if ps == [] then [] else [Enter(ps[0].0, ps[0].1)] + Enters(ps[1..])
  }

  /** The exits of the same hooks, last entered first. */
  function Exits(ps: seq<(nat, nat)>): seq<Event> {
    if ps == [] then [] else Exits(ps[1..]) + [Exit(ps[0].0, ps[0].1)]
  }

  /** What a run from (i, h) adds to the log: the first k hooks are entered in
      order and left in reverse, and the batch is written in between only if all
      hooks were entered. */
  ghost predicate Nested(ps: seq<(nat, nat)>, k: nat, mid: seq<Event>, before: seq<Event>, after: seq<Event>)
  {
    && k <= |ps|
    && after == before + Enters(ps[..k]) + mid + Exits(ps[..k])
    && (mid == [] || (k == |ps| && exists rows :: mid == [Batch(rows)]))
  }
}
