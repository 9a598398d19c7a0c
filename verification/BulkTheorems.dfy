/** Order, atomicity and validity of a bulk create, for arbitrary hooks that
    call the next mutator at most once. */
module BulkTheorems {
  import opened Seqs
  import opened AccountFields
  import opened BulkCreate

  /** A hook neither swallows an error nor pretends to have written. */
  ghost predicate Honest(cfg: Config) {
    forall i, h :: 0 <= i < |cfg.hooks| && 0 <= h < |cfg.hooks[i]| ==> HonestHook(cfg.hooks[i][h])
  }

  ghost predicate HonestHook(hook: Hook) {
    && (forall o: Outcome :: o.Failure? ==> hook.after(o).Failure?)
    && forall m :: hook.before(m) != Answer(Success)
  }

  /** What the hooks from (i, h) inwards make of a written batch on the way back. */
  function Unwound(hooks: seq<seq<Hook>>, i: nat, h: nat): Outcome
    requires i < |hooks| && h <= |hooks[i]|
    decreases |hooks| - i, |hooks[i]| - h
  {
    if h < |hooks[i]| then hooks[i][h].after(Unwound(hooks, i, h + 1))
    else if i + 1 < |hooks| then Unwound(hooks, i + 1, 0)
    else Success
  }

  /** The outcome that the mutator of builder j sees from everything behind it. */
  function Behind(hooks: seq<seq<Hook>>, j: nat): Outcome
    requires j < |hooks|
  {
    Unwound(hooks, j, |hooks[j]|)
  }

  ghost predicate Prepared(st: State, i: nat)
    requires Sized(st, |st.muts|)
  {
    i <= |st.muts| &&
      forall j :: 0 <= j < i ==> st.specs[j] == Some(Spec(st.muts[j], None)) && st.nodes[j] == Some(Node(st.muts[j], 0))
  }

  ghost predicate Committed(cfg: Config, mid: seq<Event>) {
    |mid| == 1 && mid[0].Batch? && cfg.batch(mid[0].rows).Written?
  }

  /** The batch holds one prepared spec per builder. */
  ghost predicate Complete(cfg: Config, r: State, mid: seq<Event>)
    requires Sized(r, |cfg.hooks|)
  {
    |mid| == 1 && mid[0].Batch? ==>
      && mid[0].rows == r.muts
      && (forall j :: 0 <= j < |r.specs| ==> r.specs[j].Some? && r.specs[j].value.fields == r.muts[j])
      && (Committed(cfg, mid) ==>
            var ids := cfg.batch(r.muts).ids;
            |ids| == |r.specs| && forall j :: 0 <= j < |r.specs| ==> r.specs[j].value.id == ids[j])
  }

  /** Builders below i are as they were. */
  ghost predicate Kept(n: nat, st: State, r: State, i: nat)
    requires Sized(st, n) && Sized(r, n) && i <= n
  {
    forall j :: 0 <= j < i ==> r.muts[j] == st.muts[j] && r.nodes[j] == st.nodes[j] && r.done[j] == st.done[j]
  }

  /** Builder j is finished with the id of its own spec. */
  ghost predicate Finished(cfg: Config, r: State, j: nat)
    requires Sized(r, |cfg.hooks|) && j < |cfg.hooks|
  {
    r.done[j] && r.specs[j].Some? &&
      r.nodes[j] == Some(Node(r.muts[j], if r.specs[j].value.id.Some? then r.specs[j].value.id.value else 0))
  }

  /** Everything a run from builder i establishes. */
  ghost predicate Result(cfg: Config, st: State, r: State, out: Outcome, i: nat, mid: seq<Event>, honest: bool,
      back: Outcome)
    requires Sized(st, |cfg.hooks|) && Sized(r, |cfg.hooks|) && i <= |cfg.hooks|
  {
    && Complete(cfg, r, mid) && Kept(|cfg.hooks|, st, r, i)
    && (Committed(cfg, mid) ==>
          && out == back
          && forall j :: i <= j < |cfg.hooks| ==> if Behind(cfg.hooks, j).Success? then Finished(cfg, r, j)
               else r.done[j] == st.done[j])
    && (honest && !Committed(cfg, mid) ==>
          out.Failure? && forall j :: i <= j < |cfg.hooks| ==> r.done[j] == st.done[j])
  }

  // ------------------------------------------------------ nested events

  lemma NestedWrap(p: (nat, nat), ps: seq<(nat, nat)>, k: nat, mid: seq<Event>, before: seq<Event>, after: seq<Event>)
    requires Nested(ps, k, mid, before + [Enter(p.0, p.1)], after)
    ensures Nested([p] + ps, k + 1, mid, before, after + [Exit(p.0, p.1)])
  {
    var a := ([p] + ps)[..k + 1];
    assert a == [p] + ps[..k];
    assert a[1..] == ps[..k];
  }

  lemma NestedAnswer(p: (nat, nat), ps: seq<(nat, nat)>, before: seq<Event>)
    ensures Nested([p] + ps, 1, [], before, before + [Enter(p.0, p.1)] + [Exit(p.0, p.1)])
  {
    var a := ([p] + ps)[..1];
    assert a == [p];
    assert a[1..] == [];
    assert Enters([]) == [] && Exits([]) == [];
  }

  lemma NestedNothing(ps: seq<(nat, nat)>, before: seq<Event>)
    ensures Nested(ps, 0, [], before, before)
  {
    assert ps[..0] == [];
    assert Enters([]) == [] && Exits([]) == [];
    assert before + [] + [] + [] == before;
  }

  lemma NestedBatch(rows: seq<Mutation>, before: seq<Event>)
    ensures Nested([], 0, [Batch(rows)], before, before + [Batch(rows)])
  {
    var ps: seq<(nat, nat)> := [];
    assert ps[..0] == [];
    assert Enters([]) == [] && Exits([]) == [];
    assert before + [] + [Batch(rows)] + [] == before + [Batch(rows)];
  }

  // ----------------------------------------------------------- the chain

  lemma BatchRun(cfg: Config, st: State, honest: bool) returns (mid: seq<Event>)
    requires Sized(st, |cfg.hooks|) && BatchContract(cfg.batch) && Prepared(st, |cfg.hooks|)
    ensures var (r, out) := WriteBatch(cfg, st);
      && Sized(r, |cfg.hooks|) && Nested([], 0, mid, st.log, r.log)
      && Result(cfg, st, r, out, |cfg.hooks|, mid, honest, Success)
  {
    var rows := Fields(st.specs);
    assert rows == st.muts;
    mid := [Batch(rows)];
    NestedBatch(rows, st.log);
  }

  /** The closure of builder i, given the run of everything behind it. */
  lemma FinishRun(cfg: Config, st: State, st2: State, out: Outcome, i: nat, mid: seq<Event>, honest: bool)
    requires Sized(st, |cfg.hooks|) && Sized(st2, |cfg.hooks|) && i < |cfg.hooks| && Prepared(st, i + 1)
    requires Result(cfg, st, st2, out, i + 1, mid, honest, Behind(cfg.hooks, i))
    ensures var r := if out.Failure? then st2 else Finish(st2, i);
      Result(cfg, st, r, out, i, mid, honest, Behind(cfg.hooks, i))
  {
    if Committed(cfg, mid) && out.Success? {
      var r := Finish(st2, i);
      assert st2.specs[i].Some? && st2.nodes[i] == Some(Node(st2.muts[i], 0));
      assert Finished(cfg, r, i);
      forall j | i <= j < |cfg.hooks| && Behind(cfg.hooks, j).Success? ensures Finished(cfg, r, j) {
        assert j > i ==> Finished(cfg, st2, j);
      }
    }
  }

  lemma ResultFrom(cfg: Config, st: State, st1: State, r: State, out: Outcome, i: nat, mid: seq<Event>, honest: bool,
      back: Outcome)
    requires Sized(st, |cfg.hooks|) && Sized(st1, |cfg.hooks|) && Sized(r, |cfg.hooks|) && i <= |cfg.hooks|
    requires Result(cfg, st1, r, out, i, mid, honest, back)
    requires Kept(|cfg.hooks|, st, st1, i) && st1.done == st.done
    ensures Result(cfg, st, r, out, i, mid, honest, back)
  {
  }

  /** A hook around a run: the log grows, and the outcome is the hook's to change. */
  lemma ResultAfter(cfg: Config, st: State, r: State, out: Outcome, hook: Hook, e: Event, i: nat, mid: seq<Event>,
      honest: bool, back: Outcome)
    requires Sized(st, |cfg.hooks|) && Sized(r, |cfg.hooks|) && i <= |cfg.hooks|
    requires Result(cfg, st, r, out, i, mid, honest, back)
    requires honest ==> HonestHook(hook)
    ensures Result(cfg, st, Log(r, e), hook.after(out), i, mid, honest, hook.after(back))
  {
    if Committed(cfg, mid) {
      forall j | i <= j < |cfg.hooks| && Behind(cfg.hooks, j).Success? ensures Finished(cfg, Log(r, e), j) {
        assert Finished(cfg, r, j);
      }
    }
  }

  lemma NothingRun(cfg: Config, st: State, r: State, out: Outcome, i: nat, honest: bool, back: Outcome)
    requires Sized(st, |cfg.hooks|) && i <= |cfg.hooks| && (honest ==> out.Failure?)
    requires r == st.(log := r.log)
    ensures Result(cfg, st, r, out, i, [], honest, back)
  {
  }

  lemma PrepareKeeps(cfg: Config, st: State, i: nat, passed: Option<Mutation>)
    requires Sized(st, |cfg.hooks|) && i < |cfg.hooks| && Prepared(st, i)
    ensures var st1 := Prepare(st, i, passed);
      Sized(st1, |cfg.hooks|) && Prepared(st1, i + 1) && Kept(|cfg.hooks|, st, st1, i) && st1.done == st.done &&
        st1.log == st.log
  {
  }

  lemma FinishSized(cfg: Config, st: State, i: nat)
    requires Sized(st, |cfg.hooks|) && i < |cfg.hooks|
    ensures Sized(Finish(st, i), |cfg.hooks|) && Finish(st, i).log == st.log
  {
  }

  lemma {:induction false} ExecRun(cfg: Config, st: State, i: nat, passed: Option<Mutation>)
      returns (k: nat, mid: seq<Event>)
    requires Sized(st, |cfg.hooks|) && i < |cfg.hooks| && BatchContract(cfg.batch) && Prepared(st, i)
    ensures var (r, out) := RunExec(cfg, st, i, passed);
      && Nested(Positions(cfg.hooks, i + 1, 0), k, mid, st.log, r.log)
      && Result(cfg, st, r, out, i, mid, Honest(cfg), Behind(cfg.hooks, i))
    decreases |cfg.hooks| - i, 0
  {
    hide Honest, Result, Nested, WriteBatch, Prepare, Prepared, Kept, BatchContract, Finish, CheckErrors;
    var honest, back := Honest(cfg), Behind(cfg.hooks, i);
    if CheckErrors(cfg.valid, st.muts[i]).Some? {
      k, mid := 0, [];
      NestedNothing(Positions(cfg.hooks, i + 1, 0), st.log);
      NothingRun(cfg, st, st, Failure(Rejected(CheckErrors(cfg.valid, st.muts[i]).value)), i, honest, back);
    } else {
      var st1 := Prepare(st, i, passed);
      PrepareKeeps(cfg, st, i, passed);
      var st2, out;
      if i < |cfg.hooks| - 1 {
        k, mid := HooksRun(cfg, st1, i + 1, 0, None);
        st2, out := RunHooks(cfg, st1, i + 1, 0, None).0, RunHooks(cfg, st1, i + 1, 0, None).1;
      } else {
        k := 0;
        mid := BatchRun(cfg, st1, honest);
        st2, out := WriteBatch(cfg, st1).0, WriteBatch(cfg, st1).1;
      }
      FinishRun(cfg, st1, st2, out, i, mid, honest);
      FinishSized(cfg, st2, i);
      ResultFrom(cfg, st, st1, if out.Failure? then st2 else Finish(st2, i), out, i, mid, honest, back);
    }
  }

  lemma {:induction false} HooksRun(cfg: Config, st: State, i: nat, h: nat, passed: Option<Mutation>)
      returns (k: nat, mid: seq<Event>)
    requires Sized(st, |cfg.hooks|) && i < |cfg.hooks| && h <= |cfg.hooks[i]|
    requires BatchContract(cfg.batch) && Prepared(st, i)
    ensures var (r, out) := RunHooks(cfg, st, i, h, passed);
      && Nested(Positions(cfg.hooks, i, h), k, mid, st.log, r.log)
      && Result(cfg, st, r, out, i, mid, Honest(cfg), Unwound(cfg.hooks, i, h))
    decreases |cfg.hooks| - i, 1, |cfg.hooks[i]| - h
  {
    hide Result, Nested, RunExec, HonestHook;
    var honest, back := Honest(cfg), Unwound(cfg.hooks, i, h);
    if h == |cfg.hooks[i]| {
      k, mid := ExecRun(cfg, st, i, passed);
    } else {
      var hook, p, ps := cfg.hooks[i][h], (i, h), Positions(cfg.hooks, i, h + 1);
      var st1 := Log(st, Enter(i, h));
      match hook.before(Content(st1, i, passed))
      case Answer(out) =>
        k, mid := 1, [];
        NestedAnswer(p, ps, st.log);
        AnswerFails(hook, Content(st1, i, passed), honest);
        NothingRun(cfg, st, Log(st1, Exit(i, h)), out, i, honest, back);
      case Edit(x) =>
        var st1' := if passed.Some? then st1 else st1.(muts := st1.muts[i := x]);
        var next := if passed.Some? then Some(x) else None;
        k, mid := HooksRun(cfg, st1', i, h + 1, next);
        var (st2, out) := RunHooks(cfg, st1', i, h + 1, next);
        NestedWrap(p, ps, k, mid, st.log, st2.log);
        ResultFrom(cfg, st, st1', st2, out, i, mid, honest, Unwound(cfg.hooks, i, h + 1));
        ResultAfter(cfg, st, st2, out, hook, Exit(i, h), i, mid, honest, Unwound(cfg.hooks, i, h + 1));
        k := k + 1;
      case Swap(x) =>
        k, mid := HooksRun(cfg, st1, i, h + 1, Some(x));
        var (st2, out) := RunHooks(cfg, st1, i, h + 1, Some(x));
        NestedWrap(p, ps, k, mid, st.log, st2.log);
        ResultFrom(cfg, st, st1, st2, out, i, mid, honest, Unwound(cfg.hooks, i, h + 1));
        ResultAfter(cfg, st, st2, out, hook, Exit(i, h), i, mid, honest, Unwound(cfg.hooks, i, h + 1));
        k := k + 1;
    }
  }

  lemma AnswerFails(hook: Hook, m: Mutation, honest: bool)
    requires hook.before(m).Answer? && (honest ==> HonestHook(hook))
    ensures honest ==> hook.before(m).out.Failure?
  {
  }
}
