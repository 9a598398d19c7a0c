/** What a bulk Save does: the order of hook events, which builders end up done,
    what reaches the database, and what does not. */
module BulkSave {
  import opened Seqs
  import opened AccountFields
  import opened BulkCreate
  import opened BulkTheorems

  // ------------------------------------------------------ order of hooks

  ghost predicate Before(p: (nat, nat), q: (nat, nat)) {
    p.0 < q.0 || (p.0 == q.0 && p.1 < q.1)
  }

  /** Positions lists exactly the hooks from (i, h) inwards. */
  lemma {:induction false} PositionsAll(hooks: seq<seq<Hook>>, i: nat, h: nat, p: (nat, nat))
    ensures p in Positions(hooks, i, h) <==> p.0 < |hooks| && p.1 < |hooks[p.0]| && !Before(p, (i, h))
    decreases |hooks| - i, if i < |hooks| then |hooks[i]| - h else 0
  {
    if i < |hooks| {
      if h < |hooks[i]| {
        PositionsAll(hooks, i, h + 1, p);
      } else {
        PositionsAll(hooks, i + 1, 0, p);
      }
    }
  }

  /** Builder by builder, outermost hook first, each once. */
  lemma {:induction false} PositionsOrdered(hooks: seq<seq<Hook>>, i: nat, h: nat, a: nat, b: nat)
    requires a < b < |Positions(hooks, i, h)|
    ensures Before(Positions(hooks, i, h)[a], Positions(hooks, i, h)[b])
    decreases |hooks| - i, if i < |hooks| then |hooks[i]| - h else 0
  {
    if h < |hooks[i]| {
      var rest := Positions(hooks, i, h + 1);
      if a > 0 {
        PositionsOrdered(hooks, i, h + 1, a - 1, b - 1);
      } else {
        PositionsAll(hooks, i, h + 1, rest[b - 1]);
      }
    } else {
      PositionsOrdered(hooks, i + 1, 0, a, b);
    }
  }

  /** Exits are the exact reverse of the enters. */
  lemma {:induction false} ExitsReverse(ps: seq<(nat, nat)>)
    ensures |Enters(ps)| == |Exits(ps)| == |ps|
    ensures forall k :: 0 <= k < |ps| ==> Enters(ps)[k] == Enter(ps[k].0, ps[k].1)
    ensures forall k :: 0 <= k < |ps| ==> Exits(ps)[|ps| - 1 - k] == Exit(ps[k].0, ps[k].1)
  {
    if ps != [] {
      ExitsReverse(ps[1..]);
    }
  }

  // -------------------------------------------------------- whole runs

  /** A run of Save, for arbitrary hooks: the first k hooks are entered in order
      and left in reverse; the batch is written at most once, only below all
      hooks, with one completed spec per builder. */
  lemma SaveTrace(cfg: Config, reg: Registry, muts: seq<Mutation>) returns (k: nat, mid: seq<Event>)
    requires |muts| == |cfg.hooks| && BatchContract(cfg.batch)
    ensures var (r, out) := RunSave(cfg, reg, muts); var all := Positions(cfg.hooks, 0, 0);
      && k <= |all| && r.log == Enters(all[..k]) + mid + Exits(all[..k])
      && (mid == [] || (k == |all| && mid == [Batch(r.muts)]))
      && (mid != [] ==> forall j :: 0 <= j < |r.specs| ==> r.specs[j].Some? && r.specs[j].value.fields == r.muts[j])
  {
    k, mid := SaveRun(cfg, reg, muts);
  }

  lemma SaveRun(cfg: Config, reg: Registry, muts: seq<Mutation>) returns (k: nat, mid: seq<Event>)
    requires |muts| == |cfg.hooks| && BatchContract(cfg.batch)
    ensures var (r, out) := RunSave(cfg, reg, muts);
      && Sized(r, |muts|) && Nested(Positions(cfg.hooks, 0, 0), k, mid, [], r.log)
      && (muts == [] ==> mid == [])
      && (muts != [] ==>
        Result(cfg, Start(WithDefaults(reg, muts)), r, out, 0, mid, Honest(cfg), Unwound(cfg.hooks, 0, 0)))
  {
    if muts == [] {
      k, mid := 0, [];
      NestedNothing(Positions(cfg.hooks, 0, 0), []);
    } else {
      k, mid := HooksRun(cfg, Start(WithDefaults(reg, muts)), 0, 0, None);
    }
  }

  /** The rows were written. */
  ghost predicate Wrote(cfg: Config, st: State) {
    Batch(st.muts) in st.log && cfg.batch(st.muts).Written?
  }

  lemma WroteIsCommitted(cfg: Config, st: State, k: nat, mid: seq<Event>)
    requires Nested(Positions(cfg.hooks, 0, 0), k, mid, [], st.log)
    requires Sized(st, |cfg.hooks|) && Complete(cfg, st, mid)
    ensures Wrote(cfg, st) <==> Committed(cfg, mid)
    ensures (exists rows :: Batch(rows) in st.log) <==> mid != []
  {
    var ps := Positions(cfg.hooks, 0, 0)[..k];
    ExitsReverse(ps);
    forall e | e in Exits(ps) ensures e.Exit? {
      var x :| 0 <= x < |ps| && Exits(ps)[x] == e;
      var y := |ps| - 1 - x;
      assert Exits(ps)[|ps| - 1 - y] == Exit(ps[y].0, ps[y].1);
    }
    if mid != [] {
      assert mid[0] in st.log;
    }
  }

  function NodeWith(m: Mutation, id: Option<int>): Node {
    Node(m, if id.Some? then id.value else 0)
  }

  /** Which builders are done, and how Save ends. When the batch was written,
      builder j is done exactly if the hooks behind it kept the success on its way
      back, and carries the id of its own row, for arbitrary hooks. When it was not,
      honest hooks report that, and nobody is done. */
  lemma SaveOutcome(cfg: Config, reg: Registry, muts: seq<Mutation>)
    requires |muts| == |cfg.hooks| && muts != [] && BatchContract(cfg.batch)
    ensures var (r, out) := RunSave(cfg, reg, muts);
      && Sized(r, |muts|)
      && (Wrote(cfg, r) ==>
            && out == Unwound(cfg.hooks, 0, 0)
            && |cfg.batch(r.muts).ids| == |muts|
            && forall j :: 0 <= j < |muts| ==>
                 && (r.done[j] <==> Behind(cfg.hooks, j).Success?)
                 && (r.done[j] ==> r.nodes[j] == Some(NodeWith(r.muts[j], cfg.batch(r.muts).ids[j]))))
      && (!Wrote(cfg, r) && Honest(cfg) ==> out.Failure? && forall j :: 0 <= j < |muts| ==> !r.done[j])
  {
    var k, mid := SaveRun(cfg, reg, muts);
    var (r, out) := RunSave(cfg, reg, muts);
    WroteIsCommitted(cfg, r, k, mid);
    if Wrote(cfg, r) {
      forall j | 0 <= j < |muts| && Behind(cfg.hooks, j).Success?
        ensures r.done[j] && r.nodes[j] == Some(NodeWith(r.muts[j], cfg.batch(r.muts).ids[j]))
      {
        assert Finished(cfg, r, j);
      }
    }
  }

  /** A failure on the way back stays one for every builder further out. */
  lemma {:induction false} UnwoundFails(cfg: Config, i: nat, h: nat, j: nat)
    requires i < |cfg.hooks| && h <= |cfg.hooks[i]| && i <= j < |cfg.hooks| && Honest(cfg)
    requires Behind(cfg.hooks, j).Failure?
    ensures Unwound(cfg.hooks, i, h).Failure?
    decreases |cfg.hooks| - i, |cfg.hooks[i]| - h
  {
    if h < |cfg.hooks[i]| {
      UnwoundFails(cfg, i, h + 1, j);
      assert HonestHook(cfg.hooks[i][h]);
    } else if i < j {
      UnwoundFails(cfg, i + 1, 0, j);
    }
  }

  /** The finished builders are always the last ones of the list. */
  lemma DoneIsSuffix(cfg: Config, reg: Registry, muts: seq<Mutation>, i: nat, j: nat)
    requires |muts| == |cfg.hooks| && BatchContract(cfg.batch) && Honest(cfg) && i <= j < |muts|
    ensures var r := RunSave(cfg, reg, muts).0;
      Sized(r, |muts|) && (r.done[i] ==> r.done[j])
  {
    SaveOutcome(cfg, reg, muts);
    var r := RunSave(cfg, reg, muts).0;
    if r.done[i] && Behind(cfg.hooks, j).Failure? {
      UnwoundFails(cfg, i, |cfg.hooks[i]|, j);
      assert false;
    }
  }

  /** Whether the hooks let a written batch through on the whole way back. */
  ghost predicate LetsThrough(cfg: Config) {
    cfg.hooks == [] || Unwound(cfg.hooks, 0, 0).Success?
  }

  /** All or nothing holds of every run of a configuration whose hooks let a
      written batch through: Save succeeds and all builders are done, or it fails
      and none is. Otherwise every written batch ends in a reported failure. */
  lemma AllOrNothing(cfg: Config, reg: Registry, muts: seq<Mutation>)
    requires |muts| == |cfg.hooks| && muts != [] && BatchContract(cfg.batch) && Honest(cfg)
    ensures var (r, out) := RunSave(cfg, reg, muts);
      && Sized(r, |muts|)
      && (LetsThrough(cfg) ==>
        (out.Success? <==> Wrote(cfg, r)) && forall j :: 0 <= j < |muts| ==> (r.done[j] <==> Wrote(cfg, r)))
      && (!LetsThrough(cfg) ==> out.Failure?)
  {
    SaveOutcome(cfg, reg, muts);
    var (r, out) := RunSave(cfg, reg, muts);
    forall j | LetsThrough(cfg) && 0 <= j < |muts| ensures Behind(cfg.hooks, j).Success? {
      if Behind(cfg.hooks, j).Failure? {
        UnwoundFails(cfg, 0, 0, j);
        assert false;
      }
    }
  }

  // ------------------------------------------------------ without hooks

  ghost predicate HookFree(cfg: Config) {
    forall i :: 0 <= i < |cfg.hooks| ==> cfg.hooks[i] == []
  }

  /** The error of the first mutation that the checks refuse. */
  function FirstRefusal(valid: Validator, muts: seq<Mutation>): Option<CheckError> {
    if muts == [] then None
    else
      var e := CheckErrors(valid, muts[0]);
      if e.Some? then e else FirstRefusal(valid, muts[1..])
  }

  lemma {:induction false} HookFreeChain(cfg: Config, st: State, i: nat)
    requires Sized(st, |cfg.hooks|) && i < |cfg.hooks| && HookFree(cfg) && Prepared(st, i)
    ensures var (r, out) := RunHooks(cfg, st, i, 0, None); var e := FirstRefusal(cfg.valid, st.muts[i..]);
      && r.muts == st.muts
      && (e.Some? ==> out == Failure(Rejected(e.value)) && r.log == st.log)
      && (e.None? ==> r.log == st.log + [Batch(st.muts)])
    decreases |cfg.hooks| - i
  {
    hide CheckErrors;
    var st1 := Prepare(st, i, None);
    assert st1.muts == st.muts;
    assert st.muts[i..][0] == st.muts[i] && st.muts[i..][1..] == st.muts[i + 1..];
    if CheckErrors(cfg.valid, st.muts[i]).None? {
      if i < |cfg.hooks| - 1 {
        HookFreeChain(cfg, st1, i + 1);
      } else {
        assert Fields(st1.specs) == st.muts;
      }
    }
  }

  /** Without hooks the first builder that the checks refuse decides: its error is
      the result and the database is not called. If there is none, exactly the
      defaulted mutations are written, in builder order. */
  lemma HookFreeSave(cfg: Config, reg: Registry, muts: seq<Mutation>)
    requires |muts| == |cfg.hooks| && muts != [] && HookFree(cfg)
    ensures var (r, out) := RunSave(cfg, reg, muts); var rows := WithDefaults(reg, muts);
      var e := FirstRefusal(cfg.valid, rows);
      && (e.Some? ==> out == Failure(Rejected(e.value)) && r.log == [])
      && (e.None? ==> r.log == [Batch(rows)])
  {
    var st := Start(WithDefaults(reg, muts));
    HookFreeChain(cfg, st, 0);
    assert st.muts[0..] == st.muts;
  }

  lemma {:induction false} RefusalExists(valid: Validator, muts: seq<Mutation>, j: nat)
    requires j < |muts| && CheckErrors(valid, muts[j]).Some?
    ensures FirstRefusal(valid, muts).Some?
  {
    if j > 0 && CheckErrors(valid, muts[0]).None? {
      RefusalExists(valid, muts[1..], j - 1);
    }
  }

  /** Save ignores the error of defaults, and yet a builder whose defaults failed
      keeps the whole batch away from the database. */
  lemma FailedDefaultsNeverWritten(cfg: Config, reg: Registry, muts: seq<Mutation>, j: nat)
    requires |muts| == |cfg.hooks| && HookFree(cfg) && j < |muts| && !Defaults(reg, muts[j]).1
    ensures var (r, out) := RunSave(cfg, reg, muts);
      out.Failure? && out.error.Rejected? && r.log == []
  {
    var rows := WithDefaults(reg, muts);
    FailedDefaultsRefused(reg, cfg.valid, muts[j]);
    assert rows[j] == Defaults(reg, muts[j]).0;
    RefusalExists(cfg.valid, rows, j);
    HookFreeSave(cfg, reg, muts);
  }

  // ------------------------------------------------------- late failures

  /** A hook of the second builder that fails after the batch was written: Save
      reports a failure although the rows exist, and only the second is done. */
  lemma LateFailure(cfg: Config, reg: Registry, muts: seq<Mutation>, code: int)
    requires |muts| == |cfg.hooks| == 2 && BatchContract(cfg.batch)
    requires cfg.hooks[0] == [] && cfg.hooks[1] == [Hook(m => Edit(m), o => Failure(HookError(code)))]
    requires var rows := WithDefaults(reg, muts);
      CheckErrors(cfg.valid, rows[0]).None? && CheckErrors(cfg.valid, rows[1]).None? && cfg.batch(rows).Written?
    ensures var (r, out) := RunSave(cfg, reg, muts);
      out.Failure? && Wrote(cfg, r) && r.done == [false, true]
  {
    hide CheckErrors, Defaults;
    var rows := WithDefaults(reg, muts);
    var st := Prepare(Start(rows), 0, None);
    var hook := cfg.hooks[1][0];
    assert hook.before(rows[1]) == Edit(rows[1]);
    assert st.muts == rows;
    var st1 := Log(st, Enter(1, 0));
    assert st1.(muts := st1.muts[1 := rows[1]]) == st1;
    var st2 := Prepare(st1, 1, None);
    assert st2.muts == rows && Fields(st2.specs) == rows;
    var st3 := WriteBatch(cfg, st2).0;
    assert RunExec(cfg, st1, 1, None) == (Finish(st3, 1), Success);
    assert RunHooks(cfg, st1, 1, 1, None) == (Finish(st3, 1), Success);
    var st4 := Log(Finish(st3, 1), Exit(1, 0));
    assert RunHooks(cfg, st, 1, 0, None) == (st4, hook.after(Success));
    assert RunExec(cfg, Start(rows), 0, None) == (st4, Failure(HookError(code)));
    assert RunHooks(cfg, Start(rows), 0, 0, None) == (st4, Failure(HookError(code)));
    assert st4.log == [Enter(1, 0), Batch(rows), Exit(1, 0)];
  }

  /** A hook that swallows the refusal of the second builder: Save reports success
      although nothing was written, and the first builder is done. */
  lemma SwallowedFailure(cfg: Config, reg: Registry, muts: seq<Mutation>)
    requires |muts| == |cfg.hooks| == 2
    requires cfg.hooks[0] == [] && cfg.hooks[1] == [Hook(m => Edit(m), o => Success)]
    requires var rows := WithDefaults(reg, muts);
      CheckErrors(cfg.valid, rows[0]).None? && CheckErrors(cfg.valid, rows[1]).Some?
    ensures var (r, out) := RunSave(cfg, reg, muts);
      out.Success? && r.log == [Enter(1, 0), Exit(1, 0)] && r.done == [true, false]
  {
    hide CheckErrors, Defaults;
    var rows := WithDefaults(reg, muts);
    var st := Prepare(Start(rows), 0, None);
    var hook := cfg.hooks[1][0];
    assert hook.before(rows[1]) == Edit(rows[1]);
    assert st.muts == rows;
    var st1 := Log(st, Enter(1, 0));
    assert st1.(muts := st1.muts[1 := rows[1]]) == st1;
    assert RunExec(cfg, st1, 1, None).0 == st1;
    assert RunHooks(cfg, st1, 1, 1, None).0 == st1;
    var st2 := Log(st1, Exit(1, 0));
    assert RunHooks(cfg, st, 1, 0, None) == (st2, Success);
    assert RunExec(cfg, Start(rows), 0, None) == (Finish(st2, 0), Success);
    assert RunHooks(cfg, Start(rows), 0, 0, None) == (Finish(st2, 0), Success);
  }

  // ------------------------------------------------- what is checked

  ghost predicate NoSwap(cfg: Config) {
    forall i, h, m :: 0 <= i < |cfg.hooks| && 0 <= h < |cfg.hooks[i]| ==> !cfg.hooks[i][h].before(m).Swap?
  }

  ghost predicate Passes(valid: Validator, m: Mutation) {
    CheckErrors(valid, m).None?
  }

  /** A hook that passes on another mutation object gets it written, whether or not
      it would pass: the checks look at the builder's own. */
  lemma SwapIsNotChecked(cfg: Config, reg: Registry, own: Mutation, bad: Mutation)
    requires |cfg.hooks| == 1 && cfg.hooks[0] == [Hook(m => Swap(bad), o => o)]
    requires Passes(cfg.valid, Defaults(reg, own).0)
    ensures RunSave(cfg, reg, [own]).0.log == [Enter(0, 0), Batch([bad]), Exit(0, 0)]
    ensures !Passes(cfg.valid, bad) ==>
      exists rows, m :: Batch(rows) in RunSave(cfg, reg, [own]).0.log && m in rows && !Passes(cfg.valid, m)
  {
    hide CheckErrors, Defaults;
    var st1 := Log(Start(WithDefaults(reg, [own])), Enter(0, 0));
    assert cfg.hooks[0][0].before(st1.muts[0]) == Swap(bad);
    var st2 := Prepare(st1, 0, Some(bad));
    assert Fields(st2.specs) == [bad];
    assert Passes(cfg.valid, st1.muts[0]);
    assert RunExec(cfg, st1, 0, Some(bad)).0.log == [Enter(0, 0), Batch([bad])];
    assert RunHooks(cfg, st1, 0, 1, Some(bad)) == RunExec(cfg, st1, 0, Some(bad));
    assert RunHooks(cfg, Start(WithDefaults(reg, [own])), 0, 0, None).0 ==
      Log(RunExec(cfg, st1, 0, Some(bad)).0, Exit(0, 0));
    var log := RunSave(cfg, reg, [own]).0.log;
    assert log[1] == Batch([bad]) && bad in [bad];
  }
}
