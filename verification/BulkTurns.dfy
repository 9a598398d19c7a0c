/** How a bulk Save ends, for arbitrary hooks: the chain turns round at one place,
    and what comes back from there decides the outcome and who is done. */
module BulkTurns {
  import opened Seqs
  import opened AccountFields
  import opened BulkCreate
  import opened BulkSave
  import opened BulkRows

  /** Where the chain turns round: below hook h of builder i, or at the builder's
      mutator if h is the number of its hooks; and what it comes back with. */
  datatype Turn = Turn(i: nat, h: nat, out: Outcome)

  ghost predicate Sound(hooks: seq<seq<Hook>>, t: Turn) {
    t.i < |hooks| && t.h <= |hooks[t.i]|
  }

  /** (i, h) is entered on the way in, or is the turn. */
  ghost predicate Reached(hooks: seq<seq<Hook>>, i: nat, h: nat, t: Turn) {
    && Sound(hooks, t) && i < |hooks| && h <= |hooks[i]|
    && (i < t.i || (i == t.i && h <= t.h))
  }

  function DriverOutcome(cfg: Config, rows: seq<Mutation>): Outcome {
    match cfg.batch(rows)
    case Refused(code) => Failure(DriverError(code))
    case Written(_) => Success
  }

  /** The turn of a chain from builder i on, whose hooks hand on x: a hook that
      answers, a mutation that is refused, or else the driver. */
  function TurnAt(cfg: Config, muts: seq<Mutation>, i: nat, x: Handing, rows: seq<Mutation>): Turn
    requires |muts| == |cfg.hooks| && i < |muts|
    decreases |muts| - i
  {
    match x
    case Stopped(h, out) => Turn(i, h, out)
    case Passed(own, _) =>
      var e := CheckErrors(cfg.valid, own);
      if e.Some? then Turn(i, |cfg.hooks[i]|, Failure(Rejected(e.value)))
      else if i == |muts| - 1 then Turn(i, |cfg.hooks[i]|, DriverOutcome(cfg, rows))
      else TurnAt(cfg, muts, i + 1, Handed(cfg, muts, i + 1), rows)
  }

  /** What comes back to (i, h): the outcome of the turn, changed by every hook that
      was entered in between. */
  ghost function Back(hooks: seq<seq<Hook>>, i: nat, h: nat, t: Turn): Outcome
    requires Reached(hooks, i, h, t)
    decreases |hooks| - i, |hooks[i]| - h
  {
    if i == t.i && h == t.h then t.out
    else if h < |hooks[i]| then hooks[i][h].after(Back(hooks, i, h + 1, t))
    else Back(hooks, i + 1, 0, t)
  }

  /** The mutator of builder j ran, and what came back to it was a success. */
  ghost predicate Finishes(hooks: seq<seq<Hook>>, j: nat, t: Turn) {
    j < |hooks| && Reached(hooks, j, |hooks[j]|, t) && Back(hooks, j, |hooks[j]|, t).Success?
  }

  lemma {:induction false} HandStops(hs: seq<Hook>, h: nat, own: Mutation, passed: Option<Mutation>)
    requires h <= |hs|
    ensures var x := Hand(hs, h, own, passed); x.Stopped? ==> h <= x.h < |hs|
    decreases |hs| - h
  {
    var c := if passed.Some? then passed.value else own;
    if h < |hs| {
      match hs[h].before(c)
      case Answer(_) =>
      case Edit(m) =>
        if passed.Some? {
          HandStops(hs, h + 1, own, Some(m));
        } else {
          HandStops(hs, h + 1, m, None);
        }
      case Swap(m) => HandStops(hs, h + 1, own, Some(m));
    }
  }

  /** The turn lies at or behind the place where it is looked for, and every builder
      in between goes on. */
  lemma {:induction false} TurnIsSound(cfg: Config, muts: seq<Mutation>, i: nat, h: nat, x: Handing,
      rows: seq<Mutation>)
    requires |muts| == |cfg.hooks| && i < |muts| && h <= |cfg.hooks[i]| && (x.Stopped? ==> h <= x.h < |cfg.hooks[i]|)
    ensures var t := TurnAt(cfg, muts, i, x, rows);
      && Reached(cfg.hooks, i, h, t)
      && (t.i > i ==> Goes(cfg, x)) && forall j :: i < j < t.i ==> Goes(cfg, Handed(cfg, muts, j))
    decreases |muts| - i
  {
    hide Hand, CheckErrors, DriverOutcome;
    if x.Passed? && CheckErrors(cfg.valid, x.own).None? && i < |muts| - 1 {
      HandStops(cfg.hooks[i + 1], 0, muts[i + 1], None);
      TurnIsSound(cfg, muts, i + 1, 0, Handed(cfg, muts, i + 1), rows);
      assert Goes(cfg, x);
    }
  }

  /** A run from builder i ends as the turn and the way back from it say. */
  ghost predicate Ends(cfg: Config, st: State, i: nat, h: nat, r: State, out: Outcome, t: Turn)
    requires Sized(st, |cfg.hooks|) && Sized(r, |cfg.hooks|) && Reached(cfg.hooks, i, h, t)
  {
    && out == Back(cfg.hooks, i, h, t)
    && (forall j :: 0 <= j < i ==> r.done[j] == st.done[j])
    && forall j :: i <= j < |cfg.hooks| ==> (r.done[j] <==> st.done[j] || Finishes(cfg.hooks, j, t))
  }

  /** Nothing behind the turn finishes. */
  lemma NoneBehind(hooks: seq<seq<Hook>>, t: Turn)
    requires Sound(hooks, t)
    ensures forall j :: t.i < j < |hooks| ==> !Finishes(hooks, j, t)
    ensures t.h < |hooks[t.i]| || t.out.Failure? ==> !Finishes(hooks, t.i, t)
    ensures t.h == |hooks[t.i]| ==> (Finishes(hooks, t.i, t) <==> t.out.Success?)
  {
  }

  /** The rows that the driver would be given. */
  function RowsFor(cfg: Config, st: State, i: nat, x: Handing): seq<Mutation>
    requires Sized(st, |cfg.hooks|) && i < |cfg.hooks|
  {
    if x.Passed? then Expected(cfg, st, i, x.row) else []
  }

  function TurnOf(cfg: Config, st: State, i: nat, x: Handing): Turn
    requires Sized(st, |cfg.hooks|) && i < |cfg.hooks|
  {
    TurnAt(cfg, st.muts, i, x, RowsFor(cfg, st, i, x))
  }

  lemma {:induction false} TurnAlike(cfg: Config, a: seq<Mutation>, b: seq<Mutation>, i: nat, x: Handing,
      rows: seq<Mutation>)
    requires |a| == |cfg.hooks| && i < |a| && SameFrom(a, b, i + 1)
    ensures TurnAt(cfg, a, i, x, rows) == TurnAt(cfg, b, i, x, rows)
    decreases |a| - i
  {
    hide CheckErrors, Hand;
    if i < |a| - 1 {
      TurnAlike(cfg, a, b, i + 1, Handed(cfg, a, i + 1), rows);
    }
  }

  /** The turn is the same one, seen from the next builder. */
  lemma TurnBehind(cfg: Config, st: State, i: nat, passed: Option<Mutation>)
    requires Sized(st, |cfg.hooks|) && i + 1 < |cfg.hooks| && Filled(st, i) && CheckErrors(cfg.valid, st.muts[i]).None?
    ensures var st1 := Prepare(st, i, passed);
      && Sized(st1, |cfg.hooks|)
      && TurnOf(cfg, st1, i + 1, Handed(cfg, st1.muts, i + 1)) ==
        TurnOf(cfg, st, i, Passed(st.muts[i], Content(st, i, passed)))
  {
    hide CheckErrors, Prepare, Fields, Hand, Expected, RowsFrom;
    var st1, c := Prepare(st, i, passed), Content(st, i, passed);
    PreparedFields(cfg, st, i, passed);
    RowsFromAlike(cfg, st.muts, st1.muts, i + 2);
    ExpectedNext(cfg, st, st1, i, c);
    var x, rows := Handed(cfg, st.muts, i + 1), Expected(cfg, st, i, c);
    TurnAlike(cfg, st.muts, st1.muts, i + 1, x, rows);
    assert TurnOf(cfg, st, i, Passed(st.muts[i], c)) == TurnAt(cfg, st.muts, i + 1, x, rows);
  }

  lemma LastRows(cfg: Config, st: State, i: nat, passed: Option<Mutation>)
    requires Sized(st, |cfg.hooks|) && i + 1 == |cfg.hooks| && Filled(st, i)
    ensures var (r, out) := WriteBatch(cfg, Prepare(st, i, passed));
      out == DriverOutcome(cfg, Expected(cfg, st, i, Content(st, i, passed))) && Sized(r, |cfg.hooks|) &&
        r.done == st.done
  {
    hide Fields;
    var st1 := Prepare(st, i, passed);
    PreparedFields(cfg, st, i, passed);
    LastWrites(cfg, st1, []);
    assert Fields(st1.specs)[..i + 1] == Fields(st1.specs);
    assert RowsFrom(cfg, st.muts, i + 1) == [];
    assert Fields(st1.specs) == Expected(cfg, st, i, Content(st, i, passed));
  }

  /** The mutator of builder i, given what comes back from everything behind it. */
  lemma FinishEnds(cfg: Config, st: State, st2: State, out: Outcome, i: nat, t: Turn)
    requires Sized(st, |cfg.hooks|) && Sized(st2, |cfg.hooks|) && i < |cfg.hooks|
    requires Reached(cfg.hooks, i, |cfg.hooks[i]|, t) && out == Back(cfg.hooks, i, |cfg.hooks[i]|, t)
    requires forall j :: 0 <= j <= i ==> st2.done[j] == st.done[j]
    requires forall j :: i < j < |cfg.hooks| ==> (st2.done[j] <==> st.done[j] || Finishes(cfg.hooks, j, t))
    ensures var r := if out.Failure? then st2 else Finish(st2, i);
      Sized(r, |cfg.hooks|) && Ends(cfg, st, i, |cfg.hooks[i]|, r, out, t)
  {
    hide Back, Finishes;
    FinishesHere(cfg.hooks, i, t);
    if out.Success? {
      var r := Finish(st2, i);
      assert r.done == st2.done[i := true];
    }
  }

  lemma FinishesHere(hooks: seq<seq<Hook>>, i: nat, t: Turn)
    requires i < |hooks| && Reached(hooks, i, |hooks[i]|, t)
    ensures Finishes(hooks, i, t) <==> Back(hooks, i, |hooks[i]|, t).Success?
  {
  }

  lemma PreparedDone(cfg: Config, st: State, i: nat, passed: Option<Mutation>)
    requires Sized(st, |cfg.hooks|) && i < |cfg.hooks|
    ensures Prepare(st, i, passed).done == st.done
  {
  }

  lemma {:induction false} ExecEnds(cfg: Config, st: State, i: nat, passed: Option<Mutation>)
    requires Sized(st, |cfg.hooks|) && i < |cfg.hooks| && Filled(st, i)
    ensures var t := TurnOf(cfg, st, i, Passed(st.muts[i], Content(st, i, passed)));
      var (r, out) := RunExec(cfg, st, i, passed);
      Reached(cfg.hooks, i, |cfg.hooks[i]|, t) && Ends(cfg, st, i, |cfg.hooks[i]|, r, out, t)
    decreases |cfg.hooks| - i, 0
  {
    hide CheckErrors, Prepare, Hand, Expected, WriteBatch, Finishes, RowsFrom, Finish;
    var x := Passed(st.muts[i], Content(st, i, passed));
    var t := TurnOf(cfg, st, i, x);
    TurnIsSound(cfg, st.muts, i, |cfg.hooks[i]|, x, RowsFor(cfg, st, i, x));
    NoneBehind(cfg.hooks, t);
    if CheckErrors(cfg.valid, st.muts[i]).None? {
      var st1 := Prepare(st, i, passed);
      PreparedFields(cfg, st, i, passed);
      PreparedDone(cfg, st, i, passed);
      if i < |cfg.hooks| - 1 {
        TurnBehind(cfg, st, i, passed);
        HooksEnd(cfg, st1, i + 1, 0, None);
        var (st2, out) := RunHooks(cfg, st1, i + 1, 0, None);
        FinishEnds(cfg, st, st2, out, i, t);
      } else {
        LastRows(cfg, st, i, passed);
        var (st2, out) := WriteBatch(cfg, st1);
        FinishEnds(cfg, st, st2, out, i, t);
      }
    }
  }

  lemma {:induction false} HooksEnd(cfg: Config, st: State, i: nat, h: nat, passed: Option<Mutation>)
    requires Sized(st, |cfg.hooks|) && i < |cfg.hooks| && h <= |cfg.hooks[i]| && Filled(st, i)
    ensures var t := TurnOf(cfg, st, i, Hand(cfg.hooks[i], h, st.muts[i], passed));
      var (r, out) := RunHooks(cfg, st, i, h, passed);
      Reached(cfg.hooks, i, h, t) && Ends(cfg, st, i, h, r, out, t)
    decreases |cfg.hooks| - i, 1, |cfg.hooks[i]| - h
  {
    hide RunExec, Fields, Finishes, RowsFrom, Expected, TurnAt;
    if h == |cfg.hooks[i]| {
      ExecEnds(cfg, st, i, passed);
    } else {
      var st1 := Log(st, Enter(i, h));
      match cfg.hooks[i][h].before(Content(st1, i, passed))
      case Answer(out) =>
        StoppedHere(cfg, st, i, h, out);
      case Edit(m) =>
        var st1' := if passed.Some? then st1 else st1.(muts := st1.muts[i := m]);
        var next := if passed.Some? then Some(m) else None;
        HooksEnd(cfg, st1', i, h + 1, next);
        SameTurn(cfg, st, st1', i, Hand(cfg.hooks[i], h + 1, st1'.muts[i], next));
        AfterEnds(cfg, st, st1', i, h, next);
      case Swap(m) =>
        HooksEnd(cfg, st1, i, h + 1, Some(m));
        SameTurn(cfg, st, st1, i, Hand(cfg.hooks[i], h + 1, st.muts[i], Some(m)));
        AfterEnds(cfg, st, st1, i, h, Some(m));
    }
  }

  lemma StoppedHere(cfg: Config, st: State, i: nat, h: nat, out: Outcome)
    requires Sized(st, |cfg.hooks|) && i < |cfg.hooks| && h < |cfg.hooks[i]|
    ensures var t := TurnOf(cfg, st, i, Stopped(h, out));
      Reached(cfg.hooks, i, h, t) && forall log :: Ends(cfg, st, i, h, st.(log := log), out, t)
  {
    hide Finishes;
    NoneBehind(cfg.hooks, Turn(i, h, out));
  }

  lemma SameTurn(cfg: Config, st: State, st1: State, i: nat, x: Handing)
    requires Sized(st, |cfg.hooks|) && Sized(st1, |cfg.hooks|) && i < |cfg.hooks|
    requires SameFrom(st.muts, st1.muts, i + 1) && st1.specs == st.specs
    ensures TurnOf(cfg, st, i, x) == TurnOf(cfg, st1, i, x)
  {
    hide TurnAt, RowsFrom;
    RowsFromAlike(cfg, st.muts, st1.muts, i + 1);
    TurnAlike(cfg, st.muts, st1.muts, i, x, RowsFor(cfg, st, i, x));
  }

  /** A hook that calls the next one changes what comes back from there. */
  lemma AfterEnds(cfg: Config, st: State, st1: State, i: nat, h: nat, passed: Option<Mutation>)
    requires Sized(st, |cfg.hooks|) && Sized(st1, |cfg.hooks|) && i < |cfg.hooks| && h < |cfg.hooks[i]| &&
      st1.done == st.done
    requires var t := TurnOf(cfg, st1, i, Hand(cfg.hooks[i], h + 1, st1.muts[i], passed));
      var (r, out) := RunHooks(cfg, st1, i, h + 1, passed);
      Reached(cfg.hooks, i, h + 1, t) && Ends(cfg, st1, i, h + 1, r, out, t)
    ensures var t := TurnOf(cfg, st1, i, Hand(cfg.hooks[i], h + 1, st1.muts[i], passed));
      var (r, out) := RunHooks(cfg, st1, i, h + 1, passed);
      && Reached(cfg.hooks, i, h, t)
      && Ends(cfg, st, i, h, Log(r, Exit(i, h)), cfg.hooks[i][h].after(out), t)
  {
    hide RunHooks, TurnOf, Hand, Finishes;
  }

  // ------------------------------------------------------------ whole runs

  /** The turn of a Save. */
  function SaveTurn(cfg: Config, own: seq<Mutation>): Turn
    requires |own| == |cfg.hooks| && own != []
  {
    TurnAt(cfg, own, 0, Handed(cfg, own, 0), RowsFrom(cfg, own, 0))
  }

  lemma SaveTurnIs(cfg: Config, st: State)
    requires Sized(st, |cfg.hooks|) && |cfg.hooks| > 0
    ensures TurnOf(cfg, st, 0, Handed(cfg, st.muts, 0)) == SaveTurn(cfg, st.muts)
  {
    hide Hand;
    NothingBefore(cfg, st);
  }

  /** How Save ends and who is done, for arbitrary hooks. */
  lemma SaveExact(cfg: Config, reg: Registry, muts: seq<Mutation>)
    requires |muts| == |cfg.hooks| && muts != []
    ensures var t := SaveTurn(cfg, WithDefaults(reg, muts)); var (r, out) := RunSave(cfg, reg, muts);
      && Sized(r, |muts|) && Reached(cfg.hooks, 0, 0, t)
      && out == Back(cfg.hooks, 0, 0, t)
      && (forall j :: 0 <= j < |muts| ==> (r.done[j] <==> Finishes(cfg.hooks, j, t)))
      && forall j :: 0 <= j < t.i ==> Goes(cfg, Handed(cfg, WithDefaults(reg, muts), j))
  {
    hide RunHooks, TurnAt, Hand, Back, Finishes, Goes;
    var own := WithDefaults(reg, muts);
    var st := Start(own);
    SaveTurnIs(cfg, st);
    HooksEnd(cfg, st, 0, 0, None);
    HandStops(cfg.hooks[0], 0, own[0], None);
    TurnIsSound(cfg, own, 0, 0, Handed(cfg, own, 0), RowsFrom(cfg, own, 0));
  }

  /** The chain turned round at the driver, which wrote: no other turn at a mutator is
      a success. */
  ghost predicate AtWrite(hooks: seq<seq<Hook>>, t: Turn)
    requires Sound(hooks, t)
  {
    t.h == |hooks[t.i]| && t.out.Success?
  }

  lemma {:induction false} WriteTurn(cfg: Config, muts: seq<Mutation>, i: nat, x: Handing, rows: seq<Mutation>)
    requires |muts| == |cfg.hooks| && i < |muts| && (x.Stopped? ==> x.h < |cfg.hooks[i]|)
    ensures var t := TurnAt(cfg, muts, i, x, rows);
      && Sound(cfg.hooks, t)
      && (AtWrite(cfg.hooks, t) <==> Goes(cfg, x) && AllGo(cfg, muts, i + 1) && cfg.batch(rows).Written?)
      && (AtWrite(cfg.hooks, t) ==> t.i == |muts| - 1)
    decreases |muts| - i
  {
    hide Hand, CheckErrors;
    if Goes(cfg, x) && i < |muts| - 1 {
      HandStops(cfg.hooks[i + 1], 0, muts[i + 1], None);
      WriteTurn(cfg, muts, i + 1, Handed(cfg, muts, i + 1), rows);
      assert AllGo(cfg, muts, i + 1) <==> Goes(cfg, Handed(cfg, muts, i + 1)) && AllGo(cfg, muts, i + 2);
    }
  }

  /** The rows were written exactly if the chain turned round at a successful driver. */
  lemma WroteExact(cfg: Config, reg: Registry, muts: seq<Mutation>)
    requires |muts| == |cfg.hooks| && muts != [] && BatchContract(cfg.batch)
    ensures var own := WithDefaults(reg, muts); var t := SaveTurn(cfg, own);
      && Sound(cfg.hooks, t)
      && (Wrote(cfg, RunSave(cfg, reg, muts).0) <==> AtWrite(cfg.hooks, t))
      && (AtWrite(cfg.hooks, t) <==> AllGo(cfg, own, 0) && cfg.batch(RowsFrom(cfg, own, 0)).Written?)
      && (AtWrite(cfg.hooks, t) ==> t.i == |muts| - 1)
  {
    hide RowsFrom, RunSave, BatchContract, TurnAt, Hand;
    var own, r := WithDefaults(reg, muts), RunSave(cfg, reg, muts).0;
    HandStops(cfg.hooks[0], 0, own[0], None);
    WriteTurn(cfg, own, 0, Handed(cfg, own, 0), RowsFrom(cfg, own, 0));
    assert AllGo(cfg, own, 0) <==> Goes(cfg, Handed(cfg, own, 0)) && AllGo(cfg, own, 1);
    BatchExact(cfg, reg, muts, r.muts);
    BatchExact(cfg, reg, muts, RowsFrom(cfg, own, 0));
    if AllGo(cfg, own, 0) {
      OnlyBatch(cfg, reg, muts, RowsFrom(cfg, own, 0));
    }
  }

  /** Save tells the truth about the database exactly if what comes back through the
      entered hooks is a success when the driver wrote, and a failure otherwise. The
      last builder always does. */
  lemma TruthExact(cfg: Config, reg: Registry, muts: seq<Mutation>)
    requires |muts| == |cfg.hooks| && muts != [] && BatchContract(cfg.batch)
    ensures var t := SaveTurn(cfg, WithDefaults(reg, muts)); var (r, out) := RunSave(cfg, reg, muts);
      && Sized(r, |muts|) && Reached(cfg.hooks, 0, 0, t)
      && ((out.Success? <==> Wrote(cfg, r)) <==> (Back(cfg.hooks, 0, 0, t).Success? <==> AtWrite(cfg.hooks, t)))
      && (r.done[|muts| - 1] <==> Wrote(cfg, r))
  {
    hide RunSave, SaveTurn, BatchContract, Finishes, Back;
    var t := SaveTurn(cfg, WithDefaults(reg, muts));
    SaveExact(cfg, reg, muts);
    WroteExact(cfg, reg, muts);
    NoneBehind(cfg.hooks, t);
  }

  /** The builders are all done or none exactly if nobody between the turn and Save
      turned what came back: every mutator before the turn got a success if the driver
      wrote, and a failure otherwise. */
  lemma AllOrNoneExact(cfg: Config, reg: Registry, muts: seq<Mutation>)
    requires |muts| == |cfg.hooks| && muts != [] && BatchContract(cfg.batch)
    ensures var t := SaveTurn(cfg, WithDefaults(reg, muts)); var r := RunSave(cfg, reg, muts).0;
      && Sized(r, |muts|) && Sound(cfg.hooks, t)
      && ((forall i, j :: 0 <= i < j < |muts| ==> r.done[i] == r.done[j]) <==>
            forall j :: 0 <= j < t.i ==> (Back(cfg.hooks, j, |cfg.hooks[j]|, t).Success? <==> AtWrite(cfg.hooks, t)))
  {
    hide RunSave, SaveTurn, BatchContract, Finishes, Back;
    var t, n := SaveTurn(cfg, WithDefaults(reg, muts)), |muts|;
    var r := RunSave(cfg, reg, muts).0;
    SaveExact(cfg, reg, muts);
    TruthExact(cfg, reg, muts);
    WroteExact(cfg, reg, muts);
    NoneBehind(cfg.hooks, t);
    forall j | 0 <= j < t.i ensures r.done[j] <==> Back(cfg.hooks, j, |cfg.hooks[j]|, t).Success? {
      FinishesHere(cfg.hooks, j, t);
    }
    assert forall j :: t.i <= j < n ==> (r.done[j] <==> AtWrite(cfg.hooks, t));
    assert (forall i, j :: 0 <= i < j < n ==> r.done[i] == r.done[j]) <==>
      forall j :: 0 <= j < n ==> r.done[j] == r.done[n - 1];
  }
}
