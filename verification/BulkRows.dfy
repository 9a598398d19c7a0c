/** Which rows a bulk Save writes: for every builder, the mutation object that its
    hooks hand on, checked or not. */
module BulkRows {
  import opened Seqs
  import opened AccountFields
  import opened BulkCreate
  import opened BulkTheorems
  import opened BulkSave

  /** What the hooks of one builder make of its mutation: the builder's own object,
      which is checked, and the object handed on, which is written. */
  datatype Handing = Stopped(h: nat, out: Outcome) | Passed(own: Mutation, row: Mutation)

  function Hand(hs: seq<Hook>, h: nat, own: Mutation, passed: Option<Mutation>): Handing
    requires h <= |hs|
    decreases |hs| - h
  {
    var c := if passed.Some? then passed.value else own;
    if h == |hs| then Passed(own, c)
    else
      match hs[h].before(c)
      case Answer(out) => Stopped(h, out)
      case Edit(m) => if passed.Some? then Hand(hs, h + 1, own, Some(m)) else Hand(hs, h + 1, m, None)
      case Swap(m) => Hand(hs, h + 1, own, Some(m))
  }

  function Handed(cfg: Config, muts: seq<Mutation>, j: nat): Handing
    requires |muts| == |cfg.hooks| && j < |muts|
  {
    Hand(cfg.hooks[j], 0, muts[j], None)
  }

  /** The chain goes on behind this builder. */
  ghost predicate Goes(cfg: Config, x: Handing) {
    x.Passed? && Passes(cfg.valid, x.own)
  }

  ghost predicate AllGo(cfg: Config, muts: seq<Mutation>, i: nat)
    requires |muts| == |cfg.hooks|
  {
    forall j :: i <= j < |muts| ==> Goes(cfg, Handed(cfg, muts, j))
  }

  function RowsFrom(cfg: Config, muts: seq<Mutation>, i: nat): seq<Mutation>
    requires |muts| == |cfg.hooks|
    decreases |muts| - i
  {
    if i >= |muts| then []
    else
      var x := Handed(cfg, muts, i);
      [if x.Passed? then x.row else muts[i]] + RowsFrom(cfg, muts, i + 1)
  }

  lemma {:induction false} RowsFromAt(cfg: Config, muts: seq<Mutation>, i: nat)
    requires |muts| == |cfg.hooks| && i <= |muts| && AllGo(cfg, muts, i)
    ensures |RowsFrom(cfg, muts, i)| == |muts| - i
    ensures forall j :: i <= j < |muts| ==> RowsFrom(cfg, muts, i)[j - i] == Handed(cfg, muts, j).row
    decreases |muts| - i
  {
    if i < |muts| {
      RowsFromAt(cfg, muts, i + 1);
      assert Goes(cfg, Handed(cfg, muts, i));
    }
  }

  /** Builders behind i are what they were. */
  ghost predicate SameFrom(a: seq<Mutation>, b: seq<Mutation>, i: nat) {
    |a| == |b| && forall j :: i <= j < |a| ==> a[j] == b[j]
  }

  lemma {:induction false} RowsFromAlike(cfg: Config, a: seq<Mutation>, b: seq<Mutation>, i: nat)
    requires |a| == |cfg.hooks| && SameFrom(a, b, i)
    ensures RowsFrom(cfg, a, i) == RowsFrom(cfg, b, i) && (AllGo(cfg, a, i) <==> AllGo(cfg, b, i))
    decreases |a| - i
  {
    forall j | i <= j < |a| ensures Handed(cfg, a, j) == Handed(cfg, b, j) {
    }
    if i < |a| {
      RowsFromAlike(cfg, a, b, i + 1);
    }
  }

  /** The rows of a batch below builder i, given what that builder hands on. */
  function Expected(cfg: Config, st: State, i: nat, row: Mutation): seq<Mutation>
    requires Sized(st, |cfg.hooks|) && i < |cfg.hooks|
  {
    Fields(st.specs)[..i] + [row] + RowsFrom(cfg, st.muts, i + 1)
  }

  ghost predicate Filled(st: State, i: nat) {
    i <= |st.specs| && forall j :: 0 <= j < i ==> st.specs[j].Some?
  }

  /** A run from builder i writes a batch exactly if every hook from there on lets
      it through and every builder's own mutation passes the checks. */
  ghost predicate Writes(cfg: Config, st: State, i: nat, x: Handing, r: State, rows: seq<Mutation>)
    requires Sized(st, |cfg.hooks|) && i < |cfg.hooks|
  {
    Batch(rows) in r.log <==>
      || Batch(rows) in st.log
      || (Goes(cfg, x) && AllGo(cfg, st.muts, i + 1) && rows == Expected(cfg, st, i, x.row))
  }

  lemma PreparedFields(cfg: Config, st: State, i: nat, passed: Option<Mutation>)
    requires Sized(st, |cfg.hooks|) && i < |cfg.hooks| && Filled(st, i)
    ensures var st1 := Prepare(st, i, passed);
      && Sized(st1, |cfg.hooks|) && Filled(st1, i + 1) && st1.log == st.log && SameFrom(st.muts, st1.muts, i + 1)
      && Fields(st1.specs)[..i + 1] == Fields(st.specs)[..i] + [Content(st, i, passed)]
  {
  }

  lemma {:induction false} ExecWrites(cfg: Config, st: State, i: nat, passed: Option<Mutation>, rows: seq<Mutation>)
    requires Sized(st, |cfg.hooks|) && i < |cfg.hooks| && Filled(st, i)
    ensures Writes(cfg, st, i, Passed(st.muts[i], Content(st, i, passed)), RunExec(cfg, st, i, passed).0, rows)
    decreases |cfg.hooks| - i, 0
  {
    hide CheckErrors, Prepare, Fields, Hand;
    if CheckErrors(cfg.valid, st.muts[i]).None? {
      var st1 := Prepare(st, i, passed);
      PreparedFields(cfg, st, i, passed);
      RowsFromAlike(cfg, st.muts, st1.muts, i + 1);
      if i < |cfg.hooks| - 1 {
        HooksWrite(cfg, st1, i + 1, 0, None, rows);
        RowsFromAlike(cfg, st.muts, st1.muts, i + 2);
        ExpectedNext(cfg, st, st1, i, Content(st, i, passed));
      } else {
        LastWrites(cfg, st1, rows);
        assert Fields(st1.specs)[..i + 1] == Fields(st1.specs);
        assert RowsFrom(cfg, st.muts, i + 1) == [];
      }
    }
  }

  lemma LastWrites(cfg: Config, st: State, rows: seq<Mutation>)
    ensures Batch(rows) in WriteBatch(cfg, st).0.log <==> Batch(rows) in st.log || rows == Fields(st.specs)
    ensures |Fields(st.specs)| == |st.specs|
  {
  }

  lemma ExpectedNext(cfg: Config, st: State, st1: State, i: nat, c: Mutation)
    requires Sized(st, |cfg.hooks|) && Sized(st1, |cfg.hooks|) && i + 1 < |cfg.hooks|
    requires SameFrom(st.muts, st1.muts, i + 1) && Fields(st1.specs)[..i + 1] == Fields(st.specs)[..i] + [c]
    requires RowsFrom(cfg, st.muts, i + 2) == RowsFrom(cfg, st1.muts, i + 2)
    ensures var x := Handed(cfg, st1.muts, i + 1);
      && x == Handed(cfg, st.muts, i + 1)
      && (x.Passed? ==> Expected(cfg, st1, i + 1, x.row) == Expected(cfg, st, i, c))
      && (AllGo(cfg, st.muts, i + 1) <==> Goes(cfg, x) && AllGo(cfg, st.muts, i + 2))
  {
    hide Hand, Goes;
  }

  lemma {:induction false} HooksWrite(cfg: Config, st: State, i: nat, h: nat, passed: Option<Mutation>,
      rows: seq<Mutation>)
    requires Sized(st, |cfg.hooks|) && i < |cfg.hooks| && h <= |cfg.hooks[i]| && Filled(st, i)
    ensures Writes(cfg, st, i, Hand(cfg.hooks[i], h, st.muts[i], passed), RunHooks(cfg, st, i, h, passed).0, rows)
    decreases |cfg.hooks| - i, 1, |cfg.hooks[i]| - h
  {
    hide RunExec, Fields, Passes, AllGo, RowsFrom;
    if h == |cfg.hooks[i]| {
      ExecWrites(cfg, st, i, passed, rows);
    } else {
      var st1 := Log(st, Enter(i, h));
      match cfg.hooks[i][h].before(Content(st1, i, passed))
      case Answer(_) =>
      case Edit(m) =>
        var st1' := if passed.Some? then st1 else st1.(muts := st1.muts[i := m]);
        HooksWrite(cfg, st1', i, h + 1, if passed.Some? then Some(m) else None, rows);
        RowsFromAlike(cfg, st.muts, st1'.muts, i + 1);
      case Swap(m) =>
        HooksWrite(cfg, st1, i, h + 1, Some(m), rows);
    }
  }

  /** Save reaches the database exactly if no hook answers for itself and every
      builder's own mutation passes the checks, and then it writes what the hooks
      hand on, builder by builder. */
  lemma BatchExact(cfg: Config, reg: Registry, muts: seq<Mutation>, rows: seq<Mutation>)
    requires |muts| == |cfg.hooks| && muts != []
    ensures var own := WithDefaults(reg, muts);
      Batch(rows) in RunSave(cfg, reg, muts).0.log <==> AllGo(cfg, own, 0) && rows == RowsFrom(cfg, own, 0)
  {
    hide RunHooks, Hand, Fields, Passes;
    var st := Start(WithDefaults(reg, muts));
    HooksWrite(cfg, st, 0, 0, None, rows);
    NothingBefore(cfg, st);
  }

  lemma NothingBefore(cfg: Config, st: State)
    requires Sized(st, |cfg.hooks|) && |cfg.hooks| > 0
    ensures var x := Handed(cfg, st.muts, 0);
      && (x.Passed? ==> Expected(cfg, st, 0, x.row) == RowsFrom(cfg, st.muts, 0))
      && (AllGo(cfg, st.muts, 0) <==> Goes(cfg, x) && AllGo(cfg, st.muts, 1))
  {
    hide Hand, Goes;
  }

  /** Everything that is written has passed the checks if and only if every object
      that the hooks hand on would. */
  lemma WrittenRowsExact(cfg: Config, reg: Registry, muts: seq<Mutation>, rows: seq<Mutation>)
    requires |muts| == |cfg.hooks| && Batch(rows) in RunSave(cfg, reg, muts).0.log
    ensures var own := WithDefaults(reg, muts);
      && |rows| == |muts| &&
        (forall j :: 0 <= j < |muts| ==> Handed(cfg, own, j).Passed? && rows[j] == Handed(cfg, own, j).row)
      && ((forall m :: m in rows ==> Passes(cfg.valid, m)) <==>
            forall j :: 0 <= j < |muts| ==> Handed(cfg, own, j).Passed? && Passes(cfg.valid, Handed(cfg, own, j).row))
  {
    hide Hand, Passes, RowsFrom, AllGo;
    if muts != [] {
      var own := WithDefaults(reg, muts);
      BatchExact(cfg, reg, muts, rows);
      AllPassed(cfg, own);
      RowsFromAt(cfg, own, 0);
      PassEach(cfg.valid, rows);
    }
  }

  lemma AllPassed(cfg: Config, muts: seq<Mutation>)
    requires |muts| == |cfg.hooks| && AllGo(cfg, muts, 0)
    ensures forall j :: 0 <= j < |muts| ==> Handed(cfg, muts, j).Passed?
  {
    forall j | 0 <= j < |muts| ensures Handed(cfg, muts, j).Passed? {
      assert Goes(cfg, Handed(cfg, muts, j));
    }
  }

  lemma PassEach(valid: Validator, rows: seq<Mutation>)
    ensures (forall m :: m in rows ==> Passes(valid, m)) <==> forall j :: 0 <= j < |rows| ==> Passes(valid, rows[j])
  {
  }

  /** A hook that does not replace the object hands on the one that is checked. */
  lemma {:induction false} NoSwapHandsOn(hs: seq<Hook>, h: nat, own: Mutation)
    requires h <= |hs| && forall k, m :: h <= k < |hs| ==> !hs[k].before(m).Swap?
    ensures var x := Hand(hs, h, own, None); x.Passed? ==> x.own == x.row
    decreases |hs| - h
  {
    if h < |hs| {
      match hs[h].before(own)
      case Answer(_) =>
      case Edit(m) => NoSwapHandsOn(hs, h + 1, m);
    }
  }

  /** Hooks may edit mutations before they are checked; as long as none replaces
      the mutation object, every row that is written has passed the checks. */
  lemma WrittenRowsPass(cfg: Config, reg: Registry, muts: seq<Mutation>, rows: seq<Mutation>, m: Mutation)
    requires |muts| == |cfg.hooks| && NoSwap(cfg)
    requires Batch(rows) in RunSave(cfg, reg, muts).0.log && m in rows
    ensures CheckErrors(cfg.valid, m).None?
  {
    hide Hand, Passes, RowsFrom, RunSave;
    var own := WithDefaults(reg, muts);
    WrittenRowsExact(cfg, reg, muts, rows);
    BatchExact(cfg, reg, muts, rows);
    forall j | 0 <= j < |muts| ensures Passes(cfg.valid, Handed(cfg, own, j).row) {
      NoSwapHandsOn(cfg.hooks[j], 0, own[j]);
      assert Goes(cfg, Handed(cfg, own, j));
    }
    PassesMeans(cfg.valid, m);
  }

  lemma PassesMeans(valid: Validator, m: Mutation)
    ensures Passes(valid, m) <==> CheckErrors(valid, m).None?
  {
  }

  lemma OnlyBatch(cfg: Config, reg: Registry, muts: seq<Mutation>, rows: seq<Mutation>)
    requires |muts| == |cfg.hooks| && BatchContract(cfg.batch) && Batch(rows) in RunSave(cfg, reg, muts).0.log
    ensures rows == RunSave(cfg, reg, muts).0.muts
  {
    var r := RunSave(cfg, reg, muts).0;
    var k, mid := SaveTrace(cfg, reg, muts);
    var ps := Positions(cfg.hooks, 0, 0)[..k];
    ExitsReverse(ps);
    assert Batch(rows) !in Enters(ps);
    forall x | 0 <= x < |ps| ensures Exits(ps)[x].Exit? {
      var y := |ps| - 1 - x;
      assert Exits(ps)[|ps| - 1 - y] == Exit(ps[y].0, ps[y].1);
    }
    assert Batch(rows) !in Exits(ps);
    assert Batch(rows) in mid;
  }

  /** When Save succeeds, in terms of what a caller configures: every hook lets the
      chain go on, every builder's own mutation passes the checks, the driver writes
      what is handed on, and no hook turns that into a failure. */
  lemma SaveSucceedsExact(cfg: Config, reg: Registry, muts: seq<Mutation>)
    requires |muts| == |cfg.hooks| && muts != [] && BatchContract(cfg.batch) && Honest(cfg)
    ensures var own := WithDefaults(reg, muts);
      RunSave(cfg, reg, muts).1.Success? <==>
        AllGo(cfg, own, 0) && cfg.batch(RowsFrom(cfg, own, 0)).Written? && Unwound(cfg.hooks, 0, 0).Success?
  {
    hide AllGo, RowsFrom, RunSave, Honest, BatchContract;
    var own, r := WithDefaults(reg, muts), RunSave(cfg, reg, muts).0;
    SaveOutcome(cfg, reg, muts);
    BatchExact(cfg, reg, muts, r.muts);
    BatchExact(cfg, reg, muts, RowsFrom(cfg, own, 0));
    if AllGo(cfg, own, 0) {
      OnlyBatch(cfg, reg, muts, RowsFrom(cfg, own, 0));
    }
  }
}
