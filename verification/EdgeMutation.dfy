/** Edge changes of an account update: what the builder records, the edge
    specifications that sqlSave compiles from it, and what those do. */
module EdgeMutation {
  import opened Seqs

  /** Edges to any number of neighbours, and edges to at most one. */
  datatype ManyEdge = Groups | Children | UsageLogs
  datatype OneEdge = Proxy | Parent | Lease
  datatype Edge = Many(m: ManyEdge) | One(o: OneEdge)

  datatype ManyState = ManyState(added: set<int>, removed: set<int>, cleared: bool)
  datatype OneState = OneState(id: Option<int>, cleared: bool, fieldCleared: bool)

  /** What a mutation has recorded; edges that were never touched are absent. */
  datatype State = State(many: map<ManyEdge, ManyState>, one: map<OneEdge, OneState>)

  const UNTOUCHED := State(map[], map[])

  function ManyOf(st: State, m: ManyEdge): ManyState {
    if m in st.many then st.many[m] else ManyState({}, {}, false)
  }

  function OneOf(st: State, o: OneEdge): OneState {
    if o in st.one then st.one[o] else OneState(None, false, false)
  }

  /** The edge methods of the update builders. ClearField clears the foreign key
      field (ClearProxyID), ClearOne the edge (ClearProxy). */
  datatype Op =
    | Add(m: ManyEdge, ids: seq<int>) | Remove(m: ManyEdge, ids: seq<int>) | ClearMany(m: ManyEdge)
    | SetOne(o: OneEdge, id: int) | ClearField(o: OneEdge) | ClearOne(o: OneEdge)

  function Record(st: State, op: Op): State {
    match op
    case Add(m, ids) => var s := ManyOf(st, m); st.(many := st.many[m := s.(added := s.added + ToSet(ids))])
    case Remove(m, ids) =>
      var s := ManyOf(st, m);
      st.(many := st.many[m := s.(added := s.added - ToSet(ids), removed := s.removed + ToSet(ids))])
    case ClearMany(m) => st.(many := st.many[m := ManyOf(st, m).(cleared := true)])
    case SetOne(o, id) => st.(one := st.one[o := OneOf(st, o).(id := Some(id))])
    case ClearField(o) => st.(one := st.one[o := OneOf(st, o).(id := None, fieldCleared := true)])
    case ClearOne(o) => st.(one := st.one[o := OneOf(st, o).(cleared := true, fieldCleared := o != Lease)])
  }

  function RecordAll(ops: seq<Op>): State {
    if ops == [] then UNTOUCHED else Record(RecordAll(ops[..|ops| - 1]), ops[|ops| - 1])
  }

  // ---------------------------------------------------------- compilation

  /** An edge specification; the order of the nodes is that of a map iteration. */
  datatype EdgeSpec = EdgeSpec(edge: Edge, nodes: seq<int>)
  datatype Entry = Entry(edge: Edge, nodes: set<int>)

  function Entries(es: seq<EdgeSpec>): seq<Entry> {
    seq(|es|, i requires 0 <= i < |es| => Entry(es[i].edge, ToSet(es[i].nodes)))
  }

  datatype EdgesSpec = EdgesSpec(clear: seq<Entry>, add: seq<Entry>)

  /** The blocks of sqlSave for one edge. */
  function CompileEdge(st: State, e: Edge): EdgesSpec {
    match e
    case Many(m) =>
      var s := ManyOf(st, m);
      EdgesSpec(
        if s.cleared then [Entry(e, {})] else if s.removed != {} then [Entry(e, s.removed)] else [],
        if s.added != {} then [Entry(e, s.added)] else [])
    case One(o) =>
      var s := OneOf(st, o);
      EdgesSpec(
        if s.cleared || (o != Lease && s.fieldCleared) then [Entry(e, {})] else [],
        if s.id.Some? then [Entry(e, {s.id.value})] else [])
  }

  const ORDER := [Many(Groups), One(Proxy), One(Parent), Many(Children), Many(UsageLogs), One(Lease)]

  function Compile(st: State, es: seq<Edge>): EdgesSpec {
    if es == [] then EdgesSpec([], [])
    else
      var spec, last := Compile(st, es[..|es| - 1]), CompileEdge(st, es[|es| - 1]);
      EdgesSpec(spec.clear + last.clear, spec.add + last.add)
  }

  // --------------------------------------------------------------- object

  lemma EntriesConcat(a: seq<EdgeSpec>, b: seq<EdgeSpec>)
    ensures Entries(a + b) == Entries(a) + Entries(b)
  {
  }

  class AccountMutation {
    var many: map<ManyEdge, ManyState>
    var one: map<OneEdge, OneState>

    ghost function View(): State
      reads this
    {
      State(many, one)
    }

    constructor ()
      ensures View() == UNTOUCHED
    {
      many, one := map[], map[];
    }

    method AddIDs(m: ManyEdge, ids: seq<int>)
      modifies this
      ensures View() == Record(old(View()), Add(m, ids))
    {
      var s := if m in many then many[m] else ManyState({}, {}, false);
      var added := s.added;
      for i := 0 to |ids|
        invariant View() == old(View()) && added == s.added + ToSet(ids[..i])
      {
        ToSetSnoc(ids, i);
        added := added + {ids[i]};
      }
      assert ids[..|ids|] == ids;
      assert added == s.added + ToSet(ids);
      many := many[m := s.(added := added)];
    }

    method RemoveIDs(m: ManyEdge, ids: seq<int>)
      modifies this
      ensures View() == Record(old(View()), Remove(m, ids))
    {
      var s := if m in many then many[m] else ManyState({}, {}, false);
      var added, removed := s.added, s.removed;
      for i := 0 to |ids|
        invariant View() == old(View()) && added == s.added - ToSet(ids[..i]) && removed == s.removed + ToSet(ids[..i])
      {
        ToSetSnoc(ids, i);
        added, removed := added - {ids[i]}, removed + {ids[i]};
      }
      assert ids[..|ids|] == ids;
      assert added == s.added - ToSet(ids) && removed == s.removed + ToSet(ids);
      many := many[m := s.(added := added, removed := removed)];
    }

    method Clear(m: ManyEdge)
      modifies this
      ensures View() == Record(old(View()), ClearMany(m))
    {
      var s := if m in many then many[m] else ManyState({}, {}, false);
      many := many[m := s.(cleared := true)];
    }

    method SetID(o: OneEdge, id: int)
      modifies this
      ensures View() == Record(old(View()), SetOne(o, id))
    {
      var s := if o in one then one[o] else OneState(None, false, false);
      one := one[o := s.(id := Some(id))];
    }

    /** ClearProxyID and ClearParentAccountID forget the id as well. */
    method ClearID(o: OneEdge)
      modifies this
      ensures View() == Record(old(View()), ClearField(o))
    {
      var s := if o in one then one[o] else OneState(None, false, false);
      one := one[o := s.(id := None, fieldCleared := true)];
    }

    /** ClearProxy, ClearParent and ClearManagedProxyLease keep it. */
    method ClearEdge(o: OneEdge)
      modifies this
      ensures View() == Record(old(View()), ClearOne(o))
    {
      var s := if o in one then one[o] else OneState(None, false, false);
      one := one[o := s.(cleared := true, fieldCleared := o != Lease)];
    }

    /** The edge part of sqlSave. */
    method SqlSave() returns (clear: seq<EdgeSpec>, add: seq<EdgeSpec>)
      ensures EdgesSpec(Entries(clear), Entries(add)) == Compile(View(), ORDER)
    {
      clear, add := [], [];
      assert Entries([]) == [];
      for i := 0 to |ORDER|
        invariant EdgesSpec(Entries(clear), Entries(add)) == Compile(View(), ORDER[..i])
      {
        var c, a := SaveEdge(ORDER[i]);
        EntriesConcat(clear, c);
        EntriesConcat(add, a);
        assert ORDER[..i + 1][..i] == ORDER[..i];
        clear, add := clear + c, add + a;
      }
      assert ORDER[..|ORDER|] == ORDER;
    }

    /** The blocks for one edge: clear all, or clear the removed ids; then add. */
    method SaveEdge(e: Edge) returns (clear: seq<EdgeSpec>, add: seq<EdgeSpec>)
      ensures EdgesSpec(Entries(clear), Entries(add)) == CompileEdge(View(), e)
    {
      clear, add := [], [];
      assert ToSet<int>([]) == {};
      match e
      case Many(m) =>
        var s := if m in many then many[m] else ManyState({}, {}, false);
        if s.cleared {
          clear := clear + [EdgeSpec(e, [])];
        }
        var removed := IDs(s.removed);
        assert removed != [] ==> removed[0] in s.removed;
        if |removed| > 0 && !s.cleared {
          clear := clear + [EdgeSpec(e, removed)];
        }
        var added := IDs(s.added);
        assert added != [] ==> added[0] in s.added;
        if |added| > 0 {
          add := add + [EdgeSpec(e, added)];
        }
      case One(o) =>
        var s := if o in one then one[o] else OneState(None, false, false);
        if (o != Lease && s.fieldCleared) || s.cleared {
          clear := clear + [EdgeSpec(e, [])];
        }
        var ids := if s.id.Some? then [s.id.value] else [];
        if |ids| > 0 {
          assert ToSet([s.id.value]) == {s.id.value};
          add := add + [EdgeSpec(e, ids)];
        }
    }
  }

  /** The ids of a set-valued map, in the order in which it happens to iterate. */
  method IDs(s: set<int>) returns (ids: seq<int>)
    ensures ToSet(ids) == s && NoDup(ids)
  {
    ids := [];
    var rest := s;
    while rest != {}
      invariant ToSet(ids) !! rest && ToSet(ids) + rest == s && NoDup(ids)
      decreases rest
    {
      var id := Any(rest);
      ToSetAppend(ids, id);
      ids, rest := ids + [id], rest - {id};
    }
  }

  method Any<T>(s: set<T>) returns (x: T)
    requires s != {}
    ensures x in s
  {
    x :| x in s;
  }

  lemma ToSetAppend(s: seq<int>, x: int)
    ensures ToSet(s + [x]) == ToSet(s) + {x}
    ensures NoDup(s) && x !in ToSet(s) ==> NoDup(s + [x])
  {
    var t := s + [x];
    forall y ensures y in ToSet(t) <==> y in ToSet(s) + {x} {
    }
  }

  lemma ToSetSnoc(s: seq<int>, i: nat)
    requires i < |s|
    ensures ToSet(s[..i + 1]) == ToSet(s[..i]) + {s[i]}
  {
    assert s[..i + 1] == s[..i] + [s[i]];
    ToSetAppend(s[..i], s[i]);
  }

  // --------------------------------------------------------------- effect

  /** The neighbours of one account, edge by edge. */
  type Links = map<Edge, set<int>>

  function At(links: Links, e: Edge): set<int> {
    if e in links then links[e] else {}
  }

  /** A Clear entry without nodes clears all of its edge. */
  function RunClear(links: Links, entries: seq<Entry>): Links {
    if entries == [] then links
    else
      var x := entries[|entries| - 1];
      var links' := RunClear(links, entries[..|entries| - 1]);
      links'[x.edge := if x.nodes == {} then {} else At(links', x.edge) - x.nodes]
  }

  /** An Add entry replaces the foreign key of an M2O edge and extends others. */
  function RunAdd(links: Links, entries: seq<Entry>): Links {
    if entries == [] then links
    else
      var x := entries[|entries| - 1];
      var links' := RunAdd(links, entries[..|entries| - 1]);
      links'[x.edge := if x.edge in {One(Proxy), One(Parent)} then x.nodes else At(links', x.edge) + x.nodes]
  }

  function Run(links: Links, spec: EdgesSpec): Links {
    RunAdd(RunClear(links, spec.clear), spec.add)
  }

  // ------------------------------------------------------- one edge's view

  /** What Clear and Add entries do to the neighbours across edge e. */
  function ClearAt(entries: seq<Entry>, e: Edge, was: set<int>): set<int> {
    if entries == [] then was
    else
      var x, s := entries[|entries| - 1], ClearAt(entries[..|entries| - 1], e, was);
      if x.edge != e then s else if x.nodes == {} then {} else s - x.nodes
  }

  function AddAt(entries: seq<Entry>, e: Edge, was: set<int>): set<int> {
    if entries == [] then was
    else
      var x, s := entries[|entries| - 1], AddAt(entries[..|entries| - 1], e, was);
      if x.edge != e then s else if e in {One(Proxy), One(Parent)} then x.nodes else s + x.nodes
  }

  lemma {:induction false} RunAt(links: Links, clear: seq<Entry>, add: seq<Entry>, e: Edge)
    ensures At(RunClear(links, clear), e) == ClearAt(clear, e, At(links, e))
    ensures At(RunAdd(links, add), e) == AddAt(add, e, At(links, e))
    decreases |clear| + |add|
  {
    if clear != [] {
      RunAt(links, clear[..|clear| - 1], [], e);
    }
    if add != [] {
      RunAt(links, [], add[..|add| - 1], e);
    }
  }

  lemma {:induction false} AtConcat(a: seq<Entry>, b: seq<Entry>, e: Edge, was: set<int>)
    ensures ClearAt(a + b, e, was) == ClearAt(b, e, ClearAt(a, e, was))
    ensures AddAt(a + b, e, was) == AddAt(b, e, AddAt(a, e, was))
  {
    if b == [] {
      assert a + b == a;
    } else {
      AtConcat(a, b[..|b| - 1], e, was);
      assert (a + b)[..|a + b| - 1] == a + b[..|b| - 1];
    }
  }

  /** What an update is meant to do to one edge. */
  function Effect(st: State, e: Edge, was: set<int>): set<int> {
    match e
    case Many(m) => var s := ManyOf(st, m); (if s.cleared then {} else was - s.removed) + s.added
    case One(o) =>
      var s := OneOf(st, o);
      var kept := if s.cleared || (o != Lease && s.fieldCleared) then {} else was;
      if s.id.None? then kept else if o == Lease then kept + {s.id.value} else {s.id.value}
  }

  lemma AtSingle(x: Entry, e: Edge, was: set<int>)
    ensures ClearAt([x], e, was) == if x.edge != e then was else if x.nodes == {} then {} else was - x.nodes
    ensures AddAt([x], e, was) == if x.edge != e then was else if e in {One(Proxy), One(Parent)} then x.nodes
      else was + x.nodes
  {
    assert [x][..0] == [];
  }

  /** The blocks of one edge do what is meant to it, and nothing to the others. */
  lemma BlockEffect(st: State, f: Edge, e: Edge, was: set<int>)
    ensures var b := CompileEdge(st, f);
      && (e == f ==> AddAt(b.add, e, ClearAt(b.clear, e, was)) == Effect(st, e, was))
      && (e != f ==> AddAt(b.add, e, was) == was && ClearAt(b.clear, e, was) == was)
  {
    var b := CompileEdge(st, f);
    if b.clear != [] {
      AtSingle(b.clear[0], e, was);
    }
    if b.add != [] {
      AtSingle(b.add[0], e, was);
      AtSingle(b.add[0], e, ClearAt(b.clear, e, was));
    }
  }

  /** Clearing runs for all edges before adding does, and yet each edge sees only
      its own blocks. */
  lemma {:induction false} CompileAt(st: State, es: seq<Edge>, e: Edge, was: set<int>)
    requires NoDup(es)
    ensures var spec := Compile(st, es);
      AddAt(spec.add, e, ClearAt(spec.clear, e, was)) == if e in es then Effect(st, e, was) else was
    ensures e !in es ==> var spec := Compile(st, es);
      AddAt(spec.add, e, was) == was && ClearAt(spec.clear, e, was) == was
  {
    if es != [] {
      var n := |es| - 1;
      var rest, last := Compile(st, es[..n]), CompileEdge(st, es[n]);
      assert es == es[..n] + [es[n]];
      var c := ClearAt(rest.clear, e, was);
      AtConcat(rest.clear, last.clear, e, was);
      AtConcat(rest.add, last.add, e, ClearAt(last.clear, e, c));
      BlockEffect(st, es[n], e, was);
      if e == es[n] {
        CompileAt(st, es[..n], e, was);
        CompileAt(st, es[..n], e, ClearAt(last.clear, e, was));
      } else {
        CompileAt(st, es[..n], e, was);
        BlockEffect(st, es[n], e, c);
        BlockEffect(st, es[n], e, AddAt(rest.add, e, c));
        AtConcat(rest.add, last.add, e, was);
      }
    }
  }

  lemma InOrder(e: Edge)
    ensures e in ORDER && NoDup(ORDER)
  {
    var i := match e {
      case Many(Groups) => 0 case One(Proxy) => 1 case One(Parent) => 2
      case Many(Children) => 3 case Many(UsageLogs) => 4 case One(Lease) => 5
    };
    assert ORDER[i] == e;
  }

  /** The compiled update changes every edge exactly as meant: cleared or without
      the removed neighbours, and with the added ones. */
  lemma CompiledEffect(st: State, links: Links, e: Edge)
    ensures At(Run(links, Compile(st, ORDER)), e) == Effect(st, e, At(links, e))
  {
    hide Compile, RunClear, RunAdd, ClearAt, AddAt, Effect, At;
    var spec := Compile(st, ORDER);
    InOrder(e);
    RunAt(links, spec.clear, [], e);
    RunAt(RunClear(links, spec.clear), [], spec.add, e);
    CompileAt(st, ORDER, e, At(links, e));
  }

  /** An entry that clears all of a set-valued edge comes only from Clear: removing
      no ids never compiles to one. */
  lemma {:induction false} ClearAllExact(st: State, es: seq<Edge>, m: ManyEdge)
    ensures Entry(Many(m), {}) in Compile(st, es).clear <==> Many(m) in es && ManyOf(st, m).cleared
    ensures forall x :: x in Compile(st, es).add ==> x.nodes != {}
  {
    if es != [] {
      ClearAllExact(st, es[..|es| - 1], m);
      assert es == es[..|es| - 1] + [es[|es| - 1]];
    }
  }

  // --------------------------------------------- sequential meaning of ops

  /** What a caller may expect of one edge method at the moment of the call. */
  function Means(op: Op, e: Edge, s: set<int>): set<int> {
    match op
    case Add(m, ids) => if e == Many(m) then s + ToSet(ids) else s
    case Remove(m, ids) => if e == Many(m) then s - ToSet(ids) else s
    case ClearMany(m) => if e == Many(m) then {} else s
    case SetOne(o, id) => if e == One(o) then {id} else s
    case ClearField(o) => if e == One(o) then {} else s
    case ClearOne(o) => if e == One(o) then {} else s
  }

  function Meaning(ops: seq<Op>, e: Edge, was: set<int>): set<int> {
    if ops == [] then was else Means(ops[|ops| - 1], e, Meaning(ops[..|ops| - 1], e, was))
  }

  /** The ids that are waiting to be added. */
  function Pending(st: State, e: Edge): set<int> {
    match e
    case Many(m) => ManyOf(st, m).added
    case One(o) => if OneOf(st, o).id.Some? then {OneOf(st, o).id.value} else {}
  }

  /** Ids that were added, cleared after that, and neither added nor removed again. */
  function Stale(ops: seq<Op>, e: Edge): set<int> {
    if ops == [] then {}
    else StaleAfter(RecordAll(ops[..|ops| - 1]), ops[|ops| - 1], e, Stale(ops[..|ops| - 1], e))
  }

  function StaleAfter(before: State, op: Op, e: Edge, s: set<int>): set<int> {
    match op
    case Add(m, ids) => if e == Many(m) then s - ToSet(ids) else s
    case Remove(m, ids) => if e == Many(m) then s - ToSet(ids) else s
    case ClearMany(m) => if e == Many(m) then Pending(before, e) else s
    case SetOne(o, _) => if e == One(o) then {} else s
    case ClearField(o) => if e == One(o) then {} else s
    case ClearOne(o) => if e == One(o) then Pending(before, e) else s
  }

  /** The lease that setting another one leaves behind: its key is on the other
      side, so that adding does not replace. A lease's account is unique, so the
      driver refuses such an update. */
  function Replaced(st: State, e: Edge, was: set<int>): set<int> {
    if e == One(Lease) && OneOf(st, Lease).id.Some? && !OneOf(st, Lease).cleared then was - Pending(st, e) else {}
  }

  /** The managed proxy lease has no foreign key field on the account. */
  ghost predicate Available(ops: seq<Op>) {
    forall i :: 0 <= i < |ops| && ops[i].ClearField? ==> ops[i].o != Lease
  }

  ghost predicate Balanced(st: State, e: Edge, was: set<int>, meaning: set<int>, stale: set<int>) {
    && Effect(st, e, was) == meaning + stale + Replaced(st, e, was)
    && meaning !! stale && meaning !! Replaced(st, e, was) && stale <= Pending(st, e)
    && (e == One(Lease) && !OneOf(st, Lease).cleared ==>
          stale == {} && meaning == if OneOf(st, Lease).id.Some? then Pending(st, e) else was)
  }

  lemma StepBalanced(st: State, op: Op, e: Edge, was: set<int>, meaning: set<int>, stale: set<int>)
    requires Balanced(st, e, was, meaning, stale) && (op.ClearField? ==> op.o != Lease)
    ensures Balanced(Record(st, op), e, was, Means(op, e, meaning), StaleAfter(st, op, e, stale))
  {
    match op
    case Add(_, _) =>
    case Remove(_, _) =>
    case ClearMany(_) =>
    case SetOne(_, _) =>
    case ClearField(_) =>
    case ClearOne(_) =>
  }

  lemma {:induction false} AllBalanced(ops: seq<Op>, e: Edge, was: set<int>)
    requires Available(ops)
    ensures Balanced(RecordAll(ops), e, was, Meaning(ops, e, was), Stale(ops, e))
  {
    hide Balanced, Record, Means, StaleAfter;
    if ops == [] {
      NothingBalanced(e, was);
    } else {
      var n := |ops| - 1;
      AllBalanced(ops[..n], e, was);
      StepBalanced(RecordAll(ops[..n]), ops[n], e, was, Meaning(ops[..n], e, was), Stale(ops[..n], e));
    }
  }

  lemma NothingBalanced(e: Edge, was: set<int>)
    ensures Balanced(UNTOUCHED, e, was, was, {})
  {
  }

  /** Conservation: the compiled update gives what the calls mean one by one, plus
      the stale ids and a replaced lease, which the calls do not mean. */
  lemma EffectIsMeaningAndStale(ops: seq<Op>, e: Edge, was: set<int>)
    requires Available(ops)
    ensures var rest := Stale(ops, e) + Replaced(RecordAll(ops), e, was);
      Effect(RecordAll(ops), e, was) == Meaning(ops, e, was) + rest && Meaning(ops, e, was) !! rest
  {
    AllBalanced(ops, e, was);
  }

  /** An account with at most one lease keeps at most one exactly if no lease is set
      beside another. */
  lemma OneLeaseExact(ops: seq<Op>, was: set<int>)
    requires |was| <= 1
    ensures |Effect(RecordAll(ops), One(Lease), was)| <= 1 <==> Replaced(RecordAll(ops), One(Lease), was) == {}
  {
    var s := OneOf(RecordAll(ops), Lease);
    if s.id.Some? && !s.cleared {
      var after := was + {s.id.value};
      if s.id.value in was {
        assert was - {s.id.value} == {} by {
          assert |was - {s.id.value}| == |was| - 1;
        }
        assert after == was;
      } else {
        assert |after| == |was| + 1;
        assert was - {s.id.value} == was;
      }
    }
  }

  /** An update does what its calls mean one by one exactly if nothing is stale and
      no lease is set beside another. */
  lemma FaithfulExact(ops: seq<Op>, links: Links, e: Edge)
    requires Available(ops)
    ensures At(Run(links, Compile(RecordAll(ops), ORDER)), e) == Meaning(ops, e, At(links, e))
      <==> Stale(ops, e) == {} && Replaced(RecordAll(ops), e, At(links, e)) == {}
  {
    CompiledEffect(RecordAll(ops), links, e);
    EffectIsMeaningAndStale(ops, e, At(links, e));
  }

  ghost predicate Clears(op: Op, e: Edge) {
    (op.ClearMany? && e == Many(op.m)) || (op.ClearOne? && e == One(op.o))
  }

  ghost predicate Adds(op: Op, e: Edge) {
    (op.Add? && e == Many(op.m)) || (op.SetOne? && e == One(op.o))
  }

  /** Callers who clear before they add never see a stale id. */
  lemma {:induction false} ClearFirstIsFaithful(ops: seq<Op>, e: Edge)
    requires forall i, j :: 0 <= i < j < |ops| && Adds(ops[i], e) ==> !Clears(ops[j], e)
    ensures Stale(ops, e) == {}
    ensures (forall i :: 0 <= i < |ops| ==> !Adds(ops[i], e)) ==> Pending(RecordAll(ops), e) == {}
  {
    if ops != [] {
      var n := |ops| - 1;
      ClearFirstIsFaithful(ops[..n], e);
      if Clears(ops[n], e) {
        assert forall i :: 0 <= i < n ==> !Adds(ops[i], e);
      }
    }
  }

  // -------------------------------------------------- in terms of the calls

  ghost predicate AddsId(op: Op, e: Edge, id: int) {
    (op.Add? && e == Many(op.m) && id in op.ids) || (op.SetOne? && e == One(op.o) && id == op.id)
  }

  ghost predicate Drops(op: Op, e: Edge, id: int) {
    || (op.Remove? && e == Many(op.m) && id in op.ids)
    || (op.SetOne? && e == One(op.o))
    || (op.ClearField? && e == One(op.o))
  }

  /** After n calls, an added id has not been dropped again. */
  ghost predicate Waits(ops: seq<Op>, n: nat, e: Edge, id: int)
    requires n <= |ops|
  {
    exists i :: 0 <= i < n && AddsId(ops[i], e, id) && NoDrop(ops, i, n, e, id)
  }

  ghost predicate NoDrop(ops: seq<Op>, i: int, n: nat, e: Edge, id: int)
    requires -1 <= i < n <= |ops|
  {
    forall j :: i < j < n ==> !Drops(ops[j], e, id)
  }

  /** An id waits when its edge is cleared, and is neither added nor dropped later. */
  ghost predicate LeftOver(ops: seq<Op>, n: nat, e: Edge, id: int)
    requires n <= |ops|
  {
    exists c :: 0 <= c < n && Clears(ops[c], e) && Waits(ops, c, e, id) && Unmentioned(ops, c, n, e, id)
  }

  ghost predicate Unmentioned(ops: seq<Op>, c: nat, n: nat, e: Edge, id: int)
    requires c < n <= |ops|
  {
    forall j :: c < j < n ==> !AddsId(ops[j], e, id) && !Drops(ops[j], e, id)
  }

  lemma WaitsStep(ops: seq<Op>, n: nat, e: Edge, id: int)
    requires n < |ops|
    ensures Waits(ops, n + 1, e, id) <==>
      AddsId(ops[n], e, id) || (Waits(ops, n, e, id) && !Drops(ops[n], e, id))
  {
    if AddsId(ops[n], e, id) {
      assert NoDrop(ops, n, n + 1, e, id);
    }
    if i :| 0 <= i < n && AddsId(ops[i], e, id) && NoDrop(ops, i, n, e, id) {
      assert !Drops(ops[n], e, id) ==> NoDrop(ops, i, n + 1, e, id);
    }
    if i :| 0 <= i < n + 1 && AddsId(ops[i], e, id) && NoDrop(ops, i, n + 1, e, id) {
      assert i < n ==> NoDrop(ops, i, n, e, id) && !Drops(ops[n], e, id);
    }
  }

  lemma LeftOverStep(ops: seq<Op>, n: nat, e: Edge, id: int)
    requires n < |ops|
    ensures LeftOver(ops, n + 1, e, id) <==>
      || (Clears(ops[n], e) && Waits(ops, n, e, id))
      || (LeftOver(ops, n, e, id) && !AddsId(ops[n], e, id) && !Drops(ops[n], e, id))
  {
    hide Clears, Waits, AddsId, Drops;
    if Clears(ops[n], e) && Waits(ops, n, e, id) {
      assert Unmentioned(ops, n, n + 1, e, id);
    }
    if c :| 0 <= c < n && Clears(ops[c], e) && Waits(ops, c, e, id) && Unmentioned(ops, c, n, e, id) {
      assert !AddsId(ops[n], e, id) && !Drops(ops[n], e, id) ==> Unmentioned(ops, c, n + 1, e, id);
    }
    if c :| 0 <= c < n + 1 && Clears(ops[c], e) && Waits(ops, c, e, id) && Unmentioned(ops, c, n + 1, e, id) {
      if c < n {
        assert Unmentioned(ops, c, n, e, id) && !AddsId(ops[n], e, id) && !Drops(ops[n], e, id);
      }
    }
  }

  /** The pending ids of an edge are the ones that wait. */
  lemma {:induction false} PendingExact(ops: seq<Op>, n: nat, e: Edge, id: int)
    requires n <= |ops|
    ensures id in Pending(RecordAll(ops[..n]), e) <==> Waits(ops, n, e, id)
  {
    hide Waits;
    if n == 0 {
      NothingWaits(ops, e, id);
    } else {
      PendingExact(ops, n - 1, e, id);
      WaitsStep(ops, n - 1, e, id);
      assert ops[..n][..n - 1] == ops[..n - 1];
      PendingStep(RecordAll(ops[..n - 1]), ops[n - 1], e, id);
    }
  }

  lemma NothingWaits(ops: seq<Op>, e: Edge, id: int)
    ensures !Waits(ops, 0, e, id) && !LeftOver(ops, 0, e, id) && id !in Pending(UNTOUCHED, e)
  {
  }

  lemma PendingStep(st: State, op: Op, e: Edge, id: int)
    ensures id in Pending(Record(st, op), e) <==> AddsId(op, e, id) || (id in Pending(st, e) && !Drops(op, e, id))
  {
  }

  lemma StaleStep(before: State, op: Op, e: Edge, s: set<int>, id: int)
    requires id in s ==> id in Pending(before, e)
    ensures id in StaleAfter(before, op, e, s) <==>
      || (Clears(op, e) && id in Pending(before, e))
      || (id in s && !AddsId(op, e, id) && !Drops(op, e, id))
  {
  }

  lemma {:induction false} LeftOverWaits(ops: seq<Op>, n: nat, e: Edge, id: int)
    requires n <= |ops| && LeftOver(ops, n, e, id)
    ensures Waits(ops, n, e, id)
  {
    hide Clears, Waits, AddsId, Drops, LeftOver;
    if n > 0 {
      LeftOverStep(ops, n - 1, e, id);
      WaitsStep(ops, n - 1, e, id);
      if LeftOver(ops, n - 1, e, id) {
        LeftOverWaits(ops, n - 1, e, id);
      }
      ClearsOnly(ops[n - 1], e, id);
    } else {
      NothingWaits(ops, e, id);
    }
  }

  lemma ClearsOnly(op: Op, e: Edge, id: int)
    ensures Clears(op, e) ==> !AddsId(op, e, id) && !Drops(op, e, id)
  {
  }

  /** The stale ids of an edge are the ones that are left over. */
  lemma {:induction false} StaleExact(ops: seq<Op>, n: nat, e: Edge, id: int)
    requires n <= |ops|
    ensures id in Stale(ops[..n], e) <==> LeftOver(ops, n, e, id)
  {
    hide Waits, LeftOver, Clears, AddsId, Drops, Pending, StaleAfter;
    if n == 0 {
      NothingWaits(ops, e, id);
    } else {
      StaleExact(ops, n - 1, e, id);
      PendingExact(ops, n - 1, e, id);
      LeftOverStep(ops, n - 1, e, id);
      if LeftOver(ops, n - 1, e, id) {
        LeftOverWaits(ops, n - 1, e, id);
      }
      assert ops[..n][..n - 1] == ops[..n - 1];
      StaleStep(RecordAll(ops[..n - 1]), ops[n - 1], e, Stale(ops[..n - 1], e), id);
    }
  }

  /** An edge is recorded as cleared exactly if it was cleared by some call; for a
      parent edge, clearing its field is recorded as well. */
  lemma {:induction false} ClearedExact(ops: seq<Op>, o: OneEdge)
    ensures OneOf(RecordAll(ops), o).cleared <==> ClearOne(o) in ops
    ensures Available(ops) ==>
      (OneOf(RecordAll(ops), o).fieldCleared <==> o != Lease && (ClearField(o) in ops || ClearOne(o) in ops))
  {
    hide RecordAll, Record;
    RecordLast(ops);
    if ops != [] {
      var n := |ops| - 1;
      ClearedExact(ops[..n], o);
      RecordOne(RecordAll(ops[..n]), ops[n], o);
      assert ops == ops[..n] + [ops[n]];
      assert Available(ops) ==> Available(ops[..n]);
    }
  }

  lemma RecordLast(ops: seq<Op>)
    ensures RecordAll(ops) ==
      if ops == [] then UNTOUCHED else Record(RecordAll(ops[..|ops| - 1]), ops[|ops| - 1])
  {
  }

  lemma RecordOne(st: State, op: Op, o: OneEdge)
    ensures var s, r := OneOf(st, o), OneOf(Record(st, op), o);
      && (r.cleared <==> s.cleared || op == ClearOne(o))
      && (r.fieldCleared <==> if op == ClearOne(o) then o != Lease else s.fieldCleared || op == ClearField(o))
  {
  }

  ghost predicate RemovesId(op: Op, m: ManyEdge, id: int) {
    op.Remove? && op.m == m && id in op.ids
  }

  /** The removed ids are all that some call removed, whether or not they were added
      again, and the edge is cleared exactly if some call cleared it. */
  lemma {:induction false} RemovedExact(ops: seq<Op>, m: ManyEdge, id: int)
    ensures id in ManyOf(RecordAll(ops), m).removed <==> exists i :: 0 <= i < |ops| && RemovesId(ops[i], m, id)
    ensures ManyOf(RecordAll(ops), m).cleared <==> ClearMany(m) in ops
  {
    hide RecordAll, Record;
    RecordLast(ops);
    if ops != [] {
      var n := |ops| - 1;
      RemovedExact(ops[..n], m, id);
      RecordMany(RecordAll(ops[..n]), ops[n], m, id);
      assert ops == ops[..n] + [ops[n]];
      if i :| 0 <= i < n && RemovesId(ops[..n][i], m, id) {
        assert RemovesId(ops[i], m, id);
      }
      if i :| 0 <= i < |ops| && RemovesId(ops[i], m, id) {
        assert i < n ==> RemovesId(ops[..n][i], m, id);
      }
    }
  }

  lemma RecordMany(st: State, op: Op, m: ManyEdge, id: int)
    ensures var s, r := ManyOf(st, m), ManyOf(Record(st, op), m);
      && (r.cleared <==> s.cleared || op == ClearMany(m))
      && (id in r.removed <==> id in s.removed || RemovesId(op, m, id))
  {
  }

  /** A lease of the account is left beside the one that the calls set, because they
      never clear the edge. */
  ghost predicate LeftBeside(ops: seq<Op>, e: Edge, was: set<int>, id: int) {
    && e == One(Lease) && id in was && ClearOne(Lease) !in ops
    && exists other :: other != id && Waits(ops, |ops|, e, other)
  }

  lemma ReplacedExact(ops: seq<Op>, e: Edge, was: set<int>, id: int)
    ensures id in Replaced(RecordAll(ops), e, was) <==> LeftBeside(ops, e, was, id)
  {
    hide Waits, RecordAll;
    if e == One(Lease) {
      ClearedExact(ops, Lease);
      assert ops[..|ops|] == ops;
      forall x ensures x in Pending(RecordAll(ops), e) <==> Waits(ops, |ops|, e, x) {
        PendingExact(ops, |ops|, e, x);
      }
      var s := OneOf(RecordAll(ops), Lease);
      assert Pending(RecordAll(ops), e) == if s.id.Some? then {s.id.value} else {};
      if LeftBeside(ops, e, was, id) {
        var other :| other != id && Waits(ops, |ops|, e, other);
        assert other in Pending(RecordAll(ops), e);
      }
      if s.id.Some? {
        assert Waits(ops, |ops|, e, s.id.value);
      }
    }
  }

  /** For every sequence of calls and every edge: the compiled update gives what the
      calls mean one by one, and besides exactly the ids that are left over or left
      beside. */
  lemma UpdateInWords(ops: seq<Op>, links: Links, e: Edge, id: int)
    requires Available(ops)
    ensures id in At(Run(links, Compile(RecordAll(ops), ORDER)), e) <==>
      id in Meaning(ops, e, At(links, e)) || LeftOver(ops, |ops|, e, id) || LeftBeside(ops, e, At(links, e), id)
    ensures LeftOver(ops, |ops|, e, id) || LeftBeside(ops, e, At(links, e), id) ==> id !in Meaning(ops, e, At(links, e))
  {
    hide Compile, Run, Effect, Meaning, Stale, Replaced, LeftOver, LeftBeside;
    CompiledEffect(RecordAll(ops), links, e);
    EffectIsMeaningAndStale(ops, e, At(links, e));
    assert ops[..|ops|] == ops;
    StaleExact(ops, |ops|, e, id);
    ReplacedExact(ops, e, At(links, e), id);
  }

  // ------------------------------------------- updates of several accounts

  type World = map<int, Links>

  /** Foreign keys in the other table can point to one account only. */
  ghost predicate AddsForeign(spec: EdgesSpec) {
    exists x :: x in spec.add && x.edge in {Many(Children), Many(UsageLogs), One(Lease)}
  }

  /** UpdateNodes on the matching accounts. */
  ghost function UpdateMany(w: World, spec: EdgesSpec, ids: set<int>): Option<World> {
    if |ids| > 1 && AddsForeign(spec) then None
    else Some(map a | a in w :: if a in ids then Run(w[a], spec) else w[a])
  }

  /** UpdateNode on accounts one after the other, perhaps repeatedly. */
  ghost function UpdateEach(w: World, spec: EdgesSpec, ids: seq<int>): World {
    if ids == [] then w
    else
      var w' := UpdateEach(w, spec, ids[..|ids| - 1]);
      var a := ids[|ids| - 1];
      if a in w' then w'[a := Run(w'[a], spec)] else w'
  }

  lemma RepeatedEffect(st: State, e: Edge, was: set<int>)
    ensures Effect(st, e, Effect(st, e, was)) == Effect(st, e, was)
  {
  }

  /** The set-valued update and single-node updates in any order, with any
      repetitions, leave every edge of every account alike. */
  lemma {:induction false} ManyIsEach(w: World, st: State, ids: seq<int>, a: int, e: Edge)
    requires a in w
    ensures var spec := Compile(st, ORDER);
      && a in UpdateEach(w, spec, ids)
      && At(UpdateEach(w, spec, ids)[a], e) == (if a in ids then Effect(st, e, At(w[a], e)) else At(w[a], e))
      && (UpdateMany(w, spec, ToSet(ids)).Some? ==>
            a in UpdateMany(w, spec, ToSet(ids)).value &&
              At(UpdateMany(w, spec, ToSet(ids)).value[a], e) == At(UpdateEach(w, spec, ids)[a], e))
  {
    hide Compile, Run, Effect;
    var spec := Compile(st, ORDER);
    CompiledEffect(st, w[a], e);
    if ids != [] {
      var n := |ids| - 1;
      ManyIsEach(w, st, ids[..n], a, e);
      assert ids == ids[..n] + [ids[n]];
      RepeatedEffect(st, e, At(w[a], e));
      CompiledEffect(st, UpdateEach(w, spec, ids[..n])[a], e);
    }
  }
}
