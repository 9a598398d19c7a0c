/** The writer and the reader of account rows agree. */
module CodecTheorems {
  import opened Seqs
  import opened AccountFields
  import opened Codec

  // ---------------------------------------------------- reader and scanner

  /** Whatever columns a query returns, the values that were allocated for them
      never have an unexpected type. */
  lemma {:induction false} NeverUnexpected(codec: JsonCodec, e: Entity, columns: seq<Column>, values: seq<Holder>,
      k: nat)
    requires k <= |columns| && Scanned(columns, values)
    ensures var err := AssignUpTo(codec, e, columns, values, k).1; err.Some? ==> err.value.Unmarshal?
  {
    if k > 0 {
      NeverUnexpected(codec, e, columns, values, k - 1);
      assert SameKind(values[k - 1], Allocated(columns[k - 1]));
    }
  }

  /** The driver fills holders and leaves their types alone. */
  ghost predicate Fills(scan: seq<Holder> -> seq<Holder>) {
    forall vs :: |scan(vs)| == |vs| && forall i :: 0 <= i < |vs| ==> SameKind(scan(vs)[i], vs[i])
  }

  /** Reading one row: allocate, scan, assign. Whatever the columns and the driver's
      values, the only failure is a document that cannot be decoded. */
  method ReadNode(codec: JsonCodec, columns: seq<Column>, scan: seq<Holder> -> seq<Holder>)
      returns (node: Account, err: Option<AssignError>)
    requires Fills(scan)
    ensures fresh(node) && (err.Some? ==> err.value.Unmarshal?)
    ensures exists values ::
              Scanned(columns, values) && (node.View(), err) == AssignUpTo(codec, NEW, columns, values, |columns|)
  {
    var holders := ScanValues(columns);
    var values := scan(holders);
    node := new Account();
    err := node.AssignValues(codec, columns, values);
    NeverUnexpected(codec, NEW, columns, values, |columns|);
  }

  /** Columns i up to k hold no value for c. */
  ghost predicate Silent(columns: seq<Column>, values: seq<Holder>, c: Column, i: nat, k: nat)
    requires k <= |columns| <= |values|
  {
    forall j :: i <= j < k && columns[j] == c ==>
      ValueIn(values[j]).None? && (!values[j].Bytes? || values[j].data == [])
  }

  /** NULL columns leave their field as it was. */
  lemma {:induction false} SilentKeeps(codec: JsonCodec, e: Entity, columns: seq<Column>, values: seq<Holder>,
      f: Field, i: nat, k: nat)
    requires i <= k <= |columns| <= |values| && Silent(columns, values, Known(f), i, k)
    requires AssignUpTo(codec, e, columns, values, k).1.None?
    ensures AssignUpTo(codec, e, columns, values, i).1.None?
    ensures var a, b :=
      AssignUpTo(codec, e, columns, values, i).0.fields, AssignUpTo(codec, e, columns, values, k).0.fields;
      (f in a <==> f in b) && (f in a ==> a[f] == b[f])
  {
    if i < k {
      SilentKeeps(codec, e, columns, values, f, i, k - 1);
    }
  }

  /** A scalar field that occurs repeatedly gets its last value that is not NULL. */
  lemma LastScalarWins(codec: JsonCodec, e: Entity, columns: seq<Column>, values: seq<Holder>, f: Field, i: nat)
    requires i < |columns| && Scanned(columns, values) && columns[i] == Known(f) && !Asserted(f).Document?
    requires ValueIn(values[i]).Some? && Silent(columns, values, Known(f), i + 1, |columns|)
    requires AssignUpTo(codec, e, columns, values, |columns|).1.None?
    ensures var r := AssignUpTo(codec, e, columns, values, |columns|).0.fields;
      f in r && r[f] == ValueIn(values[i]).value
  {
    SilentKeeps(codec, e, columns, values, f, i + 1, |columns|);
    assert SameKind(values[i], Allocated(columns[i]));
  }

  /** A document that occurs repeatedly is merged instead: the last document wins
      exactly if it is null, or nothing was there, or it has every key that was. */
  lemma LastDocumentExact(codec: JsonCodec, e: Entity, columns: seq<Column>, values: seq<Holder>, f: Field, i: nat,
      doc: Json)
    requires i < |columns| && Scanned(columns, values) && columns[i] == Known(f) && Asserted(f).Document?
    requires values[i].Bytes? && values[i].data != [] && codec.dec(values[i].data) == Some(doc)
    requires Silent(columns, values, Known(f), i + 1, |columns|)
    requires AssignUpTo(codec, e, columns, values, |columns|).1.None?
    ensures var prior, r :=
      JsonOf(AssignUpTo(codec, e, columns, values, i).0, f), AssignUpTo(codec, e, columns, values, |columns|).0;
      JsonOf(r, f) == doc <==> doc.Nil? || prior.Nil? || prior.entries.Keys <= doc.entries.Keys
  {
    SilentKeeps(codec, e, columns, values, f, i + 1, |columns|);
    var prior := JsonOf(AssignUpTo(codec, e, columns, values, i).0, f);
    assert JsonOf(AssignUpTo(codec, e, columns, values, i + 1).0, f) == Merge(prior, doc);
    if doc.Object? && prior.Object? {
      if prior.entries.Keys <= doc.entries.Keys {
        assert prior.entries + doc.entries == doc.entries;
      } else {
        assert (prior.entries + doc.entries).Keys == prior.entries.Keys + doc.entries.Keys;
      }
    }
  }

  /** The id alone is overwritten by NULL, with zero; the last id column decides. */
  lemma {:induction false} LastIdWins(codec: JsonCodec, e: Entity, columns: seq<Column>, values: seq<Holder>, i: nat,
      k: nat)
    requires i < k <= |columns| && Scanned(columns, values) && columns[i] == ID &&
      forall j :: i < j < k ==> columns[j] != ID
    requires AssignUpTo(codec, e, columns, values, k).1.None?
    ensures values[i].NullInt64?
    ensures AssignUpTo(codec, e, columns, values, k).0.id == if values[i].n.Some? then values[i].n.value else 0
  {
    assert SameKind(values[i], Allocated(columns[i]));
    if i + 1 < k {
      LastIdWins(codec, e, columns, values, i, k - 1);
    }
  }

  /** Only unknown columns reach the selected values, each its last value, and they
      reach nothing else. */
  lemma {:induction false} LastSelectedWins(codec: JsonCodec, e: Entity, columns: seq<Column>, values: seq<Holder>,
      name: string, i: nat, k: nat)
    requires i < k <= |columns| <= |values| && columns[i] == Other(name) &&
      forall j :: i < j < k ==> columns[j] != Other(name)
    requires AssignUpTo(codec, e, columns, values, k).1.None?
    ensures var r := AssignUpTo(codec, e, columns, values, k).0.selected; name in r && r[name] == values[i]
  {
    hide Asserted;
    if i + 1 < k {
      LastSelectedWins(codec, e, columns, values, name, i, k - 1);
    }
  }

  lemma {:induction false} SelectedFrame(codec: JsonCodec, e: Entity, columns: seq<Column>, values: seq<Holder>,
      name: string, k: nat)
    requires k <= |columns| <= |values| && forall j :: 0 <= j < k ==> columns[j] != Other(name)
    ensures var r := AssignUpTo(codec, e, columns, values, k).0.selected;
      (name in r <==> name in e.selected) && (name in r ==> r[name] == e.selected[name])
  {
    hide Asserted;
    if k > 0 {
      SelectedFrame(codec, e, columns, values, name, k - 1);
    }
  }

  lemma {:induction false} UnknownTouchNothing(codec: JsonCodec, e: Entity, columns: seq<Column>, values: seq<Holder>,
      k: nat)
    requires k <= |columns| <= |values| && forall i :: 0 <= i < k ==> columns[i].Other?
    ensures var (r, err) := AssignUpTo(codec, e, columns, values, k);
      err.None? && r.id == e.id && r.fields == e.fields
  {
    if k > 0 {
      UnknownTouchNothing(codec, e, columns, values, k - 1);
    }
  }

  // ------------------------------------------------------ create then read

  lemma {:induction false} LastFieldExact(m: Mutation, fs: seq<(Field, FieldType)>, f: Field)
    requires forall x :: x in fs ==> Declared(x.0) == Some(x.1)
    ensures LastField(SpecFields(m, fs), f) == if f in m && Declared(f).Some? && (f, Declared(f).value) in fs
      then Some(m[f]) else None
  {
    hide Declared;
    if fs != [] {
      var n := |fs| - 1;
      LastFieldExact(m, fs[..n], f);
      assert fs == fs[..n] + [fs[n]];
      var rest := SpecFields(m, fs[..n]);
      if fs[n].0 in m {
        var one := FieldSpec(fs[n].0, fs[n].1, m[fs[n].0]);
        assert SpecFields(m, fs) == rest + [one];
        assert (rest + [one])[..|rest|] == rest;
      } else {
        assert SpecFields(m, fs) == rest;
      }
    }
  }

  /** The three tables agree: what createSpec declares, what scanValues allocates
      and what assignValues asserts. */
  lemma TablesAgree(f: Field)
    ensures Asserted(f) == if Declared(f).Some? then KindOfType(Declared(f).value) else Integer
    ensures Declared(f).None? <==> f == ProxyID || f == ParentAccountID
    ensures HolderFits(Asserted(f), Allocated(Known(f)))
  {
  }

  /** The stored row holds each set field and foreign key, and NULL elsewhere. */
  lemma StoredExact(codec: JsonCodec, m: Mutation, others: Neighbors, id: int, f: Field)
    requires WellTyped(m)
    ensures StoredCell(codec, SpecOf(m, others), id, Known(f)) == if f in m then Encoded(codec, m[f]) else Null
    ensures f in m ==> KindOf(m[f]) == Asserted(f)
  {
    hide CreateFields, Declared, Asserted, SpecEdges;
    forall x ensures x in CreateFields() <==> Declared(x.0) == Some(x.1) {
      Listed(x);
    }
    LastFieldExact(m, CreateFields(), f);
    EdgeColumns(m, others, f);
    TablesAgree(f);
  }

  lemma {:induction false} LastEdgeConcat(a: seq<EdgeSpec>, b: seq<EdgeSpec>, f: Field)
    ensures LastEdge(a + b, f) == if LastEdge(b, f).Some? then LastEdge(b, f) else LastEdge(a, f)
  {
    if b == [] {
      assert a + b == a;
    } else {
      LastEdgeConcat(a, b[..|b| - 1], f);
      assert (a + b)[..|a + b| - 1] == a + b[..|b| - 1];
    }
  }

  lemma OneEdge(kind: EdgeKind, nodes: seq<int>, f: Field)
    ensures LastEdge(SpecEdge(kind, nodes), f) == if KeyOf(kind) == Some(f) && nodes != [] then Some(nodes[0]) else None
  {
    if nodes != [] {
      assert [EdgeSpec(kind, nodes)][..0] == [];
    }
  }

  lemma EdgeColumns(m: Mutation, others: Neighbors, f: Field)
    requires WellTyped(m)
    ensures LastEdge(SpecEdges(m, others), f) == if (f == ProxyID || f == ParentAccountID) && f in m then Some(m[f].n)
      else None
  {
    hide SpecEdge, LastEdge, Declared;
    var a, b, c :=
      SpecEdge(GroupsM2M, others.groups), SpecEdge(ProxyM2O, ParentIds(m, ProxyID)),
      SpecEdge(ParentM2O, ParentIds(m, ParentAccountID));
    var d, e, g :=
      SpecEdge(ChildrenO2M, others.children), SpecEdge(UsageLogsO2M, others.usageLogs),
      SpecEdge(LeaseO2O, LeaseIds(others));
    OneEdge(GroupsM2M, others.groups, f);
    OneEdge(ProxyM2O, ParentIds(m, ProxyID), f);
    OneEdge(ParentM2O, ParentIds(m, ParentAccountID), f);
    OneEdge(ChildrenO2M, others.children, f);
    OneEdge(UsageLogsO2M, others.usageLogs, f);
    OneEdge(LeaseO2O, LeaseIds(others), f);
    LastEdgeConcat(a, b, f);
    LastEdgeConcat(a + b, c, f);
    LastEdgeConcat(a + b + c, d, f);
    LastEdgeConcat(a + b + c + d, e, f);
    LastEdgeConcat(a + b + c + d + e, g, f);
  }

  /** The driver fills every holder of a stored row. */
  ghost predicate ReadsRow(codec: JsonCodec, spec: CreateSpec, id: int, columns: seq<Column>, values: seq<Holder>) {
    |values| == |columns| && forall i :: 0 <= i < |columns| && !columns[i].Other? ==>
      Fill(Allocated(columns[i]), StoredCell(codec, spec, id, columns[i])) == Some(values[i])
  }

  /** One column of the stored row: the driver can fill its holder, and assigning
      it to an entity that has read nothing else into the field sets that field. */
  lemma ReadOne(codec: JsonCodec, m: Mutation, others: Neighbors, id: int, f: Field, e: Entity)
    requires RoundTrips(codec) && WellTyped(m)
    requires f in e.fields ==> f in m && e.fields[f] == m[f]
    ensures var h := Fill(Allocated(Known(f)), StoredCell(codec, SpecOf(m, others), id, Known(f)));
      h.Some? && AssignOne(codec, e, Known(f), h.value) ==
        (if f in m then e.(fields := e.fields[f := m[f]]) else e, None)
  {
    hide SpecOf, StoredCell, Declared, Asserted, Allocated, WellTyped;
    StoredExact(codec, m, others, id, f);
    TablesAgree(f);
    if f in m && m[f].JsonV? {
      var j := m[f].j;
      assert codec.dec(codec.enc(j)) == Some(j) && codec.enc(j) != [];
      if j.Object? {
        assert j.entries + j.entries == j.entries;
      }
    }
  }

  /** The mutation as far as some columns show it. */
  function Restricted(m: Mutation, columns: seq<Column>): Mutation {
    map f | f in m && Known(f) in columns :: m[f]
  }

  lemma RestrictedStep(m: Mutation, columns: seq<Column>, c: Column)
    ensures Restricted(m, columns + [c]) ==
      if c.Known? && c.f in m then Restricted(m, columns)[c.f := m[c.f]] else Restricted(m, columns)
  {
  }

  /** Reading any selection of columns back, in any order and with repetitions,
      gives the node that createSpec returned, restricted to those columns. */
  lemma {:induction false} ReadBack(codec: JsonCodec, m: Mutation, others: Neighbors, id: int, columns: seq<Column>,
      values: seq<Holder>, k: nat)
    requires RoundTrips(codec) && WellTyped(m) && ReadsRow(codec, SpecOf(m, others), id, columns, values) &&
      k <= |columns|
    ensures var (r, err) := AssignUpTo(codec, NEW, columns, values, k);
      && err.None? && r.fields == Restricted(m, columns[..k]) && r.id == if ID in columns[..k] then id else 0
  {
    hide SpecOf, StoredCell, Fill, WellTyped, RoundTrips, Asserted, Allocated, Restricted;
    if k > 0 {
      ReadBack(codec, m, others, id, columns, values, k - 1);
      var e, c := AssignUpTo(codec, NEW, columns, values, k - 1).0, columns[k - 1];
      assert columns[..k] == columns[..k - 1] + [c];
      RestrictedStep(m, columns[..k - 1], c);
      RestrictedIn(m, columns[..k - 1]);
      match c
      case Known(f) => ReadOne(codec, m, others, id, f, e);
      case ID => ReadId(codec, SpecOf(m, others), id);
      case Other(_) =>
    } else {
      RestrictedIn(m, columns[..0]);
    }
  }

  lemma RestrictedIn(m: Mutation, columns: seq<Column>)
    ensures forall f :: f in Restricted(m, columns) ==> f in m && Restricted(m, columns)[f] == m[f]
    ensures columns == [] ==> Restricted(m, columns) == map[]
  {
  }

  lemma ReadId(codec: JsonCodec, spec: CreateSpec, id: int)
    ensures Fill(Allocated(ID), StoredCell(codec, spec, id, ID)) == Some(NullInt64(Some(id)))
  {
  }

  /** Creating an account and reading the row with all columns is the identity:
      fields that were not set come back unset. */
  lemma CreateThenRead(codec: JsonCodec, m: Mutation, others: Neighbors, id: int, columns: seq<Column>,
      values: seq<Holder>)
    requires RoundTrips(codec) && WellTyped(m) && ReadsRow(codec, SpecOf(m, others), id, columns, values)
    requires ID in columns && (forall f :: Known(f) in columns) && forall c :: c in columns ==> !c.Other?
    ensures AssignUpTo(codec, NEW, columns, values, |columns|) == (Entity(id, m, map[]), None)
  {
    ReadBack(codec, m, others, id, columns, values, |columns|);
    assert columns[..|columns|] == columns;
    var r := AssignUpTo(codec, NEW, columns, values, |columns|).0;
    forall name ensures name !in r.selected {
      SelectedFrame(codec, NEW, columns, values, name, |columns|);
    }
    assert r.selected == map[];
    assert r.fields == m;
  }

  /** A mutation that passes the checks stores NULL only in fields that the entity
      keeps as pointers. */
  lemma CheckedRowsAreComplete(codec: JsonCodec, valid: Validator, m: Mutation, others: Neighbors, id: int, f: Field)
    requires WellTyped(m) && CheckErrors(valid, m).None? && !Nillable(f)
    ensures StoredCell(codec, SpecOf(m, others), id, Known(f)) != Null
  {
    hide StoredCell, SpecOf, CheckErrors, Checks;
    StoredExact(codec, m, others, id, f);
    CheckExact(valid, m);
    RequiredFields(f);
  }

  predicate Nillable(f: Field) {
    match f
    case DeletedAt | Notes | ProxyID | ProxyFallbackOriginID | LoadFactor | ErrorMessage | LastUsedAt => true
    case ExpiresAt | RateLimitedAt | RateLimitResetAt | OverloadUntil | TempUnschedulableUntil => true
    case TempUnschedulableReason | SessionWindowStart | SessionWindowEnd | SessionWindowStatus | ParentAccountID => true
    case _ => false
  }
}
