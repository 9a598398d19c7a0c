/** Rows of the accounts table and their entities: createSpec on the way in,
    scanValues and assignValues on the way out. */
module Codec {
  import opened Seqs
  import opened AccountFields

  newtype byte = x: int | 0 <= x < 256

  /** What the switches over column names distinguish. */
  datatype Column = ID | Known(f: Field) | Other(name: string)

  datatype Cell = Null | Scalar(v: Value) | Raw(data: seq<byte>)

  /** The destination of one column of a row. */
  datatype Holder =
    | NullInt64(n: Option<int>) | NullString(s: Option<string>) | NullTime(t: Option<int>)
    | NullBool(b: Option<bool>) | NullFloat64(x: Option<real>) | Bytes(data: seq<byte>) | UnknownType(cell: Cell)

  /** The JSON codec: a document decodes to null or to an object, or not at all. */
  datatype JsonCodec = JsonCodec(enc: Json -> seq<byte>, dec: seq<byte> -> Option<Json>)

  ghost predicate RoundTrips(codec: JsonCodec) {
    forall j :: codec.enc(j) != [] && codec.dec(codec.enc(j)) == Some(j)
  }

  // ------------------------------------------------------------- scanValues

  function Allocated(c: Column): Holder {
    match c
    case Known(Credentials) | Known(Extra) => Bytes([])
    case Known(AutoPauseOnExpired) | Known(Schedulable) | Known(ManagedProxyReady) => NullBool(None)
    case Known(RateMultiplier) => NullFloat64(None)
    case ID | Known(ProxyID) | Known(ProxyFallbackOriginID) | Known(Concurrency) => NullInt64(None)
    case Known(LoadFactor) | Known(Priority) | Known(ParentAccountID) => NullInt64(None)
    case Known(Name) | Known(Notes) | Known(Platform) | Known(Type) | Known(Status) => NullString(None)
    case Known(ErrorMessage) | Known(TempUnschedulableReason) => NullString(None)
    case Known(SessionWindowStatus) | Known(QuotaDimension) => NullString(None)
    case Known(CreatedAt) | Known(UpdatedAt) | Known(DeletedAt) | Known(LastUsedAt) => NullTime(None)
    case Known(ExpiresAt) | Known(RateLimitedAt) | Known(RateLimitResetAt) | Known(OverloadUntil) => NullTime(None)
    case Known(TempUnschedulableUntil) | Known(SessionWindowStart) | Known(SessionWindowEnd) => NullTime(None)
    case Other(_) => UnknownType(Null)
  }

  method ScanValues(columns: seq<Column>) returns (values: seq<Holder>)
    ensures |values| == |columns|
    ensures forall i :: 0 <= i < |columns| ==> values[i] == Allocated(columns[i])
  {
    var slots := new Holder[|columns|](_ => UnknownType(Null));
    for i := 0 to |columns|
      invariant forall j :: 0 <= j < i ==> slots[j] == Allocated(columns[j])
    {
      slots[i] := Allocated(columns[i]);
    }
    values := slots[..];
  }

  ghost predicate SameKind(a: Holder, b: Holder) {
    match a
    case NullInt64(_) => b.NullInt64?
    case NullString(_) => b.NullString?
    case NullTime(_) => b.NullTime?
    case NullBool(_) => b.NullBool?
    case NullFloat64(_) => b.NullFloat64?
    case Bytes(_) => b.Bytes?
    case UnknownType(_) => b.UnknownType?
  }

  /** Holders that ScanValues allocated and the driver has filled in any way. */
  ghost predicate Scanned(columns: seq<Column>, values: seq<Holder>) {
    |values| == |columns| && forall i :: 0 <= i < |columns| ==> SameKind(values[i], Allocated(columns[i]))
  }

  // ----------------------------------------------------------- assignValues

  datatype Entity = Entity(id: int, fields: map<Field, Value>, selected: map<string, Holder>)

  const NEW := Entity(0, map[], map[])

  datatype AssignError = Mismatch | Unexpected(c: Column) | Unmarshal(f: Field)

  datatype Kind = Time | String | Integer | Float | Bool | Document

  /** The type that the case of each field asserts. */
  function Asserted(f: Field): Kind {
    match f
    case CreatedAt | UpdatedAt | DeletedAt => Time
    case Name | Notes | Platform | Type => String
    case Credentials | Extra => Document
    case ProxyID | ProxyFallbackOriginID | Concurrency | LoadFactor | Priority => Integer
    case RateMultiplier => Float
    case Status | ErrorMessage => String
    case LastUsedAt | ExpiresAt => Time
    case AutoPauseOnExpired | Schedulable | ManagedProxyReady => Bool
    case RateLimitedAt | RateLimitResetAt | OverloadUntil | TempUnschedulableUntil => Time
    case TempUnschedulableReason => String
    case SessionWindowStart | SessionWindowEnd => Time
    case SessionWindowStatus => String
    case ParentAccountID => Integer
    case QuotaDimension => String
  }

  predicate HolderFits(k: Kind, h: Holder) {
    match k
    case Time => h.NullTime?
    case String => h.NullString?
    case Integer => h.NullInt64?
    case Float => h.NullFloat64?
    case Bool => h.NullBool?
    case Document => h.Bytes?
  }

  /** The valid value of a scalar holder. */
  function ValueIn(h: Holder): Option<Value> {
    match h
    case NullInt64(Some(n)) => Some(IntV(n))
    case NullString(Some(s)) => Some(StringV(s))
    case NullTime(Some(t)) => Some(TimeV(t))
    case NullBool(Some(b)) => Some(BoolV(b))
    case NullFloat64(Some(x)) => Some(FloatV(x))
    case _ => None
  }

  /** Unmarshal into a map: null makes it nil, an object adds its entries. */
  function Merge(prior: Json, doc: Json): Json {
    if doc.Nil? then Nil
    else if prior.Nil? then doc
    else Object(prior.entries + doc.entries)
  }

  function JsonOf(e: Entity, f: Field): Json {
    if f in e.fields && e.fields[f].JsonV? then e.fields[f].j else Nil
  }

  /** One turn of the loop. */
  function AssignOne(codec: JsonCodec, e: Entity, c: Column, h: Holder): (Entity, Option<AssignError>) {
    match c
    case ID =>
      if !h.NullInt64? then (e, Some(Unexpected(c))) else (e.(id := if h.n.Some? then h.n.value else 0), None)
    case Other(name) => (e.(selected := e.selected[name := h]), None)
    case Known(f) =>
      if !HolderFits(Asserted(f), h) then (e, Some(Unexpected(c)))
      else if Asserted(f).Document? then
        if h.data == [] then (e, None)
        else
          match codec.dec(h.data)
          case None => (e, Some(Unmarshal(f)))
          case Some(doc) => (e.(fields := e.fields[f := JsonV(Merge(JsonOf(e, f), doc))]), None)
      else
        match ValueIn(h)
        case None => (e, None)
        case Some(v) => (e.(fields := e.fields[f := v]), None)
  }

  /** The first k turns; an error ends the loop. */
  function AssignUpTo(codec: JsonCodec, e: Entity, columns: seq<Column>, values: seq<Holder>,
      k: nat): (Entity, Option<AssignError>)
    requires k <= |columns| <= |values|
  {
    if k == 0 then (e, None)
    else
      var (e', err) := AssignUpTo(codec, e, columns, values, k - 1);
      if err.Some? then (e', err) else AssignOne(codec, e', columns[k - 1], values[k - 1])
  }

  lemma {:induction false} AssignStops(codec: JsonCodec, e: Entity, columns: seq<Column>, values: seq<Holder>, k: nat,
      n: nat)
    requires k <= n <= |columns| <= |values| && AssignUpTo(codec, e, columns, values, k).1.Some?
    ensures AssignUpTo(codec, e, columns, values, n) == AssignUpTo(codec, e, columns, values, k)
  {
    if k < n {
      AssignStops(codec, e, columns, values, k, n - 1);
    }
  }

  class Account {
    var id: int
    var fields: map<Field, Value>
    var selected: map<string, Holder>

    ghost function View(): Entity
      reads this
    {
      Entity(id, fields, selected)
    }

    constructor ()
      ensures View() == NEW
    {
      id, fields, selected := 0, map[], map[];
    }

    method AssignValues(codec: JsonCodec, columns: seq<Column>, values: seq<Holder>) returns (err: Option<AssignError>)
      modifies this
      ensures |values| < |columns| ==> err == Some(Mismatch) && View() == old(View())
      ensures |values| >= |columns| ==> (View(), err) == AssignUpTo(codec, old(View()), columns, values, |columns|)
    {
      if |values| < |columns| {
        return Some(Mismatch);
      }
      for i := 0 to |columns|
        invariant (View(), None) == AssignUpTo(codec, old(View()), columns, values, i)
      {
        err := AssignColumn(codec, columns[i], values[i]);
        if err.Some? {
          AssignStops(codec, old(View()), columns, values, i + 1, |columns|);
          return;
        }
      }
      err := None;
    }

    /** The switch of the loop body. */
    method AssignColumn(codec: JsonCodec, c: Column, h: Holder) returns (err: Option<AssignError>)
      modifies this
      ensures (View(), err) == AssignOne(codec, old(View()), c, h)
    {
      err := None;
      match c {
        case ID =>
          if !h.NullInt64? {
            return Some(Unexpected(c));
          }
          id := if h.n.Some? then h.n.value else 0;
        case Other(name) =>
          selected := selected[name := h];
        case Known(f) =>
          if !HolderFits(Asserted(f), h) {
            return Some(Unexpected(c));
          }
          if Asserted(f).Document? {
            if h.data != [] {
              var doc := codec.dec(h.data);
              if doc.None? {
                return Some(Unmarshal(f));
              }
              var prior := if f in fields && fields[f].JsonV? then fields[f].j else Nil;
              fields := fields[f := JsonV(Merge(prior, doc.value))];
            }
          } else {
            var v := ValueIn(h);
            if v.Some? {
              fields := fields[f := v.value];
            }
          }
      }
    }
  }

  // ------------------------------------------------------------- createSpec

  datatype FieldType = TypeTime | TypeString | TypeJSON | TypeInt64 | TypeInt | TypeFloat64 | TypeBool | TypeEnum

  datatype FieldSpec = FieldSpec(f: Field, t: FieldType, v: Value)
  datatype EdgeKind = GroupsM2M | ProxyM2O | ParentM2O | ChildrenO2M | UsageLogsO2M | LeaseO2O
  datatype EdgeSpec = EdgeSpec(kind: EdgeKind, nodes: seq<int>)
  datatype CreateSpec = CreateSpec(fields: seq<FieldSpec>, edges: seq<EdgeSpec>)

  /** The fields that createSpec copies, in its order, with their types. */
  function CreateFields(): seq<(Field, FieldType)> {
    Fields1() + (Fields2() + (Fields3() + (Fields4() + Fields5())))
  }

  function Fields1(): seq<(Field, FieldType)> {
    [(CreatedAt, TypeTime), (UpdatedAt, TypeTime), (DeletedAt, TypeTime), (Name, TypeString), (Notes, TypeString),
      (Platform, TypeString)]
  }

  function Fields2(): seq<(Field, FieldType)> {
    [(Type, TypeString), (Credentials, TypeJSON), (Extra, TypeJSON), (ProxyFallbackOriginID, TypeInt64),
      (Concurrency, TypeInt), (LoadFactor, TypeInt)]
  }

  function Fields3(): seq<(Field, FieldType)> {
    [(Priority, TypeInt), (RateMultiplier, TypeFloat64), (Status, TypeString), (ErrorMessage, TypeString),
      (LastUsedAt, TypeTime), (ExpiresAt, TypeTime)]
  }

  function Fields4(): seq<(Field, FieldType)> {
    [(AutoPauseOnExpired, TypeBool), (Schedulable, TypeBool), (ManagedProxyReady, TypeBool), (RateLimitedAt, TypeTime),
      (RateLimitResetAt, TypeTime), (OverloadUntil, TypeTime)]
  }

  function Fields5(): seq<(Field, FieldType)> {
    [(TempUnschedulableUntil, TypeTime), (TempUnschedulableReason, TypeString), (SessionWindowStart, TypeTime),
      (SessionWindowEnd, TypeTime), (SessionWindowStatus, TypeString), (QuotaDimension, TypeEnum)]
  }

  /** The column that createSpec declares for a field has this type. */
  function Declared(f: Field): Option<FieldType> {
    match f
    case CreatedAt | UpdatedAt | DeletedAt | LastUsedAt | ExpiresAt => Some(TypeTime)
    case RateLimitedAt | RateLimitResetAt | OverloadUntil | TempUnschedulableUntil => Some(TypeTime)
    case SessionWindowStart | SessionWindowEnd => Some(TypeTime)
    case Name | Notes | Platform | Type | Status | ErrorMessage => Some(TypeString)
    case TempUnschedulableReason | SessionWindowStatus => Some(TypeString)
    case QuotaDimension => Some(TypeEnum)
    case Credentials | Extra => Some(TypeJSON)
    case ProxyFallbackOriginID => Some(TypeInt64)
    case Concurrency | LoadFactor | Priority => Some(TypeInt)
    case RateMultiplier => Some(TypeFloat64)
    case AutoPauseOnExpired | Schedulable | ManagedProxyReady => Some(TypeBool)
    case ProxyID | ParentAccountID => None
  }

  lemma DeclaredElsewhere(f: Field) returns (t: FieldType)
    requires f != ProxyID && f != ParentAccountID
    ensures Declared(f) == Some(t)
  {
    t := Declared(f).value;
  }

  lemma Listed1(x: (Field, FieldType))
    ensures x in Fields1() <==>
      x.0 in {CreatedAt, UpdatedAt, DeletedAt, Name, Notes, Platform} && Declared(x.0) == Some(x.1)
  {
    var s := Fields1();
    assert s[0].0 == CreatedAt && s[1].0 == UpdatedAt && s[2].0 == DeletedAt && s[3].0 == Name && s[4].0 == Notes &&
      s[5].0 == Platform;
  }

  lemma Listed2(x: (Field, FieldType))
    ensures x in Fields2() <==>
      x.0 in {Type, Credentials, Extra, ProxyFallbackOriginID, Concurrency, LoadFactor} && Declared(x.0) == Some(x.1)
  {
    var s := Fields2();
    assert s[0].0 == Type && s[1].0 == Credentials && s[2].0 == Extra && s[3].0 == ProxyFallbackOriginID &&
      s[4].0 == Concurrency && s[5].0 == LoadFactor;
  }

  lemma Listed3(x: (Field, FieldType))
    ensures x in Fields3() <==>
      x.0 in {Priority, RateMultiplier, Status, ErrorMessage, LastUsedAt, ExpiresAt} && Declared(x.0) == Some(x.1)
  {
    var s := Fields3();
    assert s[0].0 == Priority && s[1].0 == RateMultiplier && s[2].0 == Status && s[3].0 == ErrorMessage &&
      s[4].0 == LastUsedAt && s[5].0 == ExpiresAt;
  }

  lemma Listed4(x: (Field, FieldType))
    ensures x in Fields4() <==>
      x.0 in {AutoPauseOnExpired, Schedulable, ManagedProxyReady, RateLimitedAt, RateLimitResetAt, OverloadUntil} &&
      Declared(x.0) == Some(x.1)
  {
    var s := Fields4();
    assert s[0].0 == AutoPauseOnExpired && s[1].0 == Schedulable && s[2].0 == ManagedProxyReady &&
      s[3].0 == RateLimitedAt && s[4].0 == RateLimitResetAt && s[5].0 == OverloadUntil;
  }

  lemma Listed5(x: (Field, FieldType))
    ensures x in Fields5() <==>
      x.0 in {TempUnschedulableUntil, TempUnschedulableReason, SessionWindowStart, SessionWindowEnd,
      SessionWindowStatus, QuotaDimension} && Declared(x.0) == Some(x.1)
  {
    var s := Fields5();
    assert s[0].0 == TempUnschedulableUntil && s[1].0 == TempUnschedulableReason && s[2].0 == SessionWindowStart &&
      s[3].0 == SessionWindowEnd && s[4].0 == SessionWindowStatus && s[5].0 == QuotaDimension;
  }

  /** Every field is copied with its declared type, except the columns of the two
      parent edges. */
  lemma Listed(x: (Field, FieldType))
    ensures x in CreateFields() <==> Declared(x.0) == Some(x.1)
  {
    hide Fields1, Fields2, Fields3, Fields4, Fields5;
    Listed1(x);
    Listed2(x);
    Listed3(x);
    Listed4(x);
    Listed5(x);
  }

  function KindOfType(t: FieldType): Kind {
    match t
    case TypeTime => Time
    case TypeString | TypeEnum => String
    case TypeJSON => Document
    case TypeInt64 | TypeInt => Integer
    case TypeFloat64 => Float
    case TypeBool => Bool
  }

  function KindOf(v: Value): Kind {
    match v
    case TimeV(_) => Time
    case StringV(_) => String
    case IntV(_) => Integer
    case FloatV(_) => Float
    case BoolV(_) => Bool
    case JsonV(_) => Document
  }

  /** The setters are typed: a field holds a value of its type, an edge an id. */
  ghost predicate WellTyped(m: Mutation) {
    && (forall f :: f in m && Declared(f).Some? ==> KindOf(m[f]) == KindOfType(Declared(f).value))
    && (ProxyID in m ==> m[ProxyID].IntV?)
    && (ParentAccountID in m ==> m[ParentAccountID].IntV?)
  }

  function SpecFields(m: Mutation, fs: seq<(Field, FieldType)>): seq<FieldSpec> {
    if fs == [] then []
    else
      var (f, t) := fs[|fs| - 1];
      SpecFields(m, fs[..|fs| - 1]) + if f in m then [FieldSpec(f, t, m[f])] else []
  }

  /** The edges of a new account whose keys live in other tables; the mutation
      yields their ids in some order. */
  datatype Neighbors = Neighbors(groups: seq<int>, children: seq<int>, usageLogs: seq<int>, lease: Option<int>)

  function SpecEdge(kind: EdgeKind, nodes: seq<int>): seq<EdgeSpec> {
    if nodes == [] then [] else [EdgeSpec(kind, nodes)]
  }

  function ParentIds(m: Mutation, f: Field): seq<int> {
    if f in m && m[f].IntV? then [m[f].n] else []
  }

  function LeaseIds(others: Neighbors): seq<int> {
    if others.lease.Some? then [others.lease.value] else []
  }

  function SpecEdges(m: Mutation, others: Neighbors): seq<EdgeSpec> {
    SpecEdge(GroupsM2M, others.groups) + SpecEdge(ProxyM2O, ParentIds(m, ProxyID))
    + SpecEdge(ParentM2O, ParentIds(m, ParentAccountID)) + SpecEdge(ChildrenO2M, others.children)
    + SpecEdge(UsageLogsO2M, others.usageLogs) + SpecEdge(LeaseO2O, LeaseIds(others))
  }

  function SpecOf(m: Mutation, others: Neighbors): CreateSpec {
    CreateSpec(SpecFields(m, CreateFields()), SpecEdges(m, others))
  }

  /** The field part of createSpec. */
  method CopyFields(m: Mutation, fs: seq<(Field, FieldType)>) returns (node: map<Field, Value>, fields: seq<FieldSpec>)
    ensures fields == SpecFields(m, fs)
    ensures forall f :: f in node <==> f in m && exists x :: x in fs && x.0 == f
    ensures forall f :: f in node ==> node[f] == m[f]
  {
    node, fields := map[], [];
    for i := 0 to |fs|
      invariant fields == SpecFields(m, fs[..i])
      invariant forall f :: f in node <==> f in m && exists x :: x in fs[..i] && x.0 == f
      invariant forall f :: f in node ==> node[f] == m[f]
    {
      var (f, t) := fs[i];
      assert fs[..i + 1] == fs[..i] + [fs[i]];
      if f in m {
        fields := fields + [FieldSpec(f, t, m[f])];
        node := node[f := m[f]];
      }
    }
    assert fs[..|fs|] == fs;
  }

  /** One edge block of createSpec. */
  method AddEdge(kind: EdgeKind, nodes: seq<int>, edges: seq<EdgeSpec>) returns (r: seq<EdgeSpec>)
    ensures r == edges + SpecEdge(kind, nodes)
  {
    r := edges;
    assert edges + [] == edges;
    if |nodes| > 0 {
      var targets: seq<int> := [];
      for i := 0 to |nodes|
        invariant targets == nodes[..i]
      {
        targets := targets + [nodes[i]];
      }
      assert nodes[..|nodes|] == nodes;
      r := r + [EdgeSpec(kind, targets)];
    }
  }

  /** The edge part of createSpec. */
  method AddEdges(m: Mutation, others: Neighbors) returns (edges: seq<EdgeSpec>)
    ensures edges == SpecEdges(m, others)
  {
    hide SpecEdge;
    edges := AddEdge(GroupsM2M, others.groups, []);
    assert edges == SpecEdge(GroupsM2M, others.groups);
    edges := AddEdge(ProxyM2O, ParentIds(m, ProxyID), edges);
    edges := AddEdge(ParentM2O, ParentIds(m, ParentAccountID), edges);
    edges := AddEdge(ChildrenO2M, others.children, edges);
    edges := AddEdge(UsageLogsO2M, others.usageLogs, edges);
    edges := AddEdge(LeaseO2O, LeaseIds(others), edges);
  }

  /** createSpec: the node keeps everything that was set, and the specification has
      one entry per set field, in the order of the fields, and one per edge. */
  method MakeSpec(m: Mutation, others: Neighbors) returns (node: Entity, spec: CreateSpec)
    requires WellTyped(m)
    ensures spec == SpecOf(m, others)
    ensures node == Entity(0, m, map[])
  {
    hide CreateFields, Declared, SpecFields, SpecEdges;
    var copied, fields := CopyFields(m, CreateFields());
    node := NEW.(fields := copied);
    var proxies, parents := ParentIds(m, ProxyID), ParentIds(m, ParentAccountID);
    if |proxies| > 0 {
      node := node.(fields := node.fields[ProxyID := IntV(proxies[0])]);
    }
    if |parents| > 0 {
      node := node.(fields := node.fields[ParentAccountID := IntV(parents[0])]);
    }
    var edges := AddEdges(m, others);
    spec := CreateSpec(fields, edges);
    CopiedAll(m, copied, node.fields);
  }

  lemma CopiedAll(m: Mutation, copied: map<Field, Value>, all: map<Field, Value>)
    requires forall f :: f in copied <==> f in m && exists x :: x in CreateFields() && x.0 == f
    requires forall f :: f in copied ==> copied[f] == m[f]
    requires forall f ::
               f != ProxyID && f != ParentAccountID ==>
               (f in all <==> f in copied) && (f in all ==> all[f] == copied[f])
    requires forall f ::
               f == ProxyID || f == ParentAccountID ==> (f in all <==> f in m) && (f in all ==> all[f] == m[f])
    ensures all == m
  {
    hide CreateFields, Declared;
    forall f | f in m && f != ProxyID && f != ParentAccountID ensures f in copied {
      var t := DeclaredElsewhere(f);
      Listed((f, t));
    }
    forall f | f in copied ensures f in m {
    }
    assert forall f :: f in all <==> f in m;
  }

  // ------------------------------------------------------------ stored row

  /** What the driver stores for one value: documents are encoded. */
  function Encoded(codec: JsonCodec, v: Value): Cell {
    if v.JsonV? then Raw(codec.enc(v.j)) else Scalar(v)
  }

  function LastField(fs: seq<FieldSpec>, f: Field): Option<Value> {
    if fs == [] then None
    else if fs[|fs| - 1].f == f then Some(fs[|fs| - 1].v)
    else LastField(fs[..|fs| - 1], f)
  }

  /** The column of the new row that holds an edge. */
  function KeyOf(kind: EdgeKind): Option<Field> {
    match kind
    case ProxyM2O => Some(ProxyID)
    case ParentM2O => Some(ParentAccountID)
    case GroupsM2M | ChildrenO2M | UsageLogsO2M | LeaseO2O => None
  }

  function LastEdge(es: seq<EdgeSpec>, f: Field): Option<int> {
    if es == [] then None
    else if KeyOf(es[|es| - 1].kind) == Some(f) && es[|es| - 1].nodes != [] then Some(es[|es| - 1].nodes[0])
    else LastEdge(es[..|es| - 1], f)
  }

  /** The row that CreateNode inserts: the columns of the fields, then the foreign
      keys of the parent edges; other columns are NULL. */
  function StoredCell(codec: JsonCodec, spec: CreateSpec, id: int, c: Column): Cell {
    match c
    case ID => Scalar(IntV(id))
    case Other(_) => Null
    case Known(f) =>
      var n := LastEdge(spec.edges, f);
      if n.Some? then Scalar(IntV(n.value))
      else
        var v := LastField(spec.fields, f);
        if v.Some? then Encoded(codec, v.value) else Null
  }

  /** Scanning one cell into its holder; a type that does not fit is an error. */
  function Fill(h: Holder, cell: Cell): Option<Holder> {
    match h
    case UnknownType(_) => Some(UnknownType(cell))
    case Bytes(_) => if cell.Null? then Some(Bytes([])) else if cell.Raw? then Some(Bytes(cell.data)) else None
    case _ =>
      if cell.Null? then
        match h
        case NullInt64(_) => Some(NullInt64(None))
        case NullString(_) => Some(NullString(None))
        case NullTime(_) => Some(NullTime(None))
        case NullBool(_) => Some(NullBool(None))
        case NullFloat64(_) => Some(NullFloat64(None))
      else
        match (h, cell)
        case (NullInt64(_), Scalar(IntV(n))) => Some(NullInt64(Some(n)))
        case (NullString(_), Scalar(StringV(s))) => Some(NullString(Some(s)))
        case (NullTime(_), Scalar(TimeV(t))) => Some(NullTime(Some(t)))
        case (NullBool(_), Scalar(BoolV(b))) => Some(NullBool(Some(b)))
        case (NullFloat64(_), Scalar(FloatV(x))) => Some(NullFloat64(Some(x)))
        case _ => None
  }
}
