/** Tables, edges and query builders' values, with one relational meaning for
    every call the query engine makes into sqlgraph. */
module Schema {
  import opened Seqs

  const MAX_INT32: nat := 0x7fff_ffff

  datatype Table =
    | Accounts | Groups | Proxies | UsageLogs | Leases | AccountGroups | Users | APIKeys

  /** A row: its primary key and the remaining columns, NULL being `None`. Rows
      of `account_groups`, which has no id column, all carry the same `id`. */
  datatype Row = Row(id: int, cols: map<string, Option<int>>)

  type Database = map<Table, seq<Row>>

  predicate HasID(t: Table) {
    t != AccountGroups
  }

  function TableRows(db: Database, t: Table): seq<Row> {
    if t in db then db[t] else []
  }

  ghost predicate UniqueIds(rows: seq<Row>) {
    forall i, j :: 0 <= i < j < |rows| ==> rows[i].id != rows[j].id
  }

  /** Primary keys are unique. */
  ghost predicate ValidDb(db: Database) {
    forall t :: HasID(t) ==> UniqueIds(TableRows(db, t))
  }

  datatype Rel = M2M | M2O | O2M | O2O

  datatype Edge =
    | GroupsEdge | ProxyEdge | ParentEdge | ChildrenEdge
    | UsageLogsEdge | LeaseEdge | AccountGroupsEdge
    | KeyUserEdge | KeyGroupEdge | KeyUsageLogsEdge
    | AgAccountEdge | AgGroupEdge

  function Kind(e: Edge): Rel {
    match e
    case GroupsEdge => M2M
    case ProxyEdge | ParentEdge | KeyUserEdge | KeyGroupEdge | AgAccountEdge | AgGroupEdge => M2O
    case LeaseEdge => O2O
    case ChildrenEdge | UsageLogsEdge | AccountGroupsEdge | KeyUsageLogsEdge => O2M
  }

  function Source(e: Edge): Table {
    match e
    case GroupsEdge | ProxyEdge | ParentEdge | ChildrenEdge | UsageLogsEdge | LeaseEdge | AccountGroupsEdge => Accounts
    case KeyUserEdge | KeyGroupEdge | KeyUsageLogsEdge => APIKeys
    case AgAccountEdge | AgGroupEdge => AccountGroups
  }

  function Target(e: Edge): Table {
    match e
    case GroupsEdge | KeyGroupEdge | AgGroupEdge => Groups
    case ProxyEdge => Proxies
    case ParentEdge | ChildrenEdge | AgAccountEdge => Accounts
    case UsageLogsEdge | KeyUsageLogsEdge => UsageLogs
    case LeaseEdge => Leases
    case AccountGroupsEdge => AccountGroups
    case KeyUserEdge => Users
  }

  /** The column that holds the edge: on the source row for M2O, on the target
      row for O2M and O2O, on the join row (pointing at the target) for M2M. */
  function FkColumn(e: Edge): string {
    match e
    case ProxyEdge => "proxy_id"
    case ParentEdge | ChildrenEdge => "parent_account_id"
    case UsageLogsEdge | LeaseEdge | AccountGroupsEdge | AgAccountEdge => "account_id"
    case GroupsEdge | KeyGroupEdge | AgGroupEdge => "group_id"
    case KeyUserEdge => "user_id"
    case KeyUsageLogsEdge => "api_key_id"
  }

  predicate Nillable(e: Edge) {
    e == ProxyEdge || e == ParentEdge || e == ChildrenEdge || e == KeyGroupEdge
  }

  function Col(r: Row, c: string): Option<int> {
    if c in r.cols then r.cols[c] else None
  }

  /** The foreign key as the Go struct field holds it: a pointer when the column
      is nillable, and zero when a required column was not read. */
  function ReadFk(e: Edge, r: Row): Option<int> {
    var v := Col(r, FkColumn(e));
    if Nillable(e) || v.Some? then v else Some(0)
  }

  /** The user-visible part of a builder that becomes WHERE, ORDER BY, LIMIT,
      OFFSET and DISTINCT. */
  datatype Opts = Opts(preds: seq<Row -> bool>, order: seq<Row -> int>,
                       limit: Option<nat>, offset: Option<nat>, unique: Option<bool>)

  datatype Query = Query(table: Table, opts: Opts, fields: seq<string>, path: Path, with: Withs)

  /** A traversal step from a previous builder. */
  datatype Path = NoPath | Via(prev: Query, edge: Edge)

  /** The requested eager loads, in the order the engine runs them. */
  datatype Withs = Done | Load(edge: Edge, query: Query, rest: Withs)

  function Edges(w: Withs): set<Edge> {
    match w
    case Done => {}
    case Load(e, _, rest) => {e} + Edges(rest)
  }

  /** What the Go types guarantee of the eager loads of a builder over `t`. */
  ghost predicate WellTyped(t: Table, w: Withs)
    decreases w
  {
    match w
    case Done => true
    case Load(e, sub, rest) =>
      && Source(e) == t && sub.table == Target(e) && sub.path.NoPath?
      && e !in Edges(rest)
      && WellTyped(sub.table, sub.with)
      && WellTyped(t, rest)
  }

  // ------------------------------------------------------------ statements

  predicate Holds(preds: seq<Row -> bool>, r: Row) {
    forall i :: 0 <= i < |preds| ==> preds[i](r)
  }

  function Meets(preds: seq<Row -> bool>): Row -> bool {
    (r: Row) => Holds(preds, r)
  }

  function Selected(o: Opts, base: seq<Row>): seq<Row> {
    SortBy(o.order, Filter(Meets(o.preds), base))
  }

  /** LIMIT and OFFSET of a selector; an offset forces a limit. */
  function Window<T>(limit: Option<nat>, offset: Option<nat>, s: seq<T>): seq<T> {
    var t := if offset.Some? then Drop(offset.value, s) else s;
    match limit
    case Some(n) => Take(n, t)
    case None => if offset.Some? then Take(MAX_INT32, t) else t
  }

  function NonZero(n: Option<nat>): Option<nat> {
    if n == Some(0) then None else n
  }

  /** LIMIT and OFFSET of a QuerySpec, where zero means unset. */
  function SpecWindow<T>(o: Opts, s: seq<T>): seq<T> {
    Window(NonZero(o.limit), NonZero(o.offset), s)
  }

  function DistinctIf<T(==, !new)>(unique: bool, s: seq<T>): seq<T> {
    if unique then Distinct(s) else s
  }

  /** The join table of the M2M edge pairs `account_id` with the edge's column:
      the sources linked to target `to`, one entry per join row. */
  function Links(db: Database, e: Edge, to: int): seq<int> {
    Map((j: Row) => var v := Col(j, "account_id"); if v.Some? then v.value else 0,
        Filter((j: Row) => Col(j, "account_id").Some? && Col(j, FkColumn(e)) == Some(to), TableRows(db, AccountGroups)))
  }

  /** The rows an edge leads to from one row, one per matching join. */
  function Neighbors(db: Database, e: Edge, r: Row): seq<Row> {
    var targets := TableRows(db, Target(e));
    match Kind(e)
    case M2O => Filter((y: Row) => ReadFk(e, r) == Some(y.id), targets)
    case O2M | O2O => Filter((y: Row) => Col(y, FkColumn(e)) == Some(r.id), targets)
    case M2M => FlatMap((y: Row) => Map((_: int) => y, Filter((a: int) => a == r.id, Links(db, e, y.id))), targets)
  }

  /** sqlgraph.SetNeighbors: the join of a selector's rows with an edge, one
      output row per matching pair. */
  function SetNeighbors(db: Database, e: Edge, rows: seq<Row>): seq<Row> {
    FlatMap(NeighborsOf(db, e), rows)
  }

  function NeighborsOf(db: Database, e: Edge): Row -> seq<Row> {
    (r: Row) => Neighbors(db, e, r)
  }

  /** prepareQuery: the rows the builder selects from. */
  function Base(db: Database, q: Query): seq<Row>
    decreases q, 0
  {
    match q.path
    case NoPath => TableRows(db, q.table)
    case Via(prev, e) => SetNeighbors(db, e, SqlQuery(db, prev))
  }

  /** sqlQuery: the builder as the source of a further step. Only an explicit
      Unique(true) makes it distinct. */
  function SqlQuery(db: Database, q: Query): seq<Row>
    decreases q, 1
  {
    Window(q.opts.limit, q.opts.offset, DistinctIf(q.opts.unique == Some(true), Selected(q.opts, Base(db, q))))
  }

  /** querySpec: the default of Unique depends on the builder having a path. */
  function SpecUnique(q: Query): bool {
    match q.opts.unique
    case Some(u) => u
    case None => q.path.Via?
  }

  function AddOnce(cols: seq<string>, c: string): seq<string> {
    if c in cols then cols else cols + [c]
  }

  function AddFks(w: Withs, cols: seq<string>): seq<string> {
    match w
    case Done => cols
    case Load(e, _, rest) => AddFks(rest, if Kind(e).M2O? then AddOnce(cols, FkColumn(e)) else cols)
  }

  /** querySpec: the selected columns, `None` standing for all of them. */
  function SpecColumns(q: Query): Option<seq<string>> {
    if q.fields == [] then None
    else if HasID(q.table) then Some(AddFks(q.with, ["id"] + Filter((f: string) => f != "id", q.fields)))
    else Some(AddFks(q.with, q.fields))
  }

  function Project(cols: Option<seq<string>>, r: Row): Row {
    match cols
    case None => r
    case Some(cs) => Row(r.id, map c | c in r.cols && c in cs :: r.cols[c])
  }

  function Projecting(cols: Option<seq<string>>): Row -> Row {
    (r: Row) => Project(cols, r)
  }

  /** sqlgraph.QueryNodes on querySpec, as the engine's own query. */
  function QueryNodes(db: Database, q: Query): seq<Row> {
    var cols := SpecColumns(q);
    SpecWindow(q.opts, DistinctIf(SpecUnique(q), Map(Projecting(cols), Selected(q.opts, Base(db, q)))))
  }

  /** The M2M loader's query: every selected target joined with its links to
      `ids`. The pair holds the source id and the target row. */
  function JoinRows(db: Database, e: Edge, sub: Query, ids: seq<int>): seq<(int, Row)> {
    var cols := SpecColumns(sub);
    SpecWindow(sub.opts, FlatMap(Linking(db, e, ids, cols), Selected(sub.opts, TableRows(db, sub.table))))
  }

  function Linking(db: Database, e: Edge, ids: seq<int>, cols: Option<seq<string>>): Row -> seq<(int, Row)> {
    (y: Row) => LinkPairs(db, e, ids, cols, y)
  }

  function LinkPairs(db: Database, e: Edge, ids: seq<int>, cols: Option<seq<string>>, y: Row): seq<(int, Row)> {
    Map((a: int) => (a, Project(cols, y)), Filter((a: int) => a in ids, Links(db, e, y.id)))
  }

  // --------------------------------------------------------- builder steps

  function Where(q: Query, p: Row -> bool): Query {
    q.(opts := q.opts.(preds := q.opts.preds + [p]))
  }

  function IdIn(ids: seq<int>): Row -> bool {
    (r: Row) => r.id in ids
  }

  function FkIn(e: Edge, ids: seq<int>): Row -> bool {
    (r: Row) => var v := Col(r, FkColumn(e)); v.Some? && v.value in ids
  }

  /** AppendFieldOnce on a builder whose columns were narrowed. */
  function NeedField(q: Query, c: string): Query {
    if q.fields == [] then q else q.(fields := AddOnce(q.fields, c))
  }
}
