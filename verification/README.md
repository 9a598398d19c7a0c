# A verified model of the persistence layer and the audit exception check

The repository's generated persistence layer (`backend/ent`) loads entities with
their edges in batches, creates accounts in bulk through a chain of hooked
mutators, compiles updates of edges, and reads and writes rows. A small tool
(`tools/check_pnpm_audit_exceptions.py`) decides whether the reported
vulnerabilities are covered by a list of exceptions. This project models that
logic in Dafny and proves what it is for.

Verify everything with `dafny verify dfyconfig.toml`.

## What is modelled

* **Query engine** (`Schema`, `EagerSpec`, `EagerLoad`, `EagerTheorems`,
  `EagerLimits`, `EagerOwn`, `EagerFair`, `EagerAccess`, `EagerSelect`, `EagerReuse`, `EagerRerun`,
  `Traversal`, `EagerVsTraversal`, `EagerExact`).
  `EagerLoad` is the engine on heap objects: `sqlAll` and its loaders index the
  entities in loops, query the neighbours once per edge, and write them into the
  entities' edges, recursively through nested requests. It is proved against
  `EagerSpec.Eval`, a function on values. `EagerFair` proves when that function
  equals an independent reading, `NaiveTree`: one query per entity and edge. The
  seven edges of accounts, the three of API keys and the two of account groups go
  through the same code.
  `EdgeLaws` says by the columns of the tables which rows each of the twelve edges
  relates, and that attaching and traversing lead to the same rows.
* **Builders** (`Builder`, `BuilderMeaning`, `EndToEnd`). Query builders are objects with a context
  object and a tree of sub-builders; `Clone` copies that tree. Every call sequence
  is tied to a plan value and, through `Compile`, to the engine; `BuilderMeaning` says
  what each kind of call does to the rows that come back.
* **Bulk create** (`AccountFields`, `BulkCreate`, `BulkTheorems`, `BulkSave`,
  `BulkRows`, `BulkTurns`). The
  chain of mutators with arbitrary hooks that call the next one at most once.
* **Row codec** (`Codec`, `CodecTheorems`, `CreateEffect`). `createSpec` on the way in,
  `scanValues` and `assignValues` on the way out, and the neighbours that a new account
  gets.
* **Edge updates** (`EdgeMutation`). What the update builders record, what
  `sqlSave` compiles from it, and what that does to the edges.
* **Audit check** (`AuditParser`, `AuditPolicy`, `AuditProblems`, `AuditVulns`,
  `AuditWords`, `AuditReport`). The reader of the exception list, the verdict against its
  policy, what exactly is reported, and which vulnerabilities a report contributes;
  `AuditWords` and `AuditReport` say the same by the fields of the file and the keys of
  the report.

`Seqs` holds the laws of filters, stable sorting, windows and first-appearance
deduplication on which the query modules rest.

## What is assumed

The driver and `sqlgraph` are replaced by one relational meaning for each call,
all in the module of their caller:

* A table is a finite sequence of rows; primary keys are unique (`ValidDb`), and so is
  the composite key of the join table where it matters (`EagerSelect.ValidKeys`).
  Predicates are functions of a row, order terms are integer keys sorted stably.
* `QueryNodes` treats a zero limit or offset as unset, an offset without a limit
  as limited by 2147483647; DISTINCT keeps first appearances of the selected rows.
* A builder that is the source of a further step selects whole rows; that `sqlQuery`
  narrows them to `ctx.Fields` before DISTINCT, for an explicit `Unique(true)` together
  with `Select`, is left out.
* `SetNeighbors` joins rows with an edge and yields one row per matching pair.
* The many-to-many query of `loadGroups` selects and sorts targets first, and lists
  the join rows target by target.
* `BatchCreate` fills in the id of every specification it was given, or fails.
* `CreateNode` inserts the row with its own keys and its join rows, and sets the keys of
  the children, usage logs and lease; it is modelled where it succeeds.
* `UpdateNodes` and `UpdateNode` run Clear entries before Add entries; a Clear
  entry without nodes clears its edge; adding to a foreign key in another table
  fails for more than one account.
* The JSON codec decodes what it encoded and never encodes to no bytes at all.
* Case folding, date parsing and `str` of the audit check are arbitrary functions; where
  it matters, `str` of a string is the string. Keys of a JSON object are unique.

## Where the code does not do what one may expect

These are theorems with exact conditions; the code is modelled as it is.

* `WithGroups` and `QueryGroups` on one query agree exactly under the settings of
  `EagerVsTraversal.Agrees`: with a path and the default of `Unique`, the first
  deduplicates accounts before the window and the second does not; `Limit(0)` and
  `Offset(0)` mean different things to them (`EagerExact.ExactlyWhenEagerAgrees`).
* A limit or offset on an eager load counts rows of the whole batch. Each entity gets
  what it would get alone exactly if the window cuts nothing or everything, or one
  entity takes the window and no other has more rows than are skipped; a parent or
  proxy is one row (`EagerFair.WindowExact`, from `EagerLimits.CutGroups`).
* An entity that a path with `Unique(false)` repeats gets its list edges and its lease
  on the last occurrence only: the others are right exactly if there was nothing to get
  (`EagerFair.EvalExact`).
* `Select` on account groups merges rows under DISTINCT; it is harmless exactly if
  both key columns are read, or nothing is deduplicated, or only the first row is
  asked for (`EagerSelect.SelectSafeExact`).
* Loaders leave their predicates in the stored sub-builders. A builder that runs again
  after a change of the tables gives an entity its neighbour exactly if the first run
  asked for that key, or there is no such row (`EagerRerun.LookupRerunExact`), and its
  children exactly if the first run saw the entity, or it has none
  (`EagerRerun.ChildRerunExact`).
* `Clone` drops row locks: it sends the same statements exactly if nothing in the tree
  is locked (`EndToEnd.SameStatementsExact`).
* A bulk `Save` writes the mutation objects that the hooks hand on, but checks the
  builders' own: everything written has passed the checks exactly if every handed
  object would (`BulkRows.WrittenRowsExact`, with `BulkSave.SwapIsNotChecked` as an
  instance). A hook that fails after the batch was written can make `Save` fail with
  rows in the database (`BulkSave.LateFailure`), and one that swallows an error can
  make it succeed with none (`BulkSave.SwallowedFailure`). For arbitrary hooks,
  `BulkTurns.TruthExact` says exactly when `Save` reports what happened, and
  `BulkTurns.AllOrNoneExact` when the builders are all done or none.
* Repeated JSON columns are merged instead of replaced
  (`CodecTheorems.LastDocumentExact`), and a NULL id is read as zero.
* Neighbours added before `ClearGroups` and its siblings are added all the same;
  an update means what its calls say exactly if nothing is stale and no lease is set
  beside another (`EdgeMutation.FaithfulExact`; by the calls alone, `EdgeMutation.UpdateInWords`). The driver refuses the latter, because
  a lease's account is unique, and clearing a lease, because it is not nullable.
* The audit verdict can depend on the order of a report that has one key in two
  severities (`AuditPolicy.OrderDecides`). All orders agree exactly if all occurrences
  are excused or no order passes (`AuditPolicy.OrderIndependentExact`).
* Entries that name no advisory make no difference to any verdict, however severe they
  are (`AuditVulns.UnnamedDoNotCount`).

## Model

| member | source | states |
|---|---|---|
| EagerLoad.IndexByFk | backend/ent/account_query.go:731-744 | The collected ids are the distinct non-nil foreign keys in order of first appearance, they are the keys of the index, and each bucket lists the entities holding that key. |
| EagerLoad.HandOutM2O | backend/ent/account_query.go:752-760 | The "unexpected foreign-key" error is reported exactly for a neighbour outside the index; otherwise every entity of the bucket gets the neighbour. |
| EagerLoad.LoadM2O | backend/ent/account_query.go:731-794 | loadProxy and loadParent never report that error and leave the entities as the batched specification says, touching no other object. |
| EagerLoad.IndexById | backend/ent/account_query.go:796-804 | The keys are the entities' ids, the index maps an id to its last entity, and list edges start empty. |
| EagerLoad.HandOutO2M | backend/ent/account_query.go:815-825 | The errors for a nil or unknown foreign key are reported exactly for such neighbours; otherwise each is appended to its owner in query order. |
| EagerLoad.LoadO2M | backend/ent/account_query.go:795-914 | The loaders of children, usage logs, account groups and the managed proxy lease never report an error and meet the batched specification. |
| EagerLoad.ScanJoin | backend/ent/account_query.go:686-716 | One new entity per distinct target id, in first-appearance order, and for each target exactly the set of entities joined to it. |
| EagerLoad.HandOutM2M | backend/ent/account_query.go:719-728 | The "unexpected groups node" error is reported exactly for a target that was not joined; otherwise each joined entity gets the target once. |
| EagerLoad.LoadM2M | backend/ent/account_query.go:670-730 | loadGroups never reports that error and meets the batched specification, nested loads of the targets included. |
| EagerLoad.LoadEdges | backend/ent/account_query.go:619-667 | The requested loads run one after the other, each meeting its specification on what the previous ones left. |
| EagerLoad.SqlAll | backend/ent/account_query.go:586-668 | The recursive engine on heap objects returns fresh entities whose trees are the batched specification of the query. |
| EagerTheorems.ScatterM2OAt | backend/ent/account_query.go:731-762 | Each entity ends with the last returned row whose id is its foreign key, and is unchanged if there is none or the key is nil. |
| EagerTheorems.ScatterO2MAt | backend/ent/account_query.go:795-827 | Each entity gets exactly the subsequence of the neighbours whose key resolves to it, in query order. |
| EagerTheorems.ScatterM2MAt | backend/ent/account_query.go:670-730 | Each entity gets exactly the distinct targets joined to it, once each, in first-appearance order, however often a pair repeats. |
| EagerTheorems.SharesPartition | backend/ent/account_query.go:795-827 | The attached neighbours sum to the neighbours found: no row is lost or handed out twice. |
| EagerTheorems.SplitByFk | backend/ent/account_query.go:805-814 | The batch of a child query restricted to one key is the child query for that key alone, narrowed columns included. |
| EagerTheorems.SplitJoin | backend/ent/account_query.go:686-716 | The distinct targets of a batched join that belong to an entity, the last one with its id, are the query of the targets linked to it. |
| EagerTheorems.QueryUnique | backend/ent/account_query.go:928-972 | A query without a path never returns an id twice, whatever its settings. |
| EagerFair.LookupExact | backend/ent/account_query.go:731-794 | A batched many-to-one load attaches to every entity the row that a lookup for it alone returns if and only if the load's window, if any, cuts nothing or everything. |
| EagerFair.ChildrenExact | backend/ent/account_query.go:795-914 | A batched load of children or of the lease gives every entity the rows of its own child query if the window is fair, and for distinct entities only then. |
| EagerFair.GroupsExact | backend/ent/account_query.go:670-730 | A batched load of groups gives every entity the targets of its own join if the window is fair, and for distinct entities only then; without a window join rows may repeat. |
| EagerFair.WindowExact | backend/ent/account_query.go:670-914 | One load gives every entity, as a loaded tree, what a query for it alone would if and only if its window is fair. |
| EagerFair.EvalIsNaive | backend/ent/account_query.go:586-914 | For every nested request whose windows are fair at every depth, eager loading of distinct entities equals one query per entity and edge. |
| EagerFair.EvalExact | backend/ent/account_query.go:586-914 | For any result, repeated entities included: entity i is loaded naively if and only if it has no id, or is the last one with its id, or has no neighbours on the edges that refer to its id. |
| EagerSpec.NeedFieldRead | backend/ent/account_query.go:805-807 | A child query narrowed by Select still reads the foreign key of its loader. |
| EagerSpec.NarrowedIds | backend/ent/account_query.go:748-755 | A query narrowed to the collected ids returns no other id, which is why the index lookup cannot fail. |
| EagerSpec.NarrowedFks | backend/ent/account_query.go:808-822 | A child query narrowed to the entities' ids returns only rows with one of them as key. |
| EagerSpec.AttachKeepsRows | backend/ent/account_query.go:619-667 | Loading edges changes no scalar field of any entity. |
| EagerLimits.CutGroups | backend/ent/account_query.go:951-964 | Cutting rows before or after grouping them gives the same groups if and only if nothing is cut, or everything, or one group fills the rows up to the end of the window and no other is larger than the offset. |
| EagerLimits.WindowIsPerBatch | backend/ent/account_query.go:795-914 | A window on a load of children, usage logs, account groups or the lease gives every entity the rows that it would get alone if and only if that condition holds of the batch (for an offset: of distinct rows). |
| EagerLimits.LimitIsPerBatch | backend/ent/account_query.go:795-914 | With a limit alone: if and only if the limit cuts nothing or all rows found belong to one entity. |
| EagerLimits.LookupWindowIsPerBatch | backend/ent/account_query.go:731-794 | A window on a many-to-one load gives every key its own row if and only if it cuts nothing or everything. |
| EagerLimits.GroupsWindowIsPerBatch | backend/ent/account_query.go:670-730 | A window on the load of groups counts join rows of the whole batch: every entity gets the join rows it would get alone under the same exact condition. |
| EagerLimits.JoinRowsNoDup | backend/ent/accountgroup_query.go:448-467 | Join rows are distinct, because the join table has a composite key, so that condition applies to offsets. |
| EagerLimits.WholeNoDup | backend/ent/account_query.go:928-972 | A query without a path returns distinct rows if its table has ids or it reads both keys of an account group. |
| EagerAccess.LoadFrame | backend/ent/account_query.go:619-667 | A load writes its own edge and leaves all other edges and the row as they were. |
| EagerAccess.ThreeWayAccess | backend/ent/account.go:123-143 | After a query, the accessor of a many-to-one edge reports not loaded exactly if the edge was not requested, not found exactly if it was and the key is nil or no returned row has it, and else that row. |
| EagerAccess.LeaseAccess | backend/ent/account.go:163-172 | The same for the managed proxy lease of distinct accounts: not found exactly if no returned row names the account, and else one that does. |
| EagerAccess.NotFoundIsDangling | backend/ent/account.go:123-143 | Without a window on the load, not found is reported exactly if the key is nil or the target table has no row with it that meets the load's predicates. |
| EagerAccess.SpecColumnsSound | backend/ent/account_query.go:936-950 | A narrowed query reads the id first and once, and the foreign key of every requested many-to-one edge. |
| EagerAccess.ProjectionKeepsKey | backend/ent/accountgroup_query.go:448-467 | The foreign keys of the requested edges are read alike with and without Select, also for the entity without an id. |
| EagerSelect.ProjectionIndependence | backend/ent/account_query.go:928-972 | Select changes neither which entities are returned nor any attached edge at any depth if the read columns identify the rows (an id, or both keys of an account group), or nothing is deduplicated, or only the first row is asked for. |
| EagerSelect.SelectSafeExact | backend/ent/accountgroup_query.go:448-467 | For the entity without an id this is exact: under any other settings a database exists on which Select merges rows. |
| EagerReuse.RunAgain | backend/ent/account_query.go:731-914 | Running a builder without group loads again on unchanged tables gives the same result, although every nested sub-builder has kept the predicates and columns of the first run. |
| EagerRerun.LookupRerunExact | backend/ent/account_query.go:745-762 | On changed tables a second run gives an entity the row that a fresh builder would if and only if its key is nil, or the first run asked for that key or for none, or there is no such row. |
| EagerRerun.ChildRerunExact | backend/ent/account_query.go:805-814 | And it gives an entity the children that a fresh builder would if and only if the first run saw that entity or it has none. |
| Traversal.TraversalMeaning | backend/ent/account_query.go:560-584 | The statement compiled from any chain of builders selects exactly the rows that its declarative meaning gives, a limited builder on the way counting as a start. |
| Traversal.ChainMeaning | backend/ent/account_query.go:76-162 | The meaning of a chain of QueryX calls is the image of the base rows under the composed edge relations. |
| Traversal.ChainIsComposition | backend/ent/account_query.go:928-935 | Running a chain of any length returns exactly the image of the rows of its base statement, limited or not, under the composed relations, and the default of Unique makes it free of duplicates. |
| EagerVsTraversal.AttachedIs | backend/ent/account_query.go:670-730 | The groups attached across a result are exactly the groups linked to the ids of its rows. |
| EagerVsTraversal.TraversedIs | backend/ent/account_query.go:76-96 | QueryGroups returns exactly the groups linked to the rows of the compiled source query. |
| EagerVsTraversal.RowsAgree | backend/ent/account_query.go:974-1007 | Under the stated settings the two compilations of one builder, querySpec and sqlQuery, select the same rows. |
| EagerVsTraversal.EagerAgrees | backend/ent/account_query.go:76-96 | Under the same settings the groups attached by WithGroups are the result of QueryGroups, on every valid database and for every chain. |
| EagerExact.ExactlyWhenEagerAgrees | backend/ent/account_query.go:928-1007 | Those settings are exact: under any others a database exists on which the two disagree. |
| EdgeLaws.RelationColumns | backend/ent/account_query.go:76-222 | Which rows each of the twelve edges relates, by the columns of its tables: the groups edge by the join rows that hold the ids of both. |
| EdgeLaws.LinksExact | backend/ent/account_query.go:681-688 | An account is linked to a group exactly if a join row has the account's id as account_id and the group's as group_id. |
| EdgeLaws.Converses | backend/ent/account_query.go:120-162 | Parents and children are converse relations, and so are the join rows of an account and the account of a join row. |
| EdgeLaws.GroupsAreComposed | backend/ent/account_query.go:76-96 | The groups edge is the composition of the two edges of the join table. |
| EdgeLaws.GroupsThroughJoin | backend/ent/account_query.go:670-730 | In loaded trees, the groups attached to an account are the groups attached to its attached join rows. |
| EdgeLaws.AloneMembers | backend/ent/account_query.go:731-914 | A load for one entity returns exactly the rows that the edge relates it to and that meet the load's predicates. |
| EdgeLaws.AtMostOneAttached | backend/ent/account_query.go:625-666 | Proxy, parent, lease, user, account and single group hold one entity at most, whatever the tables hold. |
| EdgeLaws.AttachedIsTraversed | backend/ent/account_query.go:76-222 | For every edge and every chain in front of it, what WithX attaches across the result is what QueryX returns, under the settings that make the two compilations agree. |
| Builder.UnlockedExact | backend/ent/account_query.go:412-433 | Clone preserves a builder's whole value if and only if no builder of the tree has a lock. |
| EndToEnd.CloneStatements | backend/ent/account_query.go:606-608 | A clone sends the statements of the original, of all its loads at every depth, without their modifiers. |
| EndToEnd.SameStatementsExact | backend/ent/account_query.go:412-433 | It sends the same statements if and only if no builder of the tree is locked. |
| Builder.QueryBuilder.Clone | backend/ent/account_query.go:412-433 | Clone ends on any finite tree and returns a builder made of fresh objects with the same value except for locks, leaving the original unchanged. |
| Builder.QueryBuilder.Attach | backend/ent/account_query.go:437-446 | WithX stores the sub-builder in its slot and changes no other part of the value. |
| Builder.QueryBuilder.Lock | backend/ent/account_query.go:1012-1033 | A lock is appended to the modifiers, and on PostgreSQL Unique becomes false. |
| Builder.QueryBuilder.ApplyAll | backend/ent/account_query.go:45-74 | A sequence of chained calls on the object has the effect of the same sequence on its value. |
| BuilderMeaning.WindowCalls | backend/ent/account_query.go:51-61 | On a builder without a window, Offset(m) and Limit(n) in either order return the n rows behind the first m of what it returned; each alone, and zero, as stated. |
| BuilderMeaning.WindowCallsAsSource | backend/ent/account_query.go:974-1010 | The same for the builder as the source of a further step, where zero is taken at its word. |
| BuilderMeaning.LastWindowCounts | backend/ent/account_query.go:51-61 | Of several limits or offsets the last one counts. |
| BuilderMeaning.WhereCall | backend/ent/account_query.go:46-48 | Where keeps the rows that meet its predicate, in their order. |
| BuilderMeaning.WhereCalls | backend/ent/account_query.go:46-48 | A new builder with some predicates returns exactly the rows of its table that meet them all. |
| BuilderMeaning.WhereComesFirst | backend/ent/account_query.go:46-61 | Predicates apply before the window, whenever they are given. |
| BuilderMeaning.OrderCalls | backend/ent/account_query.go:71-74 | The rows ascend in the first key given, ties in the second, and so on, and are the same rows. |
| Seqs.SortByInOrder | backend/ent/account_query.go:964-970 | Stable sorting by several keys puts elements in that order. |
| BuilderMeaning.SelectCall | backend/ent/account_query.go:547-553 | Select keeps every row and its id, and of its columns exactly the given ones, the id and the keys of requested many-to-one edges. |
| BuilderMeaning.UniqueCall | backend/ent/account_query.go:65-68 | Unique(true) returns each row of Unique(false) once, and a builder with a path does so by default. |
| BuilderMeaning.LockCall | backend/ent/account_query.go:1012-1033 | A lock turns duplicates on again on PostgreSQL and changes no row elsewhere. |
| BuilderMeaning.WithCall | backend/ent/account_query.go:437-512 | WithX requests its edge with exactly the options given and leaves everything else as it was. |
| BuilderMeaning.WithLoads | backend/ent/account_query.go:437-512 | Each returned entity then has on that edge what a query for it alone, with those options, returns. |
| BuilderMeaning.NewReturnsTable | backend/ent/account_query.go:560-584 | A new builder returns the rows of its table. |
| BuilderMeaning.StepReturnsNeighbors | backend/ent/account_query.go:76-96 | A step returns the rows that its edge leads to from the rows of its source, each once. |
| Builder.CloneThenUse | backend/ent/account_query.go:412-433 | After Clone, any interleaving of calls on both builders leaves each as if it had been alone. |
| EndToEnd.CompiledTyped | backend/ent/account_query.go:437-512 | What a typed builder tree compiles to loads each requested edge once, from a builder of the edge's target. |
| EndToEnd.CallsAreNaive | backend/ent/account_query.go:331-338 | Any calls on a new builder, with any nesting of WithX and without windows or with fair ones, make the engine return what one query per entity and edge would. |
| AccountFields.DefaultStepsFill | backend/ent/account_create.go:561-622 | Defaults overwrite nothing, set nothing else, and fill every listed field unless a function-valued default is missing. |
| AccountFields.DefaultsGive | backend/ent/account_create.go:561-622 | A field that was not set ends with its own default, a field without one is never set, and what was set stays. |
| AccountFields.DefaultsFill | backend/ent/account_create.go:561-622 | defaults succeeds exactly if no function of an unset field is missing, and then sets exactly the fields with a default; otherwise it stops at the first such field, having filled those before it. |
| AccountFields.CheckExact | backend/ent/account_create.go:625-703 | check accepts a mutation exactly if every required field is set and every validated field that is set is valid. |
| AccountFields.FailedDefaultsRefused | backend/ent/account_create.go:561-703 | Whatever defaults left behind when it failed is refused by check. |
| AccountFields.RequiredFields | backend/ent/account_create.go:625-703 | The required fields are exactly the ones with a default, name, platform and type. |
| AccountFields.ValidatedFields | backend/ent/account_create.go:625-703 | The validated fields are exactly name, platform, type, status, session window status and quota dimension. |
| AccountFields.ErrorIsFirst | backend/ent/account_create.go:625-703 | If something is wrong with some field, check reports what is wrong with the first such field in schema order. |
| AccountFields.MissingAfterDefaults | backend/ent/account_create.go:561-703 | After successful defaults only name, platform or type can be reported missing. |
| BulkCreate.AccountCreateBulk.ExecMutator | backend/ent/account_create.go:2193-2226 | A builder's closure has the effect of its specification: check, createSpec, the rest of the chain, then id and done. |
| BulkCreate.AccountCreateBulk.Mutate | backend/ent/account_create.go:2227-2230 | A composed mutator runs its hooks from the outside in, and ends for every chain. |
| BulkCreate.AccountCreateBulk.Save | backend/ent/account_create.go:2182-2239 | Save has the effect of the specified run on the defaulted mutations, and does nothing if the bulk builder has an error. |
| BulkSave.PositionsAll | backend/ent/account_create.go:2189-2232 | The order of hooks lists exactly the hooks of all builders. |
| BulkSave.PositionsOrdered | backend/ent/account_create.go:2227-2230 | That order runs from builder 0 with its outermost hook first to the last builder, each hook once. |
| BulkSave.ExitsReverse | backend/ent/account_create.go:2227-2230 | The exits of a list of hooks are the exact reverse of its enters. |
| BulkSave.SaveTrace | backend/ent/account_create.go:2182-2239 | For arbitrary hooks: the first k hooks are entered in order and left in reverse, and BatchCreate runs at most once, below all hooks, with one completed specification per builder. |
| BulkTurns.SaveExact | backend/ent/account_create.go:2193-2232 | For arbitrary hooks: the chain turns round at the first hook that answers, mutation that is refused, or the driver; Save ends with what the entered hooks make of that on the way back, and builder j is done exactly if its mutator was reached and got a success back. |
| BulkTurns.WroteExact | backend/ent/account_create.go:2204-2215 | The rows were written if and only if the chain turned round at the last mutator with a success, which is when every builder goes on and the driver writes what is handed on. |
| BulkTurns.TruthExact | backend/ent/account_create.go:2216-2232 | For arbitrary hooks, Save tells the truth about the database if and only if the entered hooks keep a success of the driver and every other turn a failure; the last builder is done exactly if the rows were written. |
| BulkTurns.AllOrNoneExact | backend/ent/account_create.go:2216-2225 | For arbitrary hooks, the builders are all done or none if and only if every mutator before the turn gets a success back exactly when the rows were written. |
| BulkSave.SaveOutcome | backend/ent/account_create.go:2193-2226 | For arbitrary hooks: if the batch was written, a builder that is done carries the id of its own row; if not, and no hook invents a success, Save fails and nobody is done. |
| BulkSave.DoneIsSuffix | backend/ent/account_create.go:2216-2225 | If no hook invents a success, the builders that are done are the last ones of the list. |
| BulkSave.AllOrNothing | backend/ent/account_create.go:2182-2239 | If no hook invents a success: when the hooks let a written batch through, Save succeeds exactly if the batch was written, and all builders are done or none; else Save always fails. |
| BulkRows.SaveSucceedsExact | backend/ent/account_create.go:2182-2239 | If no hook invents a success, Save succeeds exactly if no hook answers for itself, every builder's own mutation passes the checks, the driver writes what is handed on, and no hook turns that into a failure. |
| BulkSave.LateFailure | backend/ent/account_create.go:2204-2217 | A hook of the second builder that fails afterwards makes Save fail with the batch written and only that builder done. |
| BulkSave.SwallowedFailure | backend/ent/account_create.go:2204-2217 | A hook of the second builder that swallows its refusal makes Save succeed with nothing written and the first builder done. |
| BulkSave.HookFreeSave | backend/ent/account_create.go:2182-2239 | Without hooks the first refused builder decides the error and the database is not called; if there is none, exactly the defaulted mutations are written in builder order. |
| BulkSave.FailedDefaultsNeverWritten | backend/ent/account_create.go:2189-2200 | Save ignores the error of defaults, and yet without hooks a failed defaults makes it fail before BatchCreate. |
| BulkRows.WrittenRowsPass | backend/ent/account_create.go:2198-2203 | As long as no hook replaces the mutation object, every row that is written has passed check. |
| BulkRows.BatchExact | backend/ent/account_create.go:2198-2215 | Save reaches the database if and only if no hook answers for itself and every builder's own mutation passes the checks, and then writes what the hooks hand on, builder by builder. |
| BulkRows.WrittenRowsExact | backend/ent/account_create.go:2198-2203 | Row j is the object handed on to builder j, and all rows pass the checks if and only if all handed objects do. |
| BulkSave.SwapIsNotChecked | backend/ent/account_create.go:2198-2203 | A mutation object that a hook passes on is written whether or not it passes: a failing one reaches the database. |
| Codec.Account.AssignValues | backend/ent/account.go:209-439 | Too few values are an error that changes nothing; otherwise the loop has the effect of the specified turns and stops at the first error. |
| Codec.MakeSpec | backend/ent/account_create.go:723-951 | The returned node holds everything that was set, and the specification one typed entry per set field in order and one entry per edge that has neighbours, in order. |
| Codec.Listed | backend/ent/account_create.go:729-848 | createSpec copies every field with its declared type, except the columns of the two parent edges. |
| CodecTheorems.NeverUnexpected | backend/ent/account.go:184-439 | Holders allocated by scanValues never raise an "unexpected type" error in assignValues, for any column list and any contents. |
| CodecTheorems.ReadNode | backend/ent/account_query.go:600-608 | Allocating, scanning and assigning a row gives a fresh entity, and a document that cannot be decoded is the only failure. |
| CodecTheorems.SilentKeeps | backend/ent/account.go:209-439 | Columns that are NULL leave their field as it was. |
| CodecTheorems.LastScalarWins | backend/ent/account.go:209-439 | A repeated scalar column resolves to its last value that is not NULL. |
| CodecTheorems.LastDocumentExact | backend/ent/account.go:259-274 | A repeated JSON column resolves to its last document if and only if that is null, nothing was there before, or it has every earlier key. |
| CodecTheorems.LastIdWins | backend/ent/account.go:215-220 | The last id column decides, and a NULL id is read as zero. |
| CodecTheorems.LastSelectedWins | backend/ent/account.go:433-435 | A repeated unknown column leaves its last value among the selected values. |
| CodecTheorems.SelectedFrame | backend/ent/account.go:433-435 | Known columns never reach the selected values. |
| CodecTheorems.UnknownTouchNothing | backend/ent/account.go:433-435 | Unknown columns change neither the id nor any field. |
| CodecTheorems.TablesAgree | backend/ent/account.go:184-205 | The types that createSpec declares, scanValues allocates and assignValues asserts agree for every field. |
| CodecTheorems.StoredExact | backend/ent/account_create.go:723-880 | The stored row holds exactly the set fields and foreign keys, encoded, and NULL elsewhere. |
| CodecTheorems.ReadBack | backend/ent/account.go:184-439 | Reading any columns of a created row, in any order and with repetitions, gives the created node restricted to them. |
| CodecTheorems.CreateThenRead | backend/ent/account_create.go:723-951 | Creating an account and reading all its columns is the identity; fields that were not set come back unset. |
| CodecTheorems.CheckedRowsAreComplete | backend/ent/account_create.go:625-703 | A mutation that passes check stores NULL only in fields that the entity keeps as pointers. |
| CreateEffect.SpecNodes | backend/ent/account_create.go:849-951 | The specification gives every kind of edge the ids that the mutation holds for it, and no others. |
| CreateEffect.NewNeighbours | backend/ent/account_create.go:849-951 | Inserting it relates the new account, on each of its edges, to exactly the rows with these ids. |
| EdgeMutation.AccountMutation.AddIDs | backend/ent/mutation.go:3922-3929 | Adds all ids to the pending ones of the edge, and changes nothing else. |
| EdgeMutation.AccountMutation.RemoveIDs | backend/ent/mutation.go:3942-3950 | Takes all ids from the pending ones and records them as removed. |
| EdgeMutation.AccountMutation.ClearEdge | backend/ent/mutation.go:3976-3979 | Records that the edge is cleared and keeps a pending id. |
| EdgeMutation.AccountMutation.ClearID | backend/ent/mutation.go:2828-2831 | Forgets a pending id and records that the field is cleared. |
| EdgeMutation.IDs | backend/ent/mutation.go:3961-3966 | The ids of a map in some order, each once. |
| EdgeMutation.AccountMutation.SaveEdge | backend/ent/account_update.go:992-1048 | The blocks of one edge compile to the specified entries, whatever the order of map iteration. |
| EdgeMutation.AccountMutation.SqlSave | backend/ent/account_update.go:992-1225 | The edge part of sqlSave compiles the six edges in order. |
| EdgeMutation.CompiledEffect | backend/ent/account_update.go:992-1225 | The compiled update takes every edge, on any account, to its old neighbours cleared or without the removed ones, plus the added ones; entries of one edge do not affect another. |
| EdgeMutation.ClearAllExact | backend/ent/account_update.go:1009-1030 | A set-valued edge is cleared as a whole exactly if Clear was called: removing no ids never compiles to that. |
| EdgeMutation.EffectIsMeaningAndStale | backend/ent/mutation.go:3922-4155 | The compiled update of any edge gives what the calls mean one by one plus the stale ids and a replaced lease, and the two are disjoint. |
| EdgeMutation.FaithfulExact | backend/ent/mutation.go:3922-4155 | An update does what its calls mean if and only if no id is stale and no lease is set beside another. |
| EdgeMutation.UpdateInWords | backend/ent/mutation.go:3922-4155 | By the calls alone: an id is a neighbour after the update if and only if the calls mean it, or it was added, then cleared and not mentioned again, or it is a lease that was never cleared and another one was set. |
| EdgeMutation.PendingExact | backend/ent/mutation.go:3922-3966 | The pending ids of an edge are those added by some call and not removed, replaced or forgotten by a later one. |
| EdgeMutation.RemovedExact | backend/ent/mutation.go:3931-3950 | The removed ids of an edge are those that some call removed, also if they were added again, and it is cleared exactly if some call cleared it. |
| EdgeMutation.ClearedExact | backend/ent/mutation.go:3976-3984 | The same of an edge to one neighbour, where a parent edge also records that its field is cleared. |
| EdgeMutation.OneLeaseExact | backend/ent/migrate/schema.go:1170 | An account with at most one lease is left with at most one, as the unique column demands, if and only if no lease is set beside another. |
| EdgeMutation.ClearFirstIsFaithful | backend/ent/mutation.go:3931-3934 | Callers who clear before they add never have a stale id. |
| EdgeMutation.ManyIsEach | backend/ent/account_update.go:2233-2470 | The set-valued update and single-node updates, in any order and with any repetitions, give every edge of every account the same neighbours. |
| AuditParser.ParseExceptions | tools/check_pnpm_audit_exceptions.py:23-48 | The loop has the effect of the specified steps, an entry line without a colon being the only error. |
| AuditParser.SplitEntry | tools/check_pnpm_audit_exceptions.py:12-20 | A trimmed key without colon and a value, in double quotes, in single quotes or bare, are split into exactly these, with any blanks between them. |
| AuditParser.StripText | tools/check_pnpm_audit_exceptions.py:27-28 | Any blanks, tabs and line ends around a text are dropped, and nothing else. |
| AuditParser.IgnoredLinesVanish | tools/check_pnpm_audit_exceptions.py:28-33 | Blank lines, comments and headers make no difference anywhere. |
| AuditParser.ItemsCarryEntries | tools/check_pnpm_audit_exceptions.py:34-42 | An item line always carries an entry; a dash alone is no item line. |
| AuditParser.NoiseVanishes | tools/check_pnpm_audit_exceptions.py:28-33 | Blank lines and lines that start with "#", "version:" or "exceptions:" make no difference anywhere. |
| AuditParser.TextVanishes | tools/check_pnpm_audit_exceptions.py:34-45 | Neither does a line without a colon that starts no item. |
| AuditParser.PreambleVanishes | tools/check_pnpm_audit_exceptions.py:43-45 | Whatever stands in front of the first item is skipped. |
| AuditParser.ItemWithoutColonFails | tools/check_pnpm_audit_exceptions.py:34-42 | An item without a colon makes the reader fail, wherever it stands. |
| AuditParser.ParsePrint | tools/check_pnpm_audit_exceptions.py:23-48 | Reading any list of records, each value in double or single quotes or bare, each line indented as it may be, gives these records. |
| AuditParser.LastFieldWins | tools/check_pnpm_audit_exceptions.py:41-45 | A key of a record has the value of the last line that gives it. |
| AuditParser.DistinctFields | tools/check_pnpm_audit_exceptions.py:41-45 | Lines with different keys all stay, in their order. |
| AuditParser.ParsePrintText | tools/check_pnpm_audit_exceptions.py:23-48 | The same through the text of the file, split at any line ending. |
| AuditPolicy.BuildIndex | tools/check_pnpm_audit_exceptions.py:156-185 | The loop builds the specified first-wins index and reports the specified errors. |
| AuditPolicy.IndexExact | tools/check_pnpm_audit_exceptions.py:156-185 | The index reports nothing exactly if every exception is complete, dated and unique, and then holds each one under its key and nothing else. |
| AuditPolicy.Verdict | tools/check_pnpm_audit_exceptions.py:187-243 | The result is empty if and only if the policy holds. |
| AuditWords.PolicyInWords | tools/check_pnpm_audit_exceptions.py:114-219 | The check passes if and only if every exception has its five fields, a date, a package and an advisory, no two are about the same package and advisory, every high or critical vulnerability has an identifier, and the first about each package and advisory has an exception in its severity, or in none, that has not expired. |
| AuditWords.FileAnswers | tools/check_pnpm_audit_exceptions.py:152-219 | A record in the text of a file answers every severe vulnerability with its package, advisory and severity, up to blanks and case, until it expires: the check reads the file, finds the record and passes. |
| AuditPolicy.JudgeExact | tools/check_pnpm_audit_exceptions.py:191-219 | The deduplicating loop stays clean exactly if every relevant vulnerability names an advisory and the first one of each key is excused. |
| AuditProblems.FirstWins | tools/check_pnpm_audit_exceptions.py:175-185 | Also for a faulty list, the index has exactly the keys of the complete exceptions and holds what the first one with each key says. |
| AuditProblems.ExceptionProblemsExact | tools/check_pnpm_audit_exceptions.py:156-180 | The problems of the list are exactly its incomplete, undated, empty-keyed and repeated entries, each under its own kind. |
| AuditProblems.VulnerabilityProblemsExact | tools/check_pnpm_audit_exceptions.py:191-219 | The problems of the report are exactly: each relevant vulnerability without an advisory, and the first one of each key for a missing, mismatched or expired exception. |
| AuditProblems.ProblemsExact | tools/check_pnpm_audit_exceptions.py:152-240 | Everything that is reported, and nothing else, is one of these. |
| AuditPolicy.MoreVulnerabilities | tools/check_pnpm_audit_exceptions.py:191-219 | Appending vulnerabilities never turns a failure into a success. |
| AuditPolicy.OneMoreException | tools/check_pnpm_audit_exceptions.py:156-185 | A complete exception with a fresh key, inserted anywhere, never turns a success into a failure. |
| AuditPolicy.OrderDoesNotMatter | tools/check_pnpm_audit_exceptions.py:191-219 | In particular, as long as reports of one key agree on the severity, every permutation has the same verdict. |
| AuditPolicy.EveryOrderExact | tools/check_pnpm_audit_exceptions.py:191-219 | The check passes in every order if and only if every occurrence, not only the first, is excused. |
| AuditPolicy.SomeOrderExact | tools/check_pnpm_audit_exceptions.py:191-219 | It passes in some order if and only if the exceptions are registered and every relevant report names an advisory and has an excused report of its key. |
| AuditPolicy.OrderIndependentExact | tools/check_pnpm_audit_exceptions.py:191-219 | All permutations of a report have one verdict if and only if every occurrence is excused or no order passes. |
| AuditPolicy.OrderDecides | tools/check_pnpm_audit_exceptions.py:204-215 | Two reports of one key that are excused in one severity only pass in one order and fail in the other. |
| AuditVulns.IterVulns | tools/check_pnpm_audit_exceptions.py:64-111 | The generator yields the specified tuples, or fails where the source raises. |
| AuditVulns.PickIsOneChain | tools/check_pnpm_audit_exceptions.py:51-61 | With a usable CVE list the identifier is the first truthy one of GHSA id, URL, first CVE, id, title, advisory and overview. |
| AuditVulns.PickFailsExact | tools/check_pnpm_audit_exceptions.py:51-61 | An unusable CVE list raises exactly if neither GHSA id nor URL is given. |
| AuditVulns.OrIsFirst | tools/check_pnpm_audit_exceptions.py:51-61 | A chain of or-operators gives its first truthy operand. |
| AuditReport.AdvisoriesReported | tools/check_pnpm_audit_exceptions.py:66-78 | Every entry of "advisories" is yielded once, in order: module_name or else name, severity, and the first of GHSA id, URL, first CVE, id, title, advisory and overview; the generator fails exactly at an entry that is no dictionary or cannot be identified. |
| AuditReport.YieldsInOrder | tools/check_pnpm_audit_exceptions.py:80-111 | "vulnerabilities" yield one tuple for every item of "via" that names an advisory, entry after entry and item after item, and no others. |
| AuditReport.YieldsUnlessBad | tools/check_pnpm_audit_exceptions.py:80-111 | That fails exactly at an entry that is no dictionary, or with a first truthy title that is no string. |
| AuditReport.ReportInOrder | tools/check_pnpm_audit_exceptions.py:64-111 | All that a report yields, and in which order. |
| AuditReport.TruthyExact | tools/check_pnpm_audit_exceptions.py:51-111 | Null, false, zero and whatever is empty are falsy, and nothing else is. |
| AuditReport.LookupExact | tools/check_pnpm_audit_exceptions.py:69-84 | Reading a key gives its value, or Null without the key. |
| AuditReport.AdvisoryNeedsException | tools/check_pnpm_audit_exceptions.py:66-208 | A high or critical entry of "advisories" with a GHSA id fails the check unless an exception is about its module, or else its name, and that id. |
| AuditReport.ItemNeedsException | tools/check_pnpm_audit_exceptions.py:80-208 | A high or critical entry of "vulnerabilities" fails the check unless, for every item that names an advisory, an exception is about the entry and that advisory. |
| AuditVulns.ReportedExact | tools/check_pnpm_audit_exceptions.py:80-111 | A tuple is yielded exactly if some entry has it: its name, its severity and one truthy advisory of its items. |
| AuditVulns.UnnamedDoNotCount | tools/check_pnpm_audit_exceptions.py:80-111 | Leaving the entries without an advisory out of any report changes neither what is yielded nor any verdict, however severe they are. |
| AuditVulns.UnnamedPass | tools/check_pnpm_audit_exceptions.py:80-111 | So a report of nothing else passes with any registered exceptions. |
| AuditVulns.ReportedNeedsException | tools/check_pnpm_audit_exceptions.py:191-219 | A yielded high or critical tuple without an exception fails the check. |

## Left out

- EagerFair.EvalIsNaive: for distinct ids of the outermost result; EagerFair.EvalExact covers repeated ones.
- EagerFair.WindowExact: for the lease, the keys found are distinct, as their column is unique.
- EagerLimits.WindowIsPerBatch: with an offset it asks for distinct rows, which EagerLimits.WholeNoDup gives for all tables with ids and for account groups whose key is read; account groups narrowed to less, where rows that look the same may stand for each other, are not covered.
- EagerVsTraversal.EagerAgrees: the sub-builder of the groups has no limit, offset or nested load of its own, because its limit would be one of the batch.
- Traversal.TraversalMeaning: a limited builder inside a chain contributes the rows of its own statement, which depend on their order and are no relational image.
- CodecTheorems.CreateThenRead: integers are unbounded, because the fields are 64 bits wide on both sides; a 32-bit platform, where int is narrower than the column, is not modelled.
- BulkSave.DoneIsSuffix: and BulkSave.AllOrNothing, BulkRows.SaveSucceedsExact and the unwritten half of BulkSave.SaveOutcome, for hooks that neither turn a failure into a success nor answer with a success of their own; they are special cases beside BulkTurns.SaveExact, which holds for all hooks.
- EdgeMutation.AccountMutation.SqlSave: the six blocks, one per edge, are written as one loop over the edges.
- Codec.MakeSpec: the thirty conditional copies are written as one loop over the list of fields; the extra fields of new join rows are not part of the specification.
- EagerReuse.RunAgain: not for many-to-many loads, whose second run joins the join table twice, with a result that the statement builder decides; the heap engine of EagerLoad itself takes queries as values.
- EagerRerun.LookupRerunExact: and EagerRerun.ChildRerunExact, for loads without a limit or offset.
- Hooks that call the next mutator more than once, keep it for later, or fail with the wrong mutation type.
- Errors of the driver, of contexts and of invalid column names in prepareQuery, and interceptors, policies and query hooks other than the one of loadGroups.
- Go's sharing of backing arrays between slices, negative limits and offsets, and the pointers from a mutation to the id of its node.
- Constraint errors of an update: adding a child that belongs to another account, clearing a lease, or setting one beside another.
- Field changes of an update, ON CONFLICT, grouping, aggregation, counting and the First, Only and Exist families: the same builders with easier obligations.
- The setters, printers and panicking variants, and the entities generated from the same templates.
- Floating-point arithmetic, time, date parsing and JSON text: opaque values.
- Argument parsing, files, the wording of messages and the exit of the audit tool; pick_advisory_id and the titles are modelled only as far as they decide what is yielded and what fails.
