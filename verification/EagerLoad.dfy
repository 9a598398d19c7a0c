/** The eager-loading engine on the heap: entities are objects, loaders index
    them by key and assign neighbors into their edges, and a query runs its
    loads recursively. Every method is tied to EagerSpec's batched evaluation. */
module EagerLoad {
  import opened Seqs
  import opened Schema
  import opened EagerSpec

  /** A model entity. `edges` has an entry for every requested edge. */
  class Node {
    var row: Row
    var edges: map<Edge, seq<Node>>
    ghost var tree: Tree

    constructor (row: Row, w: Withs)
      ensures this.row == row && edges.Keys == Edges(w)
      ensures forall e :: e in edges ==> edges[e] == []
      ensures tree == Tree(row, Nothing(w))
    {
      this.row := row;
      edges := map e | e in Edges(w) :: [];
      tree := Tree(row, Nothing(w));
    }

    /** `tree` describes the entity, whose neighbors all lie in `heap`. */
    ghost predicate Fits(heap: set<Node>)
      reads this, heap
    {
      && tree.row == row && tree.edges.Keys == edges.Keys
      && forall e :: e in edges ==> Describe(tree.edges[e], edges[e], heap)
    }

    static ghost predicate Describe(ts: seq<Tree>, ns: seq<Node>, heap: set<Node>)
      reads heap
    {
      |ts| == |ns| && forall i :: 0 <= i < |ns| ==> ns[i] in heap && ns[i].tree == ts[i]
    }

    method Reset(e: Edge, ghost heap: set<Node>)
      requires Fits(heap) && this !in heap
      modifies this
      ensures Fits(heap)
      ensures row == old(row) && tree == SetEdge(old(tree), e, [])
    {
      edges := edges[e := []];
      tree := SetEdge(tree, e, []);
    }

    method AssignEdge(e: Edge, n: Node, ghost heap: set<Node>)
      requires Fits(heap) && n in heap && this !in heap
      modifies this
      ensures Fits(heap)
      ensures row == old(row) && tree == Assign(e, old(tree), n.tree)
    {
      if Kind(e).M2O? || Kind(e).O2O? {
        edges := edges[e := [n]];
      } else {
        edges := edges[e := (if e in edges then edges[e] else []) + [n]];
      }
      tree := Assign(e, tree, n.tree);
    }
  }

  /** The node entry of the owner of each id. */
  ghost predicate ById(nodes: seq<Node>, ids: seq<int>, byID: map<int, Node>)
    requires |ids| == |nodes|
  {
    forall k :: (k in byID <==> Owner(ids, k).Some?) && (k in byID ==> byID[k] == nodes[Owner(ids, k).value])
  }

  /** Every entity of `heap` is described by its tree and reaches only `heap`. */
  ghost predicate Closed(heap: set<Node>)
    reads heap
  {
    forall n :: n in heap ==> n.Fits(heap)
  }

  /** Entities still being loaded: outside `heap`, with neighbors inside it. */
  ghost predicate Pending(nodes: seq<Node>, heap: set<Node>)
    reads nodes, heap
  {
    NoDup(nodes) && forall n :: n in nodes ==> n !in heap && n.Fits(heap)
  }

  lemma Grow(nodes: seq<Node>, heap: set<Node>, extra: set<Node>)
    requires Closed(heap) && Closed(extra) && Pending(nodes, heap)
    requires forall n :: n in nodes ==> n !in extra
    ensures Closed(heap + extra) && Pending(nodes, heap + extra)
  {
    var big := heap + extra;
    forall n | n in heap || n in nodes ensures n.Fits(big) {
      assert n.Fits(heap);
    }
    forall n | n in extra ensures n.Fits(big) {
      assert n.Fits(extra);
    }
  }

  lemma Apart(nodes: seq<Node>, ns: seq<Node>, heap: set<Node>)
    requires Pending(nodes, heap) && forall n :: n in ns ==> n in heap
    ensures forall j :: 0 <= j < |ns| ==> ns[j] !in nodes
  {
  }

  ghost function Trees(nodes: seq<Node>): (r: seq<Tree>)
    reads nodes
    ensures |r| == |nodes|
    ensures forall i :: 0 <= i < |nodes| ==> r[i] == nodes[i].tree
  {
    seq(|nodes|, i requires 0 <= i < |nodes| reads nodes => nodes[i].tree)
  }

  /** The entities whose foreign key is `k`, in order. */
  ghost function Bucket(e: Edge, nodes: seq<Node>, rows: seq<Row>, k: int): seq<Node>
    requires |rows| == |nodes|
  {
    if nodes == [] then []
    else
      var i := |nodes| - 1;
      Bucket(e, nodes[..i], rows[..i], k) + if ReadFk(e, rows[i]) == Some(k) then [nodes[i]] else []
  }

  lemma {:induction false} BucketMembers(e: Edge, nodes: seq<Node>, rows: seq<Row>, k: int)
    requires |rows| == |nodes| && NoDup(nodes)
    ensures NoDup(Bucket(e, nodes, rows, k))
    ensures forall n :: n in Bucket(e, nodes, rows, k) ==> n in nodes
    ensures forall i :: 0 <= i < |nodes| ==> (nodes[i] in Bucket(e, nodes, rows, k) <==> ReadFk(e, rows[i]) == Some(k))
  {
    if nodes != [] {
      var m := |nodes| - 1;
      BucketMembers(e, nodes[..m], rows[..m], k);
      assert nodes[m] !in nodes[..m];
      forall i | 0 <= i < |nodes|
        ensures nodes[i] in Bucket(e, nodes, rows, k) <==> ReadFk(e, rows[i]) == Some(k)
      {
        assert i < m ==> nodes[..m][i] == nodes[i] && rows[..m][i] == rows[i];
      }
    }
  }

  function Lookup<K, V>(m: map<K, seq<V>>, k: K): seq<V> {
    if k in m then m[k] else []
  }

  ghost predicate Indexes(e: Edge, nodes: seq<Node>, rows: seq<Row>, nodeids: map<int, seq<Node>>)
    requires |rows| == |nodes|
  {
    forall k :: Lookup(nodeids, k) == Bucket(e, nodes, rows, k)
  }

  lemma IndexNothing(e: Edge, nodes: seq<Node>, rows: seq<Row>)
    requires |rows| == |nodes|
    ensures Indexes(e, nodes[..0], rows[..0], map[])
  {
  }

  /** Adding one entity to the index: nothing changes for a nil key. */
  lemma IndexNext(e: Edge, nodes: seq<Node>, rows: seq<Row>, i: nat, nodeids: map<int, seq<Node>>)
    requires |rows| == |nodes| && i < |nodes| && Indexes(e, nodes[..i], rows[..i], nodeids)
    ensures ReadFk(e, rows[i]).None? ==> Indexes(e, nodes[..i + 1], rows[..i + 1], nodeids)
    ensures ReadFk(e, rows[i]).Some? ==>
      var fk := ReadFk(e, rows[i]).value;
      Indexes(e, nodes[..i + 1], rows[..i + 1], nodeids[fk := Lookup(nodeids, fk) + [nodes[i]]])
  {
    hide Bucket, ReadFk;
    var v := ReadFk(e, rows[i]);
    var after := if v.Some? then nodeids[v.value := Lookup(nodeids, v.value) + [nodes[i]]] else nodeids;
    forall k ensures Lookup(after, k) == Bucket(e, nodes[..i + 1], rows[..i + 1], k) {
      BucketNext(e, nodes, rows, i, k);
      assert Lookup(nodeids, k) == Bucket(e, nodes[..i], rows[..i], k);
    }
  }

  lemma BucketNext(e: Edge, nodes: seq<Node>, rows: seq<Row>, i: nat, k: int)
    requires |rows| == |nodes| && i < |nodes|
    ensures Bucket(e, nodes[..i + 1], rows[..i + 1], k) ==
      Bucket(e, nodes[..i], rows[..i], k) + if ReadFk(e, rows[i]) == Some(k) then [nodes[i]] else []
  {
    assert nodes[..i + 1][..i] == nodes[..i] && rows[..i + 1][..i] == rows[..i];
  }

  /** The first loop of loadProxy and its siblings. */
  method IndexByFk(e: Edge, nodes: seq<Node>, ghost rows: seq<Row>)
      returns (ids: seq<int>, nodeids: map<int, seq<Node>>)
    requires |rows| == |nodes|
    requires forall i :: 0 <= i < |nodes| ==> nodes[i].row == rows[i]
    ensures ids == FkIds(e, rows) && NoDup(ids)
    ensures forall k :: k in ids <==> k in nodeids
    ensures Indexes(e, nodes, rows, nodeids)
  {
    hide Indexes, ReadFk;
    ids, nodeids := [], map[];
    IndexNothing(e, nodes, rows);
    for i := 0 to |nodes|
      invariant ids == FkIds(e, rows[..i]) && NoDup(ids)
      invariant forall k :: k in ids <==> k in nodeids
      invariant Indexes(e, nodes[..i], rows[..i], nodeids)
    {
      assert rows[..i + 1][..i] == rows[..i];
      ghost var before := nodeids;
      var v := ReadFk(e, nodes[i].row);
      if v.Some? {
        var fk := v.value;
        if fk !in nodeids {
          ids := ids + [fk];
        }
        nodeids := nodeids[fk := Lookup(nodeids, fk) + [nodes[i]]];
      }
      IndexNext(e, nodes, rows, i, before);
    }
    assert rows[..|nodes|] == rows;
    assert nodes[..|nodes|] == nodes;
  }

  /** The innermost loop of loadProxy: one neighbor for a bucket of entities. */
  method AssignBucket(e: Edge, bucket: seq<Node>, n: Node, ghost heap: set<Node>)
    requires Pending(bucket, heap) && Closed(heap) && n in heap
    modifies bucket
    ensures Pending(bucket, heap)
    ensures forall m :: m in bucket ==> m.row == old(m.row) && m.tree == Assign(e, old(m.tree), n.tree)
  {
    for i := 0 to |bucket|
      invariant Pending(bucket, heap)
      invariant forall j :: 0 <= j < |bucket| ==> bucket[j].row == old(bucket[j].row)
      invariant forall j :: 0 <= j < i ==> bucket[j].tree == Assign(e, old(bucket[j].tree), n.tree)
      invariant forall j :: i <= j < |bucket| ==> bucket[j].tree == old(bucket[j].tree)
    {
      bucket[i].AssignEdge(e, n, heap);
    }
  }

  lemma TreeOf(n: Node, heap: set<Node>)
    requires n in heap && Closed(heap)
    ensures n.tree.row == n.row
  {
    assert n.Fits(heap);
  }

  lemma BucketAt(e: Edge, nodes: seq<Node>, rows: seq<Row>, nodeids: map<int, seq<Node>>, k: int)
    requires |rows| == |nodes| && Indexes(e, nodes, rows, nodeids)
    ensures Lookup(nodeids, k) == Bucket(e, nodes, rows, k)
  {
  }

  method HandOneM2O(e: Edge, nodes: seq<Node>, ghost rows: seq<Row>, bucket: seq<Node>, n: Node, ghost heap: set<Node>)
    requires Pending(nodes, heap) && Closed(heap) && n in heap
    requires |rows| == |nodes| && bucket == Bucket(e, nodes, rows, n.row.id)
    modifies nodes
    ensures Pending(nodes, heap) && Closed(heap)
    ensures Trees(nodes) == StepM2O(e, rows, old(Trees(nodes)), n.tree)
  {
    BucketMembers(e, nodes, rows, n.row.id);
    assert n.Fits(heap);
    forall j | 0 <= j < |bucket| ensures exists i :: 0 <= i < |nodes| && nodes[i] == bucket[j] {
      assert bucket[j] in nodes;
    }
    AssignBucket(e, bucket, n, heap);
    forall i | 0 <= i < |nodes|
      ensures nodes[i].Fits(heap)
      ensures nodes[i].tree == StepM2O(e, rows, old(Trees(nodes)), n.tree)[i]
    {
      assert nodes[i] in bucket <==> ReadFk(e, rows[i]) == Some(n.row.id);
    }
  }

  /** The second loop of loadProxy. `ok` is false on the error the source
      reports for a row nobody asked for. */
  method HandOutM2O(e: Edge, nodes: seq<Node>, nodeids: map<int, seq<Node>>, ns: seq<Node>, ghost heap: set<Node>)
    returns (ok: bool)
    requires Pending(nodes, heap) && Closed(heap)
    requires forall n :: n in ns ==> n in heap
    requires Indexes(e, nodes, RowsOf(Trees(nodes)), nodeids)
    modifies nodes
    ensures Pending(nodes, heap)
    ensures ok <==> forall j :: 0 <= j < |ns| ==> old(Trees(ns))[j].row.id in nodeids
    ensures ok ==> Trees(nodes) == ScatterM2O(e, old(Trees(nodes)), old(Trees(ns)))
  {
    hide Closed, Pending, Indexes, ScatterM2O, StepM2O;
    ghost var before, found := Trees(nodes), Trees(ns);
    Apart(nodes, ns, heap);
    ScatterNothing(e, before, found);
    for k := 0 to |ns|
      invariant Pending(nodes, heap) && Closed(heap) && Trees(ns) == found
      invariant forall j :: 0 <= j < k ==> found[j].row.id in nodeids
      invariant Trees(nodes) == ScatterM2O(e, before, found[..k])
    {
      var n := ns[k];
      TreeOf(n, heap);
      assert n.tree == found[k];
      ScatterStep(e, before, found, k);
      if n.row.id !in nodeids {
        return false;
      }
      assert forall j :: 0 <= j < k + 1 ==> found[j].row.id in nodeids;
      BucketAt(e, nodes, RowsOf(before), nodeids, n.row.id);
      HandOneM2O(e, nodes, RowsOf(before), nodeids[n.row.id], n, heap);
    }
    assert found[..|ns|] == found;
    ok := true;
  }

  /** loadProxy, loadParent, and the required-key loadUser and loadAccount. */
  method LoadM2O(db: Database, e: Edge, sub: Query, nodes: seq<Node>, ghost heap: set<Node>)
    returns (ok: bool, ghost heap': set<Node>)
    requires Kind(e).M2O? && Pending(nodes, heap) && Closed(heap)
    modifies nodes
    ensures ok && heap <= heap' && fresh(heap' - heap) && Closed(heap') && Pending(nodes, heap')
    ensures Trees(nodes) == LoadEdge(db, e, sub, old(Trees(nodes)))
    decreases sub.with, 2
  {
    hide Closed, Indexes, ScatterM2O, LoadEdge, Eval, FkIds;
    heap' := heap;
    ghost var before := Trees(nodes);
    ghost var rows := RowsOf(before);
    forall i | 0 <= i < |nodes| ensures nodes[i].row == rows[i] {
      assert nodes[i].Fits(heap);
    }
    var ids, nodeids := IndexByFk(e, nodes, rows);
    ghost var found := Eval(db, Where(sub, IdIn(ids)));
    forall j | 0 <= j < |found| ensures found[j].row.id in nodeids {
      NarrowedIds(db, sub, ids, found[j]);
    }
    assert |found| > 0 ==> found[0].row.id in ids;
    LoadEdgeM2O(db, e, sub, before);
    if |ids| == 0 {
      assert found == [];
      ScatterNothing(e, before, found);
      return true, heap;
    }
    var ns, extra := SqlAll(db, Where(sub, IdIn(ids)));
    Grow(nodes, heap, extra);
    heap' := heap + extra;
    ok := HandOutM2O(e, nodes, nodeids, ns, heap');
  }

  lemma ByIdNothing(nodes: seq<Node>)
    ensures ById(nodes[..0], [], map[])
  {
  }

  lemma ByIdNext(nodes: seq<Node>, ids: seq<int>, byID: map<int, Node>, id: int)
    requires |ids| < |nodes| && ById(nodes[..|ids|], ids, byID)
    ensures ById(nodes[..|ids| + 1], ids + [id], byID[id := nodes[|ids|]])
  {
    var i := |ids|;
    assert (ids + [id])[..i] == ids;
    forall k ensures Owner(ids + [id], k) == if k == id then Some(i) else Owner(ids, k) {
    }
  }

  /** The first loop of loadChildren and loadGroups: the ids, the entity each
      one resolves to, and the `init` callback. */
  method IndexById(e: Edge, nodes: seq<Node>, ghost rows: seq<Row>, ghost heap: set<Node>)
    returns (ids: seq<int>, byID: map<int, Node>)
    requires Pending(nodes, heap) && rows == RowsOf(Trees(nodes))
    modifies nodes
    ensures Pending(nodes, heap)
    ensures ids == Ids(rows) && ById(nodes, ids, byID)
    ensures Trees(nodes) == Init(e, old(Trees(nodes)))
  {
    hide ById;
    ids, byID := [], map[];
    ghost var before := Trees(nodes);
    ByIdNothing(nodes);
    for i := 0 to |nodes|
      invariant Pending(nodes, heap)
      invariant ids == Ids(rows)[..i] && ById(nodes[..i], ids, byID)
      invariant forall j :: 0 <= j < i ==> nodes[j].tree == Init(e, before)[j]
      invariant forall j :: i <= j < |nodes| ==> nodes[j].tree == before[j]
    {
      assert nodes[i].Fits(heap) && nodes[i].tree == before[i];
      ByIdNext(nodes, ids, byID, nodes[i].row.id);
      ids := ids + [nodes[i].row.id];
      byID := byID[nodes[i].row.id := nodes[i]];
      if Kind(e).O2M? || Kind(e).M2M? {
        nodes[i].Reset(e, heap);
      }
    }
    assert nodes[..|nodes|] == nodes;
  }

  method HandOneO2M(e: Edge, nodes: seq<Node>, ghost rows: seq<Row>, byID: map<int, Node>, k: int, n: Node,
      ghost heap: set<Node>)
    requires Pending(nodes, heap) && Closed(heap) && n in heap
    requires |rows| == |nodes| && ById(nodes, Ids(rows), byID)
    requires ReadFk(e, n.tree.row) == Some(k) && k in byID
    modifies nodes
    ensures Pending(nodes, heap) && Closed(heap)
    ensures Trees(nodes) == StepO2M(e, rows, old(Trees(nodes)), n.tree)
  {
    ghost var o := Owner(Ids(rows), k).value;
    assert byID[k] == nodes[o] && nodes[o].Fits(heap) && nodes[o] in nodes;
    byID[k].AssignEdge(e, n, heap);
  }

  /** The second loop of loadChildren. `ok` is false on the two errors the
      source reports: a nil key, or a key that belongs to no entity. */
  method HandOutO2M(e: Edge, nodes: seq<Node>, byID: map<int, Node>, ns: seq<Node>, ghost heap: set<Node>)
    returns (ok: bool)
    requires Pending(nodes, heap) && Closed(heap)
    requires forall n :: n in ns ==> n in heap
    requires ById(nodes, Ids(RowsOf(Trees(nodes))), byID)
    modifies nodes
    ensures Pending(nodes, heap)
    ensures ok <==> forall j :: 0 <= j < |ns| ==>
        ReadFk(e, old(Trees(ns))[j].row).Some? && ReadFk(e, old(Trees(ns))[j].row).value in byID
    ensures ok ==> Trees(nodes) == ScatterO2M(e, old(Trees(nodes)), old(Trees(ns)))
  {
    hide Closed, ById, ScatterO2M, StepO2M, ReadFk;
    ghost var before, found := Trees(nodes), Trees(ns);
    Apart(nodes, ns, heap);
    ScatterNothing(e, before, found);
    for k := 0 to |ns|
      invariant Pending(nodes, heap) && Closed(heap) && Trees(ns) == found
      invariant forall j :: 0 <= j < k ==> ReadFk(e, found[j].row).Some? && ReadFk(e, found[j].row).value in byID
      invariant Trees(nodes) == ScatterO2M(e, before, found[..k])
    {
      var n := ns[k];
      TreeOf(n, heap);
      assert n.tree == found[k];
      ScatterStep(e, before, found, k);
      var fk := ReadFk(e, n.row);
      if fk.None? || fk.value !in byID {
        return false;
      }
      HandOneO2M(e, nodes, RowsOf(before), byID, fk.value, n, heap);
    }
    assert found[..|ns|] == found;
    ok := true;
  }

  lemma OwnerIndexed(nodes: seq<Node>, ids: seq<int>, byID: map<int, Node>, k: int)
    requires |ids| == |nodes| && ById(nodes, ids, byID) && k in ids
    ensures k in byID
  {
  }

  /** loadChildren, loadUsageLogs, loadAccountGroups and, with a unique edge,
      loadManagedProxyLease. */
  method LoadO2M(db: Database, e: Edge, sub: Query, nodes: seq<Node>, ghost heap: set<Node>)
    returns (ok: bool, ghost heap': set<Node>)
    requires (Kind(e).O2M? || Kind(e).O2O?) && Pending(nodes, heap) && Closed(heap)
    modifies nodes
    ensures ok && heap <= heap' && fresh(heap' - heap) && Closed(heap') && Pending(nodes, heap')
    ensures Trees(nodes) == LoadEdge(db, e, sub, old(Trees(nodes)))
    decreases sub.with, 2
  {
    hide Closed, ScatterO2M, LoadEdge, Eval, ById;
    ghost var start := Trees(nodes);
    ghost var rows := RowsOf(start);
    var ids, byID := IndexById(e, nodes, rows, heap);
    assert RowsOf(Trees(nodes)) == rows;
    LoadEdgeO2M(db, e, sub, start);
    var ns, extra := SqlAll(db, Where(NeedField(sub, FkColumn(e)), FkIn(e, ids)));
    Grow(nodes, heap, extra);
    heap' := heap + extra;
    ghost var found := Trees(ns);
    forall j | 0 <= j < |ns| ensures ReadFk(e, found[j].row).Some? && ReadFk(e, found[j].row).value in byID {
      NarrowedFks(db, e, sub, ids, found[j]);
      OwnerIndexed(nodes, ids, byID, ReadFk(e, found[j].row).value);
    }
    ok := HandOutO2M(e, nodes, byID, ns, heap');
  }

  /** The query hook of loadGroups: entities linked to each target id. */
  ghost predicate Linked(nodes: seq<Node>, ids: seq<int>, pairs: seq<(int, Row)>, nids: map<int, set<Node>>)
    requires |ids| == |nodes|
  {
    && (forall k :: k in nids <==> k in Ids(FirstById(pairs)))
    && forall k, i :: k in nids && 0 <= i < |nodes| ==> (nodes[i] in nids[k] <==> Receives(ids, pairs, i, k))
  }

  lemma LinkNothing(nodes: seq<Node>, ids: seq<int>, pairs: seq<(int, Row)>)
    requires |ids| == |nodes|
    ensures Linked(nodes, ids, pairs[..0], map[])
  {
  }

  lemma LinkStep(nodes: seq<Node>, ids: seq<int>, pairs: seq<(int, Row)>, k: nat, nids: map<int, set<Node>>, node: Node)
    requires |ids| == |nodes| && NoDup(nodes) && k < |pairs|
    requires Linked(nodes, ids, pairs[..k], nids)
    requires Owner(ids, pairs[k].0).Some? && node == nodes[Owner(ids, pairs[k].0).value]
    ensures var id := pairs[k].1.id;
      Linked(nodes, ids, pairs[..k + 1], nids[id := if id in nids then nids[id] + {node} else {node}])
  {
    var id := pairs[k].1.id;
    var longer, shorter := pairs[..k + 1], pairs[..k];
    var after := nids[id := if id in nids then nids[id] + {node} else {node}];
    assert longer[..k] == shorter;
    forall j ensures j in after <==> j in Ids(FirstById(longer)) {
      assert Ids(FirstById(shorter) + [pairs[k].1]) == Ids(FirstById(shorter)) + [id];
    }
    forall j: int, i | j in after && 0 <= i < |nodes|
      ensures nodes[i] in after[j] <==> Receives(ids, longer, i, j)
    {
      FirstByIdIds(shorter, j);
      var last := j == id && Owner(ids, longer[k].0) == Some(i);
      assert Receives(ids, longer, i, j) <==> Receives(ids, shorter, i, j) || last by {
        if Receives(ids, shorter, i, j) {
          var h :| 0 <= h < |shorter| && shorter[h].1.id == j && Owner(ids, shorter[h].0) == Some(i);
          assert longer[h] == shorter[h];
        }
        if Receives(ids, longer, i, j) {
          var h :| 0 <= h < |longer| && longer[h].1.id == j && Owner(ids, longer[h].0) == Some(i);
          assert h < k ==> longer[h] == shorter[h];
        }
        assert last ==> longer[k].1.id == j;
      }
    }
  }

  lemma OwnerIs(nodes: seq<Node>, ids: seq<int>, byID: map<int, Node>, k: int)
    requires |ids| == |nodes| && ById(nodes, ids, byID) && k in ids
    ensures k in byID && Owner(ids, k).Some? && byID[k] == nodes[Owner(ids, k).value]
  {
  }

  lemma FirstNothing(w: Withs, pairs: seq<(int, Row)>)
    ensures Bare(w, FirstById(pairs[..0])) == []
  {
  }

  lemma FirstNext(w: Withs, pairs: seq<(int, Row)>, k: nat)
    requires k < |pairs|
    ensures var before, r := FirstById(pairs[..k]), pairs[k].1;
      Bare(w, FirstById(pairs[..k + 1])) == if r.id in Ids(before) then Bare(w, before)
        else Bare(w, before) + [Tree(r, Nothing(w))]
  {
    assert pairs[..k + 1][..k] == pairs[..k];
  }

  /** The query hook of loadGroups: one new entity for each distinct target, and
      for each target the set of entities it was joined to. */
  method ScanJoin(nodes: seq<Node>, ids: seq<int>, byID: map<int, Node>, pairs: seq<(int, Row)>, w: Withs)
    returns (ns: seq<Node>, nids: map<int, set<Node>>)
    requires |ids| == |nodes| && NoDup(nodes) && ById(nodes, ids, byID)
    requires forall p :: p in pairs ==> p.0 in ids
    ensures NoDup(ns) && fresh(ns)
    ensures Pending(ns, {}) && Trees(ns) == Bare(w, FirstById(pairs))
    ensures Linked(nodes, ids, pairs, nids)
    ensures forall k, n :: k in nids && n in nids[k] ==> n in nodes
  {
    hide Linked, ById, Owner, FirstById, Bare;
    ns, nids := [], map[];
    LinkNothing(nodes, ids, pairs);
    FirstNothing(w, pairs);
    for k := 0 to |pairs|
      invariant fresh(ns)
      invariant Pending(ns, {}) && Trees(ns) == Bare(w, FirstById(pairs[..k]))
      invariant Linked(nodes, ids, pairs[..k], nids)
      invariant forall k, n :: k in nids && n in nids[k] ==> n in nodes
    {
      FirstNext(w, pairs, k);
      var (outValue, target) := pairs[k];
      assert pairs[k] in pairs;
      OwnerIs(nodes, ids, byID, outValue);
      var node := byID[outValue];
      LinkStep(nodes, ids, pairs, k, nids, node);
      LinkedKeys(nodes, ids, pairs[..k], nids, target.id);
      if target.id !in nids {
        nids := nids[target.id := {node}];
        var n := new Node(target, w);
        ns := ns + [n];
      } else {
        nids := nids[target.id := nids[target.id] + {node}];
      }
    }
    assert pairs[..|pairs|] == pairs;
  }

  /** The innermost loop of loadGroups, over a set in no particular order. */
  method AssignSet(e: Edge, receivers: set<Node>, n: Node, ghost heap: set<Node>)
    requires Closed(heap) && n in heap
    requires forall m :: m in receivers ==> m !in heap && m.Fits(heap)
    modifies receivers
    ensures forall m :: m in receivers ==> m.Fits(heap) && m.tree == Assign(e, old(m.tree), n.tree)
  {
    var todo := receivers;
    while todo != {}
      invariant todo <= receivers
      invariant forall m :: m in receivers ==> m.Fits(heap)
      invariant forall m :: m in receivers - todo ==> m.tree == Assign(e, old(m.tree), n.tree)
      invariant forall m :: m in todo ==> m.tree == old(m.tree)
    {
      var kn :| kn in todo;
      kn.AssignEdge(e, n, heap);
      todo := todo - {kn};
    }
  }

  method HandSet(e: Edge, nodes: seq<Node>, ghost ids: seq<int>, ghost pairs: seq<(int, Row)>, receivers: set<Node>,
      n: Node, ghost heap: set<Node>)
    requires Pending(nodes, heap) && Closed(heap) && n in heap
    requires |ids| == |nodes|
    requires forall m :: m in receivers ==> m in nodes
    requires forall i :: 0 <= i < |nodes| ==> (nodes[i] in receivers <==> Receives(ids, pairs, i, n.tree.row.id))
    modifies nodes
    ensures Pending(nodes, heap) && Closed(heap)
    ensures Trees(nodes) == StepM2M(e, ids, pairs, old(Trees(nodes)), n.tree)
  {
    hide Receives;
    AssignSet(e, receivers, n, heap);
    forall i | 0 <= i < |nodes|
      ensures nodes[i].Fits(heap)
      ensures nodes[i].tree == StepM2M(e, ids, pairs, old(Trees(nodes)), n.tree)[i]
    {
    }
  }

  lemma LinkedKeys(nodes: seq<Node>, ids: seq<int>, pairs: seq<(int, Row)>, nids: map<int, set<Node>>, k: int)
    requires |ids| == |nodes| && Linked(nodes, ids, pairs, nids)
    ensures k in nids <==> k in Ids(FirstById(pairs))
  {
  }

  lemma LinkedAt(nodes: seq<Node>, ids: seq<int>, pairs: seq<(int, Row)>, nids: map<int, set<Node>>, k: int)
    requires |ids| == |nodes| && Linked(nodes, ids, pairs, nids) && k in nids
    ensures forall i :: 0 <= i < |nodes| ==> (nodes[i] in nids[k] <==> Receives(ids, pairs, i, k))
  {
  }

  /** The second loop of loadGroups. `ok` is false on the error the source
      reports for a target that the join did not return. */
  method HandOutM2M(e: Edge, nodes: seq<Node>, ids: seq<int>, ghost pairs: seq<(int, Row)>, nids: map<int, set<Node>>,
      ns: seq<Node>, ghost heap: set<Node>)
    returns (ok: bool)
    requires Pending(nodes, heap) && Closed(heap)
    requires ids == Ids(RowsOf(Trees(nodes)))
    requires forall n :: n in ns ==> n in heap
    requires Linked(nodes, ids, pairs, nids)
    requires forall k, n :: k in nids && n in nids[k] ==> n in nodes
    modifies nodes
    ensures Pending(nodes, heap)
    ensures ok <==> forall j :: 0 <= j < |ns| ==> old(Trees(ns))[j].row.id in nids
    ensures ok ==> Trees(nodes) == ScatterM2M(e, old(Trees(nodes)), old(Trees(ns)), pairs)
  {
    hide Closed, Pending, Linked, ScatterM2M, StepM2M;
    ghost var before, found := Trees(nodes), Trees(ns);
    Apart(nodes, ns, heap);
    ScatterNothing(e, before, found);
    for k := 0 to |ns|
      invariant Pending(nodes, heap) && Closed(heap) && Trees(ns) == found
      invariant forall j :: 0 <= j < k ==> found[j].row.id in nids
      invariant Trees(nodes) == ScatterM2M(e, before, found[..k], pairs)
    {
      var n := ns[k];
      TreeOf(n, heap);
      assert n.tree == found[k];
      ScatterStep(e, before, found, k);
      if n.row.id !in nids {
        return false;
      }
      assert forall j :: 0 <= j < k + 1 ==> found[j].row.id in nids;
      LinkedAt(nodes, ids, pairs, nids, n.row.id);
      HandSet(e, nodes, ids, pairs, nids[n.row.id], n, heap);
    }
    assert found[..|ns|] == found;
    ok := true;
  }

  /** loadGroups. */
  method LoadM2M(db: Database, e: Edge, sub: Query, nodes: seq<Node>, ghost heap: set<Node>)
    returns (ok: bool, ghost heap': set<Node>)
    requires Kind(e).M2M? && Pending(nodes, heap) && Closed(heap)
    modifies nodes
    ensures ok && heap <= heap' && fresh(heap' - heap) && Closed(heap') && Pending(nodes, heap')
    ensures Trees(nodes) == LoadEdge(db, e, sub, old(Trees(nodes)))
    decreases sub.with, 2
  {
    hide Closed, JoinRows, ScatterM2M, Attach, LoadEdge, FirstById, ById, Linked;
    ghost var start := Trees(nodes);
    ghost var rows := RowsOf(start);
    var ids, byID := IndexById(e, nodes, rows, heap);
    assert RowsOf(Trees(nodes)) == rows;
    var pairs := JoinRows(db, e, sub, ids);
    LoadEdgeM2M(db, e, sub, start, pairs);
    forall p | p in pairs ensures p.0 in ids {
      JoinSources(db, e, sub, ids, p);
    }
    var ns, nids, extra := LoadTargets(db, sub, nodes, ids, byID, pairs);
    Grow(nodes, heap, extra);
    heap' := heap + extra;
    ok := HandOutM2M(e, nodes, ids, pairs, nids, ns, heap');
  }

  /** The target entities of a join with their own nested loads. */
  method LoadTargets(db: Database, sub: Query, nodes: seq<Node>, ids: seq<int>, byID: map<int, Node>,
      pairs: seq<(int, Row)>)
    returns (ns: seq<Node>, nids: map<int, set<Node>>, ghost extra: set<Node>)
    requires |ids| == |nodes| && NoDup(nodes) && ById(nodes, ids, byID)
    requires forall p :: p in pairs ==> p.0 in ids
    ensures fresh(extra) && Closed(extra) && NoDup(ns) && forall n :: n in ns ==> n in extra
    ensures Trees(ns) == Attach(db, sub.with, Bare(sub.with, FirstById(pairs)))
    ensures Linked(nodes, ids, pairs, nids)
    ensures forall k, n :: k in nids && n in nids[k] ==> n in nodes
    ensures forall j :: 0 <= j < |ns| ==> Trees(ns)[j].row.id in nids
    decreases sub.with, 1
  {
    hide Closed, Attach, FirstById, ById, Linked;
    ns, nids := ScanJoin(nodes, ids, byID, pairs, sub.with);
    ghost var targets := FirstById(pairs);
    extra := LoadEdges(db, sub.with, ns, {});
    AttachKeepsRows(db, sub.with, Bare(sub.with, targets));
    ghost var found := Trees(ns);
    assert RowsOf(found) == RowsOf(Bare(sub.with, targets)) == targets;
    forall j | 0 <= j < |found| ensures found[j].row.id in nids {
      assert Ids(targets)[j] == found[j].row.id;
      LinkedKeys(nodes, ids, pairs, nids, found[j].row.id);
    }
    Settle(ns, extra);
    extra := extra + set n | n in ns;
  }

  /** The sequence of loads at the end of sqlAll. */
  method LoadEdges(db: Database, w: Withs, nodes: seq<Node>, ghost heap: set<Node>) returns (ghost heap': set<Node>)
    requires Pending(nodes, heap) && Closed(heap)
    modifies nodes
    ensures heap <= heap' && fresh(heap' - heap) && Closed(heap') && Pending(nodes, heap')
    ensures Trees(nodes) == Attach(db, w, old(Trees(nodes)))
    decreases w, 0
  {
    heap' := heap;
    match w
    case Done =>
    case Load(e, sub, rest) =>
      var ok;
      match Kind(e) {
        case M2O => ok, heap' := LoadM2O(db, e, sub, nodes, heap);
        case M2M => ok, heap' := LoadM2M(db, e, sub, nodes, heap);
        case _ => ok, heap' := LoadO2M(db, e, sub, nodes, heap);
      }
      heap' := LoadEdges(db, rest, nodes, heap');
  }

  lemma Settle(nodes: seq<Node>, heap: set<Node>)
    requires Pending(nodes, heap) && Closed(heap)
    ensures Closed(heap + set n | n in nodes)
  {
    var big := heap + set n | n in nodes;
    forall n | n in big ensures n.Fits(big) {
      assert n.Fits(heap);
    }
  }

  /** The Assign callback of sqlAll, once per row. */
  method NewNodes(rows: seq<Row>, w: Withs) returns (nodes: seq<Node>)
    ensures fresh(nodes)
    ensures Pending(nodes, {}) && Trees(nodes) == Bare(w, rows)
  {
    nodes := [];
    for i := 0 to |rows|
      invariant |nodes| == i && fresh(nodes)
      invariant Pending(nodes, {}) && Trees(nodes) == Bare(w, rows[..i])
    {
      var n := new Node(rows[i], w);
      nodes := nodes + [n];
    }
    assert rows[..|rows|] == rows;
  }

  /** sqlAll: one query for the entities, then the requested loads. */
  method SqlAll(db: Database, q: Query) returns (nodes: seq<Node>, ghost heap: set<Node>)
    ensures fresh(heap) && Closed(heap) && NoDup(nodes) && forall n :: n in nodes ==> n in heap
    ensures Trees(nodes) == Eval(db, q)
    decreases q.with, 1
  {
    nodes := NewNodes(QueryNodes(db, q), q.with);
    if |nodes| == 0 {
      assert Trees(nodes) == [] && |Eval(db, q)| == 0;
      return nodes, {};
    }
    heap := LoadEdges(db, q.with, nodes, {});
    Settle(nodes, heap);
    heap := heap + set n | n in nodes;
  }
}
