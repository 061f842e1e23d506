/** `_cluster_mst` of `export_graph.export_json_graph`: Prim's algorithm over one cluster's node
    positions, driven by a binary heap of `(1 - sim, u, v, sim)` entries. The similarity of two
    positions is an input function standing for the dot product of their embeddings. */
module ClusterMst {
  import Neighbors
  import ExportRecords

  /** A heap entry `(1.0 - sim, u, v, sim)`. */
  datatype HeapEntry = HeapEntry(cost: real, u: nat, v: nat, sim: real)

  /** An edge of the tree: `v` attached to `u`, which was in the tree already. */
  datatype MstEdge = MstEdge(u: nat, v: nat, sim: real)

  /** Python's tuple order on heap entries. */
  predicate KeyLess(a: HeapEntry, b: HeapEntry) {
    || a.cost < b.cost
    || (a.cost == b.cost && a.u < b.u)
    || (a.cost == b.cost && a.u == b.u && a.v < b.v)
    || (a.cost == b.cost && a.u == b.u && a.v == b.v && a.sim < b.sim)
  }

  /** The position of the entry `heappop` returns: a smallest one. */
  function MinIndex(heap: seq<HeapEntry>): (k: nat)
    requires heap != []
    ensures k < |heap|
    ensures forall m :: 0 <= m < |heap| ==> !KeyLess(heap[m], heap[k])
  {
    if |heap| == 1 then 0
    else
      var k := MinIndex(heap[1..]) + 1;
      if KeyLess(heap[k], heap[0]) then k else 0
  }

  function Remove(heap: seq<HeapEntry>, k: nat): (r: seq<HeapEntry>)
    requires k < |heap|
    ensures |r| == |heap| - 1
    ensures forall m :: 0 <= m < k ==> r[m] == heap[m]
    ensures forall m :: k <= m < |r| ==> r[m] == heap[m + 1]
  {
    heap[..k] + heap[k + 1..]
  }

  /** An entry offered from a tree node `u` to a cluster node `v`, with its true similarity. */
  ghost predicate EntryOk(e: HeapEntry, inTree: set<nat>, all: set<nat>, sim: (nat, nat) -> real) {
    e.u in inTree && e.v in all && e.sim == sim(e.u, e.v) && e.cost == 1.0 - e.sim
  }

  /** Some heap entry offers to attach `w` to `x`. */
  ghost predicate Offered(heap: seq<HeapEntry>, x: nat, w: nat) {
    exists m :: 0 <= m < |heap| && heap[m].u == x && heap[m].v == w
  }

  /** The nodes attached by `edges`. */
  ghost function Attached(edges: seq<MstEdge>): set<nat> {
    set k | 0 <= k < |edges| :: edges[k].v
  }

  /** Every edge hangs a new node on a node already in the tree grown from `root`. */
  ghost predicate Grows(root: nat, edges: seq<MstEdge>, sim: (nat, nat) -> real) {
    forall k :: 0 <= k < |edges| ==>
      && (edges[k].u == root || edges[k].u in Attached(edges[..k]))
      && edges[k].v != root && edges[k].v !in Attached(edges[..k])
      && edges[k].sim == sim(edges[k].u, edges[k].v)
  }

  /** Every edge joins two of `nodes` and carries their similarity. */
  ghost predicate Inside(t: seq<MstEdge>, nodes: set<nat>, sim: (nat, nat) -> real) {
    forall k :: 0 <= k < |t| ==> t[k].u in nodes && t[k].v in nodes && t[k].sim == sim(t[k].u, t[k].v)
  }

  /** Every heap entry comes from a tree node and carries its true similarity. */
  ghost predicate HeapOk(heap: seq<HeapEntry>, inTree: set<nat>, all: set<nat>, sim: (nat, nat) -> real) {
    forall p :: 0 <= p < |heap| ==> EntryOk(heap[p], inTree, all, sim)
  }

  /** Every pair of a tree node and a cluster node outside the tree is offered by some entry. */
  ghost predicate AllOffered(heap: seq<HeapEntry>, all: set<nat>, inTree: set<nat>) {
    forall x, w :: x in inTree && w in all && w !in inTree ==> Offered(heap, x, w)
  }

  /** No pair between the tree nodes `inTree` and the rest of `all` is more similar than `s`. */
  ghost predicate CutMax(s: real, inTree: set<nat>, all: set<nat>, sim: (nat, nat) -> real) {
    forall x, w :: x in inTree && w in all && w !in inTree ==> sim(x, w) <= s
  }

  /** Prim's choice: each edge is a most similar pair between the tree grown before it (the
      root and the nodes earlier edges attached) and the rest of the cluster. */
  ghost predicate PrimOrder(root: nat, edges: seq<MstEdge>, all: set<nat>, sim: (nat, nat) -> real) {
    forall k :: 0 <= k < |edges| ==> CutMax(edges[k].sim, {root} + Attached(edges[..k]), all, sim)
  }

  /** The tree so far: the root plus the attached nodes, one edge per attached node. */
  ghost predicate TreeState(root: nat, inTree: set<nat>, mst: seq<MstEdge>, all: set<nat>, sim: (nat, nat) -> real) {
    && inTree == {root} + Attached(mst) && inTree <= all
    && |inTree| == |mst| + 1
    && Grows(root, mst, sim)
  }

  /** Attaching a node not yet in the tree grows the tree by exactly one. */
  lemma AddOne(inTree: set<nat>, v: nat)
    requires v !in inTree
    ensures |inTree + {v}| == |inTree| + 1
  {
  }

  lemma StrictSubsetSmaller(a: set<nat>, b: set<nat>)
    requires a < b
    ensures |a| < |b|
  {
    assert b == a + (b - a);
    assert b - a != {};
  }

  /** The distinct positions listed in `s`. */
  ghost function Elems(s: seq<nat>): set<nat> {
    set x | x in s
  }

  lemma {:induction false} SetOfSeqSize(s: seq<nat>)
    ensures |Elems(s)| <= |s|
  {
    if s != [] {
      SetOfSeqSize(s[1..]);
      var rest := Elems(s[1..]);
      assert Elems(s) == rest + {s[0]} by {
        forall y | y in s ensures y in rest + {s[0]} {
          var i :| 0 <= i < |s| && s[i] == y;
          if i > 0 {
            assert s[1..][i - 1] == y;
          }
        }
      }
      if s[0] in rest {
        assert rest + {s[0]} == rest;
      } else {
        assert |rest + {s[0]}| == |rest| + |{s[0]}|;
      }
    }
  }

  /** Adding an edge that attaches a new node keeps the growth order of the earlier edges. */
  lemma GrowsAppend(root: nat, edges: seq<MstEdge>, e: MstEdge, sim: (nat, nat) -> real)
    requires Grows(root, edges, sim)
    requires e.u == root || e.u in Attached(edges)
    requires e.v != root && e.v !in Attached(edges)
    requires e.sim == sim(e.u, e.v)
    ensures Grows(root, edges + [e], sim)
    ensures Attached(edges + [e]) == Attached(edges) + {e.v}
  {
    var es := edges + [e];
    assert es[..|edges|] == edges;
    forall k | 0 <= k < |edges| ensures es[..k] == edges[..k] {
    }
    assert forall x :: x in Attached(es) ==> x in Attached(edges) + {e.v} by {
      forall x | x in Attached(es) ensures x in Attached(edges) + {e.v} {
        var k :| 0 <= k < |es| && es[k].v == x;
        if k < |edges| {
          assert edges[k].v == x;
        }
      }
    }
    assert forall x :: x in Attached(edges) ==> x in Attached(es) by {
      forall x | x in Attached(edges) ensures x in Attached(es) {
        var k :| 0 <= k < |edges| && edges[k].v == x;
        assert es[k].v == x;
      }
    }
    assert es[|edges|].v == e.v;
  }

  /** Entries stay valid as the tree grows. */
  lemma EntriesStayOk(heap: seq<HeapEntry>, inTree: set<nat>, v: nat, all: set<nat>, sim: (nat, nat) -> real)
    requires HeapOk(heap, inTree, all, sim)
    ensures HeapOk(heap, inTree + {v}, all, sim)
  {
  }

  /** Removing the entry at `k` keeps every other entry valid. */
  lemma RemoveKeepsEntries(heap: seq<HeapEntry>, k: nat, inTree: set<nat>, all: set<nat>, sim: (nat, nat) -> real)
    requires k < |heap|
    requires HeapOk(heap, inTree, all, sim)
    ensures HeapOk(Remove(heap, k), inTree, all, sim)
  {
    var r := Remove(heap, k);
    forall p | 0 <= p < |r| ensures EntryOk(r[p], inTree, all, sim) {
      if p < k {
        assert r[p] == heap[p];
      } else {
        assert r[p] == heap[p + 1];
      }
    }
  }

  /** Removing the entry at `k` keeps every offer to another node. */
  lemma RemoveKeepsOffers(heap: seq<HeapEntry>, k: nat, x: nat, w: nat)
    requires k < |heap| && Offered(heap, x, w) && heap[k].v != w
    ensures Offered(Remove(heap, k), x, w)
  {
    var m :| 0 <= m < |heap| && heap[m].u == x && heap[m].v == w;
    if m < k {
      assert Remove(heap, k)[m] == heap[m];
    } else {
      assert Remove(heap, k)[m - 1] == heap[m];
    }
  }

  /** Appending entries keeps every offer. */
  lemma AppendKeepsOffers(heap: seq<HeapEntry>, more: seq<HeapEntry>, x: nat, w: nat)
    requires Offered(heap, x, w)
    ensures Offered(heap + more, x, w)
  {
    var m :| 0 <= m < |heap| && heap[m].u == x && heap[m].v == w;
    assert (heap + more)[m] == heap[m];
  }

  /** The heap before the first pop: an entry from the first node to each later position. */
  method InitialHeap(indices: seq<nat>, sim: (nat, nat) -> real) returns (heap: seq<HeapEntry>)
    requires indices != []
    ensures HeapOk(heap, {indices[0]}, Elems(indices), sim)
    ensures AllOffered(heap, Elems(indices), {indices[0]})
  {
    var root := indices[0];
    heap := [];
    for m := 1 to |indices|
      invariant forall p :: 0 <= p < |heap| ==> EntryOk(heap[p], {root}, Elems(indices), sim)
      invariant forall q :: 1 <= q < m ==> Offered(heap, root, indices[q])
    {
      var j := indices[m];
      var s := sim(root, j);
      ghost var prev := heap;
      heap := heap + [HeapEntry(1.0 - s, root, j, s)];
      assert heap[|heap| - 1].u == root && heap[|heap| - 1].v == j;
      forall q | 1 <= q < m ensures Offered(heap, root, indices[q]) {
        AppendKeepsOffers(prev, [HeapEntry(1.0 - s, root, j, s)], root, indices[q]);
      }
    }
    forall x, w | x in {root} && w in Elems(indices) && w !in {root} ensures Offered(heap, x, w) {
      var q :| 0 <= q < |indices| && indices[q] == w;
    }
  }

  /** The pushes after `v` joins the tree: an entry from `v` to each position still outside. */
  method PushFrom(v: nat, indices: seq<nat>, inTree: set<nat>, heap0: seq<HeapEntry>, sim: (nat, nat) -> real)
    returns (heap: seq<HeapEntry>)
    requires v in inTree && inTree <= Elems(indices)
    requires HeapOk(heap0, inTree, Elems(indices), sim)
    requires forall x, w :: x in inTree && x != v && w in Elems(indices) && w !in inTree ==> Offered(heap0, x, w)
    ensures HeapOk(heap, inTree, Elems(indices), sim)
    ensures AllOffered(heap, Elems(indices), inTree)
    ensures |heap| >= |heap0|
  {
    heap := heap0;
    for m := 0 to |indices|
      invariant |heap| >= |heap0|
      invariant HeapOk(heap, inTree, Elems(indices), sim)
      invariant forall x, w :: x in inTree && x != v && w in Elems(indices) && w !in inTree ==> Offered(heap, x, w)
      invariant forall q :: 0 <= q < m && indices[q] !in inTree ==> Offered(heap, v, indices[q])
    {
      var w := indices[m];
      if w in inTree {
        continue;
      }
      var sw := sim(v, w);
      ghost var prev := heap;
      var entry := HeapEntry(1.0 - sw, v, w, sw);
      heap := heap + [entry];
      assert heap[|prev|] == entry;
      forall x, y | x in inTree && x != v && y in Elems(indices) && y !in inTree ensures Offered(heap, x, y) {
        AppendKeepsOffers(prev, [entry], x, y);
      }
      forall q | 0 <= q < m && indices[q] !in inTree ensures Offered(heap, v, indices[q]) {
        AppendKeepsOffers(prev, [entry], v, indices[q]);
      }
    }
    forall x, w | x in inTree && w in Elems(indices) && w !in inTree ensures Offered(heap, x, w) {
      if x == v {
        var q :| 0 <= q < |indices| && indices[q] == w;
      }
    }
  }

  /** `_cluster_mst(indices)`: nothing for one node or none; otherwise the tree grown from the
      first node, each edge attaching a node not yet in it to one that is, until every node of
      the cluster is in: one edge per distinct node other than the first. */
  method Mst(indices: seq<nat>, sim: (nat, nat) -> real) returns (mst: seq<MstEdge>)
    ensures |indices| <= 1 ==> mst == []
    ensures |indices| > 1 ==> Grows(indices[0], mst, sim)
    ensures |indices| > 1 ==> Attached(mst) == Elems(indices) - {indices[0]}
    ensures |indices| > 1 ==> |mst| == |Elems(indices)| - 1
    ensures |indices| > 1 ==> Inside(mst, Elems(indices), sim) && AttachOnce(mst)
    ensures |indices| > 1 ==> PrimOrder(indices[0], mst, Elems(indices), sim)
  {
    if |indices| <= 1 {
      return [];
    }
    var root := indices[0];
    ghost var all := Elems(indices);
    var inTree: set<nat> := {root};
    var heap := InitialHeap(indices, sim);
    mst := [];
    assert Attached(mst) == {};
    while |inTree| < |indices| && heap != []
      invariant PrimState(root, inTree, mst, heap, all, sim)
      decreases all - inTree, |heap|
    {
      var k := MinIndex(heap);
      var e := heap[k];
      if e.v in inTree {
        PopSkip(root, inTree, mst, heap, k, all, sim);
        heap := Remove(heap, k);
        continue;
      }
      PopAttach(root, inTree, mst, heap, k, all, sim);
      inTree := inTree + {e.v};
      mst := mst + [MstEdge(e.u, e.v, e.sim)];
      heap := PushFrom(e.v, indices, inTree, Remove(heap, k), sim);
    }
    TreeComplete(root, inTree, mst, heap, indices, sim);
  }

  /** The state of Prim's loop: the tree so far, valid entries offering every crossing pair,
      and each edge a most similar crossing pair when it was added. */
  ghost predicate PrimState(root: nat, inTree: set<nat>, mst: seq<MstEdge>, heap: seq<HeapEntry>,
                            all: set<nat>, sim: (nat, nat) -> real) {
    && TreeState(root, inTree, mst, all, sim)
    && HeapOk(heap, inTree, all, sim)
    && AllOffered(heap, all, inTree)
    && PrimOrder(root, mst, all, sim)
  }

  /** Popping an entry whose node is already in the tree changes nothing else. */
  lemma PopSkip(root: nat, inTree: set<nat>, mst: seq<MstEdge>, heap: seq<HeapEntry>, k: nat,
                all: set<nat>, sim: (nat, nat) -> real)
    requires PrimState(root, inTree, mst, heap, all, sim)
    requires k < |heap| && heap[k].v in inTree
    ensures PrimState(root, inTree, mst, Remove(heap, k), all, sim)
  {
    PopKeeps(heap, k, inTree, all, sim);
  }

  /** Popping the smallest entry when its node is outside attaches that node along a most
      similar crossing pair; every offer from the old tree nodes to the rest remains. */
  lemma PopAttach(root: nat, inTree: set<nat>, mst: seq<MstEdge>, heap: seq<HeapEntry>, k: nat,
                  all: set<nat>, sim: (nat, nat) -> real)
    requires PrimState(root, inTree, mst, heap, all, sim)
    requires heap != [] && k == MinIndex(heap) && heap[k].v !in inTree
    ensures var e := heap[k]; var inTree' := inTree + {e.v}; var mst' := mst + [MstEdge(e.u, e.v, e.sim)];
      && e.v in all
      && TreeState(root, inTree', mst', all, sim)
      && PrimOrder(root, mst', all, sim)
      && HeapOk(Remove(heap, k), inTree', all, sim)
      && forall x, w :: x in inTree' && x != e.v && w in all && w !in inTree' ==> Offered(Remove(heap, k), x, w)
  {
    var e := heap[k];
    MinIsCut(heap, k, inTree, all, sim);
    PopKeeps(heap, k, inTree, all, sim);
    PrimStep(root, inTree, mst, e, all, sim);
    Attach(root, inTree, mst, e, all, sim);
    EntriesStayOk(Remove(heap, k), inTree, e.v, all, sim);
  }

  /** Popping the entry at `k` keeps the rest valid and every offer to another node. */
  lemma PopKeeps(heap: seq<HeapEntry>, k: nat, inTree: set<nat>, all: set<nat>, sim: (nat, nat) -> real)
    requires k < |heap| && HeapOk(heap, inTree, all, sim) && AllOffered(heap, all, inTree)
    ensures HeapOk(Remove(heap, k), inTree, all, sim)
    ensures forall x, w :: x in inTree && w in all && w !in inTree && w != heap[k].v ==>
      Offered(Remove(heap, k), x, w)
  {
    RemoveKeepsEntries(heap, k, inTree, all, sim);
    forall x, w | x in inTree && w in all && w !in inTree && w != heap[k].v
      ensures Offered(Remove(heap, k), x, w)
    {
      RemoveKeepsOffers(heap, k, x, w);
    }
  }

  /** The smallest entry of a heap that offers every crossing pair is a most similar crossing
      pair: its cost `1 - sim` is at most that of every offered pair. */
  lemma MinIsCut(heap: seq<HeapEntry>, k: nat, inTree: set<nat>, all: set<nat>, sim: (nat, nat) -> real)
    requires heap != [] && k == MinIndex(heap)
    requires HeapOk(heap, inTree, all, sim) && AllOffered(heap, all, inTree)
    ensures CutMax(heap[k].sim, inTree, all, sim)
  {
    forall x, w | x in inTree && w in all && w !in inTree ensures sim(x, w) <= heap[k].sim {
      var m :| 0 <= m < |heap| && heap[m].u == x && heap[m].v == w;
      assert EntryOk(heap[m], inTree, all, sim) && EntryOk(heap[k], inTree, all, sim);
      assert !KeyLess(heap[m], heap[k]);
    }
  }

  /** Attaching along a most similar crossing pair keeps Prim's choice for every edge. */
  lemma PrimStep(root: nat, inTree: set<nat>, mst: seq<MstEdge>, e: HeapEntry, all: set<nat>, sim: (nat, nat) -> real)
    requires inTree == {root} + Attached(mst)
    requires PrimOrder(root, mst, all, sim) && CutMax(e.sim, inTree, all, sim)
    ensures PrimOrder(root, mst + [MstEdge(e.u, e.v, e.sim)], all, sim)
  {
    var es := mst + [MstEdge(e.u, e.v, e.sim)];
    forall k | 0 <= k < |es| ensures CutMax(es[k].sim, {root} + Attached(es[..k]), all, sim) {
      if k < |mst| {
        assert es[..k] == mst[..k] && es[k] == mst[k];
      } else {
        assert es[..k] == mst;
      }
    }
  }

  /** Attaching the node a valid entry offers, when it is still outside, grows the tree. */
  lemma Attach(root: nat, inTree: set<nat>, mst: seq<MstEdge>, e: HeapEntry, all: set<nat>, sim: (nat, nat) -> real)
    requires TreeState(root, inTree, mst, all, sim)
    requires EntryOk(e, inTree, all, sim) && e.v !in inTree
    ensures TreeState(root, inTree + {e.v}, mst + [MstEdge(e.u, e.v, e.sim)], all, sim)
  {
    GrowsAppend(root, mst, MstEdge(e.u, e.v, e.sim), sim);
    AddOne(inTree, e.v);
  }

  /** When the loop stops, every node of the cluster is in the tree, attached by one edge. */
  lemma TreeComplete(root: nat, inTree: set<nat>, mst: seq<MstEdge>, heap: seq<HeapEntry>, indices: seq<nat>, sim: (nat, nat) -> real)
    requires |indices| > 1 && root == indices[0]
    requires TreeState(root, inTree, mst, Elems(indices), sim)
    requires AllOffered(heap, Elems(indices), inTree)
    requires |inTree| >= |indices| || heap == []
    ensures Grows(root, mst, sim)
    ensures Attached(mst) == Elems(indices) - {root}
    ensures |mst| == |Elems(indices)| - 1
    ensures Inside(mst, Elems(indices), sim) && AttachOnce(mst)
  {
    var all := Elems(indices);
    GrowsOnce(root, mst, sim);
    if heap == [] {
      forall w | w in all ensures w in inTree {
        assert !Offered(heap, root, w);
      }
    } else if inTree != all {
      StrictSubsetSmaller(inTree, all);
      SetOfSeqSize(indices);
    }
    assert inTree == all;
    assert root !in Attached(mst) by {
      forall k | 0 <= k < |mst| ensures mst[k].v != root {
      }
    }
  }

  // ---------------------------------------------------------------------------
  // One tree per cluster (`by_cluster` and `mst_edges`)

  /** Each node is attached by at most one edge. */
  ghost predicate AttachOnce(edges: seq<MstEdge>) {
    forall a, b :: 0 <= a < b < |edges| ==> edges[a].v != edges[b].v
  }

  /** An edge between two papers of the same cluster, carrying their similarity. */
  ghost predicate Joins(cids: seq<int>, e: MstEdge, sim: (nat, nat) -> real) {
    e.u < |cids| && e.v < |cids| && cids[e.u] == cids[e.v] && e.sim == sim(e.u, e.v)
  }

  /** The first paper of cluster `c`: the node its tree grows from. */
  function Root(cids: seq<int>, c: int): (r: nat)
    requires c in cids
    ensures r < |cids| && cids[r] == c
    ensures forall j :: 0 <= j < r ==> cids[j] != c
  {
    var ms := Neighbors.Members(cids, c);
    var j :| 0 <= j < |cids| && cids[j] == c;
    assert j in ms;
    ms[0]
  }

  /** Paper `j` is not the first of its cluster: an earlier paper has the same cluster id. */
  ghost predicate HasEarlier(cids: seq<int>, j: nat)
    requires j < |cids|
  {
    exists k :: 0 <= k < j && cids[k] == cids[j]
  }

  /** Every edge hangs on the first paper of a cluster or on a paper an earlier edge attached:
      following edges back from any attached paper ends at a first paper. */
  ghost predicate Rooted(cids: seq<int>, edges: seq<MstEdge>) {
    forall k :: 0 <= k < |edges| ==>
      edges[k].u < |cids| && (!HasEarlier(cids, edges[k].u) || edges[k].u in Attached(edges[..k]))
  }

  /** The papers of the clusters in `cs` other than each cluster's first paper. */
  ghost function NonRoots(cids: seq<int>, cs: seq<int>): set<nat> {
    set j | 0 <= j < |cids| && cids[j] in cs && HasEarlier(cids, j)
  }

  lemma AttachedPrefix(edges: seq<MstEdge>, k: nat)
    requires k <= |edges|
    ensures Attached(edges[..k]) <= Attached(edges)
  {
    forall x | x in Attached(edges[..k]) ensures x in Attached(edges) {
      var m :| 0 <= m < k && edges[..k][m].v == x;
      assert edges[m].v == x;
    }
  }

  /** A growing tree attaches each node once, and hangs every edge on the root or an
      attached node. */
  lemma GrowsOnce(root: nat, t: seq<MstEdge>, sim: (nat, nat) -> real)
    requires Grows(root, t, sim)
    ensures forall k :: 0 <= k < |t| ==> t[k].u == root || t[k].u in Attached(t)
    ensures AttachOnce(t)
  {
    forall k | 0 <= k < |t| ensures t[k].u == root || t[k].u in Attached(t) {
      AttachedPrefix(t, k);
    }
    forall a, b | 0 <= a < b < |t| ensures t[a].v != t[b].v {
      assert t[..b][a].v == t[a].v;
      assert t[a].v in Attached(t[..b]);
    }
  }

  /** The members of a cluster start with its root. */
  lemma RootIsFirstMember(cids: seq<int>, c: int)
    requires c in cids
    ensures |Neighbors.Members(cids, c)| > 0 && Neighbors.Members(cids, c)[0] == Root(cids, c)
  {
  }

  /** A paper of cluster `c` has an earlier paper in its cluster exactly when it is not the
      cluster's first member. */
  lemma NonRootMember(cids: seq<int>, c: int, ms: seq<nat>, j: nat)
    requires ms == Neighbors.Members(cids, c) && |ms| > 0
    requires j < |cids| && cids[j] == c
    ensures HasEarlier(cids, j) <==> j != ms[0]
  {
    assert j in ms;
    var mj :| 0 <= mj < |ms| && ms[mj] == j;
    if j != ms[0] {
      assert cids[ms[0]] == c && ms[0] < j;
    }
  }

  /** The non-first papers of the single cluster `c`. */
  ghost function ClusterNonRoots(cids: seq<int>, c: int): set<nat> {
    set j | 0 <= j < |cids| && cids[j] == c && HasEarlier(cids, j)
  }

  lemma NonRootsOne(cids: seq<int>, c: int)
    ensures NonRoots(cids, [c]) == ClusterNonRoots(cids, c)
  {
  }

  lemma MembersNonEmpty(cids: seq<int>, c: int)
    requires c in cids
    ensures |Neighbors.Members(cids, c)| > 0
  {
    var j0 :| 0 <= j0 < |cids| && cids[j0] == c;
    assert j0 in Neighbors.Members(cids, c);
  }

  /** Paper `j` is a non-root of cluster `c` exactly when it is a member other than the first. */
  lemma NonRootIff(cids: seq<int>, c: int, ms: seq<nat>, j: nat)
    requires ms == Neighbors.Members(cids, c) && |ms| > 0
    ensures j in ClusterNonRoots(cids, c) <==> j in Elems(ms) - {ms[0]}
  {
    if j < |cids| && cids[j] == c {
      NonRootMember(cids, c, ms, j);
    } else {
      assert j !in ms;
    }
  }

  /** The members of a cluster other than the first are exactly its non-first papers. */
  lemma MembersOfCluster(cids: seq<int>, c: int)
    requires c in cids
    ensures |Neighbors.Members(cids, c)| > 0
    ensures NonRoots(cids, [c]) == Elems(Neighbors.Members(cids, c)) - {Neighbors.Members(cids, c)[0]}
  {
    var ms := Neighbors.Members(cids, c);
    MembersNonEmpty(cids, c);
    NonRootsOne(cids, c);
    forall j: nat ensures j in ClusterNonRoots(cids, c) <==> j in Elems(ms) - {ms[0]} {
      NonRootIff(cids, c, ms, j);
    }
  }

  /** A node among the members of cluster `c` is a paper of that cluster. */
  lemma InCluster(cids: seq<int>, c: int, x: nat)
    requires x in Elems(Neighbors.Members(cids, c))
    ensures x < |cids| && cids[x] == c
  {
    var ms := Neighbors.Members(cids, c);
    var m :| 0 <= m < |ms| && ms[m] == x;
  }

  /** A tree inside the members of cluster `c` joins papers of that cluster. */
  lemma TreeJoins(cids: seq<int>, c: int, t: seq<MstEdge>, sim: (nat, nat) -> real)
    requires Inside(t, Elems(Neighbors.Members(cids, c)), sim)
    ensures forall k :: 0 <= k < |t| ==> Joins(cids, t[k], sim) && cids[t[k].v] == c
  {
    forall k | 0 <= k < |t| ensures Joins(cids, t[k], sim) && cids[t[k].v] == c {
      InCluster(cids, c, t[k].u);
      InCluster(cids, c, t[k].v);
    }
  }

  lemma SingleElems(s: seq<nat>)
    requires |s| == 1
    ensures Elems(s) == {s[0]}
  {
    assert s == [s[0]];
  }

  /** A cluster of one paper has no non-first paper, so its empty tree attaches exactly those. */
  lemma AttachedSingle(cids: seq<int>, c: int, t: seq<MstEdge>)
    requires c in cids
    requires |Neighbors.Members(cids, c)| <= 1 && t == []
    ensures Attached(t) == NonRoots(cids, [c])
  {
    var ms := Neighbors.Members(cids, c);
    MembersNonEmpty(cids, c);
    NonRootsOne(cids, c);
    SingleElems(ms);
    forall j: nat ensures j !in ClusterNonRoots(cids, c) {
      NonRootIff(cids, c, ms, j);
    }
    assert ClusterNonRoots(cids, c) == {};
    assert Attached(t) == {};
  }

  /** A tree attaching every member but the first attaches exactly the non-first papers of
      the cluster. */
  lemma AttachedMany(cids: seq<int>, c: int, t: seq<MstEdge>)
    requires c in cids
    requires |Neighbors.Members(cids, c)| > 1
    requires Attached(t) == Elems(Neighbors.Members(cids, c)) - {Neighbors.Members(cids, c)[0]}
    ensures Attached(t) == NonRoots(cids, [c])
  {
    MembersOfCluster(cids, c);
  }

  /** A tree grown from the first member of cluster `c` inside the cluster is rooted. */
  lemma GrownIsRooted(cids: seq<int>, c: int, members: seq<nat>, t: seq<MstEdge>, sim: (nat, nat) -> real)
    requires c in cids && members == Neighbors.Members(cids, c) && |members| > 0
    requires Grows(members[0], t, sim) && Inside(t, Elems(members), sim)
    ensures Rooted(cids, t)
  {
    var root := members[0];
    assert root in Elems(members);
    InCluster(cids, c, root);
    NonRootMember(cids, c, members, root);
    forall k | 0 <= k < |t|
      ensures t[k].u < |cids| && (!HasEarlier(cids, t[k].u) || t[k].u in Attached(t[..k]))
    {
      InCluster(cids, c, t[k].u);
    }
  }

  /** What the tree of one cluster provides: edges inside the cluster, each non-first paper
      attached exactly once, nothing else attached, and every edge hung on the first paper or
      on a paper attached before. */
  lemma TreeOfCluster(cids: seq<int>, c: int, members: seq<nat>, t: seq<MstEdge>, sim: (nat, nat) -> real)
    requires c in cids && members == Neighbors.Members(cids, c)
    requires |members| <= 1 ==> t == []
    requires |members| > 1 ==> && Inside(t, Elems(members), sim) && AttachOnce(t)
                               && Attached(t) == Elems(members) - {members[0]}
                               && Grows(members[0], t, sim)
    ensures forall k :: 0 <= k < |t| ==> Joins(cids, t[k], sim) && cids[t[k].v] == c
    ensures AttachOnce(t)
    ensures Attached(t) == NonRoots(cids, [c])
    ensures Rooted(cids, t)
  {
    if |members| <= 1 {
      AttachedSingle(cids, c, t);
    } else {
      AttachedMany(cids, c, t);
      TreeJoins(cids, c, t, sim);
      GrownIsRooted(cids, c, members, t, sim);
    }
  }

  /** Joining the edge lists of two clusters. */
  lemma ConcatTrees(x: seq<MstEdge>, y: seq<MstEdge>)
    requires AttachOnce(x) && AttachOnce(y) && Attached(x) !! Attached(y)
    ensures AttachOnce(x + y)
    ensures Attached(x + y) == Attached(x) + Attached(y)
  {
    var xy := x + y;
    forall a, b | 0 <= a < b < |xy| ensures xy[a].v != xy[b].v {
      if a < |x| && b >= |x| {
        assert xy[a].v in Attached(x) && xy[b] == y[b - |x|];
        assert xy[b].v in Attached(y);
      } else if a >= |x| {
        assert xy[a] == y[a - |x|] && xy[b] == y[b - |x|];
      }
    }
    forall w | w in Attached(xy) ensures w in Attached(x) + Attached(y) {
      var m :| 0 <= m < |xy| && xy[m].v == w;
      if m >= |x| {
        assert y[m - |x|].v == w;
      }
    }
    forall w | w in Attached(x) + Attached(y) ensures w in Attached(xy) {
      if w in Attached(x) {
        var m :| 0 <= m < |x| && x[m].v == w;
        assert xy[m].v == w;
      } else {
        var m :| 0 <= m < |y| && y[m].v == w;
        assert xy[m + |x|].v == w;
      }
    }
  }

  /** Rooted edge lists stay rooted when joined: the second list's earlier edges are still
      earlier in the join. */
  lemma RootedConcat(cids: seq<int>, x: seq<MstEdge>, y: seq<MstEdge>)
    requires Rooted(cids, x) && Rooted(cids, y)
    ensures Rooted(cids, x + y)
  {
    var xy := x + y;
    forall k | 0 <= k < |xy|
      ensures xy[k].u < |cids| && (!HasEarlier(cids, xy[k].u) || xy[k].u in Attached(xy[..k]))
    {
      if k < |x| {
        assert xy[..k] == x[..k];
      } else {
        var k' := k - |x|;
        assert xy[k] == y[k'];
        if HasEarlier(cids, y[k'].u) {
          var m :| 0 <= m < k' && y[..k'][m].v == y[k'].u;
          assert xy[..k][|x| + m] == y[m];
        }
      }
    }
  }

  /** The loop state of `ClusterTrees` after the trees of the first `i` clusters. */
  ghost predicate TreesSoFar(cids: seq<int>, cs: seq<int>, edges: seq<MstEdge>, sim: (nat, nat) -> real) {
    && (forall k :: 0 <= k < |edges| ==> Joins(cids, edges[k], sim) && cids[edges[k].v] in cs)
    && AttachOnce(edges)
    && Attached(edges) == NonRoots(cids, cs)
    && Rooted(cids, edges)
  }

  /** Appending the tree of one more cluster `c`, not seen before. */
  lemma AddTree(cids: seq<int>, cs: seq<int>, c: int, edges: seq<MstEdge>, t: seq<MstEdge>, sim: (nat, nat) -> real)
    requires TreesSoFar(cids, cs, edges, sim) && c !in cs && c in cids
    requires forall k :: 0 <= k < |t| ==> Joins(cids, t[k], sim) && cids[t[k].v] == c
    requires AttachOnce(t) && Attached(t) == NonRoots(cids, [c]) && Rooted(cids, t)
    ensures TreesSoFar(cids, cs + [c], edges + t, sim)
  {
    assert NonRoots(cids, cs + [c]) == NonRoots(cids, cs) + NonRoots(cids, [c]);
    ConcatTrees(edges, t);
    RootedConcat(cids, edges, t);
    var xy := edges + t;
    forall k | 0 <= k < |xy| ensures Joins(cids, xy[k], sim) && cids[xy[k].v] in cs + [c] {
      if k >= |edges| {
        assert xy[k] == t[k - |edges|];
      }
    }
  }

  /** Only which clusters are listed matters to the non-roots, not their order or repetition. */
  lemma NonRootsSameClusters(cids: seq<int>, cs: seq<int>, ds: seq<int>)
    requires forall c :: c in cs <==> c in ds
    ensures NonRoots(cids, cs) == NonRoots(cids, ds)
  {
  }

  /** A cluster listed once is not among those before it. */
  lemma NotListedBefore(groups: seq<int>, i: nat)
    requires i < |groups|
    requires forall a, b :: 0 <= a < b < |groups| ==> groups[a] != groups[b]
    ensures groups[i] !in groups[..i]
  {
    forall a | 0 <= a < i ensures groups[..i][a] != groups[i] {
      assert groups[..i][a] == groups[a];
    }
  }

  lemma PrefixSnoc(s: seq<int>, i: nat)
    requires i < |s|
    ensures s[..i] + [s[i]] == s[..i + 1]
  {
  }

  /** One turn of the cluster loop: the tree of a cluster `c` not seen before extends the forest. */
  lemma ClusterStep(cids: seq<int>, cs: seq<int>, c: int, edges: seq<MstEdge>, members: seq<nat>,
                    t: seq<MstEdge>, sim: (nat, nat) -> real)
    requires c in cids && c !in cs
    requires TreesSoFar(cids, cs, edges, sim)
    requires members == Neighbors.Members(cids, c)
    requires |members| <= 1 ==> t == []
    requires |members| > 1 ==> && Inside(t, Elems(members), sim) && AttachOnce(t)
                               && Attached(t) == Elems(members) - {members[0]}
                               && Grows(members[0], t, sim)
    ensures TreesSoFar(cids, cs + [c], edges + t, sim)
  {
    TreeOfCluster(cids, c, members, t, sim);
    AddTree(cids, cs, c, edges, t, sim);
  }

  /** `mst_edges`: the trees of every cluster, cluster by cluster in order of first appearance.
      Every edge stays inside a cluster, every paper but the first of its cluster is attached
      by exactly one edge, and every edge hangs on a first paper or on a paper attached before
      it: a spanning forest with one tree per cluster, each grown from its first paper. */
  method ClusterTrees(cids: seq<int>, sim: (nat, nat) -> real) returns (edges: seq<MstEdge>)
    ensures forall k :: 0 <= k < |edges| ==> Joins(cids, edges[k], sim)
    ensures AttachOnce(edges)
    ensures Attached(edges) == NonRoots(cids, cids)
    ensures Rooted(cids, edges)
  {
    var groups := ExportRecords.Distincts(cids);
    edges := [];
    for i := 0 to |groups|
      invariant TreesSoFar(cids, groups[..i], edges, sim)
    {
      var c := groups[i];
      var members := Neighbors.Members(cids, c);
      var t := Mst(members, sim);
      NotListedBefore(groups, i);
      ClusterStep(cids, groups[..i], c, edges, members, t, sim);
      PrefixSnoc(groups, i);
      edges := edges + t;
    }
    assert groups[..|groups|] == groups;
    NonRootsSameClusters(cids, groups, cids);
  }
}
