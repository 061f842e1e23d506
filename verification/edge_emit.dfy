/** Step 7 of `export_graph.export_json_graph`: the undirected, de-duplicated edge list. Every
    kept neighbour pair is offered first, node by node, then every tree edge whose similarity
    reaches half the neighbour threshold; an offer is stored with its end points in ascending
    order, and only the first offer of each end-point pair is kept. */
module EdgeEmit {
  import Neighbors
  import ClusterMst
  import ExportRecords

  /** A call `_emit_edge(u, v, sim)`. */
  datatype Offer = Offer(u: nat, v: nat, sim: real)

  /** `(u, v) if u < v else (v, u)`, with the similarity as weight. */
  function Canonical(o: Offer): (e: ExportRecords.Edge)
    ensures e.a <= e.b
    ensures {e.a, e.b} == {o.u, o.v}
    ensures e.w == o.sim
  {
    if o.u < o.v then ExportRecords.Edge(o.u, o.v, o.sim) else ExportRecords.Edge(o.v, o.u, o.sim)
  }

  /** The `seen` key of an offer. */
  function Key(o: Offer): (nat, nat) {
    (Canonical(o).a, Canonical(o).b)
  }

  function EdgeKey(e: ExportRecords.Edge): (nat, nat) {
    (e.a, e.b)
  }

  /** The key does not depend on the direction of the offer. */
  lemma KeyUndirected(u: nat, v: nat, s: real, t: real)
    ensures Key(Offer(u, v, s)) == Key(Offer(v, u, t))
  {
  }

  /** The keys of a list of offers. */
  ghost function Keys(offers: seq<Offer>): set<(nat, nat)> {
    set i | 0 <= i < |offers| :: Key(offers[i])
  }

  /** The keys of a list of edges. */
  ghost function EdgeKeys(edges: seq<ExportRecords.Edge>): set<(nat, nat)> {
    set k | 0 <= k < |edges| :: EdgeKey(edges[k])
  }

  /** No earlier offer has the key of offer `i`. */
  ghost predicate IsFirst(offers: seq<Offer>, i: nat)
    requires i < |offers|
  {
    forall j :: 0 <= j < i ==> Key(offers[j]) != Key(offers[i])
  }

  /** Reference definition: the offers, in order, that no earlier offer shares a key with. */
  ghost function FirstOffers(offers: seq<Offer>): seq<ExportRecords.Edge>
    decreases |offers|
  {
    if offers == [] then []
    else
      var init := offers[..|offers| - 1];
      var o := offers[|offers| - 1];
      FirstOffers(init) + (if Key(o) in Keys(init) then [] else [Canonical(o)])
  }

  lemma KeysSnoc(offers: seq<Offer>, i: nat)
    requires i < |offers|
    ensures Keys(offers[..i + 1]) == Keys(offers[..i]) + {Key(offers[i])}
  {
    var pre := offers[..i + 1];
    assert pre[i] == offers[i];
    forall x | x in Keys(pre) ensures x in Keys(offers[..i]) + {Key(offers[i])} {
      var m :| 0 <= m < |pre| && Key(pre[m]) == x;
      if m < i {
        assert offers[..i][m] == pre[m];
      }
    }
    forall x | x in Keys(offers[..i]) ensures x in Keys(pre) {
      var m :| 0 <= m < i && Key(offers[..i][m]) == x;
      assert pre[m] == offers[..i][m];
    }
  }

  /** The emission loop of `_emit_edge`: a `seen` set of keys and the list of stored edges. */
  method EmitEdges(offers: seq<Offer>) returns (edges: seq<ExportRecords.Edge>)
    ensures edges == FirstOffers(offers)
  {
    var seen: set<(nat, nat)> := {};
    edges := [];
    for i := 0 to |offers|
      invariant seen == Keys(offers[..i])
      invariant edges == FirstOffers(offers[..i])
    {
      var o := offers[i];
      var key := Key(o);
      KeysSnoc(offers, i);
      assert offers[..i + 1][..i] == offers[..i];
      if key in seen {
        continue;
      }
      seen := seen + {key};
      edges := edges + [Canonical(o)];
    }
    assert offers[..|offers|] == offers;
  }

  /** The stored edges have ascending end points, pairwise different keys, and exactly the keys
      of the offers. */
  lemma {:induction false} FirstOffersKeys(offers: seq<Offer>)
    ensures forall k :: 0 <= k < |FirstOffers(offers)| ==> FirstOffers(offers)[k].a <= FirstOffers(offers)[k].b
    ensures forall k, l :: 0 <= k < l < |FirstOffers(offers)| ==>
      EdgeKey(FirstOffers(offers)[k]) != EdgeKey(FirstOffers(offers)[l])
    ensures EdgeKeys(FirstOffers(offers)) == Keys(offers)
    decreases |offers|
  {
    if offers != [] {
      var n := |offers| - 1;
      var init := offers[..n];
      var o := offers[n];
      FirstOffersKeys(init);
      KeysSnoc(offers, n);
      assert offers[..n + 1] == offers;
      var r := FirstOffers(init);
      var all := FirstOffers(offers);
      if Key(o) in Keys(init) {
        assert all == r;
      } else {
        assert all == r + [Canonical(o)];
        assert EdgeKey(all[|r|]) == Key(o);
        forall k | 0 <= k < |r| ensures EdgeKey(all[k]) != Key(o) {
          assert all[k] == r[k];
          assert EdgeKey(r[k]) in EdgeKeys(r);
        }
        forall x | x in EdgeKeys(all) ensures x in EdgeKeys(r) + {Key(o)} {
          var k :| 0 <= k < |all| && EdgeKey(all[k]) == x;
          if k < |r| {
            assert all[k] == r[k];
          }
        }
        forall x | x in EdgeKeys(r) ensures x in EdgeKeys(all) {
          var k :| 0 <= k < |r| && EdgeKey(r[k]) == x;
          assert all[k] == r[k];
        }
      }
    }
  }

  /** Each first offer of a key is stored, as its canonical edge. */
  lemma {:induction false} FirstOfferStored(offers: seq<Offer>, i: nat)
    requires i < |offers| && IsFirst(offers, i)
    ensures Canonical(offers[i]) in FirstOffers(offers)
    decreases |offers|
  {
    var n := |offers| - 1;
    var init := offers[..n];
    assert offers[..n + 1] == offers;
    if i < n {
      assert init[i] == offers[i];
      FirstOfferStored(init, i);
    } else {
      forall x | x in Keys(init) ensures x != Key(offers[i]) {
        var m :| 0 <= m < n && Key(init[m]) == x;
        assert init[m] == offers[m];
      }
    }
  }

  /** Every stored edge is the canonical edge of the first offer with its key: a later offer of
      the same pair never changes the weight. */
  lemma {:induction false} StoredIsFirstOffer(offers: seq<Offer>, k: nat)
    requires k < |FirstOffers(offers)|
    ensures exists i :: 0 <= i < |offers| && IsFirst(offers, i) && FirstOffers(offers)[k] == Canonical(offers[i])
    decreases |offers|
  {
    var n := |offers| - 1;
    var init := offers[..n];
    assert offers[..n + 1] == offers;
    var r := FirstOffers(init);
    if k < |r| {
      StoredIsFirstOffer(init, k);
      var i :| 0 <= i < |init| && IsFirst(init, i) && r[k] == Canonical(init[i]);
      assert init[i] == offers[i];
      assert forall j :: 0 <= j < i ==> init[j] == offers[j];
      assert IsFirst(offers, i);
    } else {
      assert Key(offers[n]) !in Keys(init);
      forall j | 0 <= j < n ensures Key(offers[j]) != Key(offers[n]) {
        assert init[j] == offers[j];
      }
      assert IsFirst(offers, n);
    }
  }

  // ---------------------------------------------------------------------------
  // The offers, in emission order

  /** The pairs `(i, j, sim)` of one node's neighbour list. */
  function PairsOf(i: nat, lst: seq<Neighbors.Neighbor>): (os: seq<Offer>)
    ensures |os| == |lst|
    ensures forall k :: 0 <= k < |lst| ==> os[k] == Offer(i, lst[k].j, lst[k].sim)
  {
    seq(|lst|, k requires 0 <= k < |lst| => Offer(i, lst[k].j, lst[k].sim))
  }

  /** `for i, lst in enumerate(neigh_pairs): for j, sim in lst: _emit_edge(i, j, sim)`. */
  function NeighborOffers(neigh: seq<seq<Neighbors.Neighbor>>): (os: seq<Offer>)
    ensures forall i, k :: 0 <= i < |neigh| && 0 <= k < |neigh[i]| ==>
      Offer(i, neigh[i][k].j, neigh[i][k].sim) in os
    ensures forall m :: 0 <= m < |os| ==>
      && os[m].u < |neigh|
      && exists k :: 0 <= k < |neigh[os[m].u]| && neigh[os[m].u][k] == Neighbors.Neighbor(os[m].v, os[m].sim)
    decreases |neigh|
  {
    if neigh == [] then []
    else
      var n := |neigh| - 1;
      var rest := NeighborOffers(neigh[..n]);
      var last := PairsOf(n, neigh[n]);
      assert forall i :: 0 <= i < n ==> neigh[..n][i] == neigh[i];
      rest + last
  }

  /** The tree edges offered: those with `sim >= min_sim * 0.5`, in order. */
  function TreeOffers(mst: seq<ClusterMst.MstEdge>, minSim: real): (os: seq<Offer>)
    ensures forall e :: e in mst && e.sim >= minSim * 0.5 ==> Offer(e.u, e.v, e.sim) in os
    ensures forall o :: o in os ==> o.sim >= minSim * 0.5 && ClusterMst.MstEdge(o.u, o.v, o.sim) in mst
  {
    if mst == [] then []
    else
      var e := mst[0];
      var rest := TreeOffers(mst[1..], minSim);
      if e.sim >= minSim * 0.5 then [Offer(e.u, e.v, e.sim)] + rest else rest
  }

  /** The edge list of the payload: every neighbour pair and every tree edge strong enough
      appears once, undirected, with the weight of its first offer. */
  method EdgeList(neigh: seq<seq<Neighbors.Neighbor>>, mst: seq<ClusterMst.MstEdge>, minSim: real)
    returns (edges: seq<ExportRecords.Edge>)
    ensures edges == FirstOffers(NeighborOffers(neigh) + TreeOffers(mst, minSim))
    ensures forall k :: 0 <= k < |edges| ==> edges[k].a <= edges[k].b
    ensures forall k, l :: 0 <= k < l < |edges| ==> EdgeKey(edges[k]) != EdgeKey(edges[l])
    ensures EdgeKeys(edges) == Keys(NeighborOffers(neigh) + TreeOffers(mst, minSim))
  {
    var offers := NeighborOffers(neigh) + TreeOffers(mst, minSim);
    edges := EmitEdges(offers);
    FirstOffersKeys(offers);
  }
}
