/** Step 5 of `export_graph.export_json_graph`: every node's list of nearest neighbours. The
    cosine similarities are inputs; a node's similarity to itself is overwritten with minus
    infinity before the top-k selection, which is why scores carry a `NegInf` value. */
module Neighbors {

  /** A similarity as numpy holds it after the self-entry is masked. */
  datatype Score = NegInf | Fin(v: real)

  /** `a >= b` on scores. */
  predicate AtLeast(a: Score, b: Score) {
    b.NegInf? || (a.Fin? && a.v >= b.v)
  }

  /** `sim < min_sim`; minus infinity is below every finite threshold. */
  predicate Below(s: Score, minSim: real) {
    s.NegInf? || s.v < minSim
  }

  /** A candidate neighbour: a node position with its score. */
  datatype Cand = Cand(j: nat, score: Score)

  /** A kept neighbour. */
  datatype Neighbor = Neighbor(j: nat, sim: real)

  ghost predicate Descending(s: seq<Cand>) {
    forall a, b :: 0 <= a < b < |s| ==> AtLeast(s[a].score, s[b].score)
  }

  // ---------------------------------------------------------------------------
  // Top-k by descending score

  /** Insertion step of a sort by descending score; `x` precedes the equal scores of `s`. */
  function InsertDesc(x: Cand, s: seq<Cand>): (r: seq<Cand>)
    requires Descending(s)
    ensures Descending(r)
    ensures multiset(r) == multiset(s) + multiset{x}
  {
    if s == [] || AtLeast(x.score, s[0].score) then
      [x] + s
    else
      var rest := InsertDesc(x, s[1..]);
      HeadAtLeastAll(s[0], s[1..], x, rest);
      assert s == [s[0]] + s[1..];
      [s[0]] + rest
  }

  lemma HeadAtLeastAll(h: Cand, tail: seq<Cand>, x: Cand, rest: seq<Cand>)
    requires forall i :: 0 <= i < |tail| ==> AtLeast(h.score, tail[i].score)
    requires AtLeast(h.score, x.score)
    requires Descending(rest)
    requires multiset(rest) == multiset(tail) + multiset{x}
    ensures Descending([h] + rest)
  {
    forall k | 0 <= k < |rest| ensures AtLeast(h.score, rest[k].score) {
      assert rest[k] in multiset(rest);
      if rest[k] != x {
        assert rest[k] in multiset(tail);
        assert rest[k] in tail;
      }
    }
    var r := [h] + rest;
    forall a, b | 0 <= a < b < |r| ensures AtLeast(r[a].score, r[b].score) {
      if a > 0 {
        assert r[a] == rest[a - 1] && r[b] == rest[b - 1];
      } else {
        assert r[b] == rest[b - 1];
      }
    }
  }

  /** The candidates by descending score, ties in candidate order. */
  function SortDesc(s: seq<Cand>): (r: seq<Cand>)
    ensures Descending(r)
    ensures multiset(r) == multiset(s)
  {
    if s == [] then []
    else
      assert s == [s[0]] + s[1..];
      InsertDesc(s[0], SortDesc(s[1..]))
  }

  function Min(a: int, b: int): int {
    if a < b then a else b
  }

  /** A list is its prefix and the rest, as multisets too. */
  lemma SplitMultiset(s: seq<Cand>, n: nat)
    requires n <= |s|
    ensures multiset(s) == multiset(s[..n]) + multiset(s[n..])
  {
    assert s == s[..n] + s[n..];
  }

  /** In a descending list, every entry of a prefix scores at least as high as every entry
      left out of it. */
  lemma PrefixDominates(sorted: seq<Cand>, n: nat)
    requires Descending(sorted) && n <= |sorted|
    ensures multiset(sorted[..n]) <= multiset(sorted)
    ensures forall c :: c in multiset(sorted) - multiset(sorted[..n]) ==>
      forall t :: t in sorted[..n] ==> AtLeast(t.score, c.score)
  {
    var top, low := sorted[..n], sorted[n..];
    SplitMultiset(sorted, n);
    forall c | c in multiset(sorted) - multiset(top) ensures forall t :: t in top ==> AtLeast(t.score, c.score) {
      assert multiset(low)[c] > 0;
      var m :| 0 <= m < |low| && low[m] == c;
      forall t | t in top ensures AtLeast(t.score, c.score) {
        var a :| 0 <= a < n && top[a] == t;
        assert sorted[a] == t && sorted[n + m] == c;
      }
    }
  }

  /** The `k` best candidates, best first. */
  function TopK(cands: seq<Cand>, k: nat): (top: seq<Cand>)
    ensures |top| == Min(k, |cands|)
    ensures Descending(top)
    ensures forall c :: c in top ==> c in cands
    ensures multiset(top) <= multiset(cands)
    ensures forall c :: c in multiset(cands) - multiset(top) ==>
      forall t :: t in top ==> AtLeast(t.score, c.score)
  {
    var sorted := SortDesc(cands);
    var n := Min(k, |sorted|);
    PrefixDominates(sorted, n);
    var top := sorted[..n];
    assert Descending(top) by {
      forall a, b | 0 <= a < b < |top| ensures AtLeast(top[a].score, top[b].score) {
        assert top[a] == sorted[a] && top[b] == sorted[b];
      }
    }
    forall c | c in top ensures c in cands {
      assert c in multiset(top);
      assert c in multiset(cands);
    }
    top
  }

  // ---------------------------------------------------------------------------
  // One node's neighbours

  /** The kept entries of the top-k list, in order: those not below the threshold. */
  function Kept(top: seq<Cand>, minSim: real): (r: seq<Neighbor>)
    ensures |r| <= |top|
    ensures forall n :: n in r ==> n.sim >= minSim && Cand(n.j, Fin(n.sim)) in top
    ensures forall c :: c in top && !Below(c.score, minSim) ==> Neighbor(c.j, c.score.v) in r
    ensures Descending(top) ==> forall a, b :: 0 <= a < b < |r| ==> r[a].sim >= r[b].sim
  {
    if top == [] then []
    else
      var rest := Kept(top[1..], minSim);
      assert forall c :: c in top[1..] ==> c in top;
      if Below(top[0].score, minSim) then
        DescendingTail(top);
        rest
      else
        DescendingTail(top);
        HeadDominates(top, rest);
        [Neighbor(top[0].j, top[0].score.v)] + rest
  }

  lemma DescendingTail(s: seq<Cand>)
    requires s != []
    ensures Descending(s) ==> Descending(s[1..])
  {
    if Descending(s) {
      forall a, b | 0 <= a < b < |s| - 1 ensures AtLeast(s[1..][a].score, s[1..][b].score) {
        assert s[1..][a] == s[a + 1] && s[1..][b] == s[b + 1];
      }
    }
  }

  /** In a descending list with a finite head, the head scores at least as high as any kept
      entry drawn from the tail. */
  lemma HeadDominates(top: seq<Cand>, rest: seq<Neighbor>)
    requires top != [] && top[0].score.Fin?
    requires forall n :: n in rest ==> Cand(n.j, Fin(n.sim)) in top[1..]
    ensures Descending(top) ==> forall n :: n in rest ==> top[0].score.v >= n.sim
  {
    if Descending(top) {
      forall n | n in rest ensures top[0].score.v >= n.sim {
        var a :| 0 <= a < |top[1..]| && top[1..][a] == Cand(n.j, Fin(n.sim));
        assert AtLeast(top[0].score, top[a + 1].score);
      }
    }
  }

  /** The neighbours of one node among `cands` with an effective cap `kEff` (no neighbours
      when it is not positive). */
  function NeighborsOf(cands: seq<Cand>, kEff: int, minSim: real): (r: seq<Neighbor>)
    ensures |r| <= |cands| && |r| <= (if kEff < 0 then 0 else kEff)
    ensures forall n :: n in r ==> n.sim >= minSim && Cand(n.j, Fin(n.sim)) in cands
    ensures forall a, b :: 0 <= a < b < |r| ==> r[a].sim >= r[b].sim
  {
    if kEff > 0 then Kept(TopK(cands, kEff), minSim) else []
  }

  /** A candidate clearing the threshold is left out only when there is no room: the cap is not
      positive, or the list is full of neighbours at least as similar. */
  lemma LeftOutOnlyWhenFull(cands: seq<Cand>, kEff: int, minSim: real, c: Cand)
    requires c in cands && !Below(c.score, minSim)
    requires Neighbor(c.j, c.score.v) !in NeighborsOf(cands, kEff, minSim)
    ensures kEff > 0 ==> |NeighborsOf(cands, kEff, minSim)| == kEff
    ensures forall n :: n in NeighborsOf(cands, kEff, minSim) ==> n.sim >= c.score.v
  {
    if kEff > 0 {
      var top := TopK(cands, kEff);
      assert c !in top;
      assert c in multiset(cands) - multiset(top);
      forall t | t in top ensures !Below(t.score, minSim) {
        assert AtLeast(t.score, c.score);
      }
      KeptAll(top, minSim);
      forall n | n in NeighborsOf(cands, kEff, minSim) ensures n.sim >= c.score.v {
        assert Cand(n.j, Fin(n.sim)) in top;
      }
      if |top| == |cands| {
        MultisetFull(cands, top);
      }
    }
  }

  /** With nothing below the threshold, every top entry is kept. */
  lemma {:induction false} KeptAll(top: seq<Cand>, minSim: real)
    requires forall t :: t in top ==> !Below(t.score, minSim)
    ensures |Kept(top, minSim)| == |top|
  {
    if top != [] {
      assert forall t :: t in top[1..] ==> t in top;
      KeptAll(top[1..], minSim);
    }
  }

  /** A sub-multiset of the same length is the whole multiset. */
  lemma MultisetFull(cands: seq<Cand>, top: seq<Cand>)
    requires multiset(top) <= multiset(cands) && |top| == |cands|
    ensures multiset(cands) - multiset(top) == multiset{}
  {
    var rest := multiset(cands) - multiset(top);
    assert multiset(cands) == multiset(top) + rest;
    assert |multiset(cands)| == |multiset(top)| + |rest|;
  }

  /** No position appears twice (argpartition returns distinct indices). */
  ghost predicate DistinctIdx(s: seq<Cand>) {
    forall a, b :: 0 <= a < b < |s| ==> s[a].j != s[b].j
  }

  /** With distinct positions, no candidate occurs twice. */
  lemma {:induction false} AtMostOnce(s: seq<Cand>, x: Cand)
    requires DistinctIdx(s)
    ensures multiset(s)[x] <= 1
    decreases |s|
  {
    if s != [] {
      var tail := s[1..];
      assert s == [s[0]] + tail;
      forall a, b | 0 <= a < b < |tail| ensures tail[a].j != tail[b].j {
        assert tail[a] == s[a + 1] && tail[b] == s[b + 1];
      }
      AtMostOnce(tail, x);
      if s[0] == x {
        forall k | 0 <= k < |tail| ensures tail[k] != x {
          assert tail[k] == s[k + 1];
        }
        assert x !in tail;
      }
    }
  }

  /** An entry at two positions is counted twice. */
  lemma TwiceCounted(s: seq<Cand>, a: nat, b: nat)
    requires a < b < |s| && s[a] == s[b]
    ensures multiset(s)[s[a]] >= 2
  {
    var front, back := s[..b], s[b..];
    assert s == front + back;
    assert front[a] == s[a] && back[0] == s[b];
    assert s[a] in front && s[a] in back;
  }

  /** Part of a list with distinct positions has distinct positions too. */
  lemma SubDistinct(top: seq<Cand>, cands: seq<Cand>)
    requires multiset(top) <= multiset(cands) && DistinctIdx(cands)
    ensures DistinctIdx(top)
  {
    forall a, b | 0 <= a < b < |top| ensures top[a].j != top[b].j {
      if top[a] == top[b] {
        TwiceCounted(top, a, b);
        AtMostOnce(cands, top[a]);
        assert false;
      } else {
        assert top[a] in multiset(top) && top[b] in multiset(top);
        var p :| 0 <= p < |cands| && cands[p] == top[a];
        var q :| 0 <= q < |cands| && cands[q] == top[b];
        assert p != q;
      }
    }
  }

  /** No node is listed twice. */
  ghost predicate DistinctNb(r: seq<Neighbor>) {
    forall a, b :: 0 <= a < b < |r| ==> r[a].j != r[b].j
  }

  /** Putting a node in front of a list that does not hold it keeps the list free of repeats. */
  lemma ConsDistinct(h: Neighbor, rest: seq<Neighbor>)
    requires DistinctNb(rest) && forall n :: n in rest ==> n.j != h.j
    ensures DistinctNb([h] + rest)
  {
    var r := [h] + rest;
    forall a, b | 0 <= a < b < |r| ensures r[a].j != r[b].j {
      assert r[b] == rest[b - 1] && rest[b - 1] in rest;
      if a > 0 {
        assert r[a] == rest[a - 1];
      }
    }
  }

  /** Entries drawn from `tail` avoid any position that `tail` avoids. */
  lemma DrawnAvoids(tail: seq<Cand>, x: nat, rest: seq<Neighbor>)
    requires forall m :: 0 <= m < |tail| ==> tail[m].j != x
    requires forall n :: n in rest ==> Cand(n.j, Fin(n.sim)) in tail
    ensures forall n :: n in rest ==> n.j != x
  {
    forall n | n in rest ensures n.j != x {
      var m :| 0 <= m < |tail| && tail[m] == Cand(n.j, Fin(n.sim));
    }
  }

  /** The tail of a list with distinct positions, and its head's position, avoided by the tail. */
  lemma DistinctTail(top: seq<Cand>)
    requires top != [] && DistinctIdx(top)
    ensures DistinctIdx(top[1..])
    ensures forall m :: 0 <= m < |top| - 1 ==> top[1..][m].j != top[0].j
  {
    var tail := top[1..];
    forall a, b | 0 <= a < b < |tail| ensures tail[a].j != tail[b].j {
      assert tail[a] == top[a + 1] && tail[b] == top[b + 1];
    }
    forall m | 0 <= m < |tail| ensures tail[m].j != top[0].j {
      assert tail[m] == top[m + 1];
    }
  }

  /** Keeping entries of a list with distinct positions keeps the positions distinct. */
  lemma {:induction false} KeptDistinct(top: seq<Cand>, minSim: real)
    requires DistinctIdx(top)
    ensures DistinctNb(Kept(top, minSim))
    decreases |top|
  {
    if top != [] {
      var tail := top[1..];
      DistinctTail(top);
      KeptDistinct(tail, minSim);
      var rest := Kept(tail, minSim);
      if !Below(top[0].score, minSim) {
        var h := Neighbor(top[0].j, top[0].score.v);
        assert Kept(top, minSim) == [h] + rest;
        DrawnAvoids(tail, top[0].j, rest);
        ConsDistinct(h, rest);
      } else {
        assert Kept(top, minSim) == rest;
      }
    }
  }

  /** Candidates with distinct positions give neighbours with distinct positions. */
  lemma NeighborsOfDistinct(cands: seq<Cand>, kEff: int, minSim: real)
    requires DistinctIdx(cands)
    ensures DistinctNb(NeighborsOf(cands, kEff, minSim))
  {
    if kEff > 0 {
      var top := TopK(cands, kEff);
      SubDistinct(top, cands);
      KeptDistinct(top, minSim);
      assert NeighborsOf(cands, kEff, minSim) == Kept(top, minSim);
    }
  }

  // ---------------------------------------------------------------------------
  // All nodes

  /** The candidates of node `i` among the positions `indices`, its own score masked. */
  function CandsAt(row: seq<real>, i: nat, indices: seq<nat>): (cs: seq<Cand>)
    requires forall m :: 0 <= m < |indices| ==> indices[m] < |row|
    ensures |cs| == |indices|
    ensures forall m :: 0 <= m < |cs| ==>
      cs[m] == Cand(indices[m], if indices[m] == i then NegInf else Fin(row[indices[m]]))
  {
    seq(|indices|, m requires 0 <= m < |indices| =>
      Cand(indices[m], if indices[m] == i then NegInf else Fin(row[indices[m]])))
  }

  /** A finite-scored candidate of node `i` is another node from `indices` with its true score. */
  lemma CandAtInverse(row: seq<real>, i: nat, indices: seq<nat>, n: Neighbor)
    requires forall m :: 0 <= m < |indices| ==> indices[m] < |row|
    requires Cand(n.j, Fin(n.sim)) in CandsAt(row, i, indices)
    ensures n.j in indices && n.j != i && n.sim == row[n.j]
  {
    var cs := CandsAt(row, i, indices);
    var m :| 0 <= m < |cs| && cs[m] == Cand(n.j, Fin(n.sim));
    assert indices[m] == n.j;
  }

  /** Increasing positions give candidates with distinct positions. */
  lemma CandsDistinct(row: seq<real>, i: nat, indices: seq<nat>)
    requires forall m :: 0 <= m < |indices| ==> indices[m] < |row|
    requires forall a, b :: 0 <= a < b < |indices| ==> indices[a] < indices[b]
    ensures DistinctIdx(CandsAt(row, i, indices))
  {
    var cs := CandsAt(row, i, indices);
    forall a, b | 0 <= a < b < |cs| ensures cs[a].j != cs[b].j {
      assert cs[a].j == indices[a] && cs[b].j == indices[b];
    }
  }

  function Range(n: nat): (r: seq<nat>)
    ensures |r| == n && forall m :: 0 <= m < n ==> r[m] == m
  {
    seq(n, m requires 0 <= m < n => m)
  }

  /** The positions of the papers in cluster `c`, in paper order (`cluster_to_indices[c]`). */
  function Members(cids: seq<int>, c: int): (r: seq<nat>)
    ensures forall m :: 0 <= m < |r| ==> r[m] < |cids| && cids[r[m]] == c
    ensures forall j :: 0 <= j < |cids| && cids[j] == c ==> j in r
    ensures forall a, b :: 0 <= a < b < |r| ==> r[a] < r[b]
  {
    if cids == [] then []
    else
      var rest := Members(cids[..|cids| - 1], c);
      if cids[|cids| - 1] == c then rest + [|cids| - 1] else rest
  }

  /** The neighbours of node `i` among all `n` nodes, capped at `min(top_k, n - 1)`. */
  function GlobalNeighbors(row: seq<real>, i: nat, topK: int, minSim: real): (r: seq<Neighbor>)
    requires i < |row|
    ensures forall nb :: nb in r ==> nb.j != i && nb.j < |row| && nb.sim == row[nb.j] && nb.sim >= minSim
    ensures |r| <= (if topK < 0 then 0 else topK) && |r| <= |row| - 1
    ensures forall a, b :: 0 <= a < b < |r| ==> r[a].sim >= r[b].sim
    ensures forall a, b :: 0 <= a < b < |r| ==> r[a].j != r[b].j
  {
    var n := |row|;
    if n <= 1 then []
    else
      var r := NeighborsOf(CandsAt(row, i, Range(n)), Min(topK, n - 1), minSim);
      forall nb | nb in r ensures nb.j != i && nb.j < n && nb.sim == row[nb.j] {
        CandAtInverse(row, i, Range(n), nb);
      }
      CandsDistinct(row, i, Range(n));
      NeighborsOfDistinct(CandsAt(row, i, Range(n)), Min(topK, n - 1), minSim);
      r
  }

  /** The neighbours of node `i` among the members of its cluster, capped at
      `min(top_k, cluster size)`. */
  function ClusterNeighbors(row: seq<real>, cids: seq<int>, i: nat, topK: int, minSim: real)
    : (r: seq<Neighbor>)
    requires |row| == |cids| && i < |cids|
    ensures forall nb :: nb in r ==>
      nb.j != i && nb.j < |cids| && nb.sim == row[nb.j] && nb.sim >= minSim && cids[nb.j] == cids[i]
    ensures |r| <= (if topK < 0 then 0 else topK) && |r| <= |Members(cids, cids[i])|
    ensures forall a, b :: 0 <= a < b < |r| ==> r[a].sim >= r[b].sim
    ensures forall a, b :: 0 <= a < b < |r| ==> r[a].j != r[b].j
  {
    if |cids| <= 1 then []
    else
      var members := Members(cids, cids[i]);
      var r := NeighborsOf(CandsAt(row, i, members), Min(topK, |members|), minSim);
      forall nb | nb in r ensures nb.j != i && nb.j < |cids| && nb.sim == row[nb.j] && cids[nb.j] == cids[i] {
        CandAtInverse(row, i, members, nb);
      }
      CandsDistinct(row, i, members);
      NeighborsOfDistinct(CandsAt(row, i, members), Min(topK, |members|), minSim);
      r
  }

  /** The neighbour list of node `i`: among all nodes with cap `min(top_k, N - 1)`, or among
      its own cluster with cap `min(top_k, cluster size)`. */
  function NodeNeighbors(sims: seq<seq<real>>, cids: seq<int>, i: nat, topK: int, minSim: real, sameCluster: bool)
    : (r: seq<Neighbor>)
    requires |sims| == |cids| && i < |cids|
    requires forall k :: 0 <= k < |sims| ==> |sims[k]| == |cids|
    ensures forall n :: n in r ==>
      && n.j != i && n.j < |cids| && n.sim == sims[i][n.j] && n.sim >= minSim
      && (sameCluster ==> cids[n.j] == cids[i])
    ensures |r| <= (if topK < 0 then 0 else topK)
    ensures !sameCluster ==> |r| <= |cids| - 1
    ensures sameCluster ==> |r| <= |Members(cids, cids[i])|
    ensures forall a, b :: 0 <= a < b < |r| ==> r[a].sim >= r[b].sim
    ensures forall a, b :: 0 <= a < b < |r| ==> r[a].j != r[b].j
  {
    if sameCluster then ClusterNeighbors(sims[i], cids, i, topK, minSim)
    else GlobalNeighbors(sims[i], i, topK, minSim)
  }

  /** `neigh_pairs`: one list per node. A node never lists itself and no node twice; it lists
      at most `top_k` neighbours (and at most N - 1, or at most its cluster's size), each a node
      it may consider (any node, or one of its cluster) with its true similarity, at least
      `min_sim`, most similar first. Which nodes it lists is `NeighborListsTopK`. */
  function NeighborLists(sims: seq<seq<real>>, cids: seq<int>, topK: int, minSim: real, sameCluster: bool)
    : (lists: seq<seq<Neighbor>>)
    requires |sims| == |cids|
    requires forall k :: 0 <= k < |sims| ==> |sims[k]| == |cids|
    ensures |lists| == |cids|
    ensures forall i, n :: 0 <= i < |lists| && n in lists[i] ==>
      && n.j != i && n.j < |cids| && n.sim == sims[i][n.j] && n.sim >= minSim
      && (sameCluster ==> cids[n.j] == cids[i])
    ensures forall i :: 0 <= i < |lists| ==> |lists[i]| <= (if topK < 0 then 0 else topK)
    ensures !sameCluster ==> forall i :: 0 <= i < |lists| ==> |lists[i]| <= |cids| - 1
    ensures sameCluster ==> forall i :: 0 <= i < |lists| ==> |lists[i]| <= |Members(cids, cids[i])|
    ensures forall i, a, b :: 0 <= i < |lists| && 0 <= a < b < |lists[i]| ==> lists[i][a].sim >= lists[i][b].sim
    ensures forall i, a, b :: 0 <= i < |lists| && 0 <= a < b < |lists[i]| ==> lists[i][a].j != lists[i][b].j
  {
    var lists := seq(|cids|, i requires 0 <= i < |cids| => NodeNeighbors(sims, cids, i, topK, minSim, sameCluster));
    assert forall i :: 0 <= i < |lists| ==> lists[i] == NodeNeighbors(sims, cids, i, topK, minSim, sameCluster);
    lists
  }

  /** `k_eff` of the source: `min(top_k, size)`; a list never holds more than its positive part. */
  function KEff(topK: int, size: int): nat {
    if Min(topK, size) < 0 then 0 else Min(topK, size)
  }

  /** Global mode: another node whose similarity clears `min_sim` is listed, unless the list is
      full (`min(top_k, N - 1)` entries) of nodes at least as similar. */
  lemma GlobalTopK(row: seq<real>, i: nat, topK: int, minSim: real, j: nat)
    requires i < |row| && j < |row| && j != i && row[j] >= minSim
    ensures var r := GlobalNeighbors(row, i, topK, minSim);
      || Neighbor(j, row[j]) in r
      || (|r| == KEff(topK, |row| - 1) && forall nb :: nb in r ==> nb.sim >= row[j])
  {
    var r := GlobalNeighbors(row, i, topK, minSim);
    var cs := CandsAt(row, i, Range(|row|));
    assert cs[j] == Cand(j, Fin(row[j]));
    if Neighbor(j, row[j]) !in r {
      LeftOutOnlyWhenFull(cs, Min(topK, |row| - 1), minSim, cs[j]);
    }
  }

  /** Cluster mode: another node of the same cluster whose similarity clears `min_sim` is listed,
      unless the list is full (`min(top_k, cluster size)` entries) of nodes at least as similar. */
  lemma ClusterTopK(row: seq<real>, cids: seq<int>, i: nat, topK: int, minSim: real, j: nat)
    requires |row| == |cids| && i < |cids| && j < |cids| && j != i
    requires cids[j] == cids[i] && row[j] >= minSim
    ensures var r := ClusterNeighbors(row, cids, i, topK, minSim);
      || Neighbor(j, row[j]) in r
      || (|r| == KEff(topK, |Members(cids, cids[i])|) && forall nb :: nb in r ==> nb.sim >= row[j])
  {
    var r := ClusterNeighbors(row, cids, i, topK, minSim);
    var members := Members(cids, cids[i]);
    var m :| 0 <= m < |members| && members[m] == j;
    var cs := CandsAt(row, i, members);
    assert cs[m] == Cand(j, Fin(row[j]));
    if Neighbor(j, row[j]) !in r {
      LeftOutOnlyWhenFull(cs, Min(topK, |members|), minSim, cs[m]);
    }
  }

  /** Every node lists its top `k_eff`: a node it may consider whose similarity clears `min_sim`
      is listed, unless the list already holds `k_eff` nodes at least as similar. */
  lemma NeighborListsTopK(sims: seq<seq<real>>, cids: seq<int>, topK: int, minSim: real, sameCluster: bool,
                          i: nat, j: nat)
    requires |sims| == |cids|
    requires forall k :: 0 <= k < |sims| ==> |sims[k]| == |cids|
    requires i < |cids| && j < |cids| && j != i && sims[i][j] >= minSim
    requires sameCluster ==> cids[j] == cids[i]
    ensures var r := NeighborLists(sims, cids, topK, minSim, sameCluster)[i];
      var size := if sameCluster then |Members(cids, cids[i])| else |cids| - 1;
      || Neighbor(j, sims[i][j]) in r
      || (|r| == KEff(topK, size) && forall n :: n in r ==> n.sim >= sims[i][j])
  {
    assert NeighborLists(sims, cids, topK, minSim, sameCluster)[i] == NodeNeighbors(sims, cids, i, topK, minSim, sameCluster);
    if sameCluster {
      ClusterTopK(sims[i], cids, i, topK, minSim, j);
    } else {
      GlobalTopK(sims[i], i, topK, minSim, j);
    }
  }
}
