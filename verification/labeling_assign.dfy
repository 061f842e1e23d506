/** The label side of `labeling.label_clusters_default`: the order in which clusters are
    visited, and the greedy loop that gives every cluster a primary label, falling back to its
    representative title. Semantic term lists, their confidences and the representative titles
    come out of embedding arithmetic and enter here as inputs. */
module LabelAssign {
  import opened Wrappers

  // ---------------------------------------------------------------------------
  // Visiting order

  /** One cluster id with the number of papers in it. */
  datatype ClusterSize = ClusterSize(cid: int, size: nat)

  /** Larger clusters first; equal sizes by ascending id. */
  predicate Before(a: ClusterSize, b: ClusterSize) {
    a.size > b.size || (a.size == b.size && a.cid < b.cid)
  }

  ghost predicate Ranked(s: seq<ClusterSize>) {
    forall i, j :: 0 <= i < j < |s| ==> Before(s[i], s[j])
  }

  ghost predicate AscendingCids(s: seq<ClusterSize>) {
    forall i, j :: 0 <= i < j < |s| ==> s[i].cid < s[j].cid
  }

  /** One step of a stable sort on the key `-size`: `x`, which came before every element of
      `s` in the input, goes in front of the first element that is not larger than it. */
  function InsertBySize(x: ClusterSize, s: seq<ClusterSize>): (r: seq<ClusterSize>)
    requires Ranked(s)
    requires forall i :: 0 <= i < |s| ==> x.cid < s[i].cid
    ensures Ranked(r)
    ensures multiset(r) == multiset(s) + multiset{x}
  {
    if s == [] || s[0].size <= x.size then
      [x] + s
    else
      var rest := InsertBySize(x, s[1..]);
      HeadBeforeAll(s[0], s[1..], x, rest);
      assert s == [s[0]] + s[1..];
      [s[0]] + rest
  }

  /** A head ranked before a tail and before `x` is ranked before any rearrangement of both. */
  lemma HeadBeforeAll(h: ClusterSize, tail: seq<ClusterSize>, x: ClusterSize, rest: seq<ClusterSize>)
    requires forall i :: 0 <= i < |tail| ==> Before(h, tail[i])
    requires Before(h, x)
    requires Ranked(rest)
    requires multiset(rest) == multiset(tail) + multiset{x}
    ensures Ranked([h] + rest)
  {
    forall k | 0 <= k < |rest| ensures Before(h, rest[k]) {
      assert rest[k] in multiset(rest);
      if rest[k] != x {
        assert rest[k] in multiset(tail);
        assert rest[k] in tail;
      }
    }
    var r := [h] + rest;
    forall i, j | 0 <= i < j < |r| ensures Before(r[i], r[j]) {
      if i > 0 {
        assert r[i] == rest[i - 1] && r[j] == rest[j - 1];
      } else {
        assert r[j] == rest[j - 1];
      }
    }
  }

  /** `sorted(keys, key=lambda k: -cluster_sizes[k])` over keys in ascending id order. */
  function SortBySize(s: seq<ClusterSize>): (r: seq<ClusterSize>)
    requires AscendingCids(s)
    ensures Ranked(r)
    ensures multiset(r) == multiset(s)
  {
    if s == [] then []
    else
      var tail := s[1..];
      assert AscendingCids(tail) by {
        forall i, j | 0 <= i < j < |tail| ensures tail[i].cid < tail[j].cid {
          assert tail[i] == s[i + 1] && tail[j] == s[j + 1];
        }
      }
      forall i | 0 <= i < |tail| ensures s[0].cid < tail[i].cid {
        assert tail[i] == s[i + 1];
      }
      var rest := SortBySize(tail);
      FirstIdSmallest(s[0], tail, rest);
      assert s == [s[0]] + tail;
      InsertBySize(s[0], rest)
  }

  lemma FirstIdSmallest(x: ClusterSize, tail: seq<ClusterSize>, rest: seq<ClusterSize>)
    requires forall i :: 0 <= i < |tail| ==> x.cid < tail[i].cid
    requires multiset(rest) == multiset(tail)
    ensures forall i :: 0 <= i < |rest| ==> x.cid < rest[i].cid
  {
    forall i | 0 <= i < |rest| ensures x.cid < rest[i].cid {
      assert rest[i] in multiset(tail);
      assert rest[i] in tail;
    }
  }

  function Cids(s: seq<ClusterSize>): (r: seq<int>)
    ensures |r| == |s|
    ensures forall i :: 0 <= i < |s| ==> r[i] == s[i].cid
  {
    seq(|s|, i requires 0 <= i < |s| => s[i].cid)
  }

  /** `order`: by descending size when labels must be unique, else by ascending id. The
      cluster sizes are listed once per id, in ascending id order. */
  function ClusterOrder(sizes: seq<ClusterSize>, enforce: bool): (order: seq<ClusterSize>)
    requires AscendingCids(sizes)
    ensures multiset(order) == multiset(sizes)
    ensures enforce ==> Ranked(order)
    ensures !enforce ==> AscendingCids(order)
  {
    if enforce then SortBySize(sizes) else sizes
  }

  /** The visiting order is a permutation of the clusters, with no cluster twice. */
  lemma OrderVisitsEachClusterOnce(sizes: seq<ClusterSize>, enforce: bool)
    requires AscendingCids(sizes)
    ensures forall c :: c in Cids(ClusterOrder(sizes, enforce)) <==> c in Cids(sizes)
    ensures Distinct(Cids(ClusterOrder(sizes, enforce)))
  {
    var o := ClusterOrder(sizes, enforce);
    SameIds(o, sizes);
    var co := Cids(o);
    forall i, j | 0 <= i < j < |co| ensures co[i] != co[j] {
      if enforce {
        assert Before(o[i], o[j]);
        assert o[i] in multiset(sizes) && o[j] in multiset(sizes);
        OneEntryPerId(sizes, o[i], o[j]);
      }
    }
  }

  lemma OneEntryPerId(sizes: seq<ClusterSize>, e1: ClusterSize, e2: ClusterSize)
    requires AscendingCids(sizes)
    requires e1 in sizes && e2 in sizes
    ensures e1.cid == e2.cid ==> e1 == e2
  {
    var m :| 0 <= m < |sizes| && sizes[m] == e1;
    var n :| 0 <= n < |sizes| && sizes[n] == e2;
    assert m < n ==> e1.cid < e2.cid;
    assert n < m ==> e2.cid < e1.cid;
  }

  /** Rearranging the entries keeps the set of ids. */
  lemma SameIds(a: seq<ClusterSize>, b: seq<ClusterSize>)
    requires multiset(a) == multiset(b)
    ensures forall c :: c in Cids(a) <==> c in Cids(b)
  {
    forall c | c in Cids(a) ensures c in Cids(b) {
      var i :| 0 <= i < |a| && Cids(a)[i] == c;
      assert a[i] in multiset(b);
      var j :| 0 <= j < |b| && b[j] == a[i];
      assert Cids(b)[j] == c;
    }
    forall c | c in Cids(b) ensures c in Cids(a) {
      var j :| 0 <= j < |b| && Cids(b)[j] == c;
      assert b[j] in multiset(a);
      var i :| 0 <= i < |a| && a[i] == b[j];
      assert Cids(a)[i] == c;
    }
  }

  /** Under uniqueness the larger cluster is visited first. */
  lemma LargerClustersFirst(sizes: seq<ClusterSize>, i: nat, j: nat)
    requires AscendingCids(sizes)
    requires var o := ClusterOrder(sizes, true); i < |o| && j < |o| && o[i].size > o[j].size
    ensures i < j
  {
  }

  ghost predicate Distinct(order: seq<int>) {
    forall i, j :: 0 <= i < j < |order| ==> order[i] != order[j]
  }

  // ---------------------------------------------------------------------------
  // Primary-label assignment

  /** A cluster's semantic candidate terms, best first, with the best one's cosine. */
  datatype SemLabel = SemLabel(terms: seq<string>, confidence: real)

  /** A cluster's representative title with its cosine to the centroid. */
  datatype RepTitle = RepTitle(title: string, confidence: real)

  datatype ClusterLabel = ClusterLabel(name: string, terms: seq<string>, confidence: real)

  /** The labels given so far, the terms reserved as primary labels, and each cluster's pick. */
  datatype Assignment = Assignment(labels: map<int, ClusterLabel>, used: set<string>, picked: map<int, string>)

  /** `semantic_labels.get(cid, {"terms": [], "confidence": 0.0})`. */
  function SemOf(sems: map<int, SemLabel>, cid: int): SemLabel {
    if cid in sems then sems[cid] else SemLabel([], 0.0)
  }

  /** `rep_title.get(cid, {"title": "Cluster", "confidence": 0.0})`. */
  function RepOf(reps: map<int, RepTitle>, cid: int): RepTitle {
    if cid in reps then reps[cid] else RepTitle("Cluster", 0.0)
  }

  /** The first position of `terms` holding a term outside `taken`. */
  function FirstOutside(terms: seq<string>, taken: set<string>): (k: Option<nat>)
    ensures k.Some? ==> k.value < |terms| && terms[k.value] !in taken
    ensures k.Some? ==> forall m :: 0 <= m < k.value ==> terms[m] in taken
    ensures k.None? ==> forall t :: t in terms ==> t in taken
  {
    if terms == [] then None
    else if terms[0] !in taken then Some(0)
    else match FirstOutside(terms[1..], taken)
      case None => None
      case Some(k) => Some(k + 1)
  }

  /** The terms picked by the clusters visited before position `i`. */
  ghost function EarlierPicks(picked: map<int, string>, order: seq<int>, i: nat): set<string>
    requires i <= |order|
  {
    set j | 0 <= j < i && order[j] in picked :: picked[order[j]]
  }

  /** The greedy rule for the cluster at position `i`: it picks its best term not already
      reserved by an earlier cluster (any term's reservation is ignored without uniqueness),
      and picks nothing when there is none. */
  ghost predicate Greedy(order: seq<int>, i: nat, picked: map<int, string>, terms: seq<string>, enforce: bool)
    requires i < |order|
  {
    var taken := if enforce then EarlierPicks(picked, order, i) else {};
    match FirstOutside(terms, taken)
    case None => order[i] !in picked
    case Some(k) => order[i] in picked && picked[order[i]] == terms[k]
  }

  /** Lines 115-119: the semantic label when a non-empty term was picked with enough
      confidence, otherwise the representative title standing alone. */
  ghost predicate LabelledAs(lab: ClusterLabel, pick: Option<string>, sem: SemLabel, rt: RepTitle, floor: real) {
    if pick.None? || pick.value == "" || sem.confidence < floor then
      lab == ClusterLabel(rt.title, [rt.title], rt.confidence)
    else
      lab == ClusterLabel(pick.value, sem.terms, sem.confidence)
  }

  function PickOf(picked: map<int, string>, cid: int): Option<string> {
    if cid in picked then Some(picked[cid]) else None
  }

  /** Recording the pick of a cluster not visited before leaves the earlier picks alone and
      adds the new one for the positions after it. */
  lemma {:induction false} EarlierPicksStep(picked: map<int, string>, order: seq<int>, i: nat, p: Option<string>)
    requires i < |order| && Distinct(order)
    requires order[i] !in picked
    ensures var picked' := if p.Some? then picked[order[i] := p.value] else picked;
      && (forall j :: 0 <= j <= i ==> EarlierPicks(picked', order, j) == EarlierPicks(picked, order, j))
      && EarlierPicks(picked', order, i + 1) == EarlierPicks(picked, order, i) + (if p.Some? then {p.value} else {})
  {
    var picked' := if p.Some? then picked[order[i] := p.value] else picked;
    forall j | 0 <= j <= i ensures EarlierPicks(picked', order, j) == EarlierPicks(picked, order, j) {
      forall t ensures t in EarlierPicks(picked', order, j) <==> t in EarlierPicks(picked, order, j) {
        if t in EarlierPicks(picked', order, j) {
          var m :| 0 <= m < j && order[m] in picked' && picked'[order[m]] == t;
          assert order[m] != order[i];
        }
        if t in EarlierPicks(picked, order, j) {
          var m :| 0 <= m < j && order[m] in picked && picked[order[m]] == t;
          assert order[m] != order[i];
        }
      }
    }
    var before := EarlierPicks(picked, order, i);
    var added: set<string> := if p.Some? then {p.value} else {};
    forall t ensures t in EarlierPicks(picked', order, i + 1) <==> t in before + added {
      if t in EarlierPicks(picked', order, i + 1) {
        var m :| 0 <= m < i + 1 && order[m] in picked' && picked'[order[m]] == t;
        if m < i {
          assert t in EarlierPicks(picked', order, i);
        }
      }
      if t in before {
        var m :| 0 <= m < i && order[m] in picked && picked[order[m]] == t;
        assert order[m] != order[i];
        assert order[m] in picked' && picked'[order[m]] == t;
      }
      if p.Some? && t == p.value {
        assert order[i] in picked' && picked'[order[i]] == t;
      }
    }
  }

  /** The loop state after the clusters before position `i`: those and only those are labelled,
      the reserved terms are their picks, each picked greedily, and each label follows its pick. */
  ghost predicate AssignState(order: seq<int>, sems: map<int, SemLabel>, reps: map<int, RepTitle>, floor: real,
                              enforce: bool, i: nat, a: Assignment)
    requires i <= |order|
  {
    && a.labels.Keys == (set c | c in order[..i])
    && a.picked.Keys <= a.labels.Keys
    && a.used == EarlierPicks(a.picked, order, i)
    && (forall j :: 0 <= j < i ==> Greedy(order, j, a.picked, SemOf(sems, order[j]).terms, enforce))
    && (forall c :: c in a.labels ==> LabelledAs(a.labels[c], PickOf(a.picked, c), SemOf(sems, c), RepOf(reps, c), floor))
  }

  /** Recording a pick of cluster `cid`, if any. */
  function WithPick(picked: map<int, string>, cid: int, pick: Option<string>): (r: map<int, string>)
    ensures PickOf(r, cid) == pick || (pick.None? && r == picked)
  {
    if pick.Some? then picked[cid := pick.value] else picked
  }

  /** The pick of the cluster at position `i` keeps every earlier greedy choice and adds its own. */
  lemma PicksStep(order: seq<int>, sems: map<int, SemLabel>, enforce: bool, i: nat,
                  picked: map<int, string>, used: set<string>, k: Option<nat>, pick: Option<string>)
    requires i < |order| && Distinct(order)
    requires order[i] !in picked
    requires used == EarlierPicks(picked, order, i)
    requires forall j :: 0 <= j < i ==> Greedy(order, j, picked, SemOf(sems, order[j]).terms, enforce)
    requires k == FirstOutside(SemOf(sems, order[i]).terms, if enforce then used else {})
    requires pick == (if k.Some? then Some(SemOf(sems, order[i]).terms[k.value]) else None)
    ensures var picked' := WithPick(picked, order[i], pick);
      && (if pick.Some? then used + {pick.value} else used) == EarlierPicks(picked', order, i + 1)
      && forall j :: 0 <= j <= i ==> Greedy(order, j, picked', SemOf(sems, order[j]).terms, enforce)
  {
    var picked' := WithPick(picked, order[i], pick);
    EarlierPicksStep(picked, order, i, pick);
    forall j | 0 <= j < i ensures Greedy(order, j, picked', SemOf(sems, order[j]).terms, enforce) {
      assert order[j] != order[i];
      assert Greedy(order, j, picked, SemOf(sems, order[j]).terms, enforce);
    }
    assert Greedy(order, i, picked', SemOf(sems, order[i]).terms, enforce);
  }

  /** Labelling the cluster at position `i` extends the labelled set by that cluster and keeps
      every label in line with its cluster's pick. */
  lemma LabelsStep(order: seq<int>, sems: map<int, SemLabel>, reps: map<int, RepTitle>, floor: real, i: nat,
                   labels: map<int, ClusterLabel>, picked: map<int, string>, pick: Option<string>, lab: ClusterLabel)
    requires i < |order|
    requires labels.Keys == (set c | c in order[..i]) && picked.Keys <= labels.Keys && order[i] !in labels
    requires forall c :: c in labels ==> LabelledAs(labels[c], PickOf(picked, c), SemOf(sems, c), RepOf(reps, c), floor)
    requires LabelledAs(lab, pick, SemOf(sems, order[i]), RepOf(reps, order[i]), floor)
    ensures var picked', labels', seen := WithPick(picked, order[i], pick), labels[order[i] := lab], order[..i + 1];
      && labels'.Keys == (set c | c in seen)
      && picked'.Keys <= labels'.Keys
      && forall c :: c in labels' ==> LabelledAs(labels'[c], PickOf(picked', c), SemOf(sems, c), RepOf(reps, c), floor)
  {
    var cid := order[i];
    var picked' := WithPick(picked, cid, pick);
    assert order[..i + 1] == order[..i] + [cid];
    assert PickOf(picked', cid) == pick;
    forall c | c in labels ensures PickOf(picked', c) == PickOf(picked, c) {
      assert c != cid;
    }
  }

  /** The loop over `order`. Without uniqueness every cluster with terms picks its best one;
      with it, no term is picked twice. Every picked term is reserved, even when the cluster
      then falls back to its title. */
  method AssignLabels(order: seq<int>, sems: map<int, SemLabel>, reps: map<int, RepTitle>, floor: real, enforce: bool)
    returns (a: Assignment)
    requires Distinct(order)
    ensures a.labels.Keys == set c | c in order
    ensures a.picked.Keys <= a.labels.Keys
    ensures a.used == EarlierPicks(a.picked, order, |order|)
    ensures forall i :: 0 <= i < |order| ==> Greedy(order, i, a.picked, SemOf(sems, order[i]).terms, enforce)
    ensures forall c :: c in a.labels ==>
      LabelledAs(a.labels[c], PickOf(a.picked, c), SemOf(sems, c), RepOf(reps, c), floor)
  {
    a := Assignment(map[], {}, map[]);
    for i := 0 to |order|
      invariant AssignState(order, sems, reps, floor, enforce, i, a)
    {
      var cid := order[i];
      assert cid !in a.labels by {
        forall j | 0 <= j < i ensures order[j] != cid {
        }
      }
      var sem := SemOf(sems, cid);
      var k := FirstOutside(sem.terms, if enforce then a.used else {});
      var pick: Option<string> := None;
      if k.Some? {
        pick := Some(sem.terms[k.value]);
      }
      var used := if pick.Some? then a.used + {pick.value} else a.used;
      var lab :=
        if pick.None? || pick.value == "" || sem.confidence < floor then
          var rt := RepOf(reps, cid);
          ClusterLabel(rt.title, [rt.title], rt.confidence)
        else
          ClusterLabel(pick.value, sem.terms, sem.confidence);
      PicksStep(order, sems, enforce, i, a.picked, a.used, k, pick);
      LabelsStep(order, sems, reps, floor, i, a.labels, a.picked, pick, lab);
      a := Assignment(a.labels[cid := lab], used, WithPick(a.picked, cid, pick));
    }
    assert order[..|order|] == order;
  }

  /** Reserved terms are exactly the picked ones, and under uniqueness no term is picked by two
      clusters, so no two clusters carry the same semantic primary label. */
  lemma UniquePrimaryLabels(order: seq<int>, sems: map<int, SemLabel>, a: Assignment, c1: int, c2: int)
    requires Distinct(order)
    requires forall i :: 0 <= i < |order| ==> Greedy(order, i, a.picked, SemOf(sems, order[i]).terms, true)
    requires a.picked.Keys <= set c | c in order
    requires c1 in a.picked && c2 in a.picked && c1 != c2
    ensures a.picked[c1] != a.picked[c2]
  {
    var i :| 0 <= i < |order| && order[i] == c1;
    var j :| 0 <= j < |order| && order[j] == c2;
    if i < j {
      assert Greedy(order, j, a.picked, SemOf(sems, c2).terms, true);
      assert a.picked[c1] in EarlierPicks(a.picked, order, j);
    } else {
      assert Greedy(order, i, a.picked, SemOf(sems, c1).terms, true);
      assert a.picked[c2] in EarlierPicks(a.picked, order, i);
    }
  }

  /** Without uniqueness every cluster with any semantic term picks its best one. */
  lemma BestTermWithoutUniqueness(order: seq<int>, sems: map<int, SemLabel>, a: Assignment, i: nat)
    requires i < |order|
    requires Greedy(order, i, a.picked, SemOf(sems, order[i]).terms, false)
    requires SemOf(sems, order[i]).terms != []
    ensures PickOf(a.picked, order[i]) == Some(SemOf(sems, order[i]).terms[0])
  {
  }

  /** `label_clusters_default` from the cluster sizes on: clusters are visited in `order`
      (largest first, see `ClusterOrder`), each receives exactly one label, the primary picks
      follow the greedy rule, each label follows from its pick, and with uniqueness enforced no
      two clusters share a pick. */
  method LabelClusters(sizes: seq<ClusterSize>, sems: map<int, SemLabel>, reps: map<int, RepTitle>,
                       floor: real, enforce: bool)
    returns (order: seq<int>, picked: map<int, string>, labels: map<int, ClusterLabel>)
    requires AscendingCids(sizes)
    ensures order == Cids(ClusterOrder(sizes, enforce))
    ensures sizes == [] ==> labels == map[]
    ensures labels.Keys == set c | c in Cids(sizes)
    ensures picked.Keys <= labels.Keys
    ensures forall i :: 0 <= i < |order| ==> Greedy(order, i, picked, SemOf(sems, order[i]).terms, enforce)
    ensures forall c :: c in labels ==>
      LabelledAs(labels[c], PickOf(picked, c), SemOf(sems, c), RepOf(reps, c), floor)
    ensures enforce ==> forall c1, c2 :: c1 in picked && c2 in picked && c1 != c2 ==> picked[c1] != picked[c2]
  {
    order := Cids(ClusterOrder(sizes, enforce));
    OrderVisitsEachClusterOnce(sizes, enforce);
    var a := AssignLabels(order, sems, reps, floor, enforce);
    picked, labels := a.picked, a.labels;
    if enforce {
      forall c1, c2 | c1 in picked && c2 in picked && c1 != c2 ensures picked[c1] != picked[c2] {
        UniquePrimaryLabels(order, sems, a, c1, c2);
      }
    }
  }
}
