/** The record-shaping half of `export_graph.export_json_graph`: summary trimming, the paper
    records built from the database rows, the node records of the JSON payload, and the
    cluster legend. Coordinates, the layout engines and JSON encoding are not modelled. */
module ExportRecords {
  import opened Wrappers
  import opened Text

  // ---------------------------------------------------------------------------
  // _trim

  /** The horizontal ellipsis appended to trimmed text. */
  const Ellipsis: char := '…'

  /** How many characters Python's `s[:n]` keeps of a string of length `len`. */
  function PrefixLen(len: nat, n: int): (k: nat)
    ensures k <= len
    ensures 0 <= n ==> k == if n < len then n else len
    ensures n < 0 ==> k == if len + n < 0 then 0 else len + n
  {
    if n >= 0 then (if n < len then n else len)
    else if len + n < 0 then 0 else len + n
  }

  /** `_trim(s, max_len)`: `None` stays `None`; otherwise the stripped text, cut to `s[:max_len]`
      followed by an ellipsis when it is longer than `max_len`. */
  function Trim(s: Option<string>, maxLen: int): (r: Option<string>)
    ensures r.None? <==> s.None?
    ensures s.Some? && |Strip(s.value)| <= maxLen ==> r == Some(Strip(s.value))
    ensures s.Some? && 0 <= maxLen < |Strip(s.value)| ==>
      |r.value| == maxLen + 1 && r.value[..maxLen] == Strip(s.value)[..maxLen] && r.value[maxLen] == Ellipsis
    ensures s.Some? && maxLen < 0 ==>
      && |r.value| == PrefixLen(|Strip(s.value)|, maxLen) + 1 && r.value[|r.value| - 1] == Ellipsis
      && r.value[..|r.value| - 1] == Strip(s.value)[..PrefixLen(|Strip(s.value)|, maxLen)]
  {
    match s
    case None => None
    case Some(text) =>
      var t := Strip(text);
      if |t| > maxLen then Some(t[..PrefixLen(|t|, maxLen)] + [Ellipsis]) else Some(t)
  }

  /** With a non-negative limit the result never exceeds the limit plus the ellipsis. */
  lemma TrimBound(s: string, maxLen: nat)
    ensures |Trim(Some(s), maxLen).value| <= maxLen + 1
  {
  }

  /** With a non-negative limit, trimming an already trimmed text changes nothing. */
  lemma TrimIdempotent(s: Option<string>, maxLen: nat)
    ensures Trim(Trim(s, maxLen), maxLen) == Trim(s, maxLen)
  {
    if s.Some? {
      var t := Strip(s.value);
      StripIdempotent(s.value);
      if |t| > maxLen {
        var r := t[..maxLen] + [Ellipsis];
        assert !IsSpace(r[|r| - 1]);
        if maxLen > 0 {
          StripEnds(s.value);
          assert r[0] == t[0];
        }
        StripFixedPoint(r);
        assert r[..maxLen] == t[..maxLen];
      }
    }
  }

  // ---------------------------------------------------------------------------
  // Paper and node records

  /** One row of the kept-and-clustered query. */
  datatype PaperRow = PaperRow(
    id: string, title: Option<string>, authors: Option<string>, published: Option<string>,
    summary: Option<string>, link: Option<string>, cid: int, domainTag: Option<string>)

  /** One entry of `papers`. */
  datatype Paper = Paper(
    aid: string, t: string, au: string, pd: string, dm: string, sm: Option<string>, ln: string, cid: int)

  /** Python's `x or default` on a nullable text column: `None` and `""` both give `default`. */
  function OrElse(x: Option<string>, default: string): (r: string)
    ensures (x.None? || x.value == "") ==> r == default
    ensures x.Some? && x.value != "" ==> r == x.value
    ensures default != "" ==> r != ""
  {
    if x.None? || x.value == "" then default else x.value
  }

  /** The record built for one row. */
  function PaperOf(r: PaperRow, includeSummaries: bool, maxSummaryLen: int): (p: Paper)
    ensures p.aid == r.id && p.cid == r.cid
    ensures p.t == r.title.GetOr("") && p.au == r.authors.GetOr("") && p.pd == r.published.GetOr("")
    ensures p.dm == if r.domainTag.None? || r.domainTag == Some("") then "unknown" else r.domainTag.value
    ensures p.dm != ""
    ensures p.ln == if r.link.None? || r.link == Some("") then r.id else r.link.value
    ensures p.ln != "" || r.id == ""
    ensures p.sm.Some? <==> includeSummaries && r.summary.Some?
    ensures p.sm.Some? ==> p.sm == Trim(r.summary, maxSummaryLen)
  {
    Paper(r.id, OrElse(r.title, ""), OrElse(r.authors, ""), OrElse(r.published, ""),
      OrElse(r.domainTag, "unknown"),
      if includeSummaries then Trim(r.summary, maxSummaryLen) else None,
      OrElse(r.link, r.id), r.cid)
  }

  function Papers(rows: seq<PaperRow>, includeSummaries: bool, maxSummaryLen: int): (ps: seq<Paper>)
    ensures |ps| == |rows|
    ensures forall i :: 0 <= i < |rows| ==> ps[i] == PaperOf(rows[i], includeSummaries, maxSummaryLen)
  {
    seq(|rows|, i requires 0 <= i < |rows| => PaperOf(rows[i], includeSummaries, maxSummaryLen))
  }

  /** A node of the payload: the compact schema keyed by position, or the verbose one keyed by
      the arXiv id. */
  datatype Node =
    | Compact(id: nat, aid: string, t: string, au: string, pd: string, dm: string, ln: string,
              cid: int, sm: Option<string>)
    | Verbose(key: string, title: string, authors: string, published: string, domain: string,
              summary: Option<string>, link: string, cid: int)

  function NodeOf(i: nat, p: Paper, compact: bool, includeSummaries: bool): Node {
    if compact then
      Compact(i, p.aid, p.t, p.au, p.pd, p.dm, p.ln, p.cid,
        if includeSummaries && p.sm.Some? then p.sm else None)
    else
      Verbose(p.aid, p.t, p.au, p.pd, p.dm, p.sm, p.ln, p.cid)
  }

  /** The node list, in paper order. */
  function Nodes(papers: seq<Paper>, compact: bool, includeSummaries: bool): (ns: seq<Node>)
    ensures |ns| == |papers|
    ensures forall i :: 0 <= i < |ns| ==> ns[i] == NodeOf(i, papers[i], compact, includeSummaries)
  {
    seq(|papers|, i requires 0 <= i < |papers| => NodeOf(i, papers[i], compact, includeSummaries))
  }

  /** Compact nodes are numbered 0..N-1 in paper order; their link falls back to the arXiv id,
      their domain to "unknown", and a summary appears only when one was asked for and exists. */
  lemma CompactNodes(rows: seq<PaperRow>, includeSummaries: bool, maxSummaryLen: int)
    ensures var ns := Nodes(Papers(rows, includeSummaries, maxSummaryLen), true, includeSummaries);
      && |ns| == |rows|
      && (forall i :: 0 <= i < |ns| ==> ns[i].Compact? && ns[i].id == i && ns[i].aid == rows[i].id)
      && (forall i :: 0 <= i < |ns| ==> ns[i].cid == rows[i].cid && ns[i].dm != "")
      && (forall i :: 0 <= i < |ns| ==>
            ns[i].dm == if rows[i].domainTag.None? || rows[i].domainTag == Some("") then "unknown"
                        else rows[i].domainTag.value)
      && (forall i :: 0 <= i < |ns| ==>
            ns[i].t == rows[i].title.GetOr("") && ns[i].au == rows[i].authors.GetOr("")
            && ns[i].pd == rows[i].published.GetOr(""))
      && (forall i :: 0 <= i < |ns| ==>
            ns[i].ln == if rows[i].link.None? || rows[i].link == Some("") then rows[i].id else rows[i].link.value)
      && (forall i :: 0 <= i < |ns| ==> (ns[i].sm.Some? <==> includeSummaries && rows[i].summary.Some?))
      && (forall i :: 0 <= i < |ns| && ns[i].sm.Some? ==> ns[i].sm == Trim(rows[i].summary, maxSummaryLen))
  {
  }

  /** Verbose nodes are keyed by the arXiv id and always carry a summary field. */
  lemma VerboseNodes(papers: seq<Paper>, includeSummaries: bool)
    ensures var ns := Nodes(papers, false, includeSummaries);
      forall i :: 0 <= i < |ns| ==> ns[i].Verbose? && ns[i].key == papers[i].aid && ns[i].summary == papers[i].sm
  {
  }

  // ---------------------------------------------------------------------------
  // Links

  /** A deduplicated edge between two node positions. */
  datatype Edge = Edge(a: nat, b: nat, w: real)

  datatype Link = CompactLink(s: nat, t: nat, w: real) | VerboseLink(source: string, target: string, weight: real)

  /** The link list: positions in the compact schema, arXiv ids in the verbose one. */
  function Links(edges: seq<Edge>, ids: seq<string>, compact: bool): (ls: seq<Link>)
    requires forall k :: 0 <= k < |edges| ==> edges[k].a < |ids| && edges[k].b < |ids|
    ensures |ls| == |edges|
    ensures compact ==> forall k :: 0 <= k < |ls| ==> ls[k] == CompactLink(edges[k].a, edges[k].b, edges[k].w)
    ensures !compact ==> forall k :: 0 <= k < |ls| ==>
      ls[k] == VerboseLink(ids[edges[k].a], ids[edges[k].b], edges[k].w)
  {
    seq(|edges|, k requires 0 <= k < |edges| =>
      if compact then CompactLink(edges[k].a, edges[k].b, edges[k].w)
      else VerboseLink(ids[edges[k].a], ids[edges[k].b], edges[k].w))
  }

  // ---------------------------------------------------------------------------
  // Cluster legend

  function DigitChar(d: nat): (c: char)
    requires d < 10
    ensures '0' <= c <= '9'
  {
    (d + '0' as int) as char
  }

  /** Decimal digits of `n`, most significant first, without leading zeros. */
  function NatToString(n: nat): (s: string)
    ensures |s| >= 1
    ensures forall k :: 0 <= k < |s| ==> '0' <= s[k] <= '9'
    ensures s[|s| - 1] == DigitChar(n % 10)
    decreases n
  {
    if n < 10 then [DigitChar(n)] else NatToString(n / 10) + [DigitChar(n % 10)]
  }

  /** Python's `str(cid)`. */
  function IntToString(i: int): string {
    if i < 0 then "-" + NatToString(-i) else NatToString(i)
  }

  lemma {:induction false} NatToStringInjective(n: nat, m: nat)
    requires NatToString(n) == NatToString(m)
    ensures n == m
    decreases n
  {
    var s := NatToString(n);
    assert DigitChar(n % 10) == DigitChar(m % 10);
    if n >= 10 && m >= 10 {
      assert NatToString(n / 10) == s[..|s| - 1] == NatToString(m / 10);
      NatToStringInjective(n / 10, m / 10);
    }
  }

  /** Only negative ids start with a minus sign. */
  lemma SignFirst(i: int)
    ensures |IntToString(i)| >= 1
    ensures IntToString(i)[0] == '-' <==> i < 0
  {
    if i >= 0 {
      assert IntToString(i)[0] == NatToString(i)[0];
    }
  }

  /** Strings that agree after the same first character agree. */
  lemma SamePrefixChar(c: char, a: string, b: string)
    requires [c] + a == [c] + b
    ensures a == b
  {
    assert a == ([c] + a)[1..];
    assert b == ([c] + b)[1..];
  }

  /** Different cluster ids get different legend keys. */
  lemma IntToStringInjective(i: int, j: int)
    requires IntToString(i) == IntToString(j)
    ensures i == j
  {
    SignFirst(i);
    SignFirst(j);
    assert i < 0 <==> j < 0;
    if i < 0 {
      var n: nat, m: nat := -i, -j;
      SamePrefixChar('-', NatToString(n), NatToString(m));
      NatToStringInjective(n, m);
    } else {
      NatToStringInjective(i, j);
    }
  }

  /** How many papers are in cluster `c`. */
  function Count(cids: seq<int>, c: int): (n: nat)
    ensures n <= |cids|
    ensures n > 0 <==> c in cids
  {
    if cids == [] then 0 else (if cids[0] == c then 1 else 0) + Count(cids[1..], c)
  }

  datatype LegendEntry = LegendEntry(name: Option<string>, size: nat)

  /** The `clusters` legend: one entry per distinct cluster id, keyed by its decimal text, with
      the stored label if any and the number of papers. */
  function Legend(cids: seq<int>, labels: map<int, string>): (legend: map<string, LegendEntry>)
    ensures legend.Keys == set c | c in cids :: IntToString(c)
    ensures forall c :: c in cids ==>
      IntToString(c) in legend && legend[IntToString(c)] == LegendEntry(if c in labels then Some(labels[c]) else None, Count(cids, c))
  {
    forall c1, c2 | c1 in cids && c2 in cids && IntToString(c1) == IntToString(c2) ensures c1 == c2 {
      IntToStringInjective(c1, c2);
    }
    map c | c in cids :: IntToString(c) := LegendEntry(if c in labels then Some(labels[c]) else None, Count(cids, c))
  }

  /** Distinct values of `xs` in order of first appearance. */
  function Distincts(xs: seq<int>): (ds: seq<int>)
    ensures forall c :: c in ds <==> c in xs
    ensures forall i, j :: 0 <= i < j < |ds| ==> ds[i] != ds[j]
    ensures xs != [] ==> |ds| > 0 && ds[0] == xs[0]
  {
    if xs == [] then []
    else
      var rest := Without(Distincts(xs[1..]), xs[0]);
      assert xs[0] !in rest;
      [xs[0]] + rest
  }

  function Without(xs: seq<int>, x: int): (r: seq<int>)
    ensures forall c :: c in r <==> c in xs && c != x
    ensures (forall i, j :: 0 <= i < j < |xs| ==> xs[i] != xs[j]) ==> forall i, j :: 0 <= i < j < |r| ==> r[i] != r[j]
  {
    if xs == [] then []
    else if xs[0] == x then Without(xs[1..], x)
    else
      var rest := Without(xs[1..], x);
      assert (forall i, j :: 0 <= i < j < |xs| ==> xs[i] != xs[j]) ==> xs[0] !in xs[1..];
      [xs[0]] + rest
  }

  /** Removing a value keeps the others in their order: two positions of the result come from
      two positions of `xs` in the same order. */
  lemma {:induction false} WithoutOrder(xs: seq<int>, x: int, a: nat, b: nat) returns (a': nat, b': nat)
    requires a < b < |Without(xs, x)|
    ensures a' < b' < |xs| && xs[a'] == Without(xs, x)[a] && xs[b'] == Without(xs, x)[b]
    decreases |xs|
  {
    var w := Without(xs, x);
    var rest := Without(xs[1..], x);
    if xs[0] == x {
      var a1, b1 := WithoutOrder(xs[1..], x, a, b);
      a', b' := a1 + 1, b1 + 1;
    } else if a == 0 {
      assert w[b] == rest[b - 1] && rest[b - 1] in rest;
      var k :| 0 <= k < |xs[1..]| && xs[1..][k] == rest[b - 1];
      a', b' := 0, k + 1;
    } else {
      var a1, b1 := WithoutOrder(xs[1..], x, a - 1, b - 1);
      a', b' := a1 + 1, b1 + 1;
    }
  }

  /** `Distincts` lists values in order of first appearance: wherever the later of two listed
      values occurs in `xs`, the earlier one has already occurred. */
  lemma {:induction false} DistinctsOrder(xs: seq<int>, i: nat, j: nat, q: nat)
    requires i < j < |Distincts(xs)| && q < |xs| && xs[q] == Distincts(xs)[j]
    ensures Distincts(xs)[i] in xs[..q]
    decreases |xs|
  {
    var ds := Distincts(xs);
    var tail := Distincts(xs[1..]);
    var w := Without(tail, xs[0]);
    assert ds == [xs[0]] + w;
    assert q != 0;
    if i == 0 {
      assert xs[..q][0] == xs[0];
    } else {
      var a, b := WithoutOrder(tail, xs[0], i - 1, j - 1);
      assert ds[j] == w[j - 1] == tail[b];
      assert xs[1..][q - 1] == xs[q];
      DistinctsOrder(xs[1..], a, b, q - 1);
      var k :| 0 <= k < q - 1 && xs[1..][..q - 1][k] == tail[a];
      assert xs[..q][k + 1] == xs[1..][..q - 1][k];
    }
  }

  /** Adds up `Count(cids, d)` over a list of cluster ids. */
  function SumCounts(cids: seq<int>, ds: seq<int>): nat {
    if ds == [] then 0 else Count(cids, ds[0]) + SumCounts(cids, ds[1..])
  }

  /** Dropping the first paper lowers the total by one exactly when its cluster is listed once. */
  lemma {:induction false} SumCountsTail(cids: seq<int>, ds: seq<int>)
    requires cids != []
    requires forall i, j :: 0 <= i < j < |ds| ==> ds[i] != ds[j]
    ensures SumCounts(cids, ds) == SumCounts(cids[1..], ds) + (if cids[0] in ds then 1 else 0)
    decreases |ds|
  {
    if ds != [] {
      assert cids[0] in ds[1..] ==> cids[0] != ds[0];
      SumCountsTail(cids, ds[1..]);
    }
  }

  /** Summing over a duplicate-free list that covers the papers' clusters counts each paper once. */
  lemma {:induction false} SumCountsCovers(cids: seq<int>, ds: seq<int>)
    requires forall i, j :: 0 <= i < j < |ds| ==> ds[i] != ds[j]
    requires forall i :: 0 <= i < |cids| ==> cids[i] in ds
    ensures SumCounts(cids, ds) == |cids|
    decreases |cids|
  {
    if cids == [] {
      SumCountsOfNothing(ds);
    } else {
      SumCountsTail(cids, ds);
      assert forall i :: 0 <= i < |cids| - 1 ==> cids[1..][i] == cids[i + 1];
      SumCountsCovers(cids[1..], ds);
    }
  }

  lemma {:induction false} SumCountsOfNothing(ds: seq<int>)
    ensures SumCounts([], ds) == 0
    decreases |ds|
  {
    if ds != [] {
      SumCountsOfNothing(ds[1..]);
    }
  }

  /** The legend sizes add up to the node count. */
  lemma LegendSizesSum(cids: seq<int>, labels: map<int, string>)
    ensures SumCounts(cids, Distincts(cids)) == |cids|
    ensures forall c :: c in Distincts(cids) ==> Legend(cids, labels)[IntToString(c)].size == Count(cids, c)
  {
    var ds := Distincts(cids);
    assert forall i :: 0 <= i < |cids| ==> cids[i] in ds;
    SumCountsCovers(cids, ds);
  }
}
