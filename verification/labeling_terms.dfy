/** The term side of `labeling.label_clusters_default`: the module's own copy of the generic-phrase
    test, the greedy choice of each cluster's top TF-IDF terms, the pool of candidate label
    phrases, and the representative-title fallback. TF-IDF weights and embeddings are numeric
    work done elsewhere; their outcome enters as the ranked vocabulary. */
module LabelingTerms {
  import opened Wrappers
  import opened Text
  import GenericPhrase
  import LexOrder

  /** The stoplist `label_clusters_default` declares for itself. */
  const LocalStoplist: set<string> := {
    "artificial", "intelligence", "language", "agent", "agents", "model", "models",
    "system", "systems", "approach", "method", "task", "dataset", "framework", "paper", "study"
  }

  /** The two copies of the stoplist hold the same words. */
  lemma SameStoplist()
    ensures LocalStoplist == GenericPhrase.Stoplist
  {
  }

  /** Every token seen so far normalises to a stoplisted word. */
  ghost predicate AllStoplisted(toks: seq<string>) {
    forall t :: t in toks ==> GenericPhrase.Normalize(t) in LocalStoplist
  }

  /** Appending one token keeps "all stoplisted" exactly when that token is stoplisted. */
  lemma StoplistedSnoc(toks: seq<string>, tok: string)
    ensures AllStoplisted(toks + [tok]) <==> AllStoplisted(toks) && GenericPhrase.Normalize(tok) in LocalStoplist
  {
    assert tok in toks + [tok];
    assert forall t :: t in toks ==> t in toks + [tok];
  }

  /** The tokens `done` found so far, followed by the tokens of the rest `s[i..]`, are the
      tokens of `s`. */
  ghost predicate Scanned(s: string, i: nat, done: seq<string>) {
    i <= |s| && Runs(s, IsAsciiAlnum) == done + Runs(s[i..], IsAsciiAlnum)
  }

  /** One word of the scan: the maximal run `s[i..j]` is the next token found. */
  lemma ScanWord(s: string, i: nat, j: nat, done: seq<string>)
    requires i < j <= |s| && Scanned(s, i, done)
    requires forall k :: i <= k < j ==> IsAsciiAlnum(s[k])
    requires j == |s| || !IsAsciiAlnum(s[j])
    ensures Scanned(s, j, done + [s[i..j]])
    ensures AllStoplisted(done + [s[i..j]]) <==>
      AllStoplisted(done) && GenericPhrase.Normalize(s[i..j]) in LocalStoplist
  {
    RunsAtWord(s, i, j, IsAsciiAlnum);
    assert done + [s[i..j]] + Runs(s[j..], IsAsciiAlnum) == done + ([s[i..j]] + Runs(s[j..], IsAsciiAlnum));
    StoplistedSnoc(done, s[i..j]);
  }

  /** One separator of the scan: a character outside every token is skipped. */
  lemma ScanGap(s: string, i: nat, done: seq<string>)
    requires i < |s| && Scanned(s, i, done) && !IsAsciiAlnum(s[i])
    ensures Scanned(s, i + 1, done)
  {
    RunsAtGap(s, i, IsAsciiAlnum);
  }

  /** The `findall` scan over already lower-cased text: counts the `[A-Za-z0-9]+` tokens and
      tells whether every one of them normalises to a stoplisted word. */
  method ScanTokens(s: string) returns (count: nat, allStop: bool)
    ensures count == |Runs(s, IsAsciiAlnum)|
    ensures allStop <==> AllStoplisted(Runs(s, IsAsciiAlnum))
  {
    count := 0;
    allStop := true;
    ghost var done: seq<string> := [];
    var i := 0;
    while i < |s|
      invariant Scanned(s, i, done)
      invariant count == |done|
      invariant allStop <==> AllStoplisted(done)
    {
      if !IsAsciiAlnum(s[i]) {
        ScanGap(s, i, done);
        i := i + 1;
      } else {
        var j := i + 1;
        while j < |s| && IsAsciiAlnum(s[j])
          invariant i < j <= |s|
          invariant forall k :: i <= k < j ==> IsAsciiAlnum(s[k])
        {
          j := j + 1;
        }
        var tok := s[i..j];
        ScanWord(s, i, j, done);
        allStop := allStop && GenericPhrase.Normalize(tok) in LocalStoplist;
        done := done + [tok];
        count := count + 1;
        i := j;
      }
    }
    assert s[|s|..] == [];
  }

  /** `_is_generic_phrase`, the nested copy: no token, or every normalised token stoplisted
      (a single stoplisted token being a special case of the latter). It agrees with
      `utils.is_generic_phrase` on every input. */
  method IsGenericPhraseScan(phrase: Option<string>) returns (generic: bool)
    ensures generic == GenericPhrase.IsGenericPhrase(phrase)
  {
    var count, allStop := ScanTokens(Lower(OrEmpty(phrase)));
    SameStoplist();
    generic := count == 0 || allStop;
  }

  // ---------------------------------------------------------------------------
  // Top TF-IDF terms of one cluster

  /** `t in u or u in t`. */
  predicate Overlaps(t: string, u: string) {
    Contains(u, t) || Contains(t, u)
  }

  /** The effective cap: the term is appended before the `len(chosen) >= topk_terms` test, so a
      cap below one still admits one term. */
  function Cap(topk: int): nat {
    if topk < 1 then 1 else topk
  }

  /** `idx` places the elements of `a` at increasing positions of `b`. */
  ghost predicate Embeds(a: seq<string>, b: seq<string>, idx: seq<nat>) {
    && |idx| == |a|
    && (forall k :: 0 <= k < |a| ==> idx[k] < |b| && b[idx[k]] == a[k])
    && (forall k, l :: 0 <= k < l < |a| ==> idx[k] < idx[l])
  }

  ghost predicate IsSubsequence(a: seq<string>, b: seq<string>) {
    exists idx :: Embeds(a, b, idx)
  }

  /** Extending an embedding whose positions all lie before `j` by the element at `j`. */
  lemma EmbedsAppend(a: seq<string>, b: seq<string>, idx: seq<nat>, j: nat)
    requires Embeds(a, b, idx) && j < |b|
    requires forall k :: 0 <= k < |idx| ==> idx[k] < j
    ensures Embeds(a + [b[j]], b, idx + [j])
    ensures forall k :: 0 <= k < |idx + [j]| ==> (idx + [j])[k] < j + 1
  {
  }

  /** No chosen term is generic and no two chosen terms overlap. */
  ghost predicate Distinctive(chosen: seq<string>) {
    && (forall i :: 0 <= i < |chosen| ==> !GenericPhrase.IsGenericPhrase(Some(chosen[i])))
    && (forall i, j :: 0 <= i < |chosen| && 0 <= j < |chosen| && i != j ==> !Overlaps(chosen[i], chosen[j]))
  }

  /** Why `t` is not (or need not be) taken next to `chosen`: it is generic or overlaps a term
      already there. */
  ghost predicate Excluded(t: string, chosen: seq<string>) {
    GenericPhrase.IsGenericPhrase(Some(t)) || exists u :: u in chosen && Overlaps(t, u)
  }

  lemma DistinctiveAppend(chosen: seq<string>, t: string)
    requires Distinctive(chosen) && !Excluded(t, chosen)
    ensures Distinctive(chosen + [t])
  {
    var c := chosen + [t];
    forall i, j | 0 <= i < |c| && 0 <= j < |c| && i != j ensures !Overlaps(c[i], c[j]) {
      if j == |chosen| {
        assert c[i] in chosen;
      } else if i == |chosen| {
        assert c[j] in chosen;
      }
    }
  }

  lemma ExcludedGrows(t: string, chosen: seq<string>, x: string)
    requires Excluded(t, chosen)
    ensures Excluded(t, chosen + [x])
  {
    if !GenericPhrase.IsGenericPhrase(Some(t)) {
      var u :| u in chosen && Overlaps(t, u);
      assert u in chosen + [x];
    }
  }

  /** Once `ranked[j]` is taken, it and every term passed over before it are excluded. */
  lemma ExcludedAfterTaking(ranked: seq<string>, j: nat, chosen: seq<string>)
    requires j < |ranked|
    requires forall k :: 0 <= k < j ==> Excluded(ranked[k], chosen)
    ensures forall k :: 0 <= k <= j ==> Excluded(ranked[k], chosen + [ranked[j]])
  {
    var t := ranked[j];
    forall k | 0 <= k < j ensures Excluded(ranked[k], chosen + [t]) {
      ExcludedGrows(ranked[k], chosen, t);
    }
    ContainsBasics(t);
    assert t in chosen + [t] && Overlaps(t, t);
  }

  /** The loop state after the first `j` vocabulary terms: the chosen terms are distinctive,
      embedded in order at positions before `j`, and every term passed so far is excluded. */
  ghost predicate Selecting(ranked: seq<string>, j: nat, chosen: seq<string>, idx: seq<nat>)
    requires j <= |ranked|
  {
    && Distinctive(chosen)
    && Embeds(chosen, ranked, idx) && (forall k :: 0 <= k < |idx| ==> idx[k] < j)
    && (forall k :: 0 <= k < j ==> Excluded(ranked[k], chosen))
  }

  /** Passing over `ranked[j]`, which is excluded, keeps the loop state. */
  lemma SkipStep(ranked: seq<string>, j: nat, chosen: seq<string>, idx: seq<nat>)
    requires j < |ranked| && Selecting(ranked, j, chosen, idx) && Excluded(ranked[j], chosen)
    ensures Selecting(ranked, j + 1, chosen, idx)
  {
  }

  /** Taking `ranked[j]`, which is not excluded, keeps the loop state. */
  lemma TakeStep(ranked: seq<string>, j: nat, chosen: seq<string>, idx: seq<nat>)
    requires j < |ranked| && Selecting(ranked, j, chosen, idx) && !Excluded(ranked[j], chosen)
    ensures Selecting(ranked, j + 1, chosen + [ranked[j]], idx + [j])
  {
    DistinctiveAppend(chosen, ranked[j]);
    ExcludedAfterTaking(ranked, j, chosen);
    EmbedsAppend(chosen, ranked, idx, j);
  }

  /** Reference definition of the greedy walk: from position `j` of the ranking on, with the
      terms `chosen` so far, take each term that is not excluded, and stop right after the term
      that brings the count to `cap`. */
  ghost function GreedyFrom(ranked: seq<string>, j: nat, cap: nat, chosen: seq<string>): seq<string>
    requires j <= |ranked|
    decreases |ranked| - j
  {
    if j == |ranked| then chosen
    else if Excluded(ranked[j], chosen) then GreedyFrom(ranked, j + 1, cap, chosen)
    else if |chosen| + 1 >= cap then chosen + [ranked[j]]
    else GreedyFrom(ranked, j + 1, cap, chosen + [ranked[j]])
  }

  /** An excluded term is passed over. */
  lemma GreedySkip(ranked: seq<string>, j: nat, cap: nat, chosen: seq<string>)
    requires j < |ranked| && Excluded(ranked[j], chosen)
    ensures GreedyFrom(ranked, j, cap, chosen) == GreedyFrom(ranked, j + 1, cap, chosen)
  {
  }

  /** Any other term is taken, and the walk ends once `cap` terms are taken. */
  lemma GreedyTake(ranked: seq<string>, j: nat, cap: nat, chosen: seq<string>)
    requires j < |ranked| && !Excluded(ranked[j], chosen)
    ensures GreedyFrom(ranked, j, cap, chosen) ==
      if |chosen| + 1 >= cap then chosen + [ranked[j]]
      else GreedyFrom(ranked, j + 1, cap, chosen + [ranked[j]])
  {
  }

  /** The terms the greedy walk over the whole ranking chooses. */
  ghost function Greedy(ranked: seq<string>, cap: nat): seq<string> {
    GreedyFrom(ranked, 0, cap, [])
  }

  /** The state of the selection loop before position `j`: below the cap, the loop state of
      `Selecting`, and the greedy walk from here on still ends in the greedy choice. */
  ghost predicate Walking(ranked: seq<string>, j: nat, cap: nat, chosen: seq<string>, idx: seq<nat>) {
    && j <= |ranked| && |chosen| < cap
    && Selecting(ranked, j, chosen, idx)
    && GreedyFrom(ranked, j, cap, chosen) == Greedy(ranked, cap)
  }

  lemma WalkSkip(ranked: seq<string>, j: nat, cap: nat, chosen: seq<string>, idx: seq<nat>)
    requires j < |ranked| && Walking(ranked, j, cap, chosen, idx) && Excluded(ranked[j], chosen)
    ensures Walking(ranked, j + 1, cap, chosen, idx)
  {
    SkipStep(ranked, j, chosen, idx);
    GreedySkip(ranked, j, cap, chosen);
  }

  lemma WalkTake(ranked: seq<string>, j: nat, cap: nat, chosen: seq<string>, idx: seq<nat>)
    requires j < |ranked| && Walking(ranked, j, cap, chosen, idx) && !Excluded(ranked[j], chosen)
    ensures var c := chosen + [ranked[j]];
      && Distinctive(c) && Embeds(c, ranked, idx + [j])
      && (|c| >= cap ==> c == Greedy(ranked, cap))
      && (|c| < cap ==> Walking(ranked, j + 1, cap, c, idx + [j]))
  {
    TakeStep(ranked, j, chosen, idx);
    GreedyTake(ranked, j, cap, chosen);
  }

  /** A walk through the whole ranking that stayed below the cap. */
  lemma WalkEnd(ranked: seq<string>, cap: nat, chosen: seq<string>, idx: seq<nat>)
    requires Walking(ranked, |ranked|, cap, chosen, idx)
    ensures chosen == Greedy(ranked, cap) && Distinctive(chosen) && Embeds(chosen, ranked, idx)
    ensures forall t :: t in ranked ==> Excluded(t, chosen)
  {
    forall t | t in ranked ensures Excluded(t, chosen) {
      var k :| 0 <= k < |ranked| && ranked[k] == t;
    }
  }

  /** One pass of the loop body for `ranked[j]`: skip it when it is generic or overlaps a
      chosen term, otherwise take it; `full` says the cap is reached and the loop breaks. */
  method SelectStep(ranked: seq<string>, j: nat, topk: int, chosen: seq<string>, ghost idx: seq<nat>)
    returns (chosen': seq<string>, ghost idx': seq<nat>, full: bool)
    requires j < |ranked| && Walking(ranked, j, Cap(topk), chosen, idx)
    ensures chosen' == chosen || chosen' == chosen + [ranked[j]]
    ensures full ==> && chosen' == Greedy(ranked, Cap(topk)) && |chosen'| == Cap(topk)
                     && Distinctive(chosen') && Embeds(chosen', ranked, idx')
    ensures !full ==> Walking(ranked, j + 1, Cap(topk), chosen', idx')
  {
    var t := ranked[j];
    var generic := IsGenericPhraseScan(Some(t));
    if generic || exists u | u in chosen :: Overlaps(t, u) {
      WalkSkip(ranked, j, Cap(topk), chosen, idx);
      return chosen, idx, false;
    }
    WalkTake(ranked, j, Cap(topk), chosen, idx);
    chosen', idx' := chosen + [t], idx + [j];
    full := |chosen'| >= topk;
  }

  /** The loop over `top_idx_all`: walking the vocabulary from the highest mean TF-IDF down, a
      term is taken unless it is generic or overlaps (as a substring, either way) a term already
      taken, until the cap is reached. A cluster whose mean TF-IDF vector is all zero gets none.
      Below the cap, every term of the vocabulary was taken or had a reason to be passed over. */
  method SelectTerms(ranked: seq<string>, topk: int, anyWeight: bool) returns (chosen: seq<string>)
    ensures !anyWeight ==> chosen == []
    ensures |chosen| <= Cap(topk)
    ensures Distinctive(chosen)
    ensures IsSubsequence(chosen, ranked)
    ensures anyWeight && |chosen| < Cap(topk) ==> forall t :: t in ranked ==> Excluded(t, chosen)
    ensures anyWeight ==> chosen == Greedy(ranked, Cap(topk))
  {
    chosen := [];
    ghost var idx: seq<nat> := [];
    ghost var cap := Cap(topk);
    assert Embeds([], ranked, []);
    if !anyWeight {
      return;
    }
    for j := 0 to |ranked|
      invariant Walking(ranked, j, cap, chosen, idx)
    {
      var full;
      chosen, idx, full := SelectStep(ranked, j, topk, chosen, idx);
      if full {
        return;
      }
    }
    WalkEnd(ranked, cap, chosen, idx);
  }

  /** Every chosen term comes from the vocabulary. */
  lemma SelectedFromVocabulary(chosen: seq<string>, ranked: seq<string>)
    requires IsSubsequence(chosen, ranked)
    ensures forall t :: t in chosen ==> t in ranked
  {
    var idx :| Embeds(chosen, ranked, idx);
    forall t | t in chosen ensures t in ranked {
      var k :| 0 <= k < |chosen| && chosen[k] == t;
      assert ranked[idx[k]] == t;
    }
  }

  // ---------------------------------------------------------------------------
  // Candidate label phrases

  /** The phrases used when neither the clusters nor the caller offer any. */
  const DefaultPhrases: set<string> := {"reinforcement learning", "governance", "robustness", "evaluation"}

  /** `cand`: every chosen term of every cluster, plus the extra phrases when there are any,
      or else the default phrases. */
  function CandidateSet(termsByCluster: seq<seq<string>>, extra: Option<seq<string>>): (cand: set<string>)
    ensures cand != {}
  {
    var fromTerms := set i, t | 0 <= i < |termsByCluster| && t in termsByCluster[i] :: t;
    var all := if extra.Some? && extra.value != [] then fromTerms + (set t | t in extra.value) else fromTerms;
    if all == {} then DefaultPhrases else all
  }

  /** `sorted(p for p in cand if not _is_generic_phrase(p))`. */
  method CandidatePhrases(termsByCluster: seq<seq<string>>, extra: Option<seq<string>>)
    returns (phrases: seq<string>)
    ensures LexOrder.Sorted(phrases)
    ensures forall p :: p in phrases <==>
      p in CandidateSet(termsByCluster, extra) && !GenericPhrase.IsGenericPhrase(Some(p))
  {
    var cand := CandidateSet(termsByCluster, extra);
    var remaining := cand;
    phrases := [];
    while remaining != {}
      invariant remaining <= cand
      invariant LexOrder.Sorted(phrases)
      invariant forall p :: p in phrases <==>
        p in cand && p !in remaining && !GenericPhrase.IsGenericPhrase(Some(p))
      decreases remaining
    {
      var p :| p in remaining;
      var generic := IsGenericPhraseScan(Some(p));
      if !generic {
        phrases := LexOrder.Insert(phrases, p);
      }
      remaining := remaining - {p};
    }
  }

  /** A phrase in lower case whose first word is a lower-case alphabetic word outside the
      stoplist is informative. */
  lemma InformativeFirstWord(w: string, rest: string)
    requires w != [] && forall k :: 0 <= k < |w| ==> 'a' <= w[k] <= 'z'
    requires rest == [] || !IsAsciiAlnum(rest[0])
    requires forall k :: 0 <= k < |rest| ==> !('A' <= rest[k] <= 'Z')
    requires GenericPhrase.Normalize(w) !in GenericPhrase.Stoplist
    ensures !GenericPhrase.IsGenericPhrase(Some(w + rest))
  {
    assert Lower(w + rest) == w + rest;
    RunsOfWord(w, rest, IsAsciiAlnum);
    assert w in GenericPhrase.Tokens(Some(w + rest));
  }

  /** The same, for a phrase whose first `n` characters form that word. */
  lemma InformativePrefix(p: string, n: nat)
    requires 0 < n < |p| && forall k :: 0 <= k < n ==> 'a' <= p[k] <= 'z'
    requires !IsAsciiAlnum(p[n])
    requires forall k :: n <= k < |p| ==> !('A' <= p[k] <= 'Z')
    requires GenericPhrase.Normalize(p[..n]) !in GenericPhrase.Stoplist
    ensures !GenericPhrase.IsGenericPhrase(Some(p))
  {
    assert p == p[..n] + p[n..];
    InformativeFirstWord(p[..n], p[n..]);
  }

  lemma GovernanceIsInformative()
    ensures !GenericPhrase.IsGenericPhrase(Some("governance"))
  {
    InformativeFirstWord("governance", "");
    assert "governance" + "" == "governance";
  }

  lemma RobustnessIsInformative()
    ensures !GenericPhrase.IsGenericPhrase(Some("robustness"))
  {
    assert GenericPhrase.Normalize("robustness") == "robustnes";
    InformativeFirstWord("robustness", "");
    assert "robustness" + "" == "robustness";
  }

  lemma EvaluationIsInformative()
    ensures !GenericPhrase.IsGenericPhrase(Some("evaluation"))
  {
    InformativeFirstWord("evaluation", "");
    assert "evaluation" + "" == "evaluation";
  }

  lemma ReinforcementLearningIsInformative()
    ensures !GenericPhrase.IsGenericPhrase(Some("reinforcement learning"))
  {
    var p := "reinforcement learning";
    assert p[..13] == "reinforcement";
    InformativePrefix(p, 13);
  }

  /** None of the default phrases is generic. */
  lemma DefaultsAreInformative()
    ensures !GenericPhrase.IsGenericPhrase(Some("evaluation"))
    ensures !GenericPhrase.IsGenericPhrase(Some("governance"))
    ensures !GenericPhrase.IsGenericPhrase(Some("reinforcement learning"))
    ensures !GenericPhrase.IsGenericPhrase(Some("robustness"))
  {
    EvaluationIsInformative();
    GovernanceIsInformative();
    ReinforcementLearningIsInformative();
    RobustnessIsInformative();
  }

  /** The default phrases in sorted order. */
  const SortedDefaults: seq<string> := ["evaluation", "governance", "reinforcement learning", "robustness"]

  lemma SortedDefaultsSorted()
    ensures LexOrder.Sorted(SortedDefaults)
  {
    var d := SortedDefaults;
    assert LexOrder.Less(d[0], d[1]);
    assert LexOrder.Less(d[1], d[2]);
    assert LexOrder.Less(d[2], d[3]);
    LexOrder.Transitive(d[0], d[1], d[2]);
    LexOrder.Transitive(d[1], d[2], d[3]);
    LexOrder.Transitive(d[0], d[2], d[3]);
  }

  lemma SortedDefaultsMembers(p: string)
    ensures p in SortedDefaults <==> p in DefaultPhrases && !GenericPhrase.IsGenericPhrase(Some(p))
  {
    DefaultsAreInformative();
  }

  /** With no cluster terms and no extra phrases, the candidates are the four default phrases
      in sorted order. */
  lemma DefaultCandidates(termsByCluster: seq<seq<string>>, extra: Option<seq<string>>, phrases: seq<string>)
    requires forall i :: 0 <= i < |termsByCluster| ==> termsByCluster[i] == []
    requires extra == None || extra == Some([])
    requires LexOrder.Sorted(phrases)
    requires forall p :: p in phrases <==>
      p in CandidateSet(termsByCluster, extra) && !GenericPhrase.IsGenericPhrase(Some(p))
    ensures phrases == SortedDefaults
  {
    var fromTerms := set i, t | 0 <= i < |termsByCluster| && t in termsByCluster[i] :: t;
    assert fromTerms == {};
    assert CandidateSet(termsByCluster, extra) == DefaultPhrases;
    forall p ensures p in phrases <==> p in SortedDefaults {
      SortedDefaultsMembers(p);
    }
    SortedDefaultsSorted();
    LexOrder.SortedUnique(phrases, SortedDefaults);
  }

  // ---------------------------------------------------------------------------
  // Representative title

  /** No line break in `s[from..]` except possibly the very last character. */
  predicate OnLastLine(s: string, from: nat) {
    forall k | from <= k < |s| - 1 :: s[k] != '\n'
  }

  /** Where `re.sub(r":.*$", "", title)` starts cutting: the first colon from which `.*`
      (which stops at line breaks) can reach the end, or a final line break, of the title. */
  function CutPoint(s: string, from: nat): (p: Option<nat>)
    ensures p.Some? ==> from <= p.value < |s| && s[p.value] == ':' && OnLastLine(s, p.value + 1)
    ensures p.Some? ==> forall k :: from <= k < p.value ==> !(s[k] == ':' && OnLastLine(s, k + 1))
    ensures p.None? ==> forall k :: from <= k < |s| ==> !(s[k] == ':' && OnLastLine(s, k + 1))
    decreases |s| - from
  {
    if from >= |s| then None
    else if s[from] == ':' && OnLastLine(s, from + 1) then Some(from)
    else CutPoint(s, from + 1)
  }

  /** `re.sub(r":.*$", "", title or "").strip()`: the matched text runs from the cut point to the
      end of the title, stopping short of a final line break, which the strip then removes; so
      the result is the stripped title before the cut point, or the whole stripped title. */
  function RepresentativeTitle(title: Option<string>): (r: string)
    ensures r == [] || (!IsSpace(r[0]) && !IsSpace(r[|r| - 1]))
    ensures CutPoint(OrEmpty(title), 0).None? ==> r == Strip(OrEmpty(title))
    ensures CutPoint(OrEmpty(title), 0).Some? ==>
      r == Strip(OrEmpty(title)[..CutPoint(OrEmpty(title), 0).value])
  {
    var s := OrEmpty(title);
    match CutPoint(s, 0)
    case None => StripEnds(s); Strip(s)
    case Some(p) =>
      var end := if s[|s| - 1] == '\n' then |s| - 1 else |s|;
      assert s[..p] + s[end..] == if end < |s| then s[..p] + ['\n'] else s[..p];
      StripTrailingSpace(s[..p], '\n');
      StripEnds(s[..p]);
      Strip(s[..p] + s[end..])
  }

  /** For a single-line title: everything from the first colon on is dropped, then the rest is
      stripped; without a colon the title is only stripped. */
  lemma SingleLineTitle(s: string)
    requires '\n' !in s
    ensures ':' !in s ==> RepresentativeTitle(Some(s)) == Strip(s)
    ensures forall p :: 0 <= p < |s| && s[p] == ':' && ':' !in s[..p] ==>
      RepresentativeTitle(Some(s)) == Strip(s[..p])
  {
    forall k | 1 <= k <= |s| ensures OnLastLine(s, k) {
      forall m | k <= m < |s| - 1 ensures s[m] != '\n' {
        assert s[m] in s;
      }
    }
    if |s| > 0 {
      assert s[|s| - 1] in s;
      assert s[|s|..] == [];
    }
    forall p | 0 <= p < |s| && s[p] == ':' && ':' !in s[..p]
      ensures RepresentativeTitle(Some(s)) == Strip(s[..p])
    {
      forall k | 0 <= k < p ensures s[k] != ':' {
        assert s[..p][k] == s[k];
      }
      assert CutPoint(s, 0) == Some(p);
      assert s[..p] + s[|s|..] == s[..p];
    }
    if ':' !in s {
      assert CutPoint(s, 0) == None;
    }
  }

  /** A single-line representative title has no colon and no surrounding whitespace. */
  lemma SingleLineTitleHasNoColon(s: string)
    requires '\n' !in s
    ensures ':' !in RepresentativeTitle(Some(s))
    ensures var r := RepresentativeTitle(Some(s)); r == [] || (!IsSpace(r[0]) && !IsSpace(r[|r| - 1]))
  {
    SingleLineTitle(s);
    if ':' in s {
      var p := FirstColon(s);
      assert ':' !in s[..p];
      StripKeepsOut(s[..p], ':');
    }
  }

  /** The position of the first colon of `s`. */
  function FirstColon(s: string): (p: nat)
    requires ':' in s
    ensures p < |s| && s[p] == ':' && ':' !in s[..p]
  {
    if s[0] == ':' then 0
    else
      assert ':' in s[1..];
      var q := FirstColon(s[1..]);
      assert s[..q + 1] == [s[0]] + s[1..][..q];
      q + 1
  }
}
