/** The stage-1 gate of `filters.py`: arXiv category strings are classified into a domain tag
    and a "policy-ish" flag, and each raw paper is kept or skipped according to two keyword
    regular expressions, which are taken here as opaque predicates on text. */
module Filters {
  import opened Wrappers
  import opened Text

  /** The values of `domain_from_arxiv_categories`. */
  datatype Domain = Both | Gov | Tech | Unknown {
    function Tag(): string {
      match this
      case Both => "both"
      case Gov => "gov"
      case Tech => "tech"
      case Unknown => "unknown"
    }
  }

  /** `_POLICYish_CATS`. */
  const PolicyishCats: seq<string> := ["cs.CY", "cs.SI", "cs.CR"]

  /** `set((categories or "").split())`. */
  function CategorySet(categories: Option<string>): set<string> {
    set c | c in Split(OrEmpty(categories))
  }

  predicate IsEcon(c: string) {
    StartsWith(c, "econ.")
  }

  predicate IsTechnical(c: string) {
    StartsWith(c, "cs.") || StartsWith(c, "stat.")
  }

  ghost predicate HasEcon(cats: set<string>) {
    exists c :: c in cats && IsEcon(c)
  }

  ghost predicate HasTechnical(cats: set<string>) {
    exists c :: c in cats && IsTechnical(c)
  }

  /** `domain_from_arxiv_categories`: "both" exactly when an `econ.` and a `cs.`/`stat.`
      category are present, "gov" or "tech" when only one kind is, "unknown" otherwise. */
  function DomainOf(categories: Option<string>): (d: Domain)
    ensures var cats := CategorySet(categories);
      && (d == Both <==> HasEcon(cats) && HasTechnical(cats))
      && (d == Gov <==> HasEcon(cats) && !HasTechnical(cats))
      && (d == Tech <==> !HasEcon(cats) && HasTechnical(cats))
      && (d == Unknown <==> !HasEcon(cats) && !HasTechnical(cats))
  {
    var cats := CategorySet(categories);
    var gov := exists c | c in cats :: IsEcon(c);
    var tech := exists c | c in cats :: IsTechnical(c);
    if gov && tech then Both
    else if gov then Gov
    else if tech then Tech
    else Unknown
  }

  /** `_policyish`: some `econ.` category, or one of cs.CY, cs.SI, cs.CR. */
  predicate Policyish(categories: Option<string>): (r: bool)
    ensures var cats := CategorySet(categories);
      r <==> HasEcon(cats) || exists i :: 0 <= i < |PolicyishCats| && PolicyishCats[i] in cats
  {
    var cats := CategorySet(categories);
    if exists c | c in cats :: IsEcon(c) then true
    else exists p | p in PolicyishCats :: p in cats
  }

  /** Missing or empty categories classify as "unknown" and are not policy-ish. */
  lemma EmptyCategories(categories: Option<string>)
    requires categories == None || categories == Some("")
    ensures DomainOf(categories) == Unknown && !Policyish(categories)
  {
    assert CategorySet(categories) == {};
  }

  /** Every "gov" or "both" paper is policy-ish. */
  lemma GovernanceIsPolicyish(categories: Option<string>)
    requires DomainOf(categories) in {Gov, Both}
    ensures Policyish(categories)
  {
  }

  /** A category list written as space-separated tokens yields exactly those tokens. */
  lemma CategorySetOfJoin(ws: seq<string>)
    requires forall i :: 0 <= i < |ws| ==> ws[i] != [] && All(ws[i], NotSpace)
    ensures CategorySet(Some(Join(ws, " "))) == set c | c in ws
  {
    SplitJoinRoundTrip(ws);
  }

  /** Neither classifier depends on the order of the categories or on repeated ones. */
  lemma IgnoresOrderAndRepeats(ws1: seq<string>, ws2: seq<string>)
    requires forall i :: 0 <= i < |ws1| ==> ws1[i] != [] && All(ws1[i], NotSpace)
    requires forall i :: 0 <= i < |ws2| ==> ws2[i] != [] && All(ws2[i], NotSpace)
    requires forall c :: c in ws1 <==> c in ws2
    ensures DomainOf(Some(Join(ws1, " "))) == DomainOf(Some(Join(ws2, " ")))
    ensures Policyish(Some(Join(ws1, " "))) == Policyish(Some(Join(ws2, " ")))
  {
    CategorySetOfJoin(ws1);
    CategorySetOfJoin(ws2);
    assert CategorySet(Some(Join(ws1, " "))) == CategorySet(Some(Join(ws2, " ")));
  }

  // ---------------------------------------------------------------------------
  // Stage-1 gate (`cmd_stage1`)

  /** A `papers_raw` row, with SQL NULL as `None`. */
  datatype RawRow = RawRow(
    id: string, title: Option<string>, summary: Option<string>, authors: Option<string>,
    published: Option<string>, link: Option<string>, categories: Option<string>)

  /** The values stage 1 upserts into `papers`. */
  datatype Candidate = Candidate(
    id: string, title: Option<string>, authors: Option<string>, published: Option<string>,
    summary: Option<string>, link: Option<string>, aiRegexHit: bool, domainTag: Domain)

  /** `_looks_like_ai_safety`: the AI-safety pattern searched in title and abstract. */
  predicate TextHit(row: RawRow, aiSafety: string -> bool) {
    aiSafety(OrEmpty(row.title) + "\n" + OrEmpty(row.summary))
  }

  /** The category-gated hit: the second pattern is consulted only for a policy-ish paper
      that the first pattern missed. */
  predicate CategoryHit(row: RawRow, aiSafety: string -> bool, aiMention: string -> bool) {
    if !TextHit(row, aiSafety) && Policyish(Some(OrEmpty(row.categories))) then
      aiMention(OrEmpty(row.title) + " " + OrEmpty(row.summary))
    else
      false
  }

  /** One iteration of the stage-1 loop: `None` when the row is skipped. */
  function Gate(row: RawRow, aiSafety: string -> bool, aiMention: string -> bool, keepAll: bool)
    : (r: Option<Candidate>)
    ensures r == None <==> !TextHit(row, aiSafety) && !CategoryHit(row, aiSafety, aiMention) && !keepAll
    ensures r.Some? ==> && r.value.id == row.id
                        && r.value.aiRegexHit == TextHit(row, aiSafety)
                        && r.value.domainTag == DomainOf(row.categories)
  {
    var cats := OrEmpty(row.categories);
    var textHit := TextHit(row, aiSafety);
    var catHit := CategoryHit(row, aiSafety, aiMention);
    var hit := textHit || catHit;
    if !hit && !keepAll then None
    else
      Some(Candidate(row.id, row.title, row.authors, row.published, row.summary, row.link,
                     textHit, DomainOf(Some(cats))))
  }

  /** The second pattern cannot influence a row the first pattern already hit, nor a row whose
      categories are not policy-ish: it is not even consulted there. */
  lemma MentionPatternConsultedOnlyWhenNeeded(
    row: RawRow, aiSafety: string -> bool, m1: string -> bool, m2: string -> bool, keepAll: bool)
    requires TextHit(row, aiSafety) || !Policyish(row.categories)
    ensures Gate(row, aiSafety, m1, keepAll) == Gate(row, aiSafety, m2, keepAll)
  {
  }

  /** The rows stage 1 copies, in input order. */
  function KeptRows(rows: seq<RawRow>, aiSafety: string -> bool, aiMention: string -> bool, keepAll: bool)
    : (r: seq<Candidate>)
    ensures |r| <= |rows|
    ensures keepAll ==> |r| == |rows|
    decreases |rows|
  {
    if rows == [] then []
    else
      var rest := KeptRows(rows[1..], aiSafety, aiMention, keepAll);
      match Gate(rows[0], aiSafety, aiMention, keepAll)
      case None => rest
      case Some(c) => [c] + rest
  }

  /** The candidates one gate decision contributes. */
  function Emitted(g: Option<Candidate>): seq<Candidate> {
    match g
    case None => []
    case Some(c) => [c]
  }

  /** Gating a longer list gates the prefix, then the new row. */
  lemma {:induction false} KeptRowsSnoc(
    rows: seq<RawRow>, row: RawRow, aiSafety: string -> bool, aiMention: string -> bool, keepAll: bool)
    ensures KeptRows(rows + [row], aiSafety, aiMention, keepAll)
         == KeptRows(rows, aiSafety, aiMention, keepAll) + Emitted(Gate(row, aiSafety, aiMention, keepAll))
    decreases |rows|
  {
    if rows == [] {
      assert [row][1..] == [];
    } else {
      assert (rows + [row])[1..] == rows[1..] + [row];
      KeptRowsSnoc(rows[1..], row, aiSafety, aiMention, keepAll);
    }
  }

  /** The rows kept from the first `i + 1` rows. */
  lemma KeptRowsStep(rows: seq<RawRow>, i: nat, aiSafety: string -> bool, aiMention: string -> bool, keepAll: bool)
    requires i < |rows|
    ensures KeptRows(rows[..i + 1], aiSafety, aiMention, keepAll)
         == KeptRows(rows[..i], aiSafety, aiMention, keepAll) + Emitted(Gate(rows[i], aiSafety, aiMention, keepAll))
  {
    var pre := rows[..i];
    assert rows[..i + 1] == pre + [rows[i]];
    KeptRowsSnoc(pre, rows[i], aiSafety, aiMention, keepAll);
  }

  /** `cmd_stage1`'s loop over `papers_raw`: returns the upserted candidates, in order, and the
      count it prints. */
  method Stage1(rows: seq<RawRow>, aiSafety: string -> bool, aiMention: string -> bool, keepAll: bool)
    returns (copied: seq<Candidate>, count: nat)
    ensures copied == KeptRows(rows, aiSafety, aiMention, keepAll)
    ensures count == |copied|
  {
    copied, count := [], 0;
    for i := 0 to |rows|
      invariant copied == KeptRows(rows[..i], aiSafety, aiMention, keepAll)
      invariant count == |copied|
    {
      var g := Gate(rows[i], aiSafety, aiMention, keepAll);
      KeptRowsStep(rows, i, aiSafety, aiMention, keepAll);
      match g
      case None =>
      case Some(c) =>
        copied := copied + [c];
        count := count + 1;
    }
    assert rows[..|rows|] == rows;
  }
}
