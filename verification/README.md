# aisafety_pipeline: the decision logic, modelled in Dafny

`aisafety_pipeline` harvests arXiv papers over OAI-PMH, and gates them by keyword and by
category. It embeds and clusters the papers, labels the clusters, and exports a force-directed
graph as JSON. Most of it is SQLite, network, numpy and sklearn glue. This project models the
pure decision procedures inside that glue and proves what they promise.

The modules follow the source files:

| file | module | models |
|---|---|---|
| `wrappers.dfy` | `Wrappers` | `Option` (Python `None`-or-value) and `Result` (value-or-raised-error) |
| `text.dfy` | `Text` | the Python `str` operations the pipeline relies on:<br>• `strip()` and `split()` with Python's whitespace set<br>• the `[A-Za-z0-9]+` tokeniser<br>• `lower()`, `startswith`, `in` and `join` |
| `generic_phrase.dfy` | `GenericPhrase` | `utils.is_generic_phrase` and its stoplist |
| `filters.dfy` | `Filters` | the category → domain-tag classifier, `_policyish`, and the stage-1 keep/skip gate |
| `device.dfy` | `Device` | `EmbeddingGenerator._select_device` with the `device or "auto"` default |
| `oai.dfy` | `Oai` | record shaping, the resumption-token loop, the harvest date defaults and the per-set harvest loop |
| `lex_order.dfy` | `LexOrder` | Python's string order (code-point lexicographic) and sorted insertion |
| `labeling_terms.dfy` | `LabelingTerms` | `labeling.py`'s own generic-phrase test, greedy term selection, the candidate phrase list, and the representative title |
| `labeling_assign.dfy` | `LabelAssign` | the cluster visiting order and the primary-label assignment loop |
| `export_records.dfy` | `ExportRecords` | `_trim`, the paper/node/link records and the cluster legend of `export_json_graph` |
| `neighbors.dfy` | `Neighbors` | per-node top-k neighbour lists, in cluster-restricted and global mode |
| `cluster_mst.dfy` | `ClusterMst` | `_cluster_mst` (heap-driven Prim), and one tree per cluster |
| `edge_emit.dfy` | `EdgeEmit` | `_emit_edge` and the two emission loops: a canonical, de-duplicated edge list |

How the model stands in for the pieces it does not contain:

- **Similarities and confidences** are Dafny `real`s given as inputs:
  - a similarity matrix for the neighbour lists;
  - a similarity function for the spanning trees;
  - confidences for the labels.
- **The two keyword regular expressions** of `filters.py` are opaque predicates on text.
- **The XML tree** of an OAI-PMH response is a datatype.
- **The network** is replaced by the sequence of pages the repository answers with.
- **The state file and the clock** are parameters.

Where the code and its description disagree, the model follows the code:

- **Term selection cap** (`labeling.py:60-61`): a term is appended before the cap is tested, so `topk_terms <= 0` still yields one term. The bound is `LabelingTerms.Cap(topk)` = max(1, topk).
- **Negative `max_len`** (`export_graph.py:37`): `_trim` with a negative `max_len` slices from the end, as Python does. The result then keeps the first `max(0, len + max_len)` characters and appends "…", so it has length `max(0, len + max_len) + 1`, not `max_len + 1`. When `len + max_len <= 0` it is "…" alone.
- **Multi-line titles** (`labeling.py:100`): `re.sub(r":.*$", "", title)` has `.` stopping at line breaks and `$` matching only at the end. So in a multi-line title, only a colon on the last line starts the cut. `LabelingTerms.RepresentativeTitle` models exactly this; `SingleLineTitle` states the single-line promise.
- **Empty primary label** (`labeling.py:115`): the fallback to the representative title also happens when the chosen label is the empty string, because `not chosen_label` is true for `""`.
- **Reserved terms** (`labeling.py:114`): a term is reserved as soon as it is picked, also without `enforce_unique`. It is only consulted when `enforce_unique` is set.

## Model

| member | source | states |
|---|---|---|
| Text.Strip | src/aisafety_pipeline/export_graph.py:36 | the result is the input with leading and trailing Python whitespace removed: it occurs in the input surrounded only by whitespace, and neither starts nor ends with whitespace |
| Text.StripFixedPoint | src/aisafety_pipeline/oai.py:58 | stripping changes nothing exactly when the string is empty or neither starts nor ends with whitespace |
| Text.StripIdempotent | src/aisafety_pipeline/export_graph.py:36 | stripping twice is stripping once |
| Text.StripOfPadded | src/aisafety_pipeline/oai.py:58 | a string that is empty or neither starts nor ends with whitespace, surrounded only by whitespace, is what stripping yields |
| Text.StripTrailingSpace | src/aisafety_pipeline/labeling.py:100 | a trailing whitespace character does not change the strip |
| Text.StripSpaceJoin | src/aisafety_pipeline/oai.py:66 | `(f + " " + l).strip()` of stripped parts is the other part when one is empty, and `f + " " + l` otherwise |
| Text.StripKeepsOut | src/aisafety_pipeline/labeling.py:100 | stripping introduces no character that was not there |
| Text.Runs | src/aisafety_pipeline/utils.py:17 | every run found is non-empty and consists of the class only; which runs are found is stated by the two lemmas below |
| Text.RunsSkipGap | src/aisafety_pipeline/utils.py:17 | characters outside the class in front of the text produce no run |
| Text.RunsOfWord | src/aisafety_pipeline/utils.py:17 | a word of class characters followed by a non-class character (or the end) is found whole, as one run, before the runs of the rest |
| Text.RunsOfJoin | src/aisafety_pipeline/utils.py:17 | joining non-empty runs with a separator outside the class and splitting again gives back the runs |
| Text.SplitJoinRoundTrip | src/aisafety_pipeline/filters.py:44 | `" ".join(ws).split() == ws` for non-empty whitespace-free words |
| Text.Lower | src/aisafety_pipeline/utils.py:21 | lower-casing keeps the length and lowers each letter in place |
| Text.LowerForgetsCase | src/aisafety_pipeline/embeddings.py:55 | lower-casing forgets upper case, and is idempotent |
| Text.LowerConcat | src/aisafety_pipeline/utils.py:21 | lower-casing distributes over concatenation |
| Text.LowerJoin | src/aisafety_pipeline/utils.py:21 | lower-casing a joined string joins the lower-cased parts |
| Text.LowerKeepsAlnum | src/aisafety_pipeline/utils.py:17-21 | lower-casing keeps ASCII letters and digits inside the token class |
| GenericPhrase.IsGenericPhrase | src/aisafety_pipeline/utils.py:20-29 | a phrase is generic iff every normalised token of the lower-cased text is in the stoplist; the single-token test at line 25 adds nothing |
| GenericPhrase.NormalizeAll | src/aisafety_pipeline/utils.py:24 | the normalised tokens correspond one to one to the tokens |
| GenericPhrase.NoTokenIsGeneric | src/aisafety_pipeline/utils.py:21-23 | `None`, `""` and any phrase without an alphanumeric token are generic |
| GenericPhrase.InformativeToken | src/aisafety_pipeline/utils.py:27-29 | one token outside the stoplist makes the phrase non-generic |
| GenericPhrase.PluralFolding | src/aisafety_pipeline/utils.py:24 | a trailing "s" is dropped only from tokens longer than three characters: "models" becomes "model", "its" stays |
| GenericPhrase.CaseInsensitive | src/aisafety_pipeline/utils.py:21 | upper-casing a phrase does not change the verdict |
| GenericPhrase.TokensOfJoin | src/aisafety_pipeline/utils.py:17-21 | the tokens of space-joined alphanumeric words are those words, lower-cased |
| GenericPhrase.SameWordsSameTokens | src/aisafety_pipeline/utils.py:27 | word lists with the same members have lower-cased token lists with the same members |
| GenericPhrase.IgnoresOrderAndRepeats | src/aisafety_pipeline/utils.py:27 | permuting or repeating the words of a phrase does not change the verdict |
| Filters.DomainOf | src/aisafety_pipeline/filters.py:43-50 | "both" iff some category starts with `econ.` and some with `cs.` or `stat.`; "gov" iff only the first holds; "tech" iff only the second; "unknown" iff neither |
| Filters.Policyish | src/aisafety_pipeline/filters.py:29-40 | true iff some category starts with `econ.` or is one of cs.CY, cs.SI, cs.CR |
| Filters.EmptyCategories | src/aisafety_pipeline/filters.py:37-50 | `None` and `""` give domain "unknown" and are not policy-ish |
| Filters.GovernanceIsPolicyish | src/aisafety_pipeline/filters.py:38-48 | a "gov" or "both" domain implies policy-ish |
| Filters.CategorySetOfJoin | src/aisafety_pipeline/filters.py:44 | the category set of space-joined categories is the set of those categories |
| Filters.IgnoresOrderAndRepeats | src/aisafety_pipeline/filters.py:37-46 | permuting or repeating categories changes neither the domain nor policy-ishness |
| Filters.Gate | src/aisafety_pipeline/filters.py:76-86 | a row is skipped iff there is no text hit, no category hit and keep-all is off; a kept row carries its id, `ai_regex_hit` equal to the text hit alone, and the domain tag of its categories |
| Filters.MentionPatternConsultedOnlyWhenNeeded | src/aisafety_pipeline/filters.py:79-81 | with a text hit, or with categories that are not policy-ish, the second pattern cannot change the outcome |
| Filters.KeptRows | src/aisafety_pipeline/filters.py:76-85 | at most one candidate per row, and exactly one per row when keep-all is on |
| Filters.KeptRowsSnoc | src/aisafety_pipeline/filters.py:76-102 | processing one more row appends exactly that row's gate outcome |
| Filters.Stage1 | src/aisafety_pipeline/filters.py:75-102 | the loop copies exactly the kept rows, in order, and counts them |
| Device.Requested | src/aisafety_pipeline/embeddings.py:50 | `None` or `""` becomes "auto"; the request is never empty |
| Device.SelectDevice | src/aisafety_pipeline/embeddings.py:53-75 | "auto" gives cuda, else mps, else cpu; a "cuda…" request returns itself lower-cased when CUDA is available and fails otherwise; "mps" only with MPS; "cpu" always; any other request fails with the request in the error |
| Device.SelectedDeviceIsKnown | src/aisafety_pipeline/embeddings.py:62-74 | every success is "cpu", "mps" or starts with "cuda", is lower case, and names an available device |
| Device.SelectionIsStable | src/aisafety_pipeline/embeddings.py:53-75 | requesting the selected device again selects the same device |
| Device.CaseInsensitive | src/aisafety_pipeline/embeddings.py:55 | upper-casing the request changes neither success nor the device chosen |
| Oai.AuthorName | src/aisafety_pipeline/oai.py:64-66 | an author's name is empty or neither starts nor ends with whitespace |
| Oai.AuthorNameParts | src/aisafety_pipeline/oai.py:64-66 | the name is the stripped keyname when the stripped forenames are empty, the stripped forenames when the keyname is empty, and both joined by one space otherwise |
| Oai.AuthorNames | src/aisafety_pipeline/oai.py:62-69 | at most one name per author, each non-empty and stripped |
| Oai.AuthorNamesOne | src/aisafety_pipeline/oai.py:66-68 | one author contributes exactly their name, or nothing when it is empty |
| Oai.NamesConcat | src/aisafety_pipeline/oai.py:63-68 | names are assembled author by author in document order |
| Oai.NamesKeep | src/aisafety_pipeline/oai.py:67-68 | every author with a non-empty name has that name in the list |
| Oai.NamesFrom | src/aisafety_pipeline/oai.py:63-68 | every name in the list is the non-empty name of some author |
| Oai.ParseRecord | src/aisafety_pipeline/oai.py:47-84 | a row is produced iff there is a header that is not "deleted", an arXiv metadata block, and an id that is non-empty after strip; then `id` and `link` are the abs URL of the id, `pdf_url` the pdf URL, the authors joined by ", ", and the stripped title, abstract, created and updated dates, and categories |
| Oai.UrlsCarryTheId | src/aisafety_pipeline/oai.py:71-81 | the id can be read back from both URLs |
| Oai.DeletedRecordsAreDropped | src/aisafety_pipeline/oai.py:49-51 | a deleted or header-less record yields no row |
| Oai.NextToken | src/aisafety_pipeline/oai.py:41-43 | a token is followed iff it is present and not blank after strip, and it is followed stripped |
| Oai.FirstFinal | src/aisafety_pipeline/oai.py:42-44 | the first page without a usable token, if any: every earlier page has one |
| Oai.IterRecords | src/aisafety_pipeline/oai.py:25-44 | the listing completes iff some page ends it |
| Oai.IterRecordsShape | src/aisafety_pipeline/oai.py:33-44 | a completed listing yields the records of the pages up to the final one, and makes one request per page: the initial request, then one carrying only each stripped token |
| Oai.FromDate | src/aisafety_pipeline/oai.py:90-94 | a given from-date is kept; otherwise it is the stripped state-file text, or "2005-09-16" when the file is absent or blank |
| Oai.NextRunResumesAtUntil | src/aisafety_pipeline/oai.py:88-94 | a run without a from-date starts where the saved until-date left off (written at line 121) |
| Oai.UntilDate | src/aisafety_pipeline/oai.py:88-89 | a non-empty until-date is kept; a missing or empty one becomes today's date, which is a parameter |
| Oai.ParseAll | src/aisafety_pipeline/oai.py:102-106 | each saved row comes from a scanned record, and no more rows than records |
| Oai.ParseAllKeeps | src/aisafety_pipeline/oai.py:104-116 | every usable record's row is saved |
| Oai.ParseAllConcat | src/aisafety_pipeline/oai.py:101-106 | the rows of consecutive record lists are saved in record order |
| Oai.Harvest | src/aisafety_pipeline/oai.py:98-116 | the harvest completes iff every set's listing completes; then saved equals the number of rows and is at most scanned |
| Oai.HarvestStep | src/aisafety_pipeline/oai.py:101-116 | a harvest is the first set's listing followed by the rest: the counts add up and the rows are the first set's parsed records, then the rest |
| Oai.HarvestRecords | src/aisafety_pipeline/oai.py:98-116 | when every listing completes, `scanned` is the number of records listed over all sets, and the saved rows are exactly the parsed usable records, in listing order, with `saved` their number |
| LexOrder.Irreflexive | src/aisafety_pipeline/labeling.py:67 | no string sorts before itself |
| LexOrder.Transitive | src/aisafety_pipeline/labeling.py:67 | the string order is transitive |
| LexOrder.Total | src/aisafety_pipeline/labeling.py:67 | any two different strings are ordered one way |
| LexOrder.Asymmetric | src/aisafety_pipeline/labeling.py:67 | two strings are never ordered both ways |
| LexOrder.Insert | src/aisafety_pipeline/labeling.py:67 | inserting into a sorted list keeps it sorted and adds exactly the new element |
| LexOrder.SortedUnique | src/aisafety_pipeline/labeling.py:67 | two strictly sorted lists with the same members are equal, so `sorted` of a set is determined by the set |
| LabelingTerms.SameStoplist | src/aisafety_pipeline/labeling.py:12 | the local stoplist equals `GENERIC_LABEL_STOPLIST` |
| LabelingTerms.ScanTokens | src/aisafety_pipeline/labeling.py:15-19 | the scan counts the tokens and reports whether all of them normalise into the stoplist |
| LabelingTerms.IsGenericPhraseScan | src/aisafety_pipeline/labeling.py:14-20 | the local `_is_generic_phrase` agrees with `utils.is_generic_phrase` on every input |
| LabelingTerms.DistinctiveAppend | src/aisafety_pipeline/labeling.py:58-60 | taking a term that is neither generic nor overlapping keeps the chosen terms pairwise non-overlapping and non-generic |
| LabelingTerms.ExcludedAfterTaking | src/aisafety_pipeline/labeling.py:56-60 | after a term is taken, it and every term passed over before it are excluded from further choice |
| LabelingTerms.SelectTerms | src/aisafety_pipeline/labeling.py:53-62 | no terms for an all-zero cluster; at most max(1, topk) terms; none generic; no two overlapping as substrings; in ranking order; below the cap, every vocabulary term was taken or is generic or overlaps a taken one; and the result equals `Greedy`, a reference walk down the ranking that takes each term neither generic nor overlapping the terms taken so far and stops once the cap is reached |
| LabelingTerms.SelectStep | src/aisafety_pipeline/labeling.py:57-61 | one pass of the loop body: the term is skipped when it is generic or overlaps a chosen one and taken otherwise, exactly as the greedy reference does; when the cap is reached the choice is the greedy one, with exactly max(1, topk) terms |
| LabelingTerms.SelectedFromVocabulary | src/aisafety_pipeline/labeling.py:56-60 | every chosen term comes from the vocabulary |
| LabelingTerms.CandidateSet | src/aisafety_pipeline/labeling.py:64-66 | the candidate pool is never empty |
| LabelingTerms.CandidatePhrases | src/aisafety_pipeline/labeling.py:64-67 | the phrase list is sorted, and holds exactly the non-generic phrases of the pool |
| LabelingTerms.InformativeFirstWord | src/aisafety_pipeline/labeling.py:14-20 | a lower-case phrase whose first word normalises outside the stoplist is not generic |
| LabelingTerms.DefaultsAreInformative | src/aisafety_pipeline/labeling.py:66-67 | none of the four default phrases is generic |
| LabelingTerms.SortedDefaultsSorted | src/aisafety_pipeline/labeling.py:67 | the default phrases in the order `sorted` gives them |
| LabelingTerms.SortedDefaultsMembers | src/aisafety_pipeline/labeling.py:66-67 | that list holds exactly the non-generic default phrases |
| LabelingTerms.DefaultCandidates | src/aisafety_pipeline/labeling.py:64-67 | with no cluster terms and no extras, the phrase list is exactly the sorted default phrases |
| LabelingTerms.CutPoint | src/aisafety_pipeline/labeling.py:100 | the regex starts cutting at the first colon on the last line, and there is none when no colon is on the last line |
| LabelingTerms.RepresentativeTitle | src/aisafety_pipeline/labeling.py:100 | `None` counts as ""; the title is cut where `:.*$` matches, if it does, and stripped; the result is empty or neither starts nor ends with whitespace |
| LabelingTerms.SingleLineTitle | src/aisafety_pipeline/labeling.py:100 | for a single-line title, everything from the first colon on is dropped and the rest stripped |
| LabelingTerms.SingleLineTitleHasNoColon | src/aisafety_pipeline/labeling.py:100 | a single-line representative title holds no colon and is stripped |
| LabelAssign.InsertBySize | src/aisafety_pipeline/labeling.py:104 | inserting a cluster with a smaller id than all others keeps the larger-first order and adds exactly that cluster |
| LabelAssign.SortBySize | src/aisafety_pipeline/labeling.py:104 | a stable sort by descending size over ascending ids: a permutation ordered by size, ties by ascending id |
| LabelAssign.ClusterOrder | src/aisafety_pipeline/labeling.py:103-104 | a permutation of the clusters: larger first with `enforce_unique`, ascending ids otherwise |
| LabelAssign.OrderVisitsEachClusterOnce | src/aisafety_pipeline/labeling.py:103-108 | the loop visits every cluster exactly once |
| LabelAssign.LargerClustersFirst | src/aisafety_pipeline/labeling.py:104 | with `enforce_unique`, a strictly larger cluster is visited earlier |
| LabelAssign.FirstOutside | src/aisafety_pipeline/labeling.py:112-114 | the first term not yet reserved; every earlier term is reserved |
| LabelAssign.EarlierPicksStep | src/aisafety_pipeline/labeling.py:113-114 | recording one cluster's pick adds it to the reserved terms of later clusters only |
| LabelAssign.AssignLabels | src/aisafety_pipeline/labeling.py:106-120 | every visited cluster gets one label; each picks its best term not reserved by an earlier cluster (any term without uniqueness); every pick is reserved, even one that then falls back; a pick that is missing, empty or below the cosine floor gives the representative title with `[title]` as terms, otherwise the pick with the semantic terms |
| LabelAssign.UniquePrimaryLabels | src/aisafety_pipeline/labeling.py:111-114 | with `enforce_unique` no two clusters pick the same primary label |
| LabelAssign.BestTermWithoutUniqueness | src/aisafety_pipeline/labeling.py:112-114 | without `enforce_unique` every cluster with terms picks its best one |
| LabelAssign.LabelClusters | src/aisafety_pipeline/labeling.py:41-120 | exactly one label per cluster, none for an empty input; clusters are visited in `ClusterOrder`; each visited cluster picks its best term not reserved earlier (any term without uniqueness); each label is the pick, or the representative title when the pick is missing, empty or below the floor; with `enforce_unique` no two clusters pick the same term |
| ExportRecords.PrefixLen | src/aisafety_pipeline/export_graph.py:37 | the length of Python's `s[:n]`, for negative `n` too |
| ExportRecords.Trim | src/aisafety_pipeline/export_graph.py:33-37 | `None` stays `None`; a stripped text within `max_len` is returned as is; a longer one becomes its first `max_len` characters plus "…", of length `max_len`+1; with a negative `max_len` it is the first `max(0, len + max_len)` characters of the stripped text plus "…" |
| ExportRecords.TrimBound | src/aisafety_pipeline/export_graph.py:37 | a trimmed text is at most `max_len`+1 characters |
| ExportRecords.TrimIdempotent | src/aisafety_pipeline/export_graph.py:33-37 | trimming a trimmed text changes nothing |
| ExportRecords.OrElse | src/aisafety_pipeline/export_graph.py:121-126 | `x or default` treats `None` and `""` alike, and is never empty with a non-empty default |
| ExportRecords.PaperOf | src/aisafety_pipeline/export_graph.py:118-128 | a paper keeps its id and cluster; title, authors and date become "" when absent; `dm` is the domain tag, or "unknown" when it is NULL or empty; `ln` is the link, or the id when the link is NULL or empty; `sm` is present iff summaries are requested and the row has one, and then is the trimmed summary |
| ExportRecords.Papers | src/aisafety_pipeline/export_graph.py:117-129 | one paper per row, in row order |
| ExportRecords.Nodes | src/aisafety_pipeline/export_graph.py:356-382 | one node per paper, in paper order |
| ExportRecords.CompactNodes | src/aisafety_pipeline/export_graph.py:357-370 | compact node ids are 0..N-1 in paper order; each node carries its row's id, cluster, and title, authors and date ("" when absent); `ln` falls back to the id and `dm` to "unknown" when NULL or empty; `sm` is present iff requested and non-null, and then is the trimmed summary |
| ExportRecords.VerboseNodes | src/aisafety_pipeline/export_graph.py:373-379 | a verbose node is keyed by the paper id and carries the optional summary |
| ExportRecords.Links | src/aisafety_pipeline/export_graph.py:385-388 | one link per edge, in order: positions in the compact schema, ids in the verbose one |
| ExportRecords.NatToString | src/aisafety_pipeline/export_graph.py:393 | `str(n)` of a natural number is a non-empty run of digits ending in its last digit |
| ExportRecords.NatToStringInjective | src/aisafety_pipeline/export_graph.py:392-393 | different numbers have different decimal strings |
| ExportRecords.SignFirst | src/aisafety_pipeline/export_graph.py:393 | only negative ids start with a minus sign |
| ExportRecords.IntToStringInjective | src/aisafety_pipeline/export_graph.py:392-393 | different cluster ids get different legend keys |
| ExportRecords.Count | src/aisafety_pipeline/export_graph.py:116-129 | a cluster count is positive iff the cluster occurs |
| ExportRecords.Legend | src/aisafety_pipeline/export_graph.py:390-396 | the keys are exactly `str(cid)` of the distinct ids; each entry holds the stored label, if any, and the number of papers in the cluster |
| ExportRecords.Distincts | src/aisafety_pipeline/export_graph.py:221-224 | the distinct cluster ids, each once, the first paper's first |
| ExportRecords.DistinctsOrder | src/aisafety_pipeline/export_graph.py:221-224 | the ids come in order of first appearance: an id listed earlier occurs before every paper of a later-listed id |
| ExportRecords.SumCountsCovers | src/aisafety_pipeline/export_graph.py:129 | over a duplicate-free list covering every paper's cluster, the counts add up to the number of papers |
| ExportRecords.LegendSizesSum | src/aisafety_pipeline/export_graph.py:391-396 | the legend sizes add up to the node count |
| Neighbors.InsertDesc | src/aisafety_pipeline/export_graph.py:172 | inserting into a descending list keeps it descending and adds exactly the element |
| Neighbors.SortDesc | src/aisafety_pipeline/export_graph.py:172 | a permutation in descending score order |
| Neighbors.TopK | src/aisafety_pipeline/export_graph.py:169-172 | `min(k, n)` candidates, in descending order, taken from the candidates; every candidate left out scores no higher than every one kept |
| Neighbors.Kept | src/aisafety_pipeline/export_graph.py:173-177 | exactly the entries not below `min_sim`, in their order, with their true similarity |
| Neighbors.NeighborsOf | src/aisafety_pipeline/export_graph.py:169-177 | at most `k_eff` entries, each a candidate with similarity at least `min_sim`, in descending order |
| Neighbors.LeftOutOnlyWhenFull | src/aisafety_pipeline/export_graph.py:169-177 | a candidate at or above `min_sim` is left out only when the list is full of candidates at least as similar |
| Neighbors.KeptAll | src/aisafety_pipeline/export_graph.py:175 | when every top entry clears the threshold, none is dropped |
| Neighbors.CandsAt | src/aisafety_pipeline/export_graph.py:165-168 | one candidate per index, scored by the similarity row, with the node itself at minus infinity |
| Neighbors.CandAtInverse | src/aisafety_pipeline/export_graph.py:168 | a finite candidate is never the node itself and carries its true similarity |
| Neighbors.Members | src/aisafety_pipeline/export_graph.py:155-157 | the positions of a cluster's papers, all of them, in increasing order |
| Neighbors.NodeNeighbors | src/aisafety_pipeline/export_graph.py:154-194 | a node never lists itself; every neighbour is a real node with its true similarity, at least `min_sim`, and in the same cluster in cluster mode; at most `top_k` entries, at most N-1 globally, at most the cluster size in cluster mode; descending order; no node twice |
| Neighbors.GlobalNeighbors | src/aisafety_pipeline/export_graph.py:178-194 | global mode: never the node itself, real nodes with their true similarity at least `min_sim`, at most `top_k` and at most N-1 entries, descending, no node twice |
| Neighbors.ClusterNeighbors | src/aisafety_pipeline/export_graph.py:160-177 | cluster mode: as globally, but every neighbour is in the node's cluster and there are at most as many as the cluster's papers; no node twice |
| Neighbors.NeighborLists | src/aisafety_pipeline/export_graph.py:152-194 | one list per node; each neighbour is another real node, with its true similarity, at least `min_sim`, and of the same cluster in cluster mode; at most `top_k` entries, at most N-1 globally and at most the cluster size in cluster mode; descending; no node twice |
| Neighbors.NeighborsOfDistinct | src/aisafety_pipeline/export_graph.py:171-177 | candidates at distinct positions (argpartition's distinct indices) give a list without repeated nodes |
| Neighbors.GlobalTopK | src/aisafety_pipeline/export_graph.py:186-194 | global mode lists the top `k_eff`: another node with similarity at least `min_sim` is listed, unless the list holds `min(top_k, N-1)` nodes (none when that is not positive), all at least as similar |
| Neighbors.ClusterTopK | src/aisafety_pipeline/export_graph.py:162-177 | cluster mode lists the top `k_eff`: another node of the cluster with similarity at least `min_sim` is listed, unless the list holds `min(top_k, cluster size)` nodes (none when that is not positive), all at least as similar |
| Neighbors.NeighborListsTopK | src/aisafety_pipeline/export_graph.py:152-194 | every node's list, in either mode: a node it may consider that clears `min_sim` is listed, unless the list is full with `k_eff` nodes at least as similar |
| ClusterMst.MinIndex | src/aisafety_pipeline/export_graph.py:207 | `heappop` returns an entry no other entry is smaller than in tuple order |
| ClusterMst.InitialHeap | src/aisafety_pipeline/export_graph.py:199-204 | the first heap offers every other node of the cluster from the first node, with its true similarity |
| ClusterMst.PushFrom | src/aisafety_pipeline/export_graph.py:212-216 | after a node joins, every pair from a tree node to a node still outside is offered, and every entry is from a tree node with its true similarity |
| ClusterMst.MinIsCut | src/aisafety_pipeline/export_graph.py:206-207 | the entry `heappop` returns is at least as similar as every pair crossing from the tree to the rest of the cluster |
| ClusterMst.PopSkip | src/aisafety_pipeline/export_graph.py:207-209 | dropping a popped entry whose node is already in the tree keeps the loop state |
| ClusterMst.PopAttach | src/aisafety_pipeline/export_graph.py:207-211 | attaching the node of the popped entry keeps a growing tree in Prim's order, and every pair from the old tree to the rest is still offered |
| ClusterMst.PrimStep | src/aisafety_pipeline/export_graph.py:207-211 | appending an edge that is most similar across the cut keeps Prim's order |
| ClusterMst.GrowsAppend | src/aisafety_pipeline/export_graph.py:208-211 | attaching a node not yet in the tree, to one that is, keeps the edge list a growing tree |
| ClusterMst.Mst | src/aisafety_pipeline/export_graph.py:197-217 | no edges for a cluster of at most one node; otherwise every edge attaches a node not yet in the tree to one that is, with its true similarity; every node but the first is attached; one edge per distinct node other than the first; and each edge is at least as similar as every pair from the tree built before it to a node outside it (Prim's cut choice) |
| ClusterMst.Root | src/aisafety_pipeline/export_graph.py:199 | a cluster's tree grows from its first paper |
| ClusterMst.MembersOfCluster | src/aisafety_pipeline/export_graph.py:199-225 | the members of a cluster after the first (`indices[1:]` of its `by_cluster` list) are exactly its papers that have an earlier paper in the same cluster |
| ClusterMst.TreeOfCluster | src/aisafety_pipeline/export_graph.py:197-217 | a cluster's tree stays inside the cluster and attaches each of its papers except the first exactly once; every edge leaves the first paper or a paper attached by an earlier edge |
| ClusterMst.GrownIsRooted | src/aisafety_pipeline/export_graph.py:199-211 | a tree grown from a cluster's first paper hangs every edge on the first paper or on an earlier-attached one |
| ClusterMst.ConcatTrees | src/aisafety_pipeline/export_graph.py:224-225 | joining edge lists that attach disjoint node sets attaches each node once, and their union |
| ClusterMst.RootedConcat | src/aisafety_pipeline/export_graph.py:224-225 | joining two such edge lists keeps every edge hung on a first paper or an earlier-attached one |
| ClusterMst.AddTree | src/aisafety_pipeline/export_graph.py:224-225 | appending a new cluster's tree keeps the forest over the clusters seen so far |
| ClusterMst.ClusterTrees | src/aisafety_pipeline/export_graph.py:219-225 | `mst_edges` is a spanning forest: every edge joins two papers of one cluster, with their similarity; every paper except the first of its cluster is attached exactly once, and no other paper is; every edge leaves the first paper of its cluster or a paper an earlier edge attached, so each cluster's edges connect to its first paper |
| EdgeEmit.Canonical | src/aisafety_pipeline/export_graph.py:231 | an edge is stored with end points a <= b, the offered pair either way round, and the offered weight |
| EdgeEmit.KeyUndirected | src/aisafety_pipeline/export_graph.py:231-232 | offering (u, v) or (v, u) gives the same key |
| EdgeEmit.EmitEdges | src/aisafety_pipeline/export_graph.py:228-236 | the `seen` loop stores exactly the first offer of each key, in offer order |
| EdgeEmit.FirstOffersKeys | src/aisafety_pipeline/export_graph.py:228-236 | stored edges have a <= b, no key twice, and exactly the keys of the offers |
| EdgeEmit.FirstOfferStored | src/aisafety_pipeline/export_graph.py:233-236 | the first offer of every key is stored |
| EdgeEmit.StoredIsFirstOffer | src/aisafety_pipeline/export_graph.py:233-236 | every stored edge is the first offer of its key: later offers of the same pair change nothing |
| EdgeEmit.PairsOf | src/aisafety_pipeline/export_graph.py:239-240 | one offer `(i, j, sim)` per neighbour entry, in order |
| EdgeEmit.NeighborOffers | src/aisafety_pipeline/export_graph.py:238-240 | every neighbour pair is offered, and every offer is a neighbour pair |
| EdgeEmit.TreeOffers | src/aisafety_pipeline/export_graph.py:241-243 | exactly the tree edges with `sim >= min_sim * 0.5` are offered |
| EdgeEmit.EdgeList | src/aisafety_pipeline/export_graph.py:227-243 | the edge list has a <= b everywhere and no pair twice, and its keys are exactly the normalised kNN pairs plus the tree edges reaching half the threshold |

## Left out

- SQLite access, DDL and transactions (`db.py` and the SQL in every module): storage I/O. The rows enter as sequences.
- Network fetch, retry and throttling in `_oai_fetch`, and the XML parser: the parsed record and the page sequence are datatypes.
- Numerics are inputs, not computed:
  - embeddings, vector normalisation and the dot products behind every similarity;
  - TF-IDF weights;
  - the centroid and phrase cosines that produce the semantic labels (`labeling.py:69-101`);
  - these are floating-point numpy/sklearn work, so ranked vocabularies, similarity matrices and confidences are parameters.
- NaN, infinities other than the self-mask, and float rounding are not modelled; similarities are exact reals.
- Coordinates and layout (`export_graph.py:245-353`), the rounding of link weights to six decimals (lines 385-388), the `meta` block, JSON/gzip output and console messages: presentation and foreign libraries.
- `clustering.py`, `config.py`, `__init__.py` and the argparse CLI in `utils.py`: library wrappers and wiring. The OAI constants and the date `2005-09-16` are restated as constants in `Oai`.
- The clock: the today default of the until-date is a parameter of `Oai.UntilDate`.
- `Text.Lower`: models ASCII lower-casing only. Python's full Unicode mapping (for example the Kelvin sign becoming `k`) is not modelled.
- `Neighbors.TopK`: ties between equal similarities are broken in candidate order. `argpartition`/`argsort` leave their order unspecified, so the contract constrains only the descending order and the membership.
- The batching of the global neighbour search (`BATCH`): it changes the memory profile, not the result.
- `ClusterMst.Mst`: states that the result is a spanning tree grown from the first node in which every edge is a most similar pair across the cut from the tree built before it (Prim's cut choice). It does not state that the total cost is minimal over all spanning trees, which follows from the cut choice but is not proved here. The heap is a sequence with smallest-first extraction in tuple order, not a binary heap.
- `ExportRecords.Legend`: a map, so the JSON key order (`sorted(set(cluster_ids))`) is not modelled. A stored label that is NULL is treated as absent.
- `LabelAssign.AssignLabels`: the semantic term lists are inputs, so how many terms they hold (`max(3, topk_terms)`) is not modelled.
- Stage-2 semantic filtering (`cmd_filter`, the centroid and logistic variants) and the export of summaries: outside the decision procedures listed above.
