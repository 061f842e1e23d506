/** The OAI-PMH harvest of `oai.py`: arXiv `ListRecords` responses are followed through their
    resumption tokens (flow control, section 3.5 of the OAI-PMH 2.0 protocol), and each record
    is shaped into a `papers_raw` row unless it is deleted (section 2.5.1) or malformed.
    The XML tree is abstracted to datatypes; the network fetch is replaced by the sequence of
    pages the repository answers with. */
module Oai {
  import opened Wrappers
  import opened Text

  /** `OAI_PREFIX` and `OAI_SETS`. */
  const MetadataPrefix := "arXiv"
  const Sets: seq<string> := ["cs", "stat", "econ"]
  /** The first day of arXiv's OAI-PMH datestamps, used when there is no saved state. */
  const EarliestDate := "2005-09-16"
  const AbsPrefix := "https://arxiv.org/abs/"
  const PdfPrefix := "https://arxiv.org/pdf/"

  /** `arxiv:author`: the text of `forenames` and `keyname` (`None` when missing). */
  datatype Author = Author(forenames: Option<string>, keyname: Option<string>)

  /** The `arxiv:arXiv` metadata block. */
  datatype ArxivMetadata = ArxivMetadata(
    id: Option<string>, title: Option<string>, created: Option<string>, summary: Option<string>,
    categories: Option<string>, updated: Option<string>, authors: seq<Author>)

  /** `oai:header`, reduced to its `status` attribute. */
  datatype Header = Header(status: Option<string>)

  datatype OaiRecord = OaiRecord(header: Option<Header>, metadata: Option<ArxivMetadata>)

  /** The row `_oai_parse_record` returns. */
  datatype PaperRaw = PaperRaw(
    id: string, title: string, authors: string, published: string, summary: string,
    link: string, pdfUrl: string, categories: string, updated: string)

  // ---------------------------------------------------------------------------
  // Record shaping

  /** A non-empty name without whitespace at either end. */
  predicate Trimmed(n: string) {
    n != [] && !IsSpace(n[0]) && !IsSpace(n[|n| - 1])
  }

  /** `(forenames + " " + keyname).strip()` of the stripped parts: empty, or trimmed. */
  function AuthorName(a: Author): (n: string)
    ensures n == [] || Trimmed(n)
  {
    var joined := Strip(OrEmpty(a.forenames)) + " " + Strip(OrEmpty(a.keyname));
    StripEnds(joined);
    Strip(joined)
  }

  /** The name is the two stripped parts joined by one space when both are present, the present
      one alone otherwise, and empty when neither is. */
  lemma AuthorNameParts(a: Author)
    ensures var f := Strip(OrEmpty(a.forenames)); var l := Strip(OrEmpty(a.keyname));
      AuthorName(a) == if f == [] then l else if l == [] then f else f + " " + l
  {
    StripEnds(OrEmpty(a.forenames));
    StripEnds(OrEmpty(a.keyname));
    StripSpaceJoin(Strip(OrEmpty(a.forenames)), Strip(OrEmpty(a.keyname)));
  }

  /** The non-empty names of `xs`, in order. */
  function NamesOf<T>(xs: seq<T>, name: T -> string): (names: seq<string>)
    ensures |names| <= |xs|
    decreases |xs|
  {
    if xs == [] then []
    else
      var nm := name(xs[0]);
      var rest := NamesOf(xs[1..], name);
      if nm != [] then [nm] + rest else rest
  }

  /** Every element with a non-empty name contributes it. */
  lemma {:induction false} NamesKeep<T>(xs: seq<T>, name: T -> string, i: nat)
    requires i < |xs| && name(xs[i]) != []
    ensures name(xs[i]) in NamesOf(xs, name)
    decreases |xs|
  {
    if i > 0 {
      assert xs[i] == xs[1..][i - 1];
      NamesKeep(xs[1..], name, i - 1);
    }
  }

  /** Every name comes from an element: `i` is one whose name it is. */
  lemma {:induction false} NamesFrom<T>(xs: seq<T>, name: T -> string, n: string) returns (i: nat)
    requires n in NamesOf(xs, name)
    ensures i < |xs| && n == name(xs[i]) && n != []
    decreases |xs|
  {
    if name(xs[0]) != [] && n == name(xs[0]) {
      i := 0;
    } else {
      var j := NamesFrom(xs[1..], name, n);
      assert xs[1..][j] == xs[j + 1];
      i := j + 1;
    }
  }

  /** Names are collected element by element, in order: the names of a concatenation are the
      names of each part, one after the other. */
  lemma {:induction false} NamesConcat<T>(a: seq<T>, b: seq<T>, name: T -> string)
    ensures NamesOf(a + b, name) == NamesOf(a, name) + NamesOf(b, name)
    decreases |a|
  {
    if a == [] {
      assert a + b == b;
    } else {
      assert (a + b)[0] == a[0];
      assert (a + b)[1..] == a[1..] + b;
      NamesConcat(a[1..], b, name);
    }
  }

  /** The non-empty author names, in document order: every author with a non-empty name
      contributes it (`NamesKeep`), and every name is some author's (`NamesFrom`). */
  function AuthorNames(authors: seq<Author>): (names: seq<string>)
    ensures |names| <= |authors|
    ensures forall n :: n in names ==> Trimmed(n)
  {
    var names := NamesOf(authors, AuthorName);
    assert forall n :: n in names ==> Trimmed(n) by {
      forall n | n in names ensures Trimmed(n) {
        var i := NamesFrom(authors, AuthorName, n);
      }
    }
    names
  }

  /** One author contributes its name, unless the name is empty. */
  lemma AuthorNamesOne(a: Author)
    ensures AuthorNames([a]) == if AuthorName(a) == [] then [] else [AuthorName(a)]
  {
    assert [a][1..] == [];
  }

  /** The stripped `arxiv:id`. */
  function ArxivId(md: ArxivMetadata): string {
    Strip(OrEmpty(md.id))
  }

  /** A record is kept when it has a header that is not marked deleted, an arXiv metadata
      block, and a non-blank identifier. */
  predicate Usable(rec: OaiRecord) {
    && rec.header.Some? && rec.header.value.status != Some("deleted")
    && rec.metadata.Some? && ArxivId(rec.metadata.value) != ""
  }

  /** `_oai_parse_record`. */
  function ParseRecord(rec: OaiRecord): (r: Option<PaperRaw>)
    ensures r.Some? <==> Usable(rec)
    ensures r.Some? ==>
      var md := rec.metadata.value;
      var aid := ArxivId(md);
      && r.value.id == AbsPrefix + aid
      && r.value.link == r.value.id
      && r.value.pdfUrl == PdfPrefix + aid + ".pdf"
      && r.value.authors == Join(AuthorNames(md.authors), ", ")
      && r.value.published == Strip(OrEmpty(md.created))
      && r.value.categories == Strip(OrEmpty(md.categories))
      && r.value.title == Strip(OrEmpty(md.title))
      && r.value.summary == Strip(OrEmpty(md.summary))
      && r.value.updated == Strip(OrEmpty(md.updated))
  {
    if rec.header.None? || rec.header.value.status == Some("deleted") then None
    else if rec.metadata.None? then None
    else
      var md := rec.metadata.value;
      var arxivId := Strip(OrEmpty(md.id));
      if arxivId == "" then None
      else
        var absUrl := AbsPrefix + arxivId;
        Some(PaperRaw(
          id := absUrl,
          title := Strip(OrEmpty(md.title)),
          authors := Join(AuthorNames(md.authors), ", "),
          published := Strip(OrEmpty(md.created)),
          summary := Strip(OrEmpty(md.summary)),
          link := absUrl,
          pdfUrl := PdfPrefix + arxivId + ".pdf",
          categories := Strip(OrEmpty(md.categories)),
          updated := Strip(OrEmpty(md.updated))))
  }

  /** The arXiv identifier can be read back from both URLs of a shaped row. */
  lemma UrlsCarryTheId(rec: OaiRecord)
    requires Usable(rec)
    ensures var p := ParseRecord(rec).value;
      && AbsPrefix <= p.id && p.id[|AbsPrefix|..] == ArxivId(rec.metadata.value)
      && PdfPrefix <= p.pdfUrl && p.pdfUrl[|PdfPrefix|..|p.pdfUrl| - 4] == p.id[|AbsPrefix|..]
  {
    var aid := ArxivId(rec.metadata.value);
    var p := ParseRecord(rec).value;
    assert p.id == AbsPrefix + aid && p.pdfUrl == PdfPrefix + aid + ".pdf";
    assert p.id[|AbsPrefix|..] == aid;
    assert p.pdfUrl[|PdfPrefix|..|p.pdfUrl| - 4] == aid;
  }

  /** Deleted records never produce a row, whatever their metadata. */
  lemma DeletedRecordsAreDropped(md: Option<ArxivMetadata>)
    ensures ParseRecord(OaiRecord(Some(Header(Some("deleted"))), md)) == None
    ensures ParseRecord(OaiRecord(None, md)) == None
  {
  }

  // ---------------------------------------------------------------------------
  // Resumption-token loop (`_oai_iter_records`)

  datatype Request =
    | ListRecords(metadataPrefix: string, setSpec: string, from: string, until: string)
    | Resume(token: string)

  /** One response page: its records and the text of its `resumptionToken` element
      (`None` when the element is missing or empty). */
  datatype Page = Page(records: seq<OaiRecord>, token: Option<string>)

  /** The token for the next request, or `None` when the list is complete: a missing, empty or
      whitespace-only token ends the loop. */
  function NextToken(p: Page): (t: Option<string>)
    ensures t.Some? <==> p.token.Some? && Strip(p.token.value) != ""
    ensures t.Some? ==> t.value == Strip(p.token.value)
  {
    match p.token
    case None => None
    case Some(text) =>
      if text == "" then None
      else
        var tok := Strip(text);
        if tok == "" then None else Some(tok)
  }

  /** What the loop yields before it stops, and the requests it issued. */
  datatype Listing = Listing(records: seq<OaiRecord>, requests: seq<Request>)

  /** The listing never reached a page without a token within the pages given. */
  datatype ListError = Incomplete

  /** The index of the first page that ends the list, if any. */
  function FirstFinal(pages: seq<Page>): (k: Option<nat>)
    ensures k.Some? ==> k.value < |pages| && NextToken(pages[k.value]).None?
    ensures k.Some? ==> forall i :: 0 <= i < k.value ==> NextToken(pages[i]).Some?
    ensures k.None? ==> forall i :: 0 <= i < |pages| ==> NextToken(pages[i]).Some?
    decreases |pages|
  {
    if pages == [] then None
    else if NextToken(pages[0]).None? then Some(0)
    else
      var tail := pages[1..];
      assert forall i :: 0 < i < |pages| ==> pages[i] == tail[i - 1];
      match FirstFinal(tail)
      case None => None
      case Some(k) =>
        assert pages[k + 1] == tail[k];
        Some(k + 1)
  }

  function Flatten(pages: seq<Page>): seq<OaiRecord>
    decreases |pages|
  {
    if pages == [] then [] else pages[0].records + Flatten(pages[1..])
  }

  /** Flattening the first page alone gives its records. */
  lemma FlattenFirst(pages: seq<Page>)
    requires pages != []
    ensures Flatten(pages[..1]) == pages[0].records
  {
    assert pages[..1] == [pages[0]];
    assert Flatten([pages[0]]) == pages[0].records + Flatten([]);
  }

  /** Flattening a prefix of the pages: the first page's records, then the rest. */
  lemma FlattenCons(pages: seq<Page>, n: nat)
    requires n + 1 < |pages|
    ensures Flatten(pages[..n + 2]) == pages[0].records + Flatten(pages[1..][..n + 1])
  {
    assert pages[..n + 2][1..] == pages[1..][..n + 1];
  }

  /** `_oai_iter_records`: `request` is answered by `pages[0]`, the next request carries only the
      stripped token, and the loop stops at the first page without a usable token; it stops
      within the given pages exactly when one of them ends the list. */
  function IterRecords(pages: seq<Page>, request: Request): (r: Result<Listing, ListError>)
    ensures r.Success? <==> FirstFinal(pages).Some?
    decreases |pages|
  {
    if pages == [] then Failure(Incomplete)
    else
      var page := pages[0];
      match NextToken(page)
      case None => Success(Listing(page.records, [request]))
      case Some(tok) =>
        match IterRecords(pages[1..], Resume(tok))
        case Failure(e) => Failure(e)
        case Success(rest) => Success(Listing(page.records + rest.records, [request] + rest.requests))
  }

  /** A completed listing yields the records of the pages up to and including the final one,
      `k`, and issues one request per page, the given one first. */
  lemma {:induction false} IterRecordsPages(pages: seq<Page>, request: Request, k: nat)
    requires FirstFinal(pages) == Some(k)
    ensures IterRecords(pages, request).Success?
    ensures IterRecords(pages, request).value.records == Flatten(pages[..k + 1])
    ensures |IterRecords(pages, request).value.requests| == k + 1
    ensures IterRecords(pages, request).value.requests[0] == request
    decreases |pages|
  {
    var page := pages[0];
    if NextToken(page).None? {
      FlattenFirst(pages);
    } else {
      var tail := pages[1..];
      var tok := NextToken(page).value;
      IterRecordsPages(tail, Resume(tok), k - 1);
      FlattenCons(pages, k - 1);
    }
  }

  /** After the given request, each request resumes from the token of the page before it. */
  lemma {:induction false} IterRecordsResumes(pages: seq<Page>, request: Request)
    requires FirstFinal(pages).Some?
    ensures var listing := IterRecords(pages, request).value;
      forall i :: 0 <= i < FirstFinal(pages).value && i + 1 < |listing.requests| ==>
        listing.requests[i + 1] == Resume(NextToken(pages[i]).value)
    decreases |pages|
  {
    var page := pages[0];
    if NextToken(page).Some? {
      var tail := pages[1..];
      var tok := NextToken(page).value;
      IterRecordsResumes(tail, Resume(tok));
      var rest := IterRecords(tail, Resume(tok)).value;
      var listing := IterRecords(pages, request).value;
      assert listing.requests == [request] + rest.requests;
      forall i | 0 <= i < FirstFinal(pages).value && i + 1 < |listing.requests|
        ensures listing.requests[i + 1] == Resume(NextToken(pages[i]).value)
      {
        if i > 0 {
          assert pages[i] == tail[i - 1];
          assert listing.requests[i + 1] == rest.requests[i];
        }
      }
    }
  }

  /** Both together: the records up to the final page, and one request per page, the given one
      first and then one `Resume` per token. */
  lemma IterRecordsShape(pages: seq<Page>, request: Request)
    requires FirstFinal(pages).Some?
    ensures var k := FirstFinal(pages).value;
      var listing := IterRecords(pages, request).value;
      && listing.records == Flatten(pages[..k + 1])
      && |listing.requests| == k + 1
      && listing.requests[0] == request
      && forall i :: 0 <= i < k ==> listing.requests[i + 1] == Resume(NextToken(pages[i]).value)
  {
    IterRecordsPages(pages, request, FirstFinal(pages).value);
    IterRecordsResumes(pages, request);
  }

  /** The first request of a set's listing. */
  function InitialRequest(setSpec: string, from: string, until: string): Request {
    ListRecords(MetadataPrefix, setSpec, from, until)
  }

  // ---------------------------------------------------------------------------
  // Dates and the harvest loop (`harvest_arxiv_oai_to_sqlite_raw`)

  /** The effective `from` date: the argument when given, else the stripped state file
      (`None` when the file does not exist), else the earliest date. */
  function FromDate(fromDate: Option<string>, stateFile: Option<string>): (d: string)
    ensures OrEmpty(fromDate) != "" ==> d == fromDate.value
    ensures OrEmpty(fromDate) == "" && stateFile.Some? && Strip(stateFile.value) != "" ==>
      d == Strip(stateFile.value)
    ensures OrEmpty(fromDate) == "" && (stateFile.None? || Strip(stateFile.value) == "") ==>
      d == EarliestDate
    ensures d != ""
  {
    if OrEmpty(fromDate) != "" then fromDate.value
    else match stateFile
      case Some(contents) =>
        var saved := Strip(contents);
        if saved != "" then saved else EarliestDate
      case None => EarliestDate
  }

  /** The effective `until` date: the argument when given, else today. */
  function UntilDate(untilDate: Option<string>, today: string): (d: string)
    ensures OrEmpty(untilDate) != "" ==> d == untilDate.value
    ensures OrEmpty(untilDate) == "" ==> d == today
  {
    if OrEmpty(untilDate) != "" then untilDate.value else today
  }

  /** A run records its `until` date in the state file, so the next run without `--from`
      resumes exactly there. */
  lemma NextRunResumesAtUntil(untilDate: Option<string>, today: string)
    requires var u := UntilDate(untilDate, today); u != [] && !IsSpace(u[0]) && !IsSpace(u[|u| - 1])
    ensures FromDate(None, Some(UntilDate(untilDate, today))) == UntilDate(untilDate, today)
  {
    StripFixedPoint(UntilDate(untilDate, today));
  }

  datatype HarvestReport = HarvestReport(scanned: nat, saved: nat, rows: seq<PaperRaw>)

  /** Some record of the batch parses to `p`. */
  ghost predicate ParsedFrom(records: seq<OaiRecord>, p: PaperRaw) {
    exists rec :: rec in records && ParseRecord(rec) == Some(p)
  }

  /** A record of the tail of a batch is a record of the batch. */
  lemma InTail(records: seq<OaiRecord>, rec: OaiRecord)
    requires records != [] && rec in records[1..]
    ensures rec in records
  {
    var m :| 0 <= m < |records[1..]| && records[1..][m] == rec;
    assert records[m + 1] == rec;
  }

  /** The rows parsed from a batch of records, skipping the unusable ones. */
  function ParseAll(records: seq<OaiRecord>): (rows: seq<PaperRaw>)
    ensures |rows| <= |records|
    ensures forall p :: p in rows ==> ParsedFrom(records, p)
    decreases |records|
  {
    if records == [] then []
    else
      var rest := ParseAll(records[1..]);
      assert forall p :: p in rest ==> ParsedFrom(records, p) by {
        forall p | p in rest ensures ParsedFrom(records, p) {
          var rec :| rec in records[1..] && ParseRecord(rec) == Some(p);
          InTail(records, rec);
        }
      }
      match ParseRecord(records[0])
      case None => rest
      case Some(p) =>
        assert records[0] in records;
        [p] + rest
  }

  /** No usable record is lost: its row is among the rows of any batch it belongs to. */
  lemma {:induction false} ParseAllKeeps(records: seq<OaiRecord>, rec: OaiRecord)
    requires rec in records && Usable(rec)
    ensures ParseRecord(rec).value in ParseAll(records)
    decreases |records|
  {
    if records[0] != rec {
      assert rec in records[1..] by {
        var m :| 0 <= m < |records| && records[m] == rec;
        assert records[1..][m - 1] == rec;
      }
      ParseAllKeeps(records[1..], rec);
    }
  }

  /** Records are parsed one at a time, in order: the rows of a concatenation are the rows of
      each part, one after the other. */
  lemma {:induction false} ParseAllConcat(a: seq<OaiRecord>, b: seq<OaiRecord>)
    ensures ParseAll(a + b) == ParseAll(a) + ParseAll(b)
    decreases |a|
  {
    if a == [] {
      assert a + b == b;
    } else {
      assert (a + b)[0] == a[0];
      assert (a + b)[1..] == a[1..] + b;
      ParseAllConcat(a[1..], b);
    }
  }

  /** The pages the repository answers for the listing of one set. */
  datatype SetResponses = SetResponses(setSpec: string, pages: seq<Page>)

  /** The harvest loop over the sets (`Sets`, in that order, in the source): every scanned record
      is counted, the usable ones are saved, and the harvest completes only if every set's
      listing reaches a page without a resumption token. */
  function Harvest(from: string, until: string, sets: seq<SetResponses>)
    : (r: Result<HarvestReport, ListError>)
    ensures r.Success? ==> r.value.saved == |r.value.rows| <= r.value.scanned
    ensures r.Success? <==> forall i :: 0 <= i < |sets| ==> FirstFinal(sets[i].pages).Some?
    decreases |sets|
  {
    if sets == [] then Success(HarvestReport(0, 0, []))
    else
      match IterRecords(sets[0].pages, InitialRequest(sets[0].setSpec, from, until))
      case Failure(e) => Failure(e)
      case Success(listing) =>
        match Harvest(from, until, sets[1..])
        case Failure(e) => Failure(e)
        case Success(rest) =>
          var rows := ParseAll(listing.records);
          Success(HarvestReport(|listing.records| + rest.scanned, |rows| + rest.saved, rows + rest.rows))
  }

  /** One step of the harvest loop: the first set's listing, then the rest. */
  lemma HarvestStep(from: string, until: string, sets: seq<SetResponses>, listing: Listing,
                    rest: HarvestReport)
    requires sets != []
    requires IterRecords(sets[0].pages, InitialRequest(sets[0].setSpec, from, until)) == Success(listing)
    requires Harvest(from, until, sets[1..]) == Success(rest)
    ensures Harvest(from, until, sets).Success?
    ensures Harvest(from, until, sets).value.scanned == |listing.records| + rest.scanned
    ensures Harvest(from, until, sets).value.saved == |ParseAll(listing.records)| + rest.saved
    ensures Harvest(from, until, sets).value.rows == ParseAll(listing.records) + rest.rows
  {
  }

  /** Every set's listing completes. */
  ghost predicate AllComplete(sets: seq<SetResponses>) {
    forall i :: 0 <= i < |sets| ==> FirstFinal(sets[i].pages).Some?
  }

  lemma AllCompleteTail(sets: seq<SetResponses>)
    requires sets != [] && AllComplete(sets)
    ensures FirstFinal(sets[0].pages).Some? && AllComplete(sets[1..])
  {
    forall i | 0 <= i < |sets[1..]| ensures FirstFinal(sets[1..][i].pages).Some? {
      assert sets[1..][i] == sets[i + 1];
    }
  }

  /** The records a complete harvest lists: for each set in order, the records of its pages up
      to and including the first page without a resumption token. */
  ghost function Listed(sets: seq<SetResponses>): seq<OaiRecord>
    requires AllComplete(sets)
    decreases |sets|
  {
    if sets == [] then []
    else
      var k := FirstFinal(sets[0].pages).value;
      Flatten(sets[0].pages[..k + 1]) + Listed(sets[1..])
  }

  /** A complete harvest scans exactly the listed records and saves exactly the rows parsed from
      them, in listing order. The source harvests the sets of `Sets`, in that order, so there
      `sets[i].setSpec == Sets[i]`; the lemma holds for any list of sets. */
  lemma {:induction false} HarvestRecords(from: string, until: string, sets: seq<SetResponses>)
    requires AllComplete(sets)
    ensures Harvest(from, until, sets).Success?
    ensures Harvest(from, until, sets).value.scanned == |Listed(sets)|
    ensures Harvest(from, until, sets).value.rows == ParseAll(Listed(sets))
    ensures Harvest(from, until, sets).value.saved == |ParseAll(Listed(sets))|
    decreases |sets|
  {
    if sets != [] {
      AllCompleteTail(sets);
      var k := FirstFinal(sets[0].pages).value;
      var request := InitialRequest(sets[0].setSpec, from, until);
      IterRecordsPages(sets[0].pages, request, k);
      HarvestRecords(from, until, sets[1..]);
      var records := Flatten(sets[0].pages[..k + 1]);
      assert Listed(sets) == records + Listed(sets[1..]);
      HarvestStep(from, until, sets, IterRecords(sets[0].pages, request).value,
                  Harvest(from, until, sets[1..]).value);
      ParseAllConcat(records, Listed(sets[1..]));
    }
  }
}
