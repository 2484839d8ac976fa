/**
 * `medarxiv_api.py`: the medRxiv search and the lookup of one paper by DOI.
 * The HTTP layer is a function-typed parameter that maps a request to the
 * decoded JSON body or to a failed request; the JSON body is modelled as a
 * record of optional fields, one per key the code reads.
 */
module MedarxivApi {
  import opened Text
  import opened Papers
  import ArxivApi

  // ---------------------------------------------------------------------
  // Query building

  /** The query string of `fetch_medarxiv_papers`: a list joined by " OR ";
      a string with a comma is read as its stripped comma-separated pieces;
      any other string is used as it is. No topic gets a prefix. */
  function MedQuery(topics: Topics): string
  {
    match topics
    case TopicList(ts) => Join(ts, " OR ")
    case TopicText(s) => if ',' in s then Join(CommaPieces(s), " OR ") else s
  }

  /** A non-empty list of topics without spaces can be read back from its
      query, unchanged and in order. */
  lemma MedQueryRoundTrip(ts: seq<string>)
    requires ts != []
    requires forall k :: 0 <= k < |ts| ==> ' ' !in ts[k]
    ensures Split(MedQuery(TopicList(ts)), " OR ") == ts
  {
    SplitJoin(ts, " OR ");
  }

  /** The two searches build the same query exactly when the arXiv `cat:`
      rule has nothing to do: for topics without dots. */
  lemma {:induction false} MedQueryAgreesWithoutDots(ts: seq<string>)
    requires forall k :: 0 <= k < |ts| ==> '.' !in ts[k]
    ensures MedQuery(TopicList(ts)) == ArxivApi.ArxivQuery(TopicList(ts))
  {
    assert ArxivApi.QueryTerms(ts) == ts;
  }

  /** A comma-separated string without dots gives the same query to both
      searches. */
  lemma MedTextQueryAgreesWithoutDots(s: string)
    requires '.' !in s
    ensures MedQuery(TopicText(s)) == ArxivApi.ArxivQuery(TopicText(s))
  {
    if ',' in s {
      var ps := CommaPieces(s);
      forall k | 0 <= k < |ps|
        ensures '.' !in ps[k]
      {
        CommaPieceShape(s, k);
      }
      MedQueryAgreesWithoutDots(ps);
    }
  }

  /** A single dotted topic is where the two searches differ. */
  lemma MedQueryKeepsDots(topic: string)
    requires '.' in topic && ',' !in topic
    ensures MedQuery(TopicText(topic)) == topic
    ensures ArxivApi.ArxivQuery(TopicText(topic)) == "cat:" + topic
  {
  }

  // ---------------------------------------------------------------------
  // JSON records

  /** One entry of a paper's `authors` list; `name` may be missing. */
  datatype JsonAuthor = JsonAuthor(name: Option<string>)

  /** One entry of the `results` list: each key may be missing. */
  datatype JsonPaper = JsonPaper(
    title: Option<string>,
    abstractText: Option<string>,
    pdfUrl: Option<string>,
    date: Option<string>,
    authors: Option<seq<JsonAuthor>>,
    doi: Option<string>,
    category: Option<seq<string>>)

  /** `d.get(key, default)` */
  function GetOr<T>(v: Option<T>, default: T): T
  {
    if v.Some? then v.value else default
  }

  /** The f-string rendering of `paper.get('doi')`: the DOI, or "None". */
  function DoiText(doi: Option<string>): string
  {
    if doi.Some? then doi.value else "None"
  }

  const ContentPrefix := "https://www.medrxiv.org/content/"
  const FullTextSuffix := ".full.pdf"

  /** `pdf_url or f"https://www.medrxiv.org/content/{doi}.full.pdf"`: a missing
      or empty `pdf_url` falls back to the content URL built from the DOI. */
  function MedrxivLink(p: JsonPaper): string
  {
    if p.pdfUrl.Some? && p.pdfUrl.value != "" then p.pdfUrl.value
    else ContentPrefix + DoiText(p.doi) + FullTextSuffix
  }

  /** The link is never empty; it is the given `pdf_url` when that is
      non-empty, and otherwise the content URL that carries the DOI (or
      "None") between the fixed prefix and suffix. */
  lemma MedrxivLinkShape(p: JsonPaper)
    ensures MedrxivLink(p) != ""
    ensures p.pdfUrl.Some? && p.pdfUrl.value != "" ==> MedrxivLink(p) == p.pdfUrl.value
    ensures !(p.pdfUrl.Some? && p.pdfUrl.value != "") ==>
      var l, d := MedrxivLink(p), DoiText(p.doi);
      |l| == |ContentPrefix| + |d| + |FullTextSuffix|
      && l[..|ContentPrefix|] == ContentPrefix
      && l[|ContentPrefix|..|ContentPrefix| + |d|] == d
      && l[|ContentPrefix| + |d|..] == FullTextSuffix
  {
    if !(p.pdfUrl.Some? && p.pdfUrl.value != "") {
      var l, d := MedrxivLink(p), DoiText(p.doi);
      assert l == ContentPrefix + (d + FullTextSuffix);
    }
  }

  /** `[author.get('name', '') for author in paper.get('authors', [])]` */
  function AuthorNames(authors: Option<seq<JsonAuthor>>): (names: seq<string>)
  {
    var xs := GetOr(authors, []);
    seq(|xs|, k requires 0 <= k < |xs| => GetOr(xs[k].name, ""))
  }

  /** One name per listed author, in order, with "" for a missing name, and
      none when the list is missing. */
  lemma AuthorNamesShape(authors: Option<seq<JsonAuthor>>)
    ensures authors.None? ==> AuthorNames(authors) == []
    ensures authors.Some? ==>
      (|AuthorNames(authors)| == |authors.value|
       && forall k :: 0 <= k < |authors.value| ==>
            AuthorNames(authors)[k] == (if authors.value[k].name.Some? then authors.value[k].name.value else ""))
  {
  }

  /** The paper dictionary built from one JSON entry. */
  function ToPaperRecord(p: JsonPaper): PaperRecord
  {
    PaperRecord(
      GetOr(p.title, ""),
      GetOr(p.abstractText, ""),
      MedrxivLink(p),
      GetOr(p.date, ""),
      AuthorNames(p.authors),
      GetOr(p.doi, ""),
      GetOr(p.category, []))
  }

  /** An entry with no keys at all becomes a record of empty fields whose
      link names the DOI "None". */
  lemma EmptyEntryRecord()
    ensures ToPaperRecord(JsonPaper(None, None, None, None, None, None, None))
         == PaperRecord("", "", "https://www.medrxiv.org/content/None.full.pdf", "", [], "", [])
  {
  }

  // ---------------------------------------------------------------------
  // Search

  /** The query parameters of the search request (`format` is always json). */
  datatype MedRequest = MedRequest(query: string, fromDate: string, toDate: string, limit: int)

  /** What the HTTP layer hands back: a request exception (connection error,
      error status, undecodable body), or the decoded body, whose `results`
      key may be missing. */
  datatype MedResponse = RequestFailed | Body(results: Option<seq<JsonPaper>>)

  /** `fetch_medarxiv_papers`. `normalizeDate` is `strptime` followed by
      `strftime` with '%Y-%m-%d' (None: the ValueError it raises, which is
      not caught, so the whole call answers None). A failed request or a
      body without `results` gives no papers; otherwise one record per
      entry, in order. */
  method FetchMedrxivPapers(topics: Topics, startDate: string, endDate: string, maxResults: int,
                            normalizeDate: string -> Option<string>, api: MedRequest -> MedResponse)
    returns (papers: Option<seq<PaperRecord>>)
    ensures papers.None? <==> normalizeDate(startDate).None? || normalizeDate(endDate).None?
    ensures papers.Some? ==>
      var response := api(MedRequest(MedQuery(topics), normalizeDate(startDate).value,
                                      normalizeDate(endDate).value, maxResults));
      match response
      case RequestFailed => papers.value == []
      case Body(None) => papers.value == []
      case Body(Some(entries)) =>
        |papers.value| == |entries|
        && forall k :: 0 <= k < |entries| ==> papers.value[k] == ToPaperRecord(entries[k])
  {
    var fromDate := normalizeDate(startDate);
    var toDate := normalizeDate(endDate);
    if fromDate.None? || toDate.None? {
      return None;
    }
    var query := MedQuery(topics);
    var request := MedRequest(query, fromDate.value, toDate.value, maxResults);
    var response := api(request);
    if response.RequestFailed? {
      return Some([]);
    }
    var entries := GetOr(response.results, []);
    var results: seq<PaperRecord> := [];
    for i := 0 to |entries|
      invariant |results| == i
      invariant forall k :: 0 <= k < i ==> results[k] == ToPaperRecord(entries[k])
    {
      var info := ToPaperRecord(entries[i]);
      results := results + [info];
    }
    papers := Some(results);
  }

  // ---------------------------------------------------------------------
  // Lookup by DOI

  predicate AllDigits(s: string)
  {
    forall k :: 0 <= k < |s| ==> IsDigit(s[k])
  }

  /** The end of the run of ASCII digits that starts at `i`. */
  function DigitRunEnd(s: string, i: nat): (j: nat)
    requires i <= |s|
    ensures i <= j <= |s| && AllDigits(s[i..j]) && (j == |s| || !IsDigit(s[j]))
    decreases |s| - i
  {
    if i < |s| && IsDigit(s[i]) then
      var j := DigitRunEnd(s, i + 1);
      assert s[i..j] == [s[i]] + s[i + 1..j];
      j
    else i
  }

  /** `\d{4}\.\d{2}\.\d{2}\.\d` at position `b`: the dated part of a DOI up
      to the first digit of its final run. */
  predicate DatedSuffixAt(s: string, b: nat)
  {
    b + 12 <= |s| && AllDigits(s[b..b + 4]) && s[b + 4] == '.' && AllDigits(s[b + 5..b + 7])
    && s[b + 7] == '.' && AllDigits(s[b + 8..b + 10]) && s[b + 10] == '.' && IsDigit(s[b + 11])
  }

  /** Where a match of `10\.\d{4,}/\d{4}\.\d{2}\.\d{2}\.\d+` that starts at
      `i` ends: the registrant digits run up to a `/`, and the final digit
      run is taken whole. */
  function DoiMatchEnd(s: string, i: nat): (r: Option<nat>)
    requires i <= |s|
    ensures r.Some? ==> i < r.value <= |s| && '/' in s[i..r.value]
  {
    if i + 3 <= |s| && s[i..i + 3] == "10." then
      var a := DigitRunEnd(s, i + 3);
      if a - (i + 3) >= 4 && a < |s| && s[a] == '/' && DatedSuffixAt(s, a + 1) then
        var j := DigitRunEnd(s, a + 12);
        assert s[i..j][a - i] == '/';
        Some(j)
      else None
    else None
  }

  /** `re.search`: the leftmost match at or after position `i`. */
  function DoiSearchFrom(s: string, i: nat): (r: Option<string>)
    requires i <= |s|
    ensures r.Some? ==> '/' in r.value && '/' in s
    decreases |s| - i
  {
    match DoiMatchEnd(s, i)
    case Some(j) =>
      assert forall c :: c in s[i..j] ==> c in s;
      Some(s[i..j])
    case None => if i == |s| then None else DoiSearchFrom(s, i + 1)
  }

  function DoiSearch(s: string): Option<string>
  {
    DoiSearchFrom(s, 0)
  }

  /** The DOI pattern holds a `/`, so it never matches text without one. */
  lemma DoiSearchNeedsSlash(s: string)
    requires '/' !in s
    ensures DoiSearch(s) == None
  {
  }

  /** A DOI on its own is found whole, its last digit run included. */
  lemma DoiSearchExample()
    ensures DoiSearch("10.1101/2020.03.04.1") == Some("10.1101/2020.03.04.1")
  {
    var s := "10.1101/2020.03.04.1";
    assert DigitRunEnd(s, 3) == 7 by {
      assert !IsDigit(s[7]) && IsDigit(s[6]) && IsDigit(s[5]) && IsDigit(s[4]) && IsDigit(s[3]);
    }
    assert DatedSuffixAt(s, 8) by {
      assert AllDigits(s[8..12]) && AllDigits(s[13..15]) && AllDigits(s[16..18]);
    }
    assert DigitRunEnd(s, 19) == 20;
    assert DoiMatchEnd(s, 0) == Some(20) by {
      assert s[0..3] == "10.";
    }
    assert s[0..20] == s;
  }

  /** The clean-up chain of `fetch_paper_by_id`, step by step: after the
      last `/`-segment is taken, the DOI search has no `/` left to match,
      so the identifier is that segment. */
  method CleanMedrxivId(paperId: string) returns (id: string)
    ensures id == LastSegment(paperId, '/')
  {
    id := paperId;
    if '/' in id {
      id := Last(Split(id, "/"));
    }
    assert id == LastSegment(paperId, '/');
    if IsSubstring("medrxiv.org", AsciiLower(id)) {
      DoiSearchNeedsSlash(id);
      match DoiSearch(id) {
        case Some(doi) => id := doi;
        case None =>
      }
    }
  }

  /** The looked-up identifier holds no `/`, is the input itself when the
      input has none, and cleaning it again changes nothing. */
  lemma CleanedMedrxivIdShape(paperId: string)
    ensures '/' !in LastSegment(paperId, '/')
    ensures '/' !in paperId ==> LastSegment(paperId, '/') == paperId
    ensures LastSegment(LastSegment(paperId, '/'), '/') == LastSegment(paperId, '/')
  {
  }

  const PapersEndpoint := "https://api.medrxiv.org/papers/"

  /** `fetch_paper_by_id`: a failed request, or a body whose `results` is
      missing or empty, gives None; otherwise the first entry's record. */
  method FetchMedrxivPaperById(paperId: string, api: string -> MedResponse)
    returns (paper: Option<PaperRecord>)
    ensures var response := api(PapersEndpoint + LastSegment(paperId, '/'));
      match response
      case RequestFailed => paper == None
      case Body(results) =>
        if results.None? || results.value == [] then paper == None
        else paper == Some(ToPaperRecord(results.value[0]))
  {
    var id := CleanMedrxivId(paperId);
    var response := api(PapersEndpoint + id);
    if response.RequestFailed? {
      return None;
    }
    if response.results.None? || response.results.value == [] {
      return None;
    }
    var first := response.results.value[0];
    paper := Some(ToPaperRecord(first));
  }
}
