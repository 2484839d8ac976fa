/**
 * `arxiv_api.py`: the arXiv search (query built from topics, results kept
 * when their publication time lies in an inclusive range) and the lookup of
 * one paper by an identifier that may come as a URL. The `arxiv` library's
 * client is a function-typed parameter: given a search, it yields the
 * results in the order the library hands them back.
 */
module ArxivApi {
  import opened Text
  import opened Papers

  // ---------------------------------------------------------------------
  // Query building

  /** One topic as a query term: `cat:<topic>` when the topic holds a dot
      (an arXiv category such as cs.CV), the topic itself otherwise. */
  function QueryTerm(topic: string): string
  {
    if '.' in topic then "cat:" + topic else topic
  }

  /** The topic a query term stands for: the inverse of `QueryTerm`. */
  function TopicOfTerm(term: string): string
  {
    if |term| >= 4 && term[..4] == "cat:" && '.' in term[4..] then term[4..] else term
  }

  /** Every topic can be read back from its query term: the `cat:` rule
      loses nothing, even for a topic that itself starts with `cat:`. */
  lemma QueryTermRoundTrip(topic: string)
    ensures TopicOfTerm(QueryTerm(topic)) == topic
  {
    if '.' !in topic && |topic| >= 4 && topic[..4] == "cat:" {
      assert forall x :: x in topic[4..] ==> x in topic;
    } else if '.' in topic {
      assert QueryTerm(topic)[4..] == topic;
    }
  }

  /** Only a dotted topic gets a prefix, so a term differs from its topic
      exactly when the topic holds a dot. */
  lemma QueryTermPrefix(topic: string)
    ensures QueryTerm(topic) != topic <==> '.' in topic
    ensures '.' in topic ==> QueryTerm(topic)[..4] == "cat:" && QueryTerm(topic)[4..] == topic
  {
    if '.' in topic {
      assert |QueryTerm(topic)| == |topic| + 4;
    }
  }

  function QueryTerms(topics: seq<string>): (r: seq<string>)
    ensures |r| == |topics|
  {
    seq(|topics|, k requires 0 <= k < |topics| => QueryTerm(topics[k]))
  }

  /** The query string of `fetch_arxiv_papers`: the terms of a list joined
      by " OR "; a string with a comma is read as the list of its stripped
      comma-separated pieces; any other string is a single topic. */
  function ArxivQuery(topics: Topics): string
  {
    match topics
    case TopicList(ts) => Join(QueryTerms(ts), " OR ")
    case TopicText(s) =>
      if ',' in s then Join(QueryTerms(CommaPieces(s)), " OR ") else QueryTerm(s)
  }

  /** The topics a query string names: its " OR "-separated terms, read back. */
  function TopicsOfQuery(query: string): seq<string>
  {
    var terms := Split(query, " OR ");
    seq(|terms|, k requires 0 <= k < |terms| => TopicOfTerm(terms[k]))
  }

  /** A non-empty list of topics without spaces can be read back from its
      query, in order. */
  lemma ArxivQueryRoundTrip(ts: seq<string>)
    requires ts != []
    requires forall k :: 0 <= k < |ts| ==> ' ' !in ts[k]
    ensures TopicsOfQuery(ArxivQuery(TopicList(ts))) == ts
  {
    var terms := QueryTerms(ts);
    forall k | 0 <= k < |terms|
      ensures ' ' !in terms[k]
    {
      assert terms[k] == QueryTerm(ts[k]);
    }
    SplitJoin(terms, " OR ");
    forall k | 0 <= k < |ts|
      ensures TopicsOfQuery(ArxivQuery(TopicList(ts)))[k] == ts[k]
    {
      QueryTermRoundTrip(ts[k]);
    }
  }

  /** A string topic asks for the same query as the list it stands for: its
      comma pieces when it holds a comma, itself alone otherwise. */
  lemma ArxivTextQuery(s: string)
    ensures ',' in s ==> ArxivQuery(TopicText(s)) == ArxivQuery(TopicList(CommaPieces(s)))
    ensures ',' !in s ==> ArxivQuery(TopicText(s)) == ArxivQuery(TopicList([s]))
  {
  }

  // ---------------------------------------------------------------------
  // Search with the inclusive date filter

  /** `arxiv.Search(query=..., max_results=..., sort_by=SubmittedDate)`;
      the sort order is fixed and left implicit. */
  datatype ArxivSearch = ArxivSearch(query: string, maxResults: int)

  /** The results whose publication time lies in `[startDate, endDate]`,
      in the order they came. */
  function InDateRange(xs: seq<ArxivResult>, startDate: int, endDate: int): seq<ArxivResult>
  {
    if xs == [] then []
    else
      var x := xs[|xs| - 1];
      InDateRange(xs[..|xs| - 1], startDate, endDate)
      + (if startDate <= x.published <= endDate then [x] else [])
  }

  /** A result is kept if and only if it was returned and lies in the range:
      nothing outside the range gets through, nothing inside is lost. */
  lemma {:induction false} InDateRangeMembers(xs: seq<ArxivResult>, startDate: int, endDate: int)
    ensures forall x :: x in InDateRange(xs, startDate, endDate) <==> x in xs && startDate <= x.published <= endDate
    decreases |xs|
  {
    if xs != [] {
      InDateRangeMembers(xs[..|xs| - 1], startDate, endDate);
      assert xs == xs[..|xs| - 1] + [xs[|xs| - 1]];
    }
  }

  /** The kept results are the returned ones with some left out, in the
      same order. */
  lemma {:induction false} InDateRangeSubsequence(xs: seq<ArxivResult>, startDate: int, endDate: int)
    ensures IsSubsequence(InDateRange(xs, startDate, endDate), xs)
    decreases |xs|
  {
    if xs != [] {
      var init := xs[..|xs| - 1];
      var r := InDateRange(init, startDate, endDate);
      InDateRangeSubsequence(init, startDate, endDate);
      var x := xs[|xs| - 1];
      if startDate <= x.published <= endDate {
        assert (r + [x])[..|r|] == r;
      } else {
        assert r + [] == r;
      }
    }
  }

  /** Filtering twice keeps what filtering once keeps. */
  lemma {:induction false} InDateRangeIdempotent(xs: seq<ArxivResult>, startDate: int, endDate: int)
    ensures InDateRange(InDateRange(xs, startDate, endDate), startDate, endDate) == InDateRange(xs, startDate, endDate)
    decreases |xs|
  {
    if xs != [] {
      var init := xs[..|xs| - 1];
      var r := InDateRange(init, startDate, endDate);
      var x := xs[|xs| - 1];
      InDateRangeIdempotent(init, startDate, endDate);
      if startDate <= x.published <= endDate {
        assert (r + [x])[..|r|] == r;
      } else {
        assert r + [] == r;
      }
    }
  }

  /** `fetch_arxiv_papers`: builds the query, asks the client, and keeps the
      results published within the range. */
  method FetchArxivPapers(topics: Topics, startDate: int, endDate: int, maxResults: int,
                          client: ArxivSearch -> seq<ArxivResult>)
    returns (results: seq<ArxivResult>)
    ensures results == InDateRange(client(ArxivSearch(ArxivQuery(topics), maxResults)), startDate, endDate)
    ensures forall x :: x in results ==> startDate <= x.published <= endDate
  {
    var query := ArxivQuery(topics);
    var search := ArxivSearch(query, maxResults);
    var found := client(search);
    results := [];
    for i := 0 to |found|
      invariant results == InDateRange(found[..i], startDate, endDate)
    {
      var paper := found[i];
      assert found[..i + 1][..i] == found[..i];
      if startDate <= paper.published <= endDate {
        results := results + [paper];
      } else {
        assert results + [] == results;
      }
    }
    assert found[..|found|] == found;
    InDateRangeMembers(found, startDate, endDate);
  }

  // ---------------------------------------------------------------------
  // Lookup by identifier

  /** The identifier `fetch_paper_by_id` looks up: the last `/`-segment,
      with every `.pdf` found left to right removed. */
  function CleanedArxivId(paperId: string): (r: string)
    ensures '/' !in r
  {
    var id := LastSegment(paperId, '/');
    ReplaceChars(id, ".pdf", "");
    Replace(id, ".pdf", "")
  }

  /** Once the last `/`-segment is taken, cutting at `arxiv.org/` or at
      `abs/` can change nothing, since both need a `/`. */
  lemma UrlStepsInert(id: string)
    requires '/' !in id
    ensures Last(Split(id, "arxiv.org/")) == id
    ensures Last(Split(id, "abs/")) == id
  {
    MissingCharNoSubstring("arxiv.org/", id, '/');
    SplitWithoutSeparator(id, "arxiv.org/");
    MissingCharNoSubstring("abs/", id, '/');
    SplitWithoutSeparator(id, "abs/");
  }

  /** The clean-up chain of `fetch_paper_by_id`, step by step. */
  method CleanArxivId(paperId: string) returns (id: string)
    ensures id == CleanedArxivId(paperId)
  {
    id := paperId;
    if '/' in id {
      id := Last(Split(id, "/"));
    }
    assert id == LastSegment(paperId, '/');
    UrlStepsInert(id);
    if IsSubstring("arxiv.org", AsciiLower(id)) {
      id := Last(Split(id, "arxiv.org/"));
    }
    if IsSubstring("abs", id) {
      id := Last(Split(id, "abs/"));
    }
    if IsSubstring(".pdf", id) {
      id := Replace(id, ".pdf", "");
    } else {
      ReplaceAbsent(id, ".pdf", "");
    }
  }

  /** A bare identifier with no `/` and no `.pdf` is looked up as it is. */
  lemma CleanedBareId(paperId: string)
    requires '/' !in paperId && !IsSubstring(".pdf", paperId)
    ensures CleanedArxivId(paperId) == paperId
  {
    ReplaceAbsent(paperId, ".pdf", "");
  }

  /** An abstract-page URL is looked up by the identifier at its end, and a
      bare identifier by itself. */
  lemma CleanedIdExamples()
    ensures CleanedArxivId("http://arxiv.org/abs/2401.12345") == "2401.12345"
    ensures CleanedArxivId("2401.12345") == "2401.12345"
  {
    var id := "2401.12345";
    assert "http://arxiv.org/abs/2401.12345" == "http://arxiv.org/abs" + ['/'] + id;
    LastSegmentAfter("http://arxiv.org/abs", '/', id);
    MissingCharNoSubstring(".pdf", id, 'p');
    CleanedBareId(id);
  }

  /** The paper dictionary `fetch_paper_by_id` builds from a result. */
  function ArxivRecord(r: ArxivResult): PaperRecord
  {
    PaperRecord(r.title, r.summary, r.pdfUrl, r.publishedDay, r.authors, r.entryId, r.categories)
  }

  /** `fetch_paper_by_id`: cleans the identifier, asks the client for it, and
      answers None when nothing comes back, the first result's record
      otherwise. */
  method FetchArxivPaperById(paperId: string, lookup: string -> seq<ArxivResult>)
    returns (paper: Option<PaperRecord>)
    ensures paper == None <==> lookup(CleanedArxivId(paperId)) == []
    ensures paper.Some? ==> paper.value == ArxivRecord(lookup(CleanedArxivId(paperId))[0])
  {
    var id := CleanArxivId(paperId);
    var results := lookup(id);
    if results == [] {
      return None;
    }
    var first := results[0];
    paper := Some(ArxivRecord(first));
  }
}
