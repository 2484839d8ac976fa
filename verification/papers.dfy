/**
 * The values that travel between the bot's modules: the `topics` argument of
 * the two search functions, an arXiv library result, the paper dictionary the
 * lookups return and the handlers read, and the author line both renderers
 * print.
 */
module Papers {
  import opened Text

  /** The `topics` argument of the search functions: a Python list of topics,
      or a single string that may hold several topics separated by commas. */
  datatype Topics = TopicList(items: seq<string>) | TopicText(text: string)

  /** `[t.strip() for t in topics.split(',')]`, the pieces of a comma-separated
      topic string. */
  function CommaPieces(s: string): seq<string>
  {
    var ps := Split(s, ",");
    seq(|ps|, k requires 0 <= k < |ps| => Strip(ps[k]))
  }

  /** Each piece carries no comma and no surrounding white space, and uses
      only characters of the string it comes from. */
  lemma CommaPieceShape(s: string, k: nat)
    requires k < |CommaPieces(s)|
    ensures ',' !in CommaPieces(s)[k]
    ensures var p := CommaPieces(s)[k]; p == [] || (!IsSpace(p[0]) && !IsSpace(p[|p| - 1]))
    ensures forall c :: c in CommaPieces(s)[k] ==> c in s
  {
    var ps := Split(s, ",");
    SplitOnCharPieces(s, ',');
    SplitPieceChars(s, ",");
    assert ps[k] in ps;
    var r := Strip(ps[k]);
    assert CommaPieces(s)[k] == r;
    assert forall c :: c in r ==> c in ps[k];
  }

  /** One `arxiv.Result` as the library hands it back. `published` is the
      publication time as an integer timestamp; `publishedDay` is the text
      `published.strftime('%Y-%m-%d')` yields for it. */
  datatype ArxivResult = ArxivResult(
    entryId: string,
    title: string,
    summary: string,
    authors: seq<string>,
    published: int,
    publishedDay: string,
    pdfUrl: string,
    categories: seq<string>)

  /** The paper dictionary built by both `fetch_paper_by_id` functions and by
      the medRxiv search: keys title, abstract, link, published, authors, id,
      categories. */
  datatype PaperRecord = PaperRecord(
    title: string,
    abstractText: string,
    link: string,
    published: string,
    authors: seq<string>,
    id: string,
    categories: seq<string>)

  function Min(a: nat, b: nat): nat
  {
    if a <= b then a else b
  }

  /** `', '.join(authors[:3])`, plus `' et al.'` when there are more than three. */
  function AuthorLine(names: seq<string>): string
  {
    Join(names[..Min(3, |names|)], ", ") + (if |names| > 3 then " et al." else "")
  }

  /** Up to three authors are all shown, joined by ", ". */
  lemma AuthorLineShort(names: seq<string>)
    requires |names| <= 3
    ensures AuthorLine(names) == Join(names, ", ")
  {
    assert names[..|names|] == names;
  }

  /** Beyond three, only the first three names and the fact that there are
      more decide the line. */
  lemma AuthorLineLong(names: seq<string>)
    requires |names| > 3
    ensures AuthorLine(names) == AuthorLine(names[..4])
    ensures AuthorLine(names) == Join(names[..3], ", ") + " et al."
  {
    assert names[..4][..3] == names[..3];
  }
}
