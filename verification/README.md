# arXiv / medRxiv paper bot — a verified model of its core

This project models the logic of a Telegram bot that follows arXiv (and
medRxiv) topics for a small set of authorised users. It covers:

- the search queries built from the configured topics (`cat:` prefix for
  arXiv categories, plain terms for medRxiv);
- the client-side publication-date filter;
- the clean-up of paper identifiers given as URLs;
- the mapping of medRxiv JSON entries to paper records;
- the HTML and Markdown renderings of a paper list;
- the paragraph chunker and the fixed-width 4000-character split used to
  fit Telegram's 4096-character limit;
- the per-topic collection of results behind `/today` and the daily job;
- the configuration that the command handlers read and change.

The network (the `arxiv` client, `requests`, Telegram) is replaced by
function-typed parameters. A search client is a function from a search to
the results it yields. A send is a function telling whether
`send_message(chat_id, text)` went through. Replies are returned as values.

Files, one module each:

- `text.dfy` (`Text`): the Python `str`/`list` behaviour the code relies on.
  This is `in`, `split`, `join`, `replace`, `strip`, `split('/')[-1]`,
  `int()`, `str(n)`, `list.remove`, and numbered-list rendering.
- `papers.dfy` (`Papers`): the shared data. It holds the `topics` argument
  (a list or a string), an arXiv result, the paper dictionary and the author
  line ("first three names, then ` et al.`").
- `helpers.dfy` (`Helpers`): `helpers.py`.
- `arxiv_api.dfy` (`ArxivApi`): `arxiv_api.py`.
- `medarxiv_api.dfy` (`MedarxivApi`): `medarxiv_api.py`.
- `telegram_bot.dfy` (`TelegramBot`): `telegram_bot.py`. The `config`
  dictionary is the class `Bot`, with one field per key. Each handler is a
  method whose `modifies` clause names only the key it may change.

Loops in the source are loops here, each proved against a specification
function:

- `ChunkHtmlMessage` is proved against `Chunks`.
- `FormatPapers` and `BuildTopicMessage` are proved against `Numbered`.
- `FetchArxivPapers` is proved against `InDateRange`.
- `CollectResults` is proved against `Collected`.
- `SendPieces` and `Broadcast` are proved against `Delivered` and `FanOut`.

The properties are proved about those functions.

### Behaviour of the code worth knowing

- `format_papers` numbers its HTML items from 0 (`helpers.py:83-91`), while
  the Markdown messages built in `telegram_bot.py` number from 1
  (`enumerate(results, 1)` at `telegram_bot.py:198` for `/today` and at
  `telegram_bot.py:262` for the daily job).
- `chunk_html_message` bounds a chunk only when its paragraph fits
  (`helpers.py:47-50`); see "## Findings".
- The handlers pass `today`, a string, as both dates of
  `fetch_arxiv_papers` (`telegram_bot.py:178-188`); see "## Findings".

## Model

| member | source | states |
|---|---|---|
| Helpers.EscapeHtml | helpers.py:7-10 | computes `text.replace('&', '&amp;').replace('<', '&lt;').replace('>', '&gt;')`, with the empty text giving `""`; its properties are the lemmas below |
| Helpers.EscapeHtmlNoAngles | helpers.py:7-10 | the escaped text contains no `<` and no `>` |
| Helpers.EscapeHtmlPlain | helpers.py:7-10 | text without `&`, `<`, `>` (the empty text included) comes back unchanged |
| Helpers.UnescapeEscapeHtml | helpers.py:10 | the escaping can be undone: unescaping gives back the original text, so nothing is lost or mangled, and `&` is escaped first |
| Helpers.EscapeHtmlByChar | helpers.py:10 | the three chained `replace` calls equal escaping each character on its own |
| Helpers.PaperIdWithoutDot | helpers.py:13-17 | the compact id has no `.`, and a dot-free id is returned as it is |
| Helpers.PaperIdWithDot | helpers.py:20-24 | the dotted id has a `.`, and an id that already has one is returned as it is |
| Helpers.WithoutDotIdempotent | helpers.py:13-17 | removing the dots twice is removing them once |
| Helpers.WithDotIdempotent | helpers.py:20-24 | inserting the dot twice is inserting it once |
| Helpers.DropDot | helpers.py:14-15 | `prefix.suffix` loses exactly its one dot |
| Helpers.WithoutDotAfterWithDot | helpers.py:13-24 | for a dot-free id, compacting the dotted form gives back the id |
| Helpers.WithDotAfterWithoutDot | helpers.py:13-24 | for a `YYMM.NNNNN` id, dotting the compact form gives back the id |
| Helpers.WithoutDotExample | test_telegram_bot.py:186-189 | `2401.12345` compacts to `240112345` |
| Helpers.WithDotExample | helpers.py:24 | `240112345` is dotted back to `2401.12345` |
| Helpers.SafeLength | helpers.py:55-57 | the backwards search for a space stops at a position at most the limit, just after a space, with no space between it and the limit |
| Helpers.SafeLengthFindsSpace | helpers.py:55-59 | the search ends at 0 exactly when there is no space before the limit, and otherwise just after the last such space |
| Helpers.Chunks | helpers.py:36-77 | computes what `chunk_html_message` returns: the message alone when it fits, otherwise the paragraph loop over `split('\n\n')` followed by the final flush; the loop method and the lemmas below are about it |
| Helpers.ChunkHtmlMessage | helpers.py:36-77 | the loop returns `Chunks(message, max_length)`, a message within the limit comes back as the single chunk, and every chunk fits or is the tail of one paragraph |
| Helpers.StepWithin | helpers.py:47-72 | one paragraph step keeps every chunk and the running chunk either within the limit or a tail of some paragraph |
| Helpers.FoldWithin | helpers.py:45-72 | the paragraph loop preserves that invariant |
| Helpers.ChunksWithin | helpers.py:36-77 | every returned chunk fits the limit or is the tail of one paragraph, which is the most that holds for any input |
| Helpers.ChunksBounded | helpers.py:36-77 | when every paragraph fits the limit, every chunk does |
| Helpers.FoldNoEmptyChunk | helpers.py:45-72 | the loop never emits an empty chunk |
| Helpers.ChunksNonEmpty | helpers.py:39-77 | a message over the limit never yields an empty chunk |
| Helpers.StepJoined | helpers.py:47-72 | a fitting paragraph either starts a new chunk or is appended after `\n\n`, and either way the joined text grows by `\n\n` and the paragraph |
| Helpers.FoldJoined | helpers.py:45-72 | over fitting, non-empty paragraphs the loop keeps the joined chunks equal to the joined input |
| Helpers.ChunksRejoin | helpers.py:43-77 | when every paragraph is non-empty and fits, joining the chunks with `\n\n` gives back the message, so nothing is lost, duplicated or reordered |
| Helpers.OversizedParagraphCut | helpers.py:53-65 | an oversized paragraph met with an empty running chunk emits one piece: the longest prefix within the limit that ends in a space, or exactly `max_length` characters when there is none; piece plus new running chunk is the paragraph |
| Helpers.UnbrokenParagraphCut | helpers.py:53-75 | a single paragraph with no space before the limit comes back as two chunks, cut exactly at the limit |
| Helpers.ParagraphsCons | helpers.py:43 | a paragraph without line breaks followed by `\n\n` splits off first |
| Helpers.ParagraphsSingle | helpers.py:43 | text without line breaks is one paragraph |
| Helpers.ParagraphsOfFour | helpers.py:43 | four line-free paragraphs joined by `\n\n` split back into those four |
| Helpers.ChunkingTestFold | helpers.py:45-72 | with a limit of 50, the paragraphs 11, 11, 100 and 11 characters long leave the first two merged, the 100-character one as a chunk, and the last as the running chunk |
| Helpers.ChunkingTestExample | test_telegram_bot.py:175-177 | the test's long message with limit 50 gives exactly `["Paragraph 1\n\nParagraph 2", "X"*100, "Paragraph 4"]`, one chunk being twice the limit |
| Helpers.CutPieces | helpers.py:53-65 | an over-long paragraph cut at the last space within the limit, or at the limit, until the rest fits: pieces are non-empty, within the limit, and there are none only for the empty paragraph |
| Helpers.CutPiecesRejoin | helpers.py:53-65 | the pieces put together give back the paragraph |
| Helpers.StepFixedFits | helpers.py:45-72 | with over-long paragraphs always cut, one iteration keeps every chunk and the running chunk within the limit |
| Helpers.FoldFixedFits | helpers.py:45-72 | the whole corrected loop keeps every chunk and the running chunk within the limit |
| Helpers.ChunksFixedBounded | helpers.py:26-77 | every chunk of the corrected chunker fits the limit, for every message and every positive limit |
| Helpers.FoldFixedAgrees | helpers.py:45-72 | when every paragraph fits, the corrected loop and the loop as written end in the same state |
| Helpers.ChunksFixedAgrees | helpers.py:36-77 | when every paragraph fits, the corrected chunker returns what the code returns |
| Helpers.StepFixedJoined | helpers.py:45-72 | one corrected step adds a paragraph break and the paragraph, with its cuts turned into paragraph breaks, to the joined chunks |
| Helpers.FoldFixedJoined | helpers.py:45-72 | over non-empty paragraphs, the corrected loop keeps the joined chunks equal to the joined, cut paragraphs |
| Helpers.ChunksFixedRejoin | helpers.py:26-77 | when every paragraph is non-empty, joining the corrected chunks with `\n\n` gives the paragraphs back in order, each over-long one with `\n\n` at each cut; nothing is lost, duplicated or reordered |
| Helpers.FormatPapers | helpers.py:80-96 | the loop builds the heading followed by one item per paper, in input order, numbered from 0 |
| Helpers.FormatPapersItem | helpers.py:83-91 | item `k` starts with `k. <b>title</b>`, right after the items before it, so numbering starts at 0 |
| Helpers.AbstractTokenShape | helpers.py:94-95 | the `/abstract` token has no `.` and no `/`, and is made of characters of the entry id |
| Helpers.AbstractTokenCanonical | helpers.py:94-95 | for an entry id ending in `YYMM.NNNNN`, dotting the token gives back that id |
| Papers.AuthorLine | helpers.py:86-88 | computes the author line: the first three names joined by `, `, followed by ` et al.` when there are more than three |
| Papers.CommaPieceShape | arxiv_api.py:25 | each piece of a comma-separated topic string has no comma and no surrounding whitespace, and is made of the string's characters |
| Papers.AuthorLineShort | helpers.py:86-88 | up to three authors are joined by `, ` and nothing is added |
| Papers.AuthorLineLong | helpers.py:86-88 | with more than three authors, the first three are joined and ` et al.` is added, so only the first four matter |
| ArxivApi.ArxivQuery | arxiv_api.py:20-28 | computes the search query: each topic with a dot prefixed by `cat:`, joined by ` OR `; a string topic is split at commas and stripped first |
| ArxivApi.QueryTermRoundTrip | arxiv_api.py:21 | the topic can be read back from its query term, so the `cat:` rule loses nothing |
| ArxivApi.QueryTermPrefix | arxiv_api.py:21-28 | a term differs from its topic exactly when the topic holds a dot, and then it is `cat:` followed by the topic |
| ArxivApi.ArxivQueryRoundTrip | arxiv_api.py:20-21 | the topics of a non-empty list without spaces can be read back from its query, in order |
| ArxivApi.ArxivTextQuery | arxiv_api.py:22-28 | a string with a comma asks for the same query as the list of its stripped pieces; any other string for the same query as a one-topic list |
| ArxivApi.InDateRange | arxiv_api.py:41-47 | computes the client's results whose publication time lies between the two bounds, both included, in the client's order |
| ArxivApi.InDateRangeMembers | arxiv_api.py:42-45 | a result is kept if and only if the client returned it and its publication time lies in the inclusive range |
| ArxivApi.InDateRangeSubsequence | arxiv_api.py:41-47 | the kept results are a subsequence of the client's results, in the same order |
| ArxivApi.InDateRangeIdempotent | arxiv_api.py:42-45 | filtering again keeps everything |
| ArxivApi.FetchArxivPapers | arxiv_api.py:5-47 | the loop returns the filter of the client's results for the built query, and every result is within the range |
| ArxivApi.CleanedArxivId | arxiv_api.py:60-67 | the cleaned id has no `/` |
| ArxivApi.UrlStepsInert | arxiv_api.py:62-65 | once the last `/`-segment is taken, the `arxiv.org/` and `abs/` steps cannot change anything |
| ArxivApi.CleanArxivId | arxiv_api.py:59-67 | the four clean-up steps give the last `/`-segment with `.pdf` removed, as `CleanedArxivId` states |
| ArxivApi.CleanedBareId | arxiv_api.py:59-67 | an id with no `/` and no `.pdf` is looked up unchanged |
| ArxivApi.CleanedIdExamples | arxiv_api.py:59-67 | `http://arxiv.org/abs/2401.12345` (the id of the test fixture at test_telegram_bot.py:29) and `2401.12345` both clean to `2401.12345` |
| ArxivApi.FetchArxivPaperById | arxiv_api.py:49-88 | the result is None exactly when the lookup of the cleaned id finds nothing, and otherwise it is the record of the first result |
| MedarxivApi.MedQuery | medarxiv_api.py:28-36 | computes the medRxiv query: the topics joined verbatim by ` OR `, a string topic split at commas and stripped first |
| MedarxivApi.MedQueryRoundTrip | medarxiv_api.py:28-29 | a list of topics is joined verbatim: splitting the query at ` OR ` gives the topics back |
| MedarxivApi.MedQueryAgreesWithoutDots | medarxiv_api.py:28-29 | for dot-free topics the medRxiv query equals the arXiv one, so the two differ only in the `cat:` prefix |
| MedarxivApi.MedTextQueryAgreesWithoutDots | medarxiv_api.py:30-36 | the same holds for a string of topics, with or without commas |
| MedarxivApi.MedQueryKeepsDots | medarxiv_api.py:35-36 | a dotted topic is passed verbatim to medRxiv, where arXiv would get `cat:` |
| MedarxivApi.MedrxivLinkShape | medarxiv_api.py:64 | the link is `pdf_url` when that is present and non-empty, and otherwise the content URL around the DOI text |
| MedarxivApi.AuthorNamesShape | medarxiv_api.py:66 | one name per author in source order, `''` for a missing name, and no names when the key is missing |
| MedarxivApi.ToPaperRecord | medarxiv_api.py:61-69 | computes the paper dictionary of one JSON entry, with `''`/`[]` for a missing key and the DOI link when `pdf_url` is missing or empty |
| MedarxivApi.EmptyEntryRecord | medarxiv_api.py:61-69 | an entry with every key missing maps to empty strings and lists and the link `.../None.full.pdf` |
| MedarxivApi.FetchMedrxivPapers | medarxiv_api.py:6-76 | no result when a date does not parse; otherwise `[]` on a request failure or a missing `results`, and one record per entry, in order |
| MedarxivApi.DigitRunEnd | medarxiv_api.py:95 | `\d+` takes the longest run of digits |
| MedarxivApi.DoiMatchEnd | medarxiv_api.py:95 | a match of the DOI pattern contains a `/` |
| MedarxivApi.DoiSearchFrom | medarxiv_api.py:95 | whatever the leftmost-match search finds contains a `/` |
| MedarxivApi.DoiSearchNeedsSlash | medarxiv_api.py:94-97 | text without `/` never matches, so after line 91 the regex branch is dead |
| MedarxivApi.DoiSearchExample | medarxiv_api.py:95 | the pattern does match a full DOI `10.1101/2020.03.04.1` |
| MedarxivApi.CleanMedrxivId | medarxiv_api.py:89-97 | the clean-up gives the last `/`-segment |
| MedarxivApi.CleanedMedrxivIdShape | medarxiv_api.py:90-91 | the cleaned id has no `/`, a `/`-free id is kept as it is, and cleaning twice is cleaning once |
| MedarxivApi.FetchMedrxivPaperById | medarxiv_api.py:79-126 | None on a request failure or when `results` is missing or empty; otherwise the record of the first entry of the endpoint's answer for the cleaned id |
| TelegramBot.EscapeMarkdown | telegram_bot.py:199 | computes the title with `*`, `_`, `[` and `]` each preceded by a backslash, by the chain of four replacements |
| TelegramBot.UnescapeEscapeMarkdown | telegram_bot.py:199 | the four chained replacements can be undone, so each special character is escaped exactly once |
| TelegramBot.EscapeMarkdownByChar | telegram_bot.py:199 | the chain equals escaping each character on its own |
| TelegramBot.EscapedSpecialsPreceded | telegram_bot.py:199 | every `*`, `_`, `[`, `]` of the escaped title has a backslash right before it |
| TelegramBot.BuildTopicMessage | telegram_bot.py:196-206 | the loop builds the topic heading followed by one item per paper, in result order, numbered from 1 |
| TelegramBot.TopicMessage | telegram_bot.py:196-206 | computes the Markdown message of one topic: its heading, then per paper, numbered from 1, the escaped title, the author line and the PDF link |
| TelegramBot.TopicMessageItem | telegram_bot.py:198-204 | item `k` starts with `k+1. *title*`, right after the items before it |
| TelegramBot.Slices | telegram_bot.py:213 | `ceil(n/4000)` pieces, each non-empty and at most 4000 characters, and all but the last exactly 4000 |
| TelegramBot.SlicesPrefix | telegram_bot.py:213 | the first `j` pieces put together are the message's first `4000*j` characters |
| TelegramBot.SlicesRejoin | telegram_bot.py:213 | the pieces put together are the message |
| TelegramBot.TransportPiecesShape | telegram_bot.py:209-215 | what is sent (the message whole, or its slices) puts back together to the message; each piece fits 4096 characters and none is empty |
| TelegramBot.Collected | telegram_bot.py:179-188 | computes the `all_results` list: for each configured topic in order, the topic with its papers when its fetch returned a non-empty list; a fetch that raises is skipped |
| TelegramBot.CollectedMembers | telegram_bot.py:182-188 | a topic is listed with its papers if and only if it is configured and its fetch returned papers; a raising or empty fetch drops that topic alone |
| TelegramBot.CollectedEmpty | telegram_bot.py:182-192 | nothing is collected, so "No papers found" is the reply, exactly when every topic raised or found nothing |
| TelegramBot.CollectedInOrder | telegram_bot.py:182-186 | the listed topics come in configuration order |
| TelegramBot.TopicsTextLines | telegram_bot.py:85 | the topic listing has one `- topic` line per topic, in order |
| TelegramBot.AcceptedCount | telegram_bot.py:274-291 | the pieces before the first failing send are those delivered, and the next one failed |
| TelegramBot.DeliveredAll | telegram_bot.py:274-289 | when every send succeeds, a user gets every piece, in order |
| TelegramBot.FanOutTargets | telegram_bot.py:273-291 | every delivery goes to an authorised user and carries one of the message's pieces |
| TelegramBot.DailyDeliveriesTargets | telegram_bot.py:252-294 | every delivery of the daily job goes to an authorised user and carries a piece of the message of a configured topic whose fetch returned |
| TelegramBot.AsWrittenCollectsNothing | telegram_bot.py:182-188 | with the call as written, no topic is ever collected |
| TelegramBot.AsWrittenTodayFindsNothing | telegram_bot.py:176-192 | with the call as written, `/today` answers only "Searching…" and "No papers found today…" |
| TelegramBot.AsWrittenSendsNothing | telegram_bot.py:252-258 | with the call as written, the daily job sends nothing |
| TelegramBot.IntendedListsEveryTopicWithPapers | telegram_bot.py:182-186 | with the intended call, a topic is listed exactly when the search finds a paper from that day, and its list is the paper record of each such paper, in the client's order |
| TelegramBot.Bot.Default | telegram_bot.py:23-29 | the default configuration: no token, no users, topics `cs.CV` and `cs.AI`, 09:00, UTC |
| TelegramBot.Bot.Start | telegram_bot.py:46-57 | the greeting for an authorised user, the refusal otherwise |
| TelegramBot.Bot.Help | telegram_bot.py:59-76 | the command list for an authorised user, the refusal otherwise |
| TelegramBot.Bot.ShowTopics | telegram_bot.py:78-86 | the topic listing for an authorised user, the refusal otherwise |
| TelegramBot.Bot.AddTopic | telegram_bot.py:88-106 | refusal, missing argument and existing topic change nothing; otherwise the topic is appended at the end; a duplicate-free list stays duplicate-free |
| TelegramBot.Bot.RemoveTopic | telegram_bot.py:108-126 | refusal, missing argument and absent topic change nothing; otherwise only the first occurrence is removed (one fewer in the multiset); no duplicates appear |
| TelegramBot.Bot.SetTime | telegram_bot.py:128-147 | only an authorised user with exactly one valid `HH:MM` argument changes the time, with the reply for each case |
| TelegramBot.Bot.SetTimezone | telegram_bot.py:149-167 | only an authorised user naming a known zone (the arguments joined by spaces) changes it, with the reply for each case |
| TelegramBot.Bot.AuthorizeUser | telegram_bot.py:217-246 | an empty user list makes the caller the sole admin; a refusal, a wrong argument count, a non-integer or an already-authorised id change nothing; otherwise the id is appended; authorisation is never revoked and no duplicates appear |
| TelegramBot.Bot.TodayCommand | telegram_bot.py:169-215 | the refusal for an unauthorised user; otherwise "Searching…", then "No papers found…" when nothing is collected, or each collected topic's message pieces in order |
| TelegramBot.Bot.CollectResults | telegram_bot.py:179-188 | the fetch loop builds `Collected` |
| TelegramBot.Bot.RenderResults | telegram_bot.py:195-215 | the reply loop sends each collected topic's message whole or in 4000-character slices, in order |
| TelegramBot.Bot.SendPieces | telegram_bot.py:274-291 | one user's sends stop at the first failure |
| TelegramBot.Bot.Broadcast | telegram_bot.py:273-291 | the user loop: each user in order, a failure for one user does not stop the others |
| TelegramBot.Bot.DeliverTopic | telegram_bot.py:253-291 | a topic whose fetch returns papers has its message sent to every user; otherwise nothing is sent |
| TelegramBot.Bot.SendDailyPapers | telegram_bot.py:248-294 | the topic loop of the daily job sends `DailyDeliveries`: topic after topic, user after user |
| Text.JoinSplit | helpers.py:43 | joining the pieces of a `split` with the same separator gives back the string |
| Text.SplitJoin | arxiv_api.py:21 | splitting a join of pieces that do not hold the separator's first character gives back the pieces |
| Text.LastSegment | arxiv_api.py:60-61 | `s.split('/')[-1]` has no `/`, is a suffix of `s`, and is `s` itself when `s` has no `/` |
| Text.LastSegmentIdempotent | medarxiv_api.py:90-91 | taking the last segment twice is taking it once |
| Text.ReplaceAbsent | arxiv_api.py:66-67 | `replace` of a pattern that does not occur changes nothing |
| Text.ReplaceCharRemoves | helpers.py:15 | replacing a character by text without it removes every occurrence |
| Text.Strip | arxiv_api.py:25 | the stripped text starts and ends with non-whitespace and uses only the text's characters |
| Text.StripIsSlice | arxiv_api.py:25 | the stripped text is a slice of the text with only whitespace before it and after it; with the ends `Strip` guarantees, this determines `strip` exactly |
| Text.StripUnchanged | arxiv_api.py:25 | text without surrounding whitespace is unchanged by `strip` |
| Text.ParseInt | telegram_bot.py:237 | computes `int(s)`: an optionally signed run of ASCII digits with single underscores between them and surrounding whitespace, or no value where Python raises ValueError |
| Text.ParseIntRoundTrip | telegram_bot.py:237 | `int(str(n)) == n` for every integer |
| Text.ParseIntNonNegative | telegram_bot.py:237 | the decimal digits of a natural number parse back to it |
| Text.DecimalRoundTrip | telegram_bot.py:239-244 | the decimal rendering of a natural number reads back to it |
| Text.RemoveFirstAtIndex | telegram_bot.py:124 | `list.remove` drops exactly the first occurrence |
| Text.RemoveFirstMultiset | telegram_bot.py:124 | `list.remove` removes one copy of the element and keeps everything else |
| Text.RemoveFirstAfterAppend | telegram_bot.py:104-124 | removing a topic just added to a list without it gives back the list |
| Text.NoDuplicatesRemove | telegram_bot.py:124 | removing from a duplicate-free list keeps it duplicate-free |
| Text.NumberedPrefix | helpers.py:83-95 | the list built after `j` items is a prefix of the whole list |
| Text.NumberedItemAt | telegram_bot.py:198-206 | item `k`, numbered `first + k`, stands right after the items before it |

## Left out

- The network: the `arxiv` client and search, `requests.get`, and Telegram's `reply_text`/`send_message`. These are function-typed parameters, so the model makes no claim about what those services return.
- File I/O: `save_config` and reading `config.json` in `load_config`. The configuration is the in-memory `Bot`, and only the defaults `load_config` writes are modelled.
- Scheduling and startup: `run_bot`, handler registration and the job queue.
- `datetime.strptime`, `strftime`, `pytz.timezone` and `datetime.now()`. The validity checks of `/set_time`, `/set_timezone` and the medRxiv date parsing are oracle parameters, and `today` is a parameter.
- `async`/`await` and logging. The awaits run one after the other, so there is no concurrency to model, and logging has no effect on state or replies.
- Time zones in the date comparison. Publication times and range bounds are integer timestamps.
- `main.py`, which is an entry point only.
- Python's `int()`, `\d` and `str.lower()` on non-ASCII text. The model accepts ASCII digits, a sign, surrounding whitespace and single underscores. Lowercasing only guards steps that are no-ops anyway.
- Helpers.EscapeHtml: `escape_html(None)` returning `""` is not modelled, because the model's text is never None. The empty string does return `""`.
- MedarxivApi.FetchMedrxivPapers: a JSON `null` for a present key is treated as a missing key. In the source, `"results": null` (medarxiv_api.py:59) and `"authors": null` (medarxiv_api.py:66) raise a TypeError that is not caught. A `null` title, abstract, date, doi or category puts None into the record, where the model puts `""` or `[]` (medarxiv_api.py:62-68). A `null` pdf_url falls back to the DOI link, as in the model. A `results` value that is a number or a boolean is not modelled either; iterating it at medarxiv_api.py:59, or indexing it at medarxiv_api.py:112, raises a TypeError that is not caught.
- MedarxivApi.FetchMedrxivPaperById: the same `null` handling as above for one entry (medarxiv_api.py:114-122). Here `"results": null` gives None, as in the model, and `"authors": null` raises a TypeError that is not caught.
- MedarxivApi.FetchMedrxivPaperById: a body, entry or author that is a JSON value other than an object is not modelled; `JsonPaper` and `JsonAuthor` are always objects. In the source, `.get` on such a value raises an AttributeError that is not caught (medarxiv_api.py:59, 66, 109 and 119), in both fetch functions.
- MedarxivApi.FetchMedrxivPapers: the `limit` and `format` query parameters are carried in the request value; the server's use of them is not modelled.
- Helpers.ChunkHtmlMessage: the default `max_length=4000` (helpers.py:26) is the constant `DefaultMaxLength`, which a caller passes explicitly. A negative `max_length` is not modelled, because the limit is a `nat`. In Python it would cut paragraphs with negative slice indices.
- Helpers.ChunkHtmlMessage: cutting inside an HTML element is not modelled as an error. A cut at the last space can leave `<b>` open in one chunk and close it in the next, and the cut at the limit can split a tag such as `</b>`. Neither the code nor the corrected chunker keeps tags whole.
- Helpers.ChunksFixedBounded: the corrected chunker requires a limit of at least 1, because no non-empty chunk fits a limit of 0.
- TelegramBot.Bot.TodayCommand: a failing `reply_text` is not modelled. It would end the handler with an exception.
- TelegramBot.Bot.SendDailyPapers: the send oracle depends only on the user and the text, so two identical sends to one user succeed or fail alike.
- TelegramBot.Slices: Telegram measures length in UTF-16 code units, while the model, like Python's `len`, counts characters.
- TelegramBot.FetchAsWritten: the second defect of the handlers is not modelled separately. They index `arxiv.Result` objects as dictionaries (`paper['title']`). The first defect already makes those lines unreachable.

## Findings

| source | as written | input that shows it | evidently intended | confidence | as-written member | corrected member |
|---|---|---|---|---|---|---|
| telegram_bot.py:178-188 | `/today` and the daily job (telegram_bot.py:250-254) pass `today`, a string, as both dates. arxiv_api.py:44 compares it with a `datetime`, which raises TypeError for the first result the client yields, and the handler catches and logs it. So no topic is ever collected: `/today` always answers "No papers found today for your topics." and the daily job sends nothing. | any configured topic for which arXiv returns at least one paper | pass the day's bounds as datetimes and turn each result into the paper dictionary the handlers index, so every topic with a paper from that day is listed | not executed | TelegramBot.AsWrittenTodayFindsNothing | TelegramBot.IntendedListsEveryTopicWithPapers |
| helpers.py:47-50 | A paragraph longer than `max_length` that follows a non-empty running chunk closes that chunk and becomes the running chunk whole. Only a paragraph met with an empty running chunk is cut (helpers.py:53-65), and what is left after that cut is never cut again. So a chunk can exceed `max_length`, against the documented "Maximum length of each chunk" (helpers.py:26-31). | the chunking test's message (paragraphs of 11, 11, 100 and 11 characters) with `max_length` 50, which yields a 100-character chunk | cut every over-long paragraph, whatever the running chunk holds, and cut the rest again until it fits, so every chunk is at most `max_length` | not executed | Helpers.ChunkingTestExample | Helpers.ChunksFixedBounded |
