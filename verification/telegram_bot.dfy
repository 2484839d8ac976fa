/**
 * `telegram_bot.py`: the bot's in-memory configuration and the command
 * handlers that read and change it, the Markdown message of one topic's
 * papers, its split into transport-sized pieces, and the per-topic
 * collection of search results behind `/today` and the daily job.
 *
 * Telegram replies are returned as values; `send_message` and the arXiv
 * search are function-typed parameters. `save_config` is not modelled.
 */
module TelegramBot {
  import opened Text
  import opened Papers
  import ArxivApi

  // ---------------------------------------------------------------------
  // Markdown escaping of titles

  predicate IsMarkdownSpecial(c: char)
  {
    c == '*' || c == '_' || c == '[' || c == ']'
  }

  /** The four chained `replace` calls applied to a title. */
  function EscapeMarkdown(title: string): string
  {
    Replace(Replace(Replace(Replace(title, "*", "\\*"), "_", "\\_"), "[", "\\["), "]", "\\]")
  }

  function EscapeMarkdownChar(c: char): string
  {
    if IsMarkdownSpecial(c) then ['\\', c] else [c]
  }

  /** Reference definition: each special character gets a backslash before
      it, every other character stays. */
  function EscapeMarkdownChars(s: string): string
  {
    if s == [] then [] else EscapeMarkdownChar(s[0]) + EscapeMarkdownChars(s[1..])
  }

  /** The inverse of escaping: a backslash followed by a special character
      is read as that character. */
  function UnescapeMarkdown(s: string): string
    decreases |s|
  {
    if s == [] then []
    else if |s| >= 2 && s[0] == '\\' && IsMarkdownSpecial(s[1]) then [s[1]] + UnescapeMarkdown(s[2..])
    else [s[0]] + UnescapeMarkdown(s[1..])
  }

  /** An escaped special character is left alone by the later replacements. */
  lemma EscapedCharStays(c: char, p: char, repl: string)
    requires p != c && p != '\\'
    ensures Replace(['\\', c], [p], repl) == ['\\', c]
  {
    ReplaceCharAbsent(['\\', c], p, repl);
  }

  lemma EscapeMarkdownOneChar(c: char)
    ensures EscapeMarkdown([c]) == EscapeMarkdownChar(c)
  {
    var e := ['\\', c];
    ReplaceOneChar(c, '*', "\\*");
    if c == '*' {
      EscapedCharStays(c, '_', "\\_");
      EscapedCharStays(c, '[', "\\[");
      EscapedCharStays(c, ']', "\\]");
    } else {
      ReplaceOneChar(c, '_', "\\_");
      if c == '_' {
        EscapedCharStays(c, '[', "\\[");
        EscapedCharStays(c, ']', "\\]");
      } else {
        ReplaceOneChar(c, '[', "\\[");
        if c == '[' {
          EscapedCharStays(c, ']', "\\]");
        } else {
          ReplaceOneChar(c, ']', "\\]");
        }
      }
    }
  }

  /** The chained replacements escape every character on its own: the
      backslashes one step inserts are never touched by a later step. */
  lemma {:induction false} EscapeMarkdownByChar(s: string)
    ensures EscapeMarkdown(s) == EscapeMarkdownChars(s)
    decreases |s|
  {
    if s != [] {
      var c, rest := s[0], s[1..];
      assert s == [c] + rest;
      ReplaceCharAppend([c], rest, '*', "\\*");
      var a1, b1 := Replace([c], "*", "\\*"), Replace(rest, "*", "\\*");
      ReplaceCharAppend(a1, b1, '_', "\\_");
      var a2, b2 := Replace(a1, "_", "\\_"), Replace(b1, "_", "\\_");
      ReplaceCharAppend(a2, b2, '[', "\\[");
      var a3, b3 := Replace(a2, "[", "\\["), Replace(b2, "[", "\\[");
      ReplaceCharAppend(a3, b3, ']', "\\]");
      EscapeMarkdownOneChar(c);
      EscapeMarkdownByChar(rest);
      assert EscapeMarkdown(s) == EscapeMarkdown([c]) + EscapeMarkdown(rest);
    }
  }

  /** Escaped text never starts with a special character. */
  lemma EscapedHead(s: string)
    ensures EscapeMarkdownChars(s) == [] || !IsMarkdownSpecial(EscapeMarkdownChars(s)[0])
  {
    if s != [] {
      assert EscapeMarkdownChars(s)[0] == EscapeMarkdownChar(s[0])[0];
    }
  }

  lemma UnescapeAfterChar(c: char, e: string)
    requires e == [] || !IsMarkdownSpecial(e[0])
    ensures UnescapeMarkdown(EscapeMarkdownChar(c) + e) == [c] + UnescapeMarkdown(e)
  {
    var t := EscapeMarkdownChar(c) + e;
    if IsMarkdownSpecial(c) {
      assert t[0] == '\\' && t[1] == c && t[2..] == e;
    } else {
      assert t[0] == c && t[1..] == e;
    }
  }

  lemma {:induction false} UnescapeEscapeMarkdownChars(s: string)
    ensures UnescapeMarkdown(EscapeMarkdownChars(s)) == s
    decreases |s|
  {
    if s != [] {
      EscapedHead(s[1..]);
      UnescapeEscapeMarkdownChars(s[1..]);
      UnescapeAfterChar(s[0], EscapeMarkdownChars(s[1..]));
      assert [s[0]] + s[1..] == s;
    }
  }

  /** Unescaping gives the title back: each special character is escaped
      exactly once and nothing else changes. */
  lemma UnescapeEscapeMarkdown(title: string)
    ensures UnescapeMarkdown(EscapeMarkdown(title)) == title
  {
    EscapeMarkdownByChar(title);
    UnescapeEscapeMarkdownChars(title);
  }

  /** Every special character of an escaped title has a backslash right
      before it. */
  lemma {:induction false} EscapedSpecialsPreceded(s: string)
    ensures var r := EscapeMarkdownChars(s);
      forall k :: 0 <= k < |r| && IsMarkdownSpecial(r[k]) ==> k > 0 && r[k - 1] == '\\'
    decreases |s|
  {
    if s != [] {
      var head, tail := EscapeMarkdownChar(s[0]), EscapeMarkdownChars(s[1..]);
      var r := head + tail;
      EscapedSpecialsPreceded(s[1..]);
      EscapedHead(s[1..]);
      forall k | 0 <= k < |r| && IsMarkdownSpecial(r[k])
        ensures k > 0 && r[k - 1] == '\\'
      {
        if k >= |head| {
          assert r[k] == tail[k - |head|];
          if k > |head| {
            assert r[k - 1] == tail[k - 1 - |head|];
          }
        }
      }
    }
  }

  // ---------------------------------------------------------------------
  // The Markdown message of one topic

  /** `f"📚 *{topic} Papers Today* 📚\n\n"` */
  function MarkdownHeading(topic: string): string
  {
    "\U{1F4DA} *" + topic + " Papers Today* \U{1F4DA}\n\n"
  }

  /** The first line of an item: its number and the escaped title in bold. */
  function MarkdownTitleLine(i: nat, paper: PaperRecord): string
  {
    NatToDecimal(i) + ". *" + EscapeMarkdown(paper.title) + "*\n"
  }

  function MarkdownAuthorsLine(paper: PaperRecord): string
  {
    "   Authors: " + AuthorLine(paper.authors) + "\n"
  }

  function MarkdownLinkLine(paper: PaperRecord): string
  {
    "   [PDF](" + paper.link + ")\n\n"
  }

  /** Item `i` of a topic message (numbered from 1 by `enumerate(results, 1)`). */
  function MarkdownItem(i: nat, paper: PaperRecord): string
  {
    MarkdownTitleLine(i, paper) + (MarkdownAuthorsLine(paper) + MarkdownLinkLine(paper))
  }

  /** The message for one topic: the heading, then one item per result in
      result order, numbered 1, 2, 3, ... */
  function TopicMessage(topic: string, results: seq<PaperRecord>): string
  {
    MarkdownHeading(topic) + Numbered(results, MarkdownItem, 1)
  }

  /** The `message +=` loop that builds one topic's message. */
  method BuildTopicMessage(topic: string, results: seq<PaperRecord>) returns (message: string)
    ensures message == TopicMessage(topic, results)
  {
    var heading := MarkdownHeading(topic);
    message := heading;
    for i := 0 to |results|
      invariant message == heading + Numbered(results[..i], MarkdownItem, 1)
    {
      var paper := results[i];
      var title := EscapeMarkdown(paper.title);
      var authors := Join(paper.authors[..Min(3, |paper.authors|)], ", ");
      if |paper.authors| > 3 {
        authors := authors + " et al.";
      } else {
        assert authors + "" == authors;
      }
      assert authors == AuthorLine(paper.authors);
      var n := i + 1;
      var titleLine := NatToDecimal(n) + ". *" + title + "*\n";
      var authorsLine := "   Authors: " + authors + "\n";
      var linkLine := "   [PDF](" + paper.link + ")\n\n";
      var item := titleLine + (authorsLine + linkLine);
      assert item == MarkdownItem(1 + i, paper) by {
        assert titleLine == MarkdownTitleLine(n, paper);
        assert authorsLine == MarkdownAuthorsLine(paper);
        assert linkLine == MarkdownLinkLine(paper);
      }
      NumberedSnoc(results, MarkdownItem, 1, i);
      AppendAssoc(heading, Numbered(results[..i], MarkdownItem, 1), item);
      message := message + item;
    }
    assert results[..|results|] == results;
  }

  lemma MarkdownItemParts(k: nat, paper: PaperRecord)
    ensures MarkdownItem(1 + k, paper) == MarkdownTitleLine(k + 1, paper) + (MarkdownAuthorsLine(paper) + MarkdownLinkLine(paper))
  {
  }

  /** Item `k` of the list is numbered `k + 1`, shows the title escaped, and
      starts right after the items before it. */
  lemma TopicMessageItem(results: seq<PaperRecord>, k: nat)
    requires k < |results|
    ensures OccursAt(Numbered(results, MarkdownItem, 1), |Numbered(results[..k], MarkdownItem, 1)|, MarkdownTitleLine(k + 1, results[k]))
  {
    var paper := results[k];
    MarkdownItemParts(k, paper);
    NumberedHeadAt(results, MarkdownItem, 1, k, MarkdownTitleLine(k + 1, paper),
      MarkdownAuthorsLine(paper) + MarkdownLinkLine(paper));
  }

  // ---------------------------------------------------------------------
  // Splitting for the transport

  const MaxMessageLength := 4096
  const SliceWidth := 4000

  function SliceCount(m: string): nat
  {
    (|m| + SliceWidth - 1) / SliceWidth
  }

  /** `[message[i:i+4000] for i in range(0, len(message), 4000)]` */
  function Slices(m: string): (r: seq<string>)
    ensures |r| == SliceCount(m)
    ensures forall k :: 0 <= k < |r| ==> 0 < |r[k]| <= SliceWidth
    ensures forall k :: 0 <= k < |r| - 1 ==> |r[k]| == SliceWidth
  {
    seq(SliceCount(m), k requires 0 <= k < SliceCount(m) =>
      m[k * SliceWidth .. Min(k * SliceWidth + SliceWidth, |m|)])
  }

  /** The first `j` slices put together are the first `j * 4000` characters
      (or the whole message). */
  lemma {:induction false} SlicesPrefix(m: string, j: nat)
    requires j <= SliceCount(m)
    ensures Concat(Slices(m)[..j]) == m[..Min(j * SliceWidth, |m|)]
    decreases j
  {
    var r := Slices(m);
    if j > 0 {
      SlicesPrefix(m, j - 1);
      assert r[..j][..j - 1] == r[..j - 1];
      var lo := (j - 1) * SliceWidth;
      assert Min(lo, |m|) == lo;
      assert m[..lo] + m[lo..Min(lo + SliceWidth, |m|)] == m[..Min(j * SliceWidth, |m|)];
    }
  }

  /** Putting the slices together gives the message back. */
  lemma SlicesRejoin(m: string)
    ensures Concat(Slices(m)) == m
  {
    var r := Slices(m);
    SlicesPrefix(m, |r|);
    assert r[..|r|] == r;
    assert |m| <= |r| * SliceWidth;
  }

  /** What is sent for one message: the message whole when it has at most
      4096 characters, its 4000-character slices otherwise. */
  function TransportPieces(m: string): seq<string>
  {
    if |m| <= MaxMessageLength then [m] else Slices(m)
  }

  /** The pieces put together are the message; none is over 4096
      characters, and none is empty unless the message is. */
  lemma TransportPiecesShape(m: string)
    ensures Concat(TransportPieces(m)) == m
    ensures forall k :: 0 <= k < |TransportPieces(m)| ==> |TransportPieces(m)[k]| <= MaxMessageLength
    ensures m != [] ==> forall k :: 0 <= k < |TransportPieces(m)| ==> TransportPieces(m)[k] != []
  {
    if |m| <= MaxMessageLength {
      ConcatCons(m, []);
    } else {
      SlicesRejoin(m);
    }
  }

  // ---------------------------------------------------------------------
  // Collecting the day's results, topic by topic

  /** The call `fetch_arxiv_papers(topic, today, today, max_results=10)`. */
  datatype FetchCall = FetchCall(topic: string, startDate: string, endDate: string, maxResults: int)

  /** What that call does: it raises (the handler logs the exception and
      goes on), or it returns the papers. */
  datatype FetchOutcome = Raised | Returned(papers: seq<PaperRecord>)

  function DailyFetch(topic: string, today: string): FetchCall
  {
    FetchCall(topic, today, today, 10)
  }

  /** What one topic adds to `all_results`: the topic with its papers when
      the call returned some, nothing otherwise. */
  function Contribution(topic: string, outcome: FetchOutcome): seq<(string, seq<PaperRecord>)>
  {
    if outcome.Returned? && outcome.papers != [] then [(topic, outcome.papers)] else []
  }

  /** `all_results`, as the loop over the configured topics leaves it. */
  function Collected(topics: seq<string>, today: string, fetch: FetchCall -> FetchOutcome)
    : seq<(string, seq<PaperRecord>)>
  {
    if topics == [] then []
    else
      var t := topics[|topics| - 1];
      Collected(topics[..|topics| - 1], today, fetch) + Contribution(t, fetch(DailyFetch(t, today)))
  }

  /** A topic is listed with its papers if and only if it is configured and
      its search returned papers: a failing or empty search drops that topic
      alone. */
  lemma {:induction false} CollectedMembers(topics: seq<string>, today: string, fetch: FetchCall -> FetchOutcome)
    ensures forall e :: e in Collected(topics, today, fetch) <==>
      e.0 in topics && fetch(DailyFetch(e.0, today)) == Returned(e.1) && e.1 != []
    decreases |topics|
  {
    if topics != [] {
      CollectedMembers(topics[..|topics| - 1], today, fetch);
      assert topics == topics[..|topics| - 1] + [topics[|topics| - 1]];
    }
  }

  /** Nothing is collected exactly when no configured topic returned a paper. */
  lemma CollectedEmpty(topics: seq<string>, today: string, fetch: FetchCall -> FetchOutcome)
    ensures Collected(topics, today, fetch) == [] <==>
      forall t :: t in topics ==> fetch(DailyFetch(t, today)).Raised? || fetch(DailyFetch(t, today)).papers == []
  {
    CollectedMembers(topics, today, fetch);
    var c := Collected(topics, today, fetch);
    if c != [] {
      assert c[0] in c;
    }
    if exists t :: t in topics && fetch(DailyFetch(t, today)).Returned? && fetch(DailyFetch(t, today)).papers != [] {
      var t :| t in topics && fetch(DailyFetch(t, today)).Returned? && fetch(DailyFetch(t, today)).papers != [];
      assert (t, fetch(DailyFetch(t, today)).papers) in c;
    }
  }

  function CollectedTopics(c: seq<(string, seq<PaperRecord>)>): seq<string>
  {
    seq(|c|, k requires 0 <= k < |c| => c[k].0)
  }

  /** The listed topics come in configuration order. */
  lemma {:induction false} CollectedInOrder(topics: seq<string>, today: string, fetch: FetchCall -> FetchOutcome)
    ensures IsSubsequence(CollectedTopics(Collected(topics, today, fetch)), topics)
    decreases |topics|
  {
    if topics != [] {
      var init := topics[..|topics| - 1];
      var t := topics[|topics| - 1];
      var c := Collected(init, today, fetch);
      var ts := CollectedTopics(c);
      CollectedInOrder(init, today, fetch);
      var extra := Contribution(t, fetch(DailyFetch(t, today)));
      if extra == [] {
        assert c + extra == c;
      } else {
        var all := CollectedTopics(c + extra);
        assert all[..|all| - 1] == ts;
      }
    }
  }

  // ---------------------------------------------------------------------
  // Replies

  const NotAuthorizedReply := "You are not authorized to use this bot."
  const StartReply := "Hi! I am your ArXiv Paper Bot. I will send you daily updates of papers on your topics of interest.\n\nUse /help to see available commands."
  const HelpReply := "Available commands:\n\n/topics - Show current topics\n/add_topic <topic> - Add a new topic (e.g., cs.CV, cs.AI)\n/remove_topic <topic> - Remove a topic\n/set_time HH:MM - Set notification time (24h format)\n/set_timezone <timezone> - Set timezone (e.g., UTC, US/Eastern)\n/today - Get today's papers now\n/authorize <user_id> - Authorize a new user (admin only)\n/help - Show this help message"
  const SearchingReply := "Searching for today's papers, please wait..."
  const NoPapersReply := "No papers found today for your topics."

  /** `"Current topics:\n\n" + "\n".join(f"- {topic}" ...)` */
  function TopicsText(topics: seq<string>): string
  {
    "Current topics:\n\n" + Join(TopicLines(topics), "\n")
  }

  function TopicLines(topics: seq<string>): seq<string>
  {
    seq(|topics|, k requires 0 <= k < |topics| => "- " + topics[k])
  }

  /** For a non-empty list of one-line topics, the listing holds one line per
      topic, in order. */
  lemma TopicsTextLines(topics: seq<string>)
    requires topics != []
    requires forall k :: 0 <= k < |topics| ==> '\n' !in topics[k]
    ensures Split(TopicsText(topics)[|"Current topics:\n\n"|..], "\n") == TopicLines(topics)
  {
    var lines := TopicLines(topics);
    forall k | 0 <= k < |lines|
      ensures '\n' !in lines[k]
    {
      assert lines[k] == "- " + topics[k];
    }
    SplitJoin(lines, "\n");
    var heading := "Current topics:\n\n";
    assert TopicsText(topics)[|heading|..] == Join(lines, "\n");
  }

  /** The pieces sent for the collected topics, in order. */
  function TopicReplies(c: seq<(string, seq<PaperRecord>)>): seq<string>
  {
    if c == [] then []
    else
      var last := c[|c| - 1];
      TopicReplies(c[..|c| - 1]) + TransportPieces(TopicMessage(last.0, last.1))
  }

  /** Everything `/today` replies to an authorised user. */
  function TodayReplies(topics: seq<string>, today: string, fetch: FetchCall -> FetchOutcome): seq<string>
  {
    var c := Collected(topics, today, fetch);
    [SearchingReply] + (if c == [] then [NoPapersReply] else TopicReplies(c))
  }

  // ---------------------------------------------------------------------
  // The daily job's deliveries

  /** One `send_message(chat_id=..., text=...)` that went through. */
  datatype Delivery = Delivery(chatId: int, text: string)

  /** How many of the pieces go out to `user` before the first failing send
      (the exception ends that user's pieces). */
  function AcceptedCount(user: int, pieces: seq<string>, send: (int, string) -> bool): (n: nat)
    ensures n <= |pieces|
    ensures forall j :: 0 <= j < n ==> send(user, pieces[j])
    ensures n < |pieces| ==> !send(user, pieces[n])
    decreases |pieces|
  {
    if pieces == [] || !send(user, pieces[0]) then 0
    else 1 + AcceptedCount(user, pieces[1..], send)
  }

  /** The deliveries to one user: the pieces before the first failure. */
  function Delivered(user: int, pieces: seq<string>, send: (int, string) -> bool): seq<Delivery>
  {
    var n := AcceptedCount(user, pieces, send);
    seq(n, j requires 0 <= j < n => Delivery(user, pieces[j]))
  }

  /** The deliveries of one message to every user, user after user; a
      failure for one user leaves the others' deliveries as they are. */
  function FanOut(users: seq<int>, pieces: seq<string>, send: (int, string) -> bool): seq<Delivery>
  {
    if users == [] then []
    else FanOut(users[..|users| - 1], pieces, send) + Delivered(users[|users| - 1], pieces, send)
  }

  /** The deliveries for one topic of the daily job. */
  function TopicDeliveries(topic: string, users: seq<int>, today: string,
                           fetch: FetchCall -> FetchOutcome, send: (int, string) -> bool): seq<Delivery>
  {
    var outcome := fetch(DailyFetch(topic, today));
    if outcome.Returned? && outcome.papers != [] then
      FanOut(users, TransportPieces(TopicMessage(topic, outcome.papers)), send)
    else []
  }

  /** All deliveries of the daily job, topic after topic. */
  function DailyDeliveries(topics: seq<string>, users: seq<int>, today: string,
                           fetch: FetchCall -> FetchOutcome, send: (int, string) -> bool): seq<Delivery>
  {
    if topics == [] then []
    else
      DailyDeliveries(topics[..|topics| - 1], users, today, fetch, send)
      + TopicDeliveries(topics[|topics| - 1], users, today, fetch, send)
  }

  /** A user receives the whole message when every send to them succeeds. */
  lemma DeliveredAll(user: int, pieces: seq<string>, send: (int, string) -> bool)
    requires forall j :: 0 <= j < |pieces| ==> send(user, pieces[j])
    ensures |Delivered(user, pieces, send)| == |pieces|
    ensures forall j :: 0 <= j < |pieces| ==> Delivered(user, pieces, send)[j] == Delivery(user, pieces[j])
  {
  }

  /** Every delivery of a fan-out goes to one of its users and carries one
      of the pieces. */
  lemma {:induction false} FanOutTargets(users: seq<int>, pieces: seq<string>, send: (int, string) -> bool)
    ensures forall d :: d in FanOut(users, pieces, send) ==> d.chatId in users && d.text in pieces
    decreases |users|
  {
    if users != [] {
      var init := users[..|users| - 1];
      FanOutTargets(init, pieces, send);
      assert forall u :: u in init ==> u in users;
      var ds := Delivered(users[|users| - 1], pieces, send);
      forall d | d in ds
        ensures d.chatId in users && d.text in pieces
      {
        var j :| 0 <= j < |ds| && ds[j] == d;
        assert d.text == pieces[j];
      }
    }
  }

  /** The daily job sends only to authorised users, and only pieces of a
      configured topic's message. */
  lemma {:induction false} DailyDeliveriesTargets(topics: seq<string>, users: seq<int>, today: string,
                                                  fetch: FetchCall -> FetchOutcome, send: (int, string) -> bool)
    ensures forall d :: d in DailyDeliveries(topics, users, today, fetch, send) ==>
      d.chatId in users
      && exists t :: t in topics && fetch(DailyFetch(t, today)).Returned?
           && d.text in TransportPieces(TopicMessage(t, fetch(DailyFetch(t, today)).papers))
    decreases |topics|
  {
    if topics != [] {
      var init := topics[..|topics| - 1];
      var t := topics[|topics| - 1];
      DailyDeliveriesTargets(init, users, today, fetch, send);
      assert forall x :: x in init ==> x in topics;
      var outcome := fetch(DailyFetch(t, today));
      if outcome.Returned? && outcome.papers != [] {
        FanOutTargets(users, TransportPieces(TopicMessage(t, outcome.papers)), send);
      }
    }
  }

  // ---------------------------------------------------------------------
  // The search as the handlers call it

  /** The search the handlers' call makes: `fetch_arxiv_papers` with the
      topic string and `max_results=10`. */
  function DailySearch(call: FetchCall): ArxivApi.ArxivSearch
  {
    ArxivApi.ArxivSearch(ArxivApi.ArxivQuery(TopicText(call.topic)), call.maxResults)
  }

  /** The call as written: `today` is text, and its comparison with the first
      result's `datetime` raises TypeError; only a search that yields nothing
      returns (an empty list). */
  function FetchAsWritten(client: ArxivApi.ArxivSearch -> seq<ArxivResult>, call: FetchCall): FetchOutcome
  {
    if client(DailySearch(call)) == [] then Returned([]) else Raised
  }

  /** As written, no topic is ever collected, so `/today` always ends with
      the no-papers reply and the daily job sends nothing. */
  lemma {:induction false} AsWrittenCollectsNothing(topics: seq<string>, today: string,
                                                    client: ArxivApi.ArxivSearch -> seq<ArxivResult>)
    ensures Collected(topics, today, call => FetchAsWritten(client, call)) == []
    decreases |topics|
  {
    if topics != [] {
      AsWrittenCollectsNothing(topics[..|topics| - 1], today, client);
    }
  }

  lemma AsWrittenTodayFindsNothing(topics: seq<string>, today: string,
                                   client: ArxivApi.ArxivSearch -> seq<ArxivResult>)
    ensures TodayReplies(topics, today, call => FetchAsWritten(client, call)) == [SearchingReply, NoPapersReply]
  {
    AsWrittenCollectsNothing(topics, today, client);
  }

  lemma {:induction false} AsWrittenSendsNothing(topics: seq<string>, users: seq<int>, today: string,
                                                 client: ArxivApi.ArxivSearch -> seq<ArxivResult>,
                                                 send: (int, string) -> bool)
    ensures DailyDeliveries(topics, users, today, call => FetchAsWritten(client, call), send) == []
    decreases |topics|
  {
    if topics != [] {
      AsWrittenSendsNothing(topics[..|topics| - 1], users, today, client, send);
    }
  }

  /** The call as intended: the day's bounds as timestamps, and the results
      handed over as the paper dictionaries the handlers index. */
  function FetchIntended(client: ArxivApi.ArxivSearch -> seq<ArxivResult>, dayStart: int, dayEnd: int,
                         call: FetchCall): FetchOutcome
  {
    var kept := ArxivApi.InDateRange(client(DailySearch(call)), dayStart, dayEnd);
    Returned(seq(|kept|, k requires 0 <= k < |kept| => ArxivApi.ArxivRecord(kept[k])))
  }

  /** With the intended call, a topic is listed exactly when the search finds
      a paper published that day, and it is listed with one record per such
      paper. */
  lemma IntendedListsEveryTopicWithPapers(topics: seq<string>, today: string,
                                          client: ArxivApi.ArxivSearch -> seq<ArxivResult>,
                                          dayStart: int, dayEnd: int, t: string)
    requires t in topics
    ensures var fetch := call => FetchIntended(client, dayStart, dayEnd, call);
      var kept := ArxivApi.InDateRange(client(DailySearch(DailyFetch(t, today))), dayStart, dayEnd);
      (kept != [] <==> exists e :: e in Collected(topics, today, fetch) && e.0 == t)
      && forall e :: e in Collected(topics, today, fetch) && e.0 == t ==>
           e.1 == seq(|kept|, k requires 0 <= k < |kept| => ArxivApi.ArxivRecord(kept[k]))
  {
    var fetch := call => FetchIntended(client, dayStart, dayEnd, call);
    var kept := ArxivApi.InDateRange(client(DailySearch(DailyFetch(t, today))), dayStart, dayEnd);
    CollectedMembers(topics, today, fetch);
    var out := fetch(DailyFetch(t, today));
    assert out.papers == seq(|kept|, k requires 0 <= k < |kept| => ArxivApi.ArxivRecord(kept[k]));
    if kept != [] {
      assert (t, out.papers) in Collected(topics, today, fetch);
    }
  }

  // ---------------------------------------------------------------------
  // The bot

  /** The configuration the handlers share, with the command handlers that
      read and change it. A user is identified by an integer id; `args` are
      the command's words. */
  class Bot {
    var token: string
    var authorizedUsers: seq<int>
    var topics: seq<string>
    var notificationTime: string
    var timezone: string

    /** The configuration `load_config` writes when there is no file yet. */
    constructor Default()
      ensures token == "" && authorizedUsers == [] && topics == ["cs.CV", "cs.AI"]
      ensures notificationTime == "09:00" && timezone == "UTC"
    {
      token := "";
      authorizedUsers := [];
      topics := ["cs.CV", "cs.AI"];
      notificationTime := "09:00";
      timezone := "UTC";
    }

    predicate Authorized(user: int)
      reads this
    {
      user in authorizedUsers
    }

    /** `/start` */
    method Start(user: int) returns (reply: string)
      ensures reply == (if Authorized(user) then StartReply else NotAuthorizedReply)
    {
      if user !in authorizedUsers {
        return NotAuthorizedReply;
      }
      reply := StartReply;
    }

    /** `/help` */
    method Help(user: int) returns (reply: string)
      ensures reply == (if Authorized(user) then HelpReply else NotAuthorizedReply)
    {
      if user !in authorizedUsers {
        return NotAuthorizedReply;
      }
      reply := HelpReply;
    }

    /** `/topics`: the configured topics, one `- ` line each. */
    method ShowTopics(user: int) returns (reply: string)
      ensures reply == (if Authorized(user) then TopicsText(topics) else NotAuthorizedReply)
    {
      if user !in authorizedUsers {
        return NotAuthorizedReply;
      }
      var lines: seq<string> := [];
      for i := 0 to |topics|
        invariant lines == TopicLines(topics[..i])
      {
        lines := lines + ["- " + topics[i]];
      }
      assert topics[..|topics|] == topics;
      reply := "Current topics:\n\n" + Join(lines, "\n");
    }

    /** `/add_topic <topic>`: an existing topic is refused, a new one is
      appended at the end; a duplicate-free list stays duplicate-free. */
    method AddTopic(user: int, args: seq<string>) returns (reply: string)
      modifies this`topics
      ensures !Authorized(user) ==> reply == NotAuthorizedReply && topics == old(topics)
      ensures Authorized(user) && args == [] ==>
        reply == "Please provide a topic to add (e.g., cs.CV)." && topics == old(topics)
      ensures Authorized(user) && args != [] && args[0] in old(topics) ==>
        reply == "Topic \"" + args[0] + "\" already exists." && topics == old(topics)
      ensures Authorized(user) && args != [] && args[0] !in old(topics) ==>
        reply == "Added topic: " + args[0] && topics == old(topics) + [args[0]]
      ensures NoDuplicates(old(topics)) ==> NoDuplicates(topics)
    {
      if user !in authorizedUsers {
        return NotAuthorizedReply;
      }
      if args == [] {
        return "Please provide a topic to add (e.g., cs.CV).";
      }
      var topic := args[0];
      if topic in topics {
        return "Topic \"" + topic + "\" already exists.";
      }
      if NoDuplicates(topics) {
        NoDuplicatesAppend(topics, topic);
      }
      topics := topics + [topic];
      reply := "Added topic: " + topic;
    }

    /** `/remove_topic <topic>`: an absent topic is refused, otherwise its
      first occurrence only is removed. */
    method RemoveTopic(user: int, args: seq<string>) returns (reply: string)
      modifies this`topics
      ensures !Authorized(user) ==> reply == NotAuthorizedReply && topics == old(topics)
      ensures Authorized(user) && args == [] ==>
        reply == "Please provide a topic to remove." && topics == old(topics)
      ensures Authorized(user) && args != [] && args[0] !in old(topics) ==>
        reply == "Topic \"" + args[0] + "\" does not exist." && topics == old(topics)
      ensures Authorized(user) && args != [] && args[0] in old(topics) ==>
        reply == "Removed topic: " + args[0] && topics == RemoveFirst(old(topics), args[0])
        && multiset(topics) == multiset(old(topics)) - multiset{args[0]}
      ensures NoDuplicates(old(topics)) ==> NoDuplicates(topics)
    {
      if user !in authorizedUsers {
        return NotAuthorizedReply;
      }
      if args == [] {
        return "Please provide a topic to remove.";
      }
      var topic := args[0];
      if topic !in topics {
        return "Topic \"" + topic + "\" does not exist.";
      }
      RemoveFirstMultiset(topics, topic);
      if NoDuplicates(topics) {
        NoDuplicatesRemove(topics, topic);
      }
      topics := RemoveFirst(topics, topic);
      reply := "Removed topic: " + topic;
    }

    /** `/set_time HH:MM`; `isTime` stands for `strptime(t, '%H:%M')`
      succeeding. */
    method SetTime(user: int, args: seq<string>, isTime: string -> bool) returns (reply: string)
      modifies this`notificationTime
      ensures !Authorized(user) ==> reply == NotAuthorizedReply && notificationTime == old(notificationTime)
      ensures Authorized(user) && |args| != 1 ==>
        reply == "Please provide time in HH:MM format." && notificationTime == old(notificationTime)
      ensures Authorized(user) && |args| == 1 && !isTime(args[0]) ==>
        reply == "Invalid time format. Please use HH:MM (24h format)." && notificationTime == old(notificationTime)
      ensures Authorized(user) && |args| == 1 && isTime(args[0]) ==>
        reply == "Notification time set to " + args[0] && notificationTime == args[0]
    {
      if user !in authorizedUsers {
        return NotAuthorizedReply;
      }
      if args == [] || |args| != 1 {
        return "Please provide time in HH:MM format.";
      }
      var timeText := args[0];
      if !isTime(timeText) {
        return "Invalid time format. Please use HH:MM (24h format).";
      }
      notificationTime := timeText;
      reply := "Notification time set to " + timeText;
    }

    /** `/set_timezone <zone>`: the words are joined by spaces; `isZone`
      stands for `pytz.timezone` accepting the name. */
    method SetTimezone(user: int, args: seq<string>, isZone: string -> bool) returns (reply: string)
      modifies this`timezone
      ensures !Authorized(user) ==> reply == NotAuthorizedReply && timezone == old(timezone)
      ensures Authorized(user) && args == [] ==>
        reply == "Please provide a timezone (e.g., UTC, US/Eastern)." && timezone == old(timezone)
      ensures Authorized(user) && args != [] && !isZone(Join(args, " ")) ==>
        reply == "Unknown timezone: " + Join(args, " ") + ". Please provide a valid timezone."
        && timezone == old(timezone)
      ensures Authorized(user) && args != [] && isZone(Join(args, " ")) ==>
        reply == "Timezone set to " + Join(args, " ") && timezone == Join(args, " ")
    {
      if user !in authorizedUsers {
        return NotAuthorizedReply;
      }
      if args == [] {
        return "Please provide a timezone (e.g., UTC, US/Eastern).";
      }
      var zone := Join(args, " ");
      if !isZone(zone) {
        return "Unknown timezone: " + zone + ". Please provide a valid timezone.";
      }
      timezone := zone;
      reply := "Timezone set to " + zone;
    }

    /** `/authorize <user_id>`: with no authorised user yet, the caller
      becomes the admin; otherwise an authorised caller adds a new numeric
      id. Authorisation is never withdrawn, and a duplicate-free list stays
      duplicate-free. */
    method AuthorizeUser(user: int, args: seq<string>) returns (reply: string)
      modifies this`authorizedUsers
      ensures old(authorizedUsers) == [] ==>
        reply == "You are now authorized as the admin user." && authorizedUsers == [user]
      ensures old(authorizedUsers) != [] && user !in old(authorizedUsers) ==>
        reply == NotAuthorizedReply && authorizedUsers == old(authorizedUsers)
      ensures user in old(authorizedUsers) && |args| != 1 ==>
        reply == "Please provide a user ID to authorize." && authorizedUsers == old(authorizedUsers)
      ensures user in old(authorizedUsers) && |args| == 1 && ParseInt(args[0]).None? ==>
        reply == "Invalid user ID. Please provide a numeric ID." && authorizedUsers == old(authorizedUsers)
      ensures user in old(authorizedUsers) && |args| == 1 && ParseInt(args[0]).Some? ==>
        var n := ParseInt(args[0]).value;
        if n in old(authorizedUsers) then
          reply == "User " + IntToDecimal(n) + " is already authorized." && authorizedUsers == old(authorizedUsers)
        else
          reply == "User " + IntToDecimal(n) + " has been authorized." && authorizedUsers == old(authorizedUsers) + [n]
      ensures forall u :: u in old(authorizedUsers) ==> u in authorizedUsers
      ensures NoDuplicates(old(authorizedUsers)) ==> NoDuplicates(authorizedUsers)
    {
      if authorizedUsers == [] {
        authorizedUsers := authorizedUsers + [user];
        return "You are now authorized as the admin user.";
      }
      if user !in authorizedUsers {
        return NotAuthorizedReply;
      }
      if args == [] || |args| != 1 {
        return "Please provide a user ID to authorize.";
      }
      var parsed := ParseInt(args[0]);
      if parsed.None? {
        return "Invalid user ID. Please provide a numeric ID.";
      }
      var newUser := parsed.value;
      if newUser in authorizedUsers {
        return "User " + IntToDecimal(newUser) + " is already authorized.";
      }
      if NoDuplicates(authorizedUsers) {
        NoDuplicatesAppend(authorizedUsers, newUser);
      }
      authorizedUsers := authorizedUsers + [newUser];
      reply := "User " + IntToDecimal(newUser) + " has been authorized.";
    }

    /** `/today`: the searching notice, then either the no-papers reply or
      the pieces of each collected topic's message. `today` is the date text
      of the clock's current day. */
    method TodayCommand(user: int, today: string, fetch: FetchCall -> FetchOutcome) returns (replies: seq<string>)
      ensures replies == (if Authorized(user) then TodayReplies(topics, today, fetch) else [NotAuthorizedReply])
    {
      if user !in authorizedUsers {
        return [NotAuthorizedReply];
      }
      replies := [SearchingReply];
      var allResults := CollectResults(topics, today, fetch);
      if allResults == [] {
        replies := replies + [NoPapersReply];
        return;
      }
      var sent := RenderResults(allResults);
      replies := replies + sent;
    }

    /** The fetch loop of `/today`: a topic whose fetch raises or finds
        nothing contributes nothing. */
    static method CollectResults(topics: seq<string>, today: string, fetch: FetchCall -> FetchOutcome)
      returns (allResults: seq<(string, seq<PaperRecord>)>)
      ensures allResults == Collected(topics, today, fetch)
    {
      allResults := [];
      for i := 0 to |topics|
        invariant allResults == Collected(topics[..i], today, fetch)
      {
        var topic := topics[i];
        var outcome := fetch(FetchCall(topic, today, today, 10));
        assert topics[..i + 1][..i] == topics[..i];
        match outcome {
          case Raised =>
            assert allResults + [] == allResults;
          case Returned(results) =>
            if results != [] {
              allResults := allResults + [(topic, results)];
            } else {
              assert allResults + [] == allResults;
            }
        }
      }
      assert topics[..|topics|] == topics;
    }

    /** The reply loop of `/today`: one message per topic, cut into slices
        when it is over Telegram's limit. */
    static method RenderResults(allResults: seq<(string, seq<PaperRecord>)>) returns (sent: seq<string>)
      ensures sent == TopicReplies(allResults)
    {
      sent := [];
      for j := 0 to |allResults|
        invariant sent == TopicReplies(allResults[..j])
      {
        var (topic, results) := allResults[j];
        var message := BuildTopicMessage(topic, results);
        assert allResults[..j + 1][..j] == allResults[..j];
        if |message| <= MaxMessageLength {
          sent := sent + [message];
        } else {
          var chunks := Slices(message);
          sent := sent + chunks;
        }
      }
      assert allResults[..|allResults|] == allResults;
    }

    /** The inner `try` of the daily job: send the pieces to one user in
      order; a failing send ends that user's pieces. */
    static method SendPieces(user: int, pieces: seq<string>, send: (int, string) -> bool)
      returns (delivered: seq<Delivery>)
      ensures delivered == Delivered(user, pieces, send)
    {
      delivered := [];
      ghost var n := AcceptedCount(user, pieces, send);
      for k := 0 to |pieces|
        invariant k <= n
        invariant delivered == seq(k, j requires 0 <= j < k => Delivery(user, pieces[j]))
      {
        if !send(user, pieces[k]) {
          break;
        }
        delivered := delivered + [Delivery(user, pieces[k])];
      }
    }

    /** The loop over `authorized_users` of the daily job: each user in turn
      gets the pieces of one message. */
    static method Broadcast(users: seq<int>, pieces: seq<string>, send: (int, string) -> bool)
      returns (deliveries: seq<Delivery>)
      ensures deliveries == FanOut(users, pieces, send)
    {
      deliveries := [];
      for u := 0 to |users|
        invariant deliveries == FanOut(users[..u], pieces, send)
      {
        var delivered := SendPieces(users[u], pieces, send);
        assert users[..u + 1][..u] == users[..u];
        deliveries := deliveries + delivered;
      }
      assert users[..|users|] == users;
    }

    /** `send_daily_papers`: for each topic whose search returned papers, its
      message goes to every authorised user. */
    method SendDailyPapers(today: string, fetch: FetchCall -> FetchOutcome, send: (int, string) -> bool)
      returns (sent: seq<Delivery>)
      ensures sent == DailyDeliveries(topics, authorizedUsers, today, fetch, send)
    {
      sent := [];
      for i := 0 to |topics|
        invariant sent == DailyDeliveries(topics[..i], authorizedUsers, today, fetch, send)
      {
        var forTopic := DeliverTopic(topics[i], authorizedUsers, today, fetch, send);
        assert topics[..i + 1][..i] == topics[..i];
        sent := sent + forTopic;
      }
      assert topics[..|topics|] == topics;
    }

    /** One turn of the daily job's topic loop: fetch the topic's papers and,
        when there are any, send the message to every user. */
    static method DeliverTopic(topic: string, users: seq<int>, today: string,
                               fetch: FetchCall -> FetchOutcome, send: (int, string) -> bool)
      returns (forTopic: seq<Delivery>)
      ensures forTopic == TopicDeliveries(topic, users, today, fetch, send)
    {
      var outcome := fetch(FetchCall(topic, today, today, 10));
      forTopic := [];
      if outcome.Returned? && outcome.papers != [] {
        var message := BuildTopicMessage(topic, outcome.papers);
        forTopic := Broadcast(users, TransportPieces(message), send);
      }
    }
  }
}
