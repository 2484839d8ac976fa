/**
 * helpers.py: HTML escaping, the compact and dotted forms of an arXiv
 * identifier, the paragraph chunker for long HTML messages, and the HTML
 * rendering of a list of arXiv results.
 */
module Helpers {
  import opened Text
  import opened Papers

  // ---------------------------------------------------------------------
  // escape_html

  /** The three `replace` calls of `escape_html`, in their order. */
  function EscapeChain(text: string): string
  {
    Replace(Replace(Replace(text, "&", "&amp;"), "<", "&lt;"), ">", "&gt;")
  }

  /** `escape_html(text)`; an empty text gives "" before any replacement. */
  function EscapeHtml(text: string): string
  {
    if text == "" then "" else EscapeChain(text)
  }

  function EscapeHtmlChar(c: char): string
  {
    if c == '&' then "&amp;" else if c == '<' then "&lt;" else if c == '>' then "&gt;" else [c]
  }

  /** Reference definition: escaping one character at a time. */
  function EscapeHtmlChars(s: string): string
  {
    if s == [] then [] else EscapeHtmlChar(s[0]) + EscapeHtmlChars(s[1..])
  }

  /** The inverse of escaping: each entity read back as its character. */
  function UnescapeHtml(s: string): string
    decreases |s|
  {
    if s == [] then []
    else if |s| >= 5 && s[..5] == "&amp;" then "&" + UnescapeHtml(s[5..])
    else if |s| >= 4 && s[..4] == "&lt;" then "<" + UnescapeHtml(s[4..])
    else if |s| >= 4 && s[..4] == "&gt;" then ">" + UnescapeHtml(s[4..])
    else [s[0]] + UnescapeHtml(s[1..])
  }

  lemma EscapeChainChar(c: char)
    ensures EscapeChain([c]) == EscapeHtmlChar(c)
  {
    ReplaceOneChar(c, '&', "&amp;");
    var a := Replace([c], "&", "&amp;");
    if c == '&' {
      assert a == "&amp;";
      ReplaceCharAbsent(a, '<', "&lt;");
      ReplaceCharAbsent(a, '>', "&gt;");
    } else {
      assert a == [c];
      ReplaceOneChar(c, '<', "&lt;");
      var b := Replace(a, "<", "&lt;");
      if c == '<' {
        assert b == "&lt;";
        ReplaceCharAbsent(b, '>', "&gt;");
      } else {
        assert b == [c];
        ReplaceOneChar(c, '>', "&gt;");
      }
    }
  }

  /** The chained `replace` calls escape every character on its own: a later
      replacement never touches what an earlier one inserted. */
  lemma {:induction false} EscapeHtmlByChar(s: string)
    ensures EscapeHtml(s) == EscapeHtmlChars(s)
    decreases |s|
  {
    if s != [] {
      var c, rest := s[0], s[1..];
      assert s == [c] + rest;
      ReplaceCharAppend([c], rest, '&', "&amp;");
      var a1, b1 := Replace([c], "&", "&amp;"), Replace(rest, "&", "&amp;");
      ReplaceCharAppend(a1, b1, '<', "&lt;");
      var a2, b2 := Replace(a1, "<", "&lt;"), Replace(b1, "<", "&lt;");
      ReplaceCharAppend(a2, b2, '>', "&gt;");
      EscapeChainChar(c);
      EscapeHtmlByChar(rest);
      if rest == [] {
        assert EscapeChain(rest) == [];
      }
      assert EscapeChain(s) == EscapeChain([c]) + EscapeChain(rest);
    }
  }

  lemma UnescapeAfterChar(c: char, e: string)
    ensures UnescapeHtml(EscapeHtmlChar(c) + e) == [c] + UnescapeHtml(e)
  {
    var t := EscapeHtmlChar(c) + e;
    if c == '&' {
      assert t[..5] == "&amp;" && t[5..] == e;
    } else if c == '<' {
      assert t[..4] == "&lt;" && t[4..] == e;
      if |t| >= 5 {
        assert t[..5][1] == 'l';
      }
    } else if c == '>' {
      assert t[..4] == "&gt;" && t[4..] == e;
      if |t| >= 5 {
        assert t[..5][1] == 'g';
      }
    } else {
      assert t[0] == c && t[1..] == e;
      if |t| >= 4 {
        assert t[..4][0] == c;
      }
      if |t| >= 5 {
        assert t[..5][0] == c;
      }
    }
  }

  lemma {:induction false} UnescapeEscapeHtmlChars(s: string)
    ensures UnescapeHtml(EscapeHtmlChars(s)) == s
    decreases |s|
  {
    if s != [] {
      UnescapeEscapeHtmlChars(s[1..]);
      UnescapeAfterChar(s[0], EscapeHtmlChars(s[1..]));
      assert [s[0]] + s[1..] == s;
    }
  }

  /** Unescaping undoes escaping: the text is escaped exactly once and nothing
      is lost. */
  lemma UnescapeEscapeHtml(s: string)
    ensures UnescapeHtml(EscapeHtml(s)) == s
  {
    EscapeHtmlByChar(s);
    UnescapeEscapeHtmlChars(s);
  }

  /** Escaped text holds no angle bracket. */
  lemma EscapeHtmlNoAngles(s: string)
    ensures '<' !in EscapeHtml(s) && '>' !in EscapeHtml(s)
  {
    if s != "" {
      var a1 := Replace(s, "&", "&amp;");
      var a2 := Replace(a1, "<", "&lt;");
      ReplaceCharRemoves(a1, '<', "&lt;");
      ReplaceChars(a2, ">", "&gt;");
      ReplaceCharRemoves(a2, '>', "&gt;");
    }
  }

  /** Text without `&`, `<` and `>` comes back unchanged. */
  lemma EscapeHtmlPlain(s: string)
    requires '&' !in s && '<' !in s && '>' !in s
    ensures EscapeHtml(s) == s
  {
    ReplaceCharAbsent(s, '&', "&amp;");
    ReplaceCharAbsent(s, '<', "&lt;");
    ReplaceCharAbsent(s, '>', "&gt;");
  }

  // ---------------------------------------------------------------------
  // paper_id_without_dot and paper_id_with_dot

  /** `paper_id_without_dot`: the identifier with every `.` removed. */
  function PaperIdWithoutDot(paperId: string): (r: string)
    ensures '.' !in r
    ensures '.' !in paperId ==> r == paperId
  {
    if '.' in paperId then
      ReplaceCharRemoves(paperId, '.', "");
      Replace(paperId, ".", "")
    else paperId
  }

  /** `paper_id_with_dot`: a dot-free identifier gets a `.` after its first
      four characters (Python slicing: after all of a shorter one). */
  function PaperIdWithDot(paperId: string): (r: string)
    ensures '.' in r
    ensures '.' in paperId ==> r == paperId
  {
    if '.' in paperId then paperId
    else
      var k := Min(4, |paperId|);
      var r := paperId[..k] + "." + paperId[k..];
      assert r[k] == '.';
      r
  }

  lemma WithoutDotIdempotent(paperId: string)
    ensures PaperIdWithoutDot(PaperIdWithoutDot(paperId)) == PaperIdWithoutDot(paperId)
  {
  }

  lemma WithDotIdempotent(paperId: string)
    ensures PaperIdWithDot(PaperIdWithDot(paperId)) == PaperIdWithDot(paperId)
  {
  }

  /** Removing the dot from "prefix.suffix" joins the two parts. */
  lemma DropDot(prefix: string, suffix: string)
    requires '.' !in prefix && '.' !in suffix
    ensures PaperIdWithoutDot(prefix + "." + suffix) == prefix + suffix
  {
    var dotted := "." + suffix;
    assert Replace(dotted, ".", "") == suffix by {
      ReplaceCharAppend(".", suffix, '.', "");
      ReplaceOneChar('.', '.', "");
      ReplaceCharAbsent(suffix, '.', "");
      assert "" + suffix == suffix;
    }
    assert Replace(prefix + dotted, ".", "") == prefix + suffix by {
      ReplaceCharAppend(prefix, dotted, '.', "");
      ReplaceCharAbsent(prefix, '.', "");
    }
    assert prefix + "." + suffix == prefix + dotted;
    assert (prefix + dotted)[|prefix|] == '.';
  }

  /** A compact identifier survives a trip through the dotted form. */
  lemma WithoutDotAfterWithDot(paperId: string)
    requires '.' !in paperId
    ensures PaperIdWithoutDot(PaperIdWithDot(paperId)) == paperId
  {
    var k := Min(4, |paperId|);
    var a, b := paperId[..k], paperId[k..];
    assert '.' !in a && '.' !in b by {
      assert forall x :: x in a || x in b ==> x in paperId;
    }
    DropDot(a, b);
    assert a + b == paperId;
  }

  /** A canonical dotted identifier (four characters, a dot, the rest)
      survives a trip through the compact form. */
  lemma WithDotAfterWithoutDot(prefix: string, suffix: string)
    requires |prefix| == 4 && '.' !in prefix && '.' !in suffix
    ensures PaperIdWithDot(PaperIdWithoutDot(prefix + "." + suffix)) == prefix + "." + suffix
  {
    DropDot(prefix, suffix);
    var t := prefix + suffix;
    assert '.' !in t;
    assert t[..4] == prefix && t[4..] == suffix;
  }

  /** The dotted example identifier loses its dot. */
  lemma WithoutDotExample()
    ensures PaperIdWithoutDot("2401.12345") == "240112345"
  {
    DropDot("2401", "12345");
    assert "2401" + "." + "12345" == "2401.12345";
    assert "2401" + "12345" == "240112345";
  }

  /** The compact example identifier gains its dot after four characters. */
  lemma WithDotExample()
    ensures PaperIdWithDot("240112345") == "2401.12345"
  {
    var s := "240112345";
    assert '.' !in s;
    assert s[..4] == "2401" && s[4..] == "12345";
    assert "2401" + "." + "12345" == "2401.12345";
  }

  // ---------------------------------------------------------------------
  // chunk_html_message

  /** The limit `chunk_html_message` uses when the caller names none. */
  const DefaultMaxLength: nat := 4000

  const ParagraphBreak: string := "\n\n"

  /** `message.split("\n\n")`. */
  function Paragraphs(message: string): seq<string>
  {
    Split(message, ParagraphBreak)
  }

  /** The loop state of `chunk_html_message`: the chunks emitted so far and
      the running chunk. */
  datatype ChunkState = ChunkState(chunks: seq<string>, current: string)

  /** Where the `while` loop that looks for a space stops: the largest
      `r <= k` with `p[r - 1] == ' '`, or 0 when `p[..k]` has no space. */
  function SafeLength(p: string, k: nat): (r: nat)
    requires k <= |p|
    ensures r <= k
    ensures r > 0 ==> p[r - 1] == ' '
    ensures forall j :: r <= j < k ==> p[j] != ' '
    decreases k
  {
    if k == 0 || p[k - 1] == ' ' then k else SafeLength(p, k - 1)
  }

  /** One iteration of the `for paragraph in paragraphs` loop. */
  function Step(st: ChunkState, p: string, maxLength: nat): ChunkState
  {
    if |st.current| + |p| + 2 > maxLength then
      if st.current != "" then ChunkState(st.chunks + [st.current], p)
      else if |p| > maxLength then
        var cut := SafeLength(p, maxLength);
        if cut > 0 then ChunkState(st.chunks + [p[..cut]], p[cut..])
        else ChunkState(st.chunks + [p[..maxLength]], p[maxLength..])
      else ChunkState(st.chunks, p)
    else if st.current != "" then ChunkState(st.chunks, st.current + ParagraphBreak + p)
    else ChunkState(st.chunks, p)
  }

  /** The loop over the remaining paragraphs `ps`, from state `st`. */
  function Fold(ps: seq<string>, st: ChunkState, maxLength: nat): ChunkState
    decreases |ps|
  {
    if ps == [] then st else Fold(ps[1..], Step(st, ps[0], maxLength), maxLength)
  }

  /** The final `if current_chunk: chunks.append(current_chunk)`. */
  function Flush(st: ChunkState): seq<string>
  {
    if st.current != "" then st.chunks + [st.current] else st.chunks
  }

  /** What `chunk_html_message(message, max_length)` returns. */
  function Chunks(message: string, maxLength: nat): seq<string>
  {
    if |message| <= maxLength then [message]
    else Flush(Fold(Paragraphs(message), ChunkState([], ""), maxLength))
  }

  /** `c` is a suffix of `p`. */
  predicate IsSuffix(c: string, p: string)
  {
    |c| <= |p| && p[|p| - |c|..] == c
  }

  /** A chunk either fits, or is a paragraph of the message or the rest of one
      after a cut: nothing else can exceed the limit. */
  ghost predicate WithinOrTail(c: string, ps: seq<string>, maxLength: nat)
  {
    |c| <= maxLength || exists p :: p in ps && IsSuffix(c, p)
  }

  ghost predicate StateWithin(st: ChunkState, ps: seq<string>, maxLength: nat)
  {
    (forall c :: c in st.chunks ==> WithinOrTail(c, ps, maxLength))
    && WithinOrTail(st.current, ps, maxLength)
  }

  lemma StepWithin(st: ChunkState, p: string, ps: seq<string>, maxLength: nat)
    requires StateWithin(st, ps, maxLength) && p in ps
    ensures StateWithin(Step(st, p, maxLength), ps, maxLength)
  {
    assert IsSuffix(p, p);
    if |st.current| + |p| + 2 > maxLength && st.current == "" && |p| > maxLength {
      var cut := SafeLength(p, maxLength);
      if cut > 0 {
        assert IsSuffix(p[cut..], p);
      } else {
        assert IsSuffix(p[maxLength..], p);
      }
    }
  }

  lemma {:induction false} FoldWithin(qs: seq<string>, st: ChunkState, ps: seq<string>, maxLength: nat)
    requires StateWithin(st, ps, maxLength)
    requires forall q :: q in qs ==> q in ps
    ensures StateWithin(Fold(qs, st, maxLength), ps, maxLength)
    decreases |qs|
  {
    if qs != [] {
      assert qs[0] in qs;
      StepWithin(st, qs[0], ps, maxLength);
      assert forall q :: q in qs[1..] ==> q in qs;
      FoldWithin(qs[1..], Step(st, qs[0], maxLength), ps, maxLength);
    }
  }

  /** Every chunk is at most `maxLength` long, unless it is a whole paragraph
      or the remainder of one after a cut: an over-long paragraph that follows
      a running chunk is emitted whole, and a remainder is never cut again. */
  lemma ChunksWithin(message: string, maxLength: nat)
    ensures forall c :: c in Chunks(message, maxLength) ==>
      |c| <= maxLength || exists p :: p in Paragraphs(message) && IsSuffix(c, p)
  {
    if |message| > maxLength {
      var ps := Paragraphs(message);
      FoldWithin(ps, ChunkState([], ""), ps, maxLength);
    }
  }

  /** When no paragraph is longer than the limit, no chunk is. */
  lemma ChunksBounded(message: string, maxLength: nat)
    requires forall p :: p in Paragraphs(message) ==> |p| <= maxLength
    ensures forall c :: c in Chunks(message, maxLength) ==> |c| <= maxLength
  {
    ChunksWithin(message, maxLength);
  }

  ghost predicate NoEmptyChunk(st: ChunkState)
  {
    forall c :: c in st.chunks ==> c != ""
  }

  lemma {:induction false} FoldNoEmptyChunk(qs: seq<string>, st: ChunkState, maxLength: nat)
    requires maxLength >= 1 && NoEmptyChunk(st)
    ensures NoEmptyChunk(Fold(qs, st, maxLength))
    decreases |qs|
  {
    if qs != [] {
      FoldNoEmptyChunk(qs[1..], Step(st, qs[0], maxLength), maxLength);
    }
  }

  /** With a positive limit, a message longer than the limit yields no empty chunk. */
  lemma ChunksNonEmpty(message: string, maxLength: nat)
    requires maxLength >= 1 && |message| > maxLength
    ensures forall c :: c in Chunks(message, maxLength) ==> c != ""
  {
    FoldNoEmptyChunk(Paragraphs(message), ChunkState([], ""), maxLength);
  }

  /** The running chunk after the emitted ones, joined by paragraph breaks. */
  function Joined(st: ChunkState): string
  {
    Join(st.chunks + [st.current], ParagraphBreak)
  }

  lemma StepJoined(st: ChunkState, p: string, maxLength: nat)
    requires st.current != "" && p != "" && |p| <= maxLength
    ensures Step(st, p, maxLength).current != ""
    ensures Joined(Step(st, p, maxLength)) == Joined(st) + ParagraphBreak + p
  {
    var st' := Step(st, p, maxLength);
    if |st.current| + |p| + 2 > maxLength {
      assert st'.chunks + [st'.current] == (st.chunks + [st.current]) + [p];
      JoinSnoc(st.chunks + [st.current], p, ParagraphBreak);
    } else {
      if st.chunks == [] {
        assert st'.chunks + [st'.current] == [st.current + ParagraphBreak + p];
      } else {
        JoinSnoc(st.chunks, st.current, ParagraphBreak);
        JoinSnoc(st.chunks, st'.current, ParagraphBreak);
      }
    }
  }

  lemma {:induction false} FoldJoined(qs: seq<string>, st: ChunkState, maxLength: nat)
    requires st.current != ""
    requires forall q :: q in qs ==> q != "" && |q| <= maxLength
    ensures Fold(qs, st, maxLength).current != ""
    ensures Joined(Fold(qs, st, maxLength)) == Join([Joined(st)] + qs, ParagraphBreak)
    decreases |qs|
  {
    if qs == [] {
      assert [Joined(st)] + qs == [Joined(st)];
    } else {
      var p, rest := qs[0], qs[1..];
      var st' := Step(st, p, maxLength);
      assert Fold(qs, st, maxLength) == Fold(rest, st', maxLength);
      assert p != "" && |p| <= maxLength by { assert p in qs; }
      StepJoined(st, p, maxLength);
      assert forall q :: q in rest ==> q != "" && |q| <= maxLength by {
        assert forall q :: q in rest ==> q in qs;
      }
      FoldJoined(rest, st', maxLength);
      JoinMergeFirst(Joined(st), p, rest, ParagraphBreak);
      assert [Joined(st), p] + rest == [Joined(st)] + qs;
    }
  }

  /** When every paragraph is non-empty and fits, joining the chunks with
      paragraph breaks gives back the message: nothing is lost, duplicated or
      reordered. */
  lemma ChunksRejoin(message: string, maxLength: nat)
    requires forall p :: p in Paragraphs(message) ==> p != "" && |p| <= maxLength
    ensures Join(Chunks(message, maxLength), ParagraphBreak) == message
  {
    if |message| > maxLength {
      var ps := Paragraphs(message);
      assert ps[0] in ps;
      var st1 := Step(ChunkState([], ""), ps[0], maxLength);
      assert st1 == ChunkState([], ps[0]);
      assert forall q :: q in ps[1..] ==> q in ps;
      FoldJoined(ps[1..], st1, maxLength);
      assert [Joined(st1)] + ps[1..] == ps;
      JoinSplit(message, ParagraphBreak);
    }
  }

  /** How an over-long paragraph met with an empty running chunk is cut: the
      emitted piece is the longest prefix of at most `maxLength` characters
      that ends in a space, or exactly `maxLength` characters when there is
      no such prefix; the rest becomes the running chunk. */
  lemma OversizedParagraphCut(st: ChunkState, p: string, maxLength: nat)
    requires st.current == "" && |p| > maxLength
    ensures var st' := Step(st, p, maxLength);
      && |st'.chunks| == |st.chunks| + 1
      && st'.chunks[..|st.chunks|] == st.chunks
      && var piece := Last(st'.chunks);
      && piece + st'.current == p
      && |piece| <= maxLength
      && (if ' ' in p[..maxLength]
          then piece != "" && piece[|piece| - 1] == ' ' && ' ' !in p[|piece|..maxLength]
          else |piece| == maxLength)
  {
    var cut := SafeLength(p, maxLength);
    SafeLengthFindsSpace(p, maxLength);
    var k := if cut > 0 then cut else maxLength;
    var st' := Step(st, p, maxLength);
    assert st' == ChunkState(st.chunks + [p[..k]], p[k..]);
    assert Last(st'.chunks) == p[..k];
    assert p[..k] + p[k..] == p;
    assert (st.chunks + [p[..k]])[..|st.chunks|] == st.chunks;
  }

  /** The search for a space finds the last space before the limit, and
      ends at 0 exactly when there is none. */
  lemma SafeLengthFindsSpace(p: string, k: nat)
    requires k <= |p|
    ensures var cut := SafeLength(p, k);
      if ' ' in p[..k] then cut > 0 && p[cut - 1] == ' ' && ' ' !in p[cut..k] else cut == 0
  {
    var cut := SafeLength(p, k);
    if cut > 0 {
      assert p[cut - 1] == p[..k][cut - 1];
      assert forall x :: x in p[cut..k] ==> x != ' ';
    } else {
      assert forall x :: x in p[..k] ==> x != ' ';
    }
  }

  /** A single paragraph with no space before the limit is cut exactly at the
      limit: a 4060-character token with a limit of 4000 gives a chunk of
      4000 characters and one of 60. */
  lemma UnbrokenParagraphCut(p: string, maxLength: nat)
    requires |p| > maxLength && ' ' !in p[..maxLength] && !IsSubstring(ParagraphBreak, p)
    ensures Chunks(p, maxLength) == [p[..maxLength], p[maxLength..]]
  {
    SplitWithoutSeparator(p, ParagraphBreak);
    assert SafeLength(p, maxLength) == 0 by {
      SafeLengthFindsSpace(p, maxLength);
    }
    var st0 := ChunkState([], "");
    var st1 := ChunkState([p[..maxLength]], p[maxLength..]);
    assert Step(st0, p, maxLength) == st1 by {
      StepCutsAtLimit(st0, p, maxLength);
      assert st0.chunks + [p[..maxLength]] == [p[..maxLength]];
    }
    ChunksOfOneParagraph(p, maxLength);
    assert |p[maxLength..]| > 0;
  }

  /** A message longer than the limit that is one paragraph goes through one
      step of the loop and the final flush. */
  lemma ChunksOfOneParagraph(p: string, maxLength: nat)
    requires |p| > maxLength && Paragraphs(p) == [p]
    ensures Chunks(p, maxLength) == Flush(Step(ChunkState([], ""), p, maxLength))
  {
    var st0 := ChunkState([], "");
    assert [p][0] == p && [p][1..] == [];
    assert Fold([p], st0, maxLength) == Fold([], Step(st0, p, maxLength), maxLength);
  }

  lemma StepCutsAtLimit(st: ChunkState, p: string, maxLength: nat)
    requires st.current == "" && |p| > maxLength && SafeLength(p, maxLength) == 0
    ensures Step(st, p, maxLength) == ChunkState(st.chunks + [p[..maxLength]], p[maxLength..])
  {
  }

  /** A paragraph without line breaks, a paragraph break and more text: the
      paragraph comes off first. */
  lemma ParagraphsCons(a: string, rest: string)
    requires '\n' !in a
    ensures Paragraphs(a + ParagraphBreak + rest) == [a] + Paragraphs(rest)
  {
    SplitAfterPrefix(a, ParagraphBreak, rest);
  }

  lemma ParagraphsSingle(a: string)
    requires '\n' !in a
    ensures Paragraphs(a) == [a]
  {
    MissingCharNoSubstring(ParagraphBreak, a, '\n');
    SplitWithoutSeparator(a, ParagraphBreak);
  }

  /** The paragraph loop on the paragraphs of the chunking test. */
  lemma ChunkingTestFold(p1: string, p2: string, xs: string, p4: string)
    requires |p1| == 11 && |p2| == 11 && |xs| == 100 && |p4| == 11
    ensures Fold([p1, p2, xs, p4], ChunkState([], ""), 50)
         == ChunkState([p1 + ParagraphBreak + p2, xs], p4)
  {
    var ps := [p1, p2, xs, p4];
    var s1 := ChunkState([], p1);
    var s2 := ChunkState([], p1 + ParagraphBreak + p2);
    var s3 := ChunkState([p1 + ParagraphBreak + p2], xs);
    var s4 := ChunkState([p1 + ParagraphBreak + p2, xs], p4);
    assert Fold(ps[3..], s3, 50) == s4 by {
      assert s3.chunks + [s3.current] == s4.chunks;
      assert ps[3..] == [p4] && ps[3..][1..] == [];
    }
    assert Fold(ps[2..], s2, 50) == Fold(ps[3..], s3, 50) by {
      assert s2.chunks + [s2.current] == s3.chunks;
      assert ps[2..][0] == xs && ps[2..][1..] == ps[3..];
    }
    assert Fold(ps[1..], s1, 50) == Fold(ps[2..], s2, 50) by {
      assert ps[1..][0] == p2 && ps[1..][1..] == ps[2..];
    }
  }

  /** Four paragraphs without line breaks, joined by paragraph breaks, split
      back into those four. */
  lemma ParagraphsOfFour(a: string, b: string, c: string, d: string)
    requires '\n' !in a && '\n' !in b && '\n' !in c && '\n' !in d
    ensures Paragraphs(a + (ParagraphBreak + (b + (ParagraphBreak + (c + (ParagraphBreak + d))))))
         == [a, b, c, d]
  {
    var m3 := c + (ParagraphBreak + d);
    var m2 := b + (ParagraphBreak + m3);
    ParagraphsSingle(d);
    AppendAssoc(c, ParagraphBreak, d);
    ParagraphsCons(c, d);
    AppendAssoc(b, ParagraphBreak, m3);
    ParagraphsCons(b, m3);
    AppendAssoc(a, ParagraphBreak, m2);
    ParagraphsCons(a, m2);
  }

  /** The message of the chunking test: two short paragraphs, a paragraph of
      100 `X`s and a fourth paragraph, chunked with a limit of 50. The 100-
      character paragraph follows a running chunk, so it is emitted whole. */
  lemma ChunkingTestExample()
    ensures var xs := seq(100, _ => 'X');
      Chunks("Paragraph 1" + (ParagraphBreak + ("Paragraph 2" + (ParagraphBreak
             + (xs + (ParagraphBreak + "Paragraph 4"))))), 50)
      == ["Paragraph 1" + ParagraphBreak + "Paragraph 2", xs, "Paragraph 4"]
  {
    var xs := seq(100, _ => 'X');
    assert '\n' !in xs;
    ParagraphsOfFour("Paragraph 1", "Paragraph 2", xs, "Paragraph 4");
    ChunkingTestFold("Paragraph 1", "Paragraph 2", xs, "Paragraph 4");
  }

  // ---------------------------------------------------------------------
  // chunk_html_message as its documentation promises it

  /** An over-long paragraph cut, at the last space or at the limit, again
      and again until the rest fits: the inner search of the code applied
      to every piece rather than once. */
  function CutPieces(p: string, maxLength: nat): (r: seq<string>)
    requires maxLength >= 1
    ensures p != "" <==> r != []
    ensures forall c :: c in r ==> 0 < |c| <= maxLength
    decreases |p|
  {
    if |p| <= maxLength then (if p == "" then [] else [p])
    else
      var k := CutAt(p, maxLength);
      var rest := CutPieces(p[k..], maxLength);
      assert forall c :: c in [p[..k]] + rest ==> c == p[..k] || c in rest;
      [p[..k]] + rest
  }

  /** Where the code cuts a paragraph longer than the limit: after the last
      space within the limit, or at the limit when there is none. */
  function CutAt(p: string, maxLength: nat): (k: nat)
    requires 1 <= maxLength < |p|
    ensures 0 < k <= maxLength
  {
    var cut := SafeLength(p, maxLength);
    if cut > 0 then cut else maxLength
  }

  /** The pieces put together give back the paragraph. */
  lemma {:induction false} CutPiecesRejoin(p: string, maxLength: nat)
    requires maxLength >= 1
    ensures Concat(CutPieces(p, maxLength)) == p
    decreases |p|
  {
    if |p| > maxLength {
      var k := CutAt(p, maxLength);
      var head, tail := p[..k], p[k..];
      assert head + tail == p;
      assert CutPieces(p, maxLength) == [head] + CutPieces(tail, maxLength);
      CutPiecesRejoin(tail, maxLength);
      ConcatCons(head, CutPieces(tail, maxLength));
    } else if p == "" {
      assert Concat<char>([]) == [];
    } else {
      assert Concat([p]) == Concat<char>([]) + p;
    }
  }

  /** One iteration of the paragraph loop with the over-long paragraph cut
      whatever the running chunk holds. */
  function StepFixed(st: ChunkState, p: string, maxLength: nat): ChunkState
    requires maxLength >= 1
  {
    if |st.current| + |p| + 2 > maxLength then
      var flushed := Flush(st);
      if |p| > maxLength then
        var pieces := CutPieces(p, maxLength);
        ChunkState(flushed + pieces[..|pieces| - 1], Last(pieces))
      else ChunkState(flushed, p)
    else if st.current != "" then ChunkState(st.chunks, st.current + ParagraphBreak + p)
    else ChunkState(st.chunks, p)
  }

  function FoldFixed(ps: seq<string>, st: ChunkState, maxLength: nat): ChunkState
    requires maxLength >= 1
    decreases |ps|
  {
    if ps == [] then st else FoldFixed(ps[1..], StepFixed(st, ps[0], maxLength), maxLength)
  }

  /** The chunks `chunk_html_message` is documented to return. */
  function ChunksFixed(message: string, maxLength: nat): seq<string>
    requires maxLength >= 1
  {
    if |message| <= maxLength then [message]
    else Flush(FoldFixed(Paragraphs(message), ChunkState([], ""), maxLength))
  }

  /** Every chunk emitted so far and the running chunk fit the limit. */
  predicate StateFits(st: ChunkState, maxLength: nat)
  {
    (forall c :: c in st.chunks ==> |c| <= maxLength) && |st.current| <= maxLength
  }

  lemma StepFixedFits(st: ChunkState, p: string, maxLength: nat)
    requires maxLength >= 1 && StateFits(st, maxLength)
    ensures StateFits(StepFixed(st, p, maxLength), maxLength)
  {
  }

  lemma {:induction false} FoldFixedFits(ps: seq<string>, st: ChunkState, maxLength: nat)
    requires maxLength >= 1 && StateFits(st, maxLength)
    ensures StateFits(FoldFixed(ps, st, maxLength), maxLength)
    decreases |ps|
  {
    if ps != [] {
      StepFixedFits(st, ps[0], maxLength);
      FoldFixedFits(ps[1..], StepFixed(st, ps[0], maxLength), maxLength);
    }
  }

  /** With the over-long paragraphs cut, no chunk exceeds the limit, whatever
      the message. */
  lemma ChunksFixedBounded(message: string, maxLength: nat)
    requires maxLength >= 1
    ensures forall c :: c in ChunksFixed(message, maxLength) ==> |c| <= maxLength
  {
    if |message| > maxLength {
      FoldFixedFits(Paragraphs(message), ChunkState([], ""), maxLength);
    }
  }

  /** Where every paragraph fits, the code and its corrected form agree. */
  lemma {:induction false} FoldFixedAgrees(ps: seq<string>, st: ChunkState, maxLength: nat)
    requires maxLength >= 1
    requires forall k :: 0 <= k < |ps| ==> |ps[k]| <= maxLength
    ensures FoldFixed(ps, st, maxLength) == Fold(ps, st, maxLength)
    decreases |ps|
  {
    if ps != [] {
      assert StepFixed(st, ps[0], maxLength) == Step(st, ps[0], maxLength);
      FoldFixedAgrees(ps[1..], Step(st, ps[0], maxLength), maxLength);
    }
  }

  lemma ChunksFixedAgrees(message: string, maxLength: nat)
    requires maxLength >= 1
    requires forall k :: 0 <= k < |Paragraphs(message)| ==> |Paragraphs(message)[k]| <= maxLength
    ensures ChunksFixed(message, maxLength) == Chunks(message, maxLength)
  {
    if |message| > maxLength {
      FoldFixedAgrees(Paragraphs(message), ChunkState([], ""), maxLength);
    }
  }

  /** A paragraph as the corrected chunker gives it back: an over-long one
      becomes its cut pieces separated by paragraph breaks. */
  function Expanded(p: string, maxLength: nat): string
    requires maxLength >= 1
  {
    if |p| > maxLength then Join(CutPieces(p, maxLength), ParagraphBreak) else p
  }

  function ExpandedAll(ps: seq<string>, maxLength: nat): (r: seq<string>)
    requires maxLength >= 1
    ensures |r| == |ps|
    decreases |ps|
  {
    if ps == [] then [] else [Expanded(ps[0], maxLength)] + ExpandedAll(ps[1..], maxLength)
  }

  /** Paragraphs that fit are given back as they are. */
  lemma {:induction false} ExpandedAllFits(ps: seq<string>, maxLength: nat)
    requires maxLength >= 1
    requires forall p :: p in ps ==> |p| <= maxLength
    ensures ExpandedAll(ps, maxLength) == ps
    decreases |ps|
  {
    if ps != [] {
      assert ps[0] in ps;
      assert forall p :: p in ps[1..] ==> p in ps;
      ExpandedAllFits(ps[1..], maxLength);
      assert [ps[0]] + ps[1..] == ps;
    }
  }

  /** One corrected step adds a paragraph break and the paragraph, cut if it
      is over-long, to the joined chunks. */
  lemma StepFixedJoined(st: ChunkState, p: string, maxLength: nat)
    requires maxLength >= 1 && st.current != "" && p != ""
    ensures StepFixed(st, p, maxLength).current != ""
    ensures Joined(StepFixed(st, p, maxLength)) == Joined(st) + ParagraphBreak + Expanded(p, maxLength)
  {
    if |p| <= maxLength {
      assert StepFixed(st, p, maxLength) == Step(st, p, maxLength);
      StepJoined(st, p, maxLength);
    } else {
      var pieces := CutPieces(p, maxLength);
      var st' := StepFixed(st, p, maxLength);
      assert Last(pieces) in pieces;
      assert st'.chunks + [st'.current] == (st.chunks + [st.current]) + pieces;
      JoinAppend(st.chunks + [st.current], pieces, ParagraphBreak);
    }
  }

  /** The first corrected step from the empty state holds the paragraph,
      cut if it is over-long. */
  lemma FirstStepFixedJoined(p: string, maxLength: nat)
    requires maxLength >= 1 && p != ""
    ensures StepFixed(ChunkState([], ""), p, maxLength).current != ""
    ensures Joined(StepFixed(ChunkState([], ""), p, maxLength)) == Expanded(p, maxLength)
  {
    var st' := StepFixed(ChunkState([], ""), p, maxLength);
    if |p| > maxLength {
      var pieces := CutPieces(p, maxLength);
      assert Last(pieces) in pieces;
      assert st'.chunks + [st'.current] == pieces;
    } else {
      assert st' == ChunkState([], p);
    }
  }

  /** The joined text after one more paragraph `x`, written from the state
      before it. */
  lemma JoinAfterStep(a: string, x: string, xs: seq<string>, a': string)
    requires a' == a + ParagraphBreak + x
    ensures Join([a'] + xs, ParagraphBreak) == Join([a] + ([x] + xs), ParagraphBreak)
  {
  }

  lemma {:induction false} FoldFixedJoined(qs: seq<string>, st: ChunkState, maxLength: nat)
    requires maxLength >= 1 && st.current != ""
    requires forall q :: q in qs ==> q != ""
    ensures FoldFixed(qs, st, maxLength).current != ""
    ensures Joined(FoldFixed(qs, st, maxLength)) == Join([Joined(st)] + ExpandedAll(qs, maxLength), ParagraphBreak)
    decreases |qs|
  {
    if qs == [] {
      assert [Joined(st)] + ExpandedAll(qs, maxLength) == [Joined(st)];
    } else {
      var p, rest := qs[0], qs[1..];
      var st' := StepFixed(st, p, maxLength);
      assert FoldFixed(qs, st, maxLength) == FoldFixed(rest, st', maxLength);
      assert p != "" by { assert p in qs; }
      StepFixedJoined(st, p, maxLength);
      assert forall q :: q in rest ==> q != "" by {
        assert forall q :: q in rest ==> q in qs;
      }
      FoldFixedJoined(rest, st', maxLength);
      var x, xs := Expanded(p, maxLength), ExpandedAll(rest, maxLength);
      assert ExpandedAll(qs, maxLength) == [x] + xs;
      JoinAfterStep(Joined(st), x, xs, Joined(st'));
    }
  }

  /** When every paragraph is non-empty, joining the corrected chunks with
      paragraph breaks gives back the paragraphs in order, each over-long
      one with a paragraph break at each of its cuts; when every paragraph
      also fits, that is the message itself. */
  lemma ChunksFixedRejoin(message: string, maxLength: nat)
    requires maxLength >= 1
    requires forall p :: p in Paragraphs(message) ==> p != ""
    ensures Join(ChunksFixed(message, maxLength), ParagraphBreak)
         == Join(ExpandedAll(Paragraphs(message), maxLength), ParagraphBreak)
  {
    var ps := Paragraphs(message);
    if |message| <= maxLength {
      SplitPieceLength(message, ParagraphBreak);
      ExpandedAllFits(ps, maxLength);
      JoinSplit(message, ParagraphBreak);
    } else {
      assert ps[0] in ps;
      var st1 := StepFixed(ChunkState([], ""), ps[0], maxLength);
      FirstStepFixedJoined(ps[0], maxLength);
      assert FoldFixed(ps, ChunkState([], ""), maxLength) == FoldFixed(ps[1..], st1, maxLength);
      assert forall q :: q in ps[1..] ==> q in ps;
      FoldFixedJoined(ps[1..], st1, maxLength);
      assert [Joined(st1)] + ExpandedAll(ps[1..], maxLength) == ExpandedAll(ps, maxLength);
    }
  }

  /** `chunk_html_message`: the paragraph loop with its inner search for a space. */
  method ChunkHtmlMessage(message: string, maxLength: nat) returns (chunks: seq<string>)
    ensures chunks == Chunks(message, maxLength)
    ensures |message| <= maxLength ==> chunks == [message]
    ensures forall c :: c in chunks ==>
      |c| <= maxLength || exists p :: p in Paragraphs(message) && IsSuffix(c, p)
  {
    ChunksWithin(message, maxLength);
    if |message| <= maxLength {
      return [message];
    }
    chunks := [];
    var current := "";
    var paragraphs := Split(message, ParagraphBreak);
    for i := 0 to |paragraphs|
      invariant Fold(paragraphs[i..], ChunkState(chunks, current), maxLength)
             == Fold(paragraphs, ChunkState([], ""), maxLength)
    {
      var paragraph := paragraphs[i];
      ghost var before := ChunkState(chunks, current);
      assert paragraphs[i..][1..] == paragraphs[i + 1..];
      if |current| + |paragraph| + 2 > maxLength {
        if current != "" {
          chunks := chunks + [current];
          current := paragraph;
          assert ChunkState(chunks, current) == Step(before, paragraph, maxLength);
        } else {
          if |paragraph| > maxLength {
            var safeLength: nat := maxLength;
            while safeLength > 0 && paragraph[safeLength - 1] != ' '
              invariant safeLength <= maxLength
              invariant SafeLength(paragraph, safeLength) == SafeLength(paragraph, maxLength)
            {
              safeLength := safeLength - 1;
            }
            if safeLength > 0 {
              chunks := chunks + [paragraph[..safeLength]];
              current := paragraph[safeLength..];
              assert ChunkState(chunks, current) == Step(before, paragraph, maxLength);
            } else {
              chunks := chunks + [paragraph[..maxLength]];
              current := paragraph[maxLength..];
              assert ChunkState(chunks, current) == Step(before, paragraph, maxLength);
            }
          } else {
            current := paragraph;
            assert ChunkState(chunks, current) == Step(before, paragraph, maxLength);
          }
        }
      } else {
        if current != "" {
          current := current + ParagraphBreak + paragraph;
          assert ChunkState(chunks, current) == Step(before, paragraph, maxLength);
        } else {
          current := paragraph;
          assert ChunkState(chunks, current) == Step(before, paragraph, maxLength);
        }
      }
    }
    assert paragraphs[|paragraphs|..] == [];
    if current != "" {
      chunks := chunks + [current];
    }
  }

  // ---------------------------------------------------------------------
  // format_papers

  const HtmlHeading: string := "\U{1F4DA} <b>Papers Today</b> \U{1F4DA}\n\n"

  /** The token of an item's follow-up command: the compact form of the last
      `/`-segment of the entry id. */
  function AbstractToken(entryId: string): string
  {
    PaperIdWithoutDot(LastSegment(entryId, '/'))
  }

  /** The first line of an HTML item: its number and the escaped title. */
  function HtmlTitleLine(i: nat, paper: ArxivResult): string
  {
    NatToDecimal(i) + ". <b>" + EscapeHtml(paper.title) + "</b>\n"
  }

  function HtmlAuthorsLine(paper: ArxivResult): string
  {
    "   Authors: " + EscapeHtml(AuthorLine(paper.authors)) + "\n"
  }

  function HtmlCommandLine(paper: ArxivResult): string
  {
    "   /abstract" + AbstractToken(paper.entryId) + "\n\n"
  }

  /** Item `i` of the HTML list (the source numbers from 0). */
  function HtmlItem(i: nat, paper: ArxivResult): string
  {
    HtmlTitleLine(i, paper) + (HtmlAuthorsLine(paper) + HtmlCommandLine(paper))
  }

  /** `format_papers`: the heading, then one item per result in input order,
      numbered 0, 1, 2, ... */
  method FormatPapers(papers: seq<ArxivResult>) returns (message: string)
    ensures message == HtmlHeading + Numbered(papers, HtmlItem, 0)
  {
    message := HtmlHeading;
    for i := 0 to |papers|
      invariant message == HtmlHeading + Numbered(papers[..i], HtmlItem, 0)
    {
      var paper := papers[i];
      var title := EscapeHtml(paper.title);
      var authors := Join(paper.authors[..Min(3, |paper.authors|)], ", ");
      if |paper.authors| > 3 {
        authors := authors + " et al.";
      } else {
        assert authors + "" == authors;
      }
      assert authors == AuthorLine(paper.authors);
      authors := EscapeHtml(authors);
      var paperId := LastSegment(paper.entryId, '/');
      var titleLine := NatToDecimal(i) + ". <b>" + title + "</b>\n";
      var authorsLine := "   Authors: " + authors + "\n";
      var commandLine := "   /abstract" + PaperIdWithoutDot(paperId) + "\n\n";
      var item := titleLine + (authorsLine + commandLine);
      assert item == HtmlItem(i, paper) by {
        assert titleLine == HtmlTitleLine(i, paper);
        assert authorsLine == HtmlAuthorsLine(paper);
        assert commandLine == HtmlCommandLine(paper);
      }
      FormatPapersStep(papers, i, message, item);
      message := message + item;
    }
    assert papers[..|papers|] == papers;
  }

  /** One turn of the `format_papers` loop appends item `i` to the list. */
  lemma FormatPapersStep(papers: seq<ArxivResult>, i: nat, message: string, item: string)
    requires i < |papers|
    requires message == HtmlHeading + Numbered(papers[..i], HtmlItem, 0)
    requires item == HtmlItem(i, papers[i])
    ensures message + item == HtmlHeading + Numbered(papers[..i + 1], HtmlItem, 0)
  {
    NumberedSnoc(papers, HtmlItem, 0, i);
    AppendAssoc(HtmlHeading, Numbered(papers[..i], HtmlItem, 0), item);
  }

  lemma HtmlItemParts(i: nat, paper: ArxivResult)
    ensures HtmlItem(0 + i, paper) == HtmlTitleLine(i, paper) + (HtmlAuthorsLine(paper) + HtmlCommandLine(paper))
  {
  }

  /** Item `k` of the rendered list is numbered `k` (from 0), shows the title
      escaped once, and starts right after the items before it. */
  lemma FormatPapersItem(papers: seq<ArxivResult>, k: nat)
    requires k < |papers|
    ensures OccursAt(Numbered(papers, HtmlItem, 0), |Numbered(papers[..k], HtmlItem, 0)|, HtmlTitleLine(k, papers[k]))
  {
    var paper := papers[k];
    HtmlItemParts(k, paper);
    NumberedHeadAt(papers, HtmlItem, 0, k, HtmlTitleLine(k, paper),
      HtmlAuthorsLine(paper) + HtmlCommandLine(paper));
  }

  /** The follow-up command names the paper by a token with no `.` and no
      `/`, taken from the end of the entry id. */
  lemma AbstractTokenShape(entryId: string)
    ensures '.' !in AbstractToken(entryId) && '/' !in AbstractToken(entryId)
    ensures forall x :: x in AbstractToken(entryId) ==> x in entryId
  {
    var seg := LastSegment(entryId, '/');
    if '.' in seg {
      ReplaceChars(seg, ".", "");
    }
    assert forall x :: x in seg ==> x in entryId by {
      assert entryId[|entryId| - |seg|..] == seg;
    }
  }

  /** For an entry id ending in a canonical identifier, restoring the dot in
      the token gives that identifier back. */
  lemma AbstractTokenCanonical(entryId: string, prefix: string, suffix: string)
    requires LastSegment(entryId, '/') == prefix + "." + suffix
    requires |prefix| == 4 && '.' !in prefix && '.' !in suffix
    ensures PaperIdWithDot(AbstractToken(entryId)) == prefix + "." + suffix
  {
    WithDotAfterWithoutDot(prefix, suffix);
  }
}
