/**
 * The parts of Python's built-in `str` and `list` behaviour that the bot's
 * code relies on, as functions over `seq<char>`: substring search, `split`,
 * `join`, `replace`, `strip`, `int()`, `str(n)`, `list.remove`, and the
 * numbered-list and concatenation shapes the message builders produce.
 */
module Text {

  datatype Option<T> = None | Some(value: T)

  /** Python's `sub in s` for two strings. */
  predicate IsSubstring(sub: string, s: string)
    decreases |s|
  {
    (|sub| <= |s| && s[..|sub|] == sub) || (s != [] && IsSubstring(sub, s[1..]))
  }

  /** A string that lacks some character of `sub` cannot contain `sub`. */
  lemma {:induction false} MissingCharNoSubstring(sub: string, s: string, c: char)
    requires c in sub && c !in s
    ensures !IsSubstring(sub, s)
    decreases |s|
  {
    if |sub| <= |s| {
      assert forall x :: x in s[..|sub|] ==> x in s;
      assert s[..|sub|] != sub;
    }
    if s != [] {
      assert forall x :: x in s[1..] ==> x in s;
      MissingCharNoSubstring(sub, s[1..], c);
    }
  }

  // ---------------------------------------------------------------------
  // str.split(sep) and str.join

  /** Python's `s.split(sep)` for a non-empty separator: cuts at every
      occurrence of `sep`, scanning left to right without overlaps. */
  function Split(s: string, sep: string): (r: seq<string>)
    requires sep != ""
    ensures |r| >= 1
    decreases |s|
  {
    if |s| < |sep| then [s]
    else if s[..|sep|] == sep then [""] + Split(s[|sep|..], sep)
    else
      var rest := Split(s[1..], sep);
      [[s[0]] + rest[0]] + rest[1..]
  }

  /** Python's `sep.join(xs)`. */
  function Join(xs: seq<string>, sep: string): string
  {
    if xs == [] then ""
    else if |xs| == 1 then xs[0]
    else xs[0] + sep + Join(xs[1..], sep)
  }

  function Last<T>(xs: seq<T>): T
    requires xs != []
  {
    xs[|xs| - 1]
  }

  /** Joining the pieces of a split with the same separator gives back the string. */
  lemma {:induction false} JoinSplit(s: string, sep: string)
    requires sep != ""
    ensures Join(Split(s, sep), sep) == s
    decreases |s|
  {
    if |s| < |sep| {
    } else if s[..|sep|] == sep {
      JoinSplit(s[|sep|..], sep);
      JoinEmptyFirst(Split(s[|sep|..], sep), sep);
      assert s == s[..|sep|] + s[|sep|..];
    } else {
      JoinSplit(s[1..], sep);
      JoinExtendFirst(s[0], Split(s[1..], sep), sep);
      assert s == [s[0]] + s[1..];
    }
  }

  /** An empty first piece contributes only its separator. */
  lemma JoinEmptyFirst(xs: seq<string>, sep: string)
    requires xs != []
    ensures Join([""] + xs, sep) == sep + Join(xs, sep)
  {
    assert ([""] + xs)[1..] == xs;
  }

  /** Putting a character in front of the first piece puts it in front of
      the join. */
  lemma JoinExtendFirst(c: char, xs: seq<string>, sep: string)
    requires xs != []
    ensures Join([[c] + xs[0]] + xs[1..], sep) == [c] + Join(xs, sep)
  {
    var r := [[c] + xs[0]] + xs[1..];
    if |xs| > 1 {
      assert r[1..] == xs[1..];
    }
  }

  /** Appending one more piece to a join adds one separator and the piece. */
  lemma {:induction false} JoinSnoc(xs: seq<string>, y: string, sep: string)
    requires xs != []
    ensures Join(xs + [y], sep) == Join(xs, sep) + sep + y
    decreases |xs|
  {
    if |xs| == 1 {
      assert (xs + [y])[1..] == [y];
    } else {
      assert (xs + [y])[1..] == xs[1..] + [y];
      JoinSnoc(xs[1..], y, sep);
    }
  }

  /** Joining two non-empty lists one after the other puts one separator
      between their joins. */
  lemma {:induction false} JoinAppend(xs: seq<string>, ys: seq<string>, sep: string)
    requires xs != [] && ys != []
    ensures Join(xs + ys, sep) == Join(xs, sep) + sep + Join(ys, sep)
    decreases |xs|
  {
    var zs := xs + ys;
    assert zs[0] == xs[0];
    if |xs| == 1 {
      assert zs[1..] == ys;
    } else {
      assert zs[1..] == xs[1..] + ys;
      JoinAppend(xs[1..], ys, sep);
    }
  }

  /** Merging the first two pieces with the separator between them leaves the
      join unchanged. */
  lemma JoinMergeFirst(a: string, x: string, ys: seq<string>, sep: string)
    ensures Join([a + sep + x] + ys, sep) == Join([a, x] + ys, sep)
  {
    var l, r := [a + sep + x] + ys, [a, x] + ys;
    assert r[1..] == [x] + ys;
    if ys != [] {
      assert l[1..] == ys;
      assert ([x] + ys)[1..] == ys;
    }
  }

  /** Splitting a join gives back the pieces, when no piece holds the
      separator's first character. */
  lemma {:induction false} SplitJoin(xs: seq<string>, sep: string)
    requires sep != "" && xs != []
    requires forall k :: 0 <= k < |xs| ==> sep[0] !in xs[k]
    ensures Split(Join(xs, sep), sep) == xs
    decreases |xs|
  {
    if |xs| == 1 {
      MissingCharNoSubstring(sep, xs[0], sep[0]);
      SplitWithoutSeparator(xs[0], sep);
    } else {
      SplitJoin(xs[1..], sep);
      SplitAfterPrefix(xs[0], sep, Join(xs[1..], sep));
      assert [xs[0]] + xs[1..] == xs;
    }
  }

  /** The last piece of a split on `c` is what follows the last `c`. */
  lemma {:induction false} SplitLastAfter(a: string, c: char, b: string)
    requires c !in b
    ensures |Split(a + [c] + b, [c])| >= 2
    ensures Last(Split(a + [c] + b, [c])) == b
    decreases |a|
  {
    var s := a + [c] + b;
    MissingCharNoSubstring([c], b, c);
    SplitWithoutSeparator(b, [c]);
    if a == [] {
      assert s[..1] == [c] && s[1..] == b;
    } else {
      assert s[1..] == a[1..] + [c] + b;
      SplitLastAfter(a[1..], c, b);
      assert s[..1] == [a[0]];
    }
  }

  /** A split of a string with no occurrence of the separator is the string alone. */
  lemma {:induction false} SplitWithoutSeparator(s: string, sep: string)
    requires sep != ""
    ensures !IsSubstring(sep, s) ==> Split(s, sep) == [s]
    decreases |s|
  {
    if !IsSubstring(sep, s) && |s| >= |sep| {
      SplitWithoutSeparator(s[1..], sep);
      assert [s[0]] + s[1..] == s;
    }
  }

  /** When the separator's first character does not occur in `a`, the first
      occurrence of the separator in `a + sep + b` is the one after `a`. */
  lemma {:induction false} SplitAfterPrefix(a: string, sep: string, b: string)
    requires sep != "" && sep[0] !in a
    ensures Split(a + sep + b, sep) == [a] + Split(b, sep)
    decreases |a|
  {
    var s := a + sep + b;
    if a == [] {
      assert s[..|sep|] == sep;
      assert s[|sep|..] == b;
    } else {
      assert s[0] == a[0] != sep[0];
      assert s[1..] == a[1..] + sep + b;
      assert forall x :: x in a[1..] ==> x in a;
      SplitAfterPrefix(a[1..], sep, b);
      assert [a[0]] + a[1..] == a;
    }
  }

  /** Every character of every piece of a split comes from the string. */
  lemma {:induction false} SplitPieceChars(s: string, sep: string)
    requires sep != ""
    ensures forall p, c :: p in Split(s, sep) && c in p ==> c in s
    decreases |s|
  {
    if |s| < |sep| {
    } else if s[..|sep|] == sep {
      SplitPieceChars(s[|sep|..], sep);
      assert forall c :: c in s[|sep|..] ==> c in s;
    } else {
      var rest := Split(s[1..], sep);
      SplitPieceChars(s[1..], sep);
      assert forall c :: c in s[1..] ==> c in s;
      assert forall p :: p in rest[1..] ==> p in rest;
    }
  }

  /** No piece of a split is longer than the string. */
  lemma {:induction false} SplitPieceLength(s: string, sep: string)
    requires sep != ""
    ensures forall p :: p in Split(s, sep) ==> |p| <= |s|
    decreases |s|
  {
    if |s| < |sep| {
    } else if s[..|sep|] == sep {
      SplitPieceLength(s[|sep|..], sep);
    } else {
      var rest := Split(s[1..], sep);
      SplitPieceLength(s[1..], sep);
      assert forall p :: p in rest[1..] ==> p in rest;
    }
  }

  /** No piece of a split on a single character contains that character. */
  lemma {:induction false} SplitOnCharPieces(s: string, c: char)
    ensures forall p :: p in Split(s, [c]) ==> c !in p
    decreases |s|
  {
    if |s| < 1 {
    } else if s[..1] == [c] {
      SplitOnCharPieces(s[1..], c);
    } else {
      var rest := Split(s[1..], [c]);
      SplitOnCharPieces(s[1..], c);
      assert s[0] != c;
      assert forall p :: p in rest[1..] ==> p in rest;
    }
  }

  /** The last piece of a join ends the joined string. */
  lemma {:induction false} JoinEndsWithLast(xs: seq<string>, sep: string)
    requires xs != []
    ensures |Last(xs)| <= |Join(xs, sep)|
    ensures Join(xs, sep)[|Join(xs, sep)| - |Last(xs)|..] == Last(xs)
    decreases |xs|
  {
    if |xs| > 1 {
      JoinEndsWithLast(xs[1..], sep);
      assert Last(xs[1..]) == Last(xs);
    }
  }

  /** Python's `s.split(c)[-1]`: what follows the last `c`, or all of `s`. */
  function LastSegment(s: string, c: char): (r: string)
    ensures c !in r
    ensures |r| <= |s| && s[|s| - |r|..] == r
    ensures c !in s ==> r == s
  {
    var pieces := Split(s, [c]);
    SplitOnCharPieces(s, c);
    JoinSplit(s, [c]);
    JoinEndsWithLast(pieces, [c]);
    SplitWithoutSeparator(s, [c]);
    if c in s then Last(pieces)
    else
      MissingCharNoSubstring([c], s, c);
      Last(pieces)
  }

  /** Taking the last segment twice is the same as taking it once. */
  lemma LastSegmentIdempotent(s: string, c: char)
    ensures LastSegment(LastSegment(s, c), c) == LastSegment(s, c)
  {
  }

  /** The last segment after a `c` that is followed by no other `c`. */
  lemma LastSegmentAfter(a: string, c: char, b: string)
    requires c !in b
    ensures LastSegment(a + [c] + b, c) == b
  {
    SplitLastAfter(a, c, b);
  }

  /** Python's `s.lower()` on ASCII letters. */
  function AsciiLower(s: string): (r: string)
    ensures |r| == |s|
  {
    seq(|s|, k requires 0 <= k < |s| => if 'A' <= s[k] <= 'Z' then (s[k] as int + 32) as char else s[k])
  }

  // ---------------------------------------------------------------------
  // str.replace

  /** Python's `s.replace(pat, repl)` for a non-empty `pat`: every occurrence,
      found left to right without overlaps, is replaced once. */
  function Replace(s: string, pat: string, repl: string): string
    requires pat != ""
    decreases |s|
  {
    if |s| < |pat| then s
    else if s[..|pat|] == pat then repl + Replace(s[|pat|..], pat, repl)
    else [s[0]] + Replace(s[1..], pat, repl)
  }

  /** Replacing a string that does not occur changes nothing. */
  lemma {:induction false} ReplaceAbsent(s: string, pat: string, repl: string)
    requires pat != "" && !IsSubstring(pat, s)
    ensures Replace(s, pat, repl) == s
    decreases |s|
  {
    if |s| >= |pat| {
      ReplaceAbsent(s[1..], pat, repl);
      assert [s[0]] + s[1..] == s;
    }
  }

  /** Replacing a single character works character by character. */
  lemma {:induction false} ReplaceCharAppend(a: string, b: string, c: char, repl: string)
    ensures Replace(a + b, [c], repl) == Replace(a, [c], repl) + Replace(b, [c], repl)
    decreases |a|
  {
    if a != [] {
      assert (a + b)[1..] == a[1..] + b;
      assert (a + b)[..1] == a[..1];
      ReplaceCharAppend(a[1..], b, c, repl);
    } else {
      assert a + b == b;
    }
  }

  /** Replacing a character in a one-character string. */
  lemma ReplaceOneChar(x: char, c: char, repl: string)
    ensures Replace([x], [c], repl) == if x == c then repl else [x]
  {
    assert [x][1..] == [];
    if x == c {
      assert repl + [] == repl;
    } else {
      assert [x] + [] == [x];
    }
  }

  /** Replacing a character that does not occur changes nothing. */
  lemma {:induction false} ReplaceCharAbsent(s: string, c: char, repl: string)
    requires c !in s
    ensures Replace(s, [c], repl) == s
  {
    MissingCharNoSubstring([c], s, c);
    ReplaceAbsent(s, [c], repl);
  }

  /** After a replacement every character comes from the string or from `repl`. */
  lemma {:induction false} ReplaceChars(s: string, pat: string, repl: string)
    requires pat != ""
    ensures forall x :: x in Replace(s, pat, repl) ==> x in s || x in repl
    decreases |s|
  {
    if |s| >= |pat| {
      if s[..|pat|] == pat {
        ReplaceChars(s[|pat|..], pat, repl);
        assert forall x :: x in s[|pat|..] ==> x in s;
      } else {
        ReplaceChars(s[1..], pat, repl);
        assert forall x :: x in s[1..] ==> x in s;
      }
    }
  }

  /** Replacing a character by a string without it removes every occurrence. */
  lemma {:induction false} ReplaceCharRemoves(s: string, c: char, repl: string)
    requires c !in repl
    ensures c !in Replace(s, [c], repl)
    decreases |s|
  {
    if |s| >= 1 {
      ReplaceCharRemoves(s[1..], c, repl);
    }
  }

  // ---------------------------------------------------------------------
  // str.strip

  /** The characters for which Python's `str.isspace()` holds. */
  predicate IsSpace(c: char)
  {
    c == ' ' || ('\t' <= c <= '\r') || ('\U{1C}' <= c <= '\U{1F}') || c == '\U{85}'
    || c == '\U{A0}' || c == '\U{1680}' || ('\U{2000}' <= c <= '\U{200A}')
    || c == '\U{2028}' || c == '\U{2029}' || c == '\U{202F}' || c == '\U{205F}'
    || c == '\U{3000}'
  }

  function StripLeft(s: string): (r: string)
    ensures |r| <= |s| && r == s[|s| - |r|..]
    ensures forall k :: 0 <= k < |s| - |r| ==> IsSpace(s[k])
    ensures r != [] ==> !IsSpace(r[0])
    decreases |s|
  {
    if s != [] && IsSpace(s[0]) then StripLeft(s[1..]) else s
  }

  function StripRight(s: string): (r: string)
    ensures |r| <= |s| && r == s[..|r|]
    ensures forall k :: |r| <= k < |s| ==> IsSpace(s[k])
    ensures r != [] ==> !IsSpace(r[|r| - 1])
    decreases |s|
  {
    if s != [] && IsSpace(s[|s| - 1]) then StripRight(s[..|s| - 1]) else s
  }

  /** Python's `s.strip()`: `s` without its leading and trailing white space. */
  function Strip(s: string): (r: string)
    ensures r == [] || (!IsSpace(r[0]) && !IsSpace(r[|r| - 1]))
    ensures forall x :: x in r ==> x in s
  {
    var t := StripLeft(s);
    var r := StripRight(t);
    assert r == s[|s| - |t|..][..|r|];
    assert forall x :: x in r ==> x in s;
    r
  }

  /** The strip of `s` is a slice of `s` with only white space before it and
      only white space after it; with the ends `Strip` guarantees, this is
      exactly what `str.strip()` returns. */
  lemma StripIsSlice(s: string)
    ensures exists i, j ::
              (0 <= i <= j <= |s| && Strip(s) == s[i..j]
               && (forall k :: 0 <= k < i ==> IsSpace(s[k]))
               && (forall k :: j <= k < |s| ==> IsSpace(s[k])))
  {
    var t := StripLeft(s);
    var r := StripRight(t);
    var i := |s| - |t|;
    SliceOfSuffix(s, t, r, IsSpace);
    assert Strip(s) == r;
    assert 0 <= i <= i + |r| <= |s| && r == s[i..i + |r|]
      && (forall k :: 0 <= k < i ==> IsSpace(s[k]))
      && (forall k :: i + |r| <= k < |s| ==> IsSpace(s[k]));
  }

  /** A prefix `r` of a suffix `t` of `s` is a slice of `s`, and what follows
      `r` in `t` is what follows the slice in `s`. */
  lemma SliceOfSuffix<T>(s: seq<T>, t: seq<T>, r: seq<T>, P: T -> bool)
    requires |r| <= |t| <= |s| && t == s[|s| - |t|..] && r == t[..|r|]
    requires forall k :: |r| <= k < |t| ==> P(t[k])
    ensures r == s[|s| - |t|..|s| - |t| + |r|]
    ensures forall k :: |s| - |t| + |r| <= k < |s| ==> P(s[k])
  {
    var i := |s| - |t|;
    forall k | i + |r| <= k < |s|
      ensures P(s[k])
    {
      assert s[k] == t[k - i];
    }
  }

  /** A string that neither starts nor ends with white space is its own strip. */
  lemma StripUnchanged(s: string)
    requires s == [] || (!IsSpace(s[0]) && !IsSpace(s[|s| - 1]))
    ensures Strip(s) == s
  {
  }

  // ---------------------------------------------------------------------
  // Decimal numbers: str(n) and int(s)

  predicate IsDigit(c: char)
  {
    '0' <= c <= '9'
  }

  function DigitChar(d: nat): (c: char)
    requires d < 10
    ensures IsDigit(c) && DigitValue(c) == d
  {
    (48 + d) as char
  }

  function DigitValue(c: char): nat
    requires IsDigit(c)
  {
    (c as int) - 48
  }

  /** Python's `str(n)` for a natural number. */
  function NatToDecimal(n: nat): (r: string)
    ensures r != [] && forall x :: x in r ==> IsDigit(x)
    decreases n
  {
    if n < 10 then [DigitChar(n)] else NatToDecimal(n / 10) + [DigitChar(n % 10)]
  }

  /** Python's `str(n)` (and f-string formatting) for any integer. */
  function IntToDecimal(n: int): string
  {
    if n < 0 then "-" + NatToDecimal(-n) else NatToDecimal(n)
  }

  /** The value of a string of decimal digits. */
  function DecimalValue(ds: string): nat
    requires forall x :: x in ds ==> IsDigit(x)
  {
    if ds == [] then 0 else DecimalValue(ds[..|ds| - 1]) * 10 + DigitValue(ds[|ds| - 1])
  }

  /** Digits with single underscores between them, as Python's `int()` accepts. */
  predicate GroupedDigits(ds: string)
    decreases |ds|
  {
    ds != [] && IsDigit(ds[0])
    && (|ds| == 1 || (if ds[1] == '_' then GroupedDigits(ds[2..]) else GroupedDigits(ds[1..])))
  }

  function WithoutUnderscores(ds: string): (r: string)
    ensures GroupedDigits(ds) ==> forall x :: x in r ==> IsDigit(x)
    ensures (forall x :: x in ds ==> IsDigit(x)) ==> r == ds
    decreases |ds|
  {
    if ds == [] then []
    else if ds[0] == '_' then WithoutUnderscores(ds[1..])
    else [ds[0]] + WithoutUnderscores(ds[1..])
  }

  predicate IsSign(c: char)
  {
    c == '-' || c == '+'
  }

  /** Python's `int(s)` on a string (ASCII digits only). */
  function ParseInt(s: string): Option<int>
  {
    var t := Strip(s);
    if t != [] && IsSign(t[0]) then
      if GroupedDigits(t[1..]) then
        var v: int := DecimalValue(WithoutUnderscores(t[1..]));
        Some(if t[0] == '-' then -v else v)
      else None
    else if GroupedDigits(t) then Some(DecimalValue(WithoutUnderscores(t)))
    else None
  }

  lemma {:induction false} DecimalRoundTrip(n: nat)
    ensures DecimalValue(NatToDecimal(n)) == n
    decreases n
  {
    if n >= 10 {
      DecimalRoundTrip(n / 10);
      var r := NatToDecimal(n);
      assert r[..|r| - 1] == NatToDecimal(n / 10);
    }
  }

  lemma {:induction false} DigitsAreGrouped(ds: string)
    requires ds != [] && forall x :: x in ds ==> IsDigit(x)
    ensures GroupedDigits(ds)
    decreases |ds|
  {
    if |ds| > 1 {
      assert ds[1] in ds;
      assert forall x :: x in ds[1..] ==> x in ds;
      DigitsAreGrouped(ds[1..]);
    }
  }

  lemma DecimalTextParses(ds: string)
    requires ds != [] && forall x :: x in ds ==> IsDigit(x)
    ensures GroupedDigits(ds) && WithoutUnderscores(ds) == ds
  {
    DigitsAreGrouped(ds);
  }

  lemma DecimalTextUnstripped(n: int)
    ensures Strip(IntToDecimal(n)) == IntToDecimal(n)
  {
    var ds := NatToDecimal(if n < 0 then -n else n);
    var t := IntToDecimal(n);
    assert ds[0] in ds && ds[|ds| - 1] in ds;
    assert t[|t| - 1] == ds[|ds| - 1];
    StripUnchanged(t);
  }

  /** The decimal text of `m` is a well-formed digit string worth `m`. */
  lemma DecimalTextValue(m: nat)
    ensures GroupedDigits(NatToDecimal(m)) && DecimalValue(WithoutUnderscores(NatToDecimal(m))) == m
  {
    DecimalTextParses(NatToDecimal(m));
    DecimalRoundTrip(m);
  }

  /** `int()` on already stripped text: a minus sign followed by digits. */
  lemma ParseIntMinus(t: string, ds: string, m: nat)
    requires Strip(t) == t && t != [] && t[0] == '-' && t[1..] == ds
    requires GroupedDigits(ds) && DecimalValue(WithoutUnderscores(ds)) == m
    ensures ParseInt(t) == Some(-(m as int))
  {
  }

  /** `int()` on already stripped text: digits without a sign. */
  lemma ParseIntUnsigned(t: string, m: nat)
    requires Strip(t) == t && t != [] && !IsSign(t[0])
    requires GroupedDigits(t) && DecimalValue(WithoutUnderscores(t)) == m
    ensures ParseInt(t) == Some(m as int)
  {
  }

  lemma ParseIntNonNegative(m: nat)
    ensures ParseInt(NatToDecimal(m)) == Some(m as int)
  {
    var ds := NatToDecimal(m);
    DecimalTextUnstripped(m);
    DecimalTextValue(m);
    assert ds[0] in ds;
    ParseIntUnsigned(ds, m);
  }

  lemma ParseIntNegative(n: int)
    requires n < 0
    ensures ParseInt(IntToDecimal(n)) == Some(n)
  {
    var m: nat := -n;
    var ds := NatToDecimal(m);
    var t := IntToDecimal(n);
    DecimalTextUnstripped(n);
    DecimalTextValue(m);
    assert t[1..] == ds;
    ParseIntMinus(t, ds, m);
  }

  /** `int(str(n)) == n`: the decimal text of an integer parses back to it. */
  lemma ParseIntRoundTrip(n: int)
    ensures ParseInt(IntToDecimal(n)) == Some(n)
  {
    if n < 0 {
      ParseIntNegative(n);
    } else {
      ParseIntNonNegative(n);
    }
  }

  // ---------------------------------------------------------------------
  // Sequences of pieces

  /** The concatenation of a sequence of sequences, in order. */
  function Concat<T>(xss: seq<seq<T>>): seq<T>
  {
    if xss == [] then [] else Concat(xss[..|xss| - 1]) + xss[|xss| - 1]
  }

  lemma {:induction false} ConcatCons<T>(x: seq<T>, xss: seq<seq<T>>)
    ensures Concat([x] + xss) == x + Concat(xss)
    decreases |xss|
  {
    if xss != [] {
      var ys := [x] + xss;
      assert ys[..|ys| - 1] == [x] + xss[..|xss| - 1];
      ConcatCons(x, xss[..|xss| - 1]);
    } else {
      assert [x] + xss == [x];
      assert [x][..0] == [];
    }
  }

  lemma AppendAssoc<T>(a: seq<T>, b: seq<T>, c: seq<T>)
    ensures (a + b) + c == a + (b + c)
  {
  }

  /** Where `a + (b + c)` starts `d`, the piece `b` sits at offset `|a|` of `d`. */
  /** `piece` stands in `whole` starting at offset `at`. */
  predicate OccursAt<T(==)>(whole: seq<T>, at: int, piece: seq<T>)
  {
    0 <= at && at + |piece| <= |whole| && whole[at..at + |piece|] == piece
  }

  lemma PieceAt<T>(a: seq<T>, b: seq<T>, c: seq<T>, d: seq<T>)
    requires a + (b + c) <= d
    ensures |a| + |b| <= |d| && d[|a|..|a| + |b|] == b
  {
    assert d[|a|..|a| + |b|] == (a + (b + c))[|a|..|a| + |b|];
  }

  /** A numbered list: item `k` of `xs` rendered with number `first + k`,
      in order, as the `message += f"{i}. ..."` loops build it. */
  function Numbered<T>(xs: seq<T>, item: (nat, T) -> string, first: nat): string
  {
    if xs == [] then ""
    else Numbered(xs[..|xs| - 1], item, first) + item(first + |xs| - 1, xs[|xs| - 1])
  }

  lemma {:induction false} NumberedPrefix<T>(xs: seq<T>, item: (nat, T) -> string, first: nat, j: nat)
    requires j <= |xs|
    ensures Numbered(xs[..j], item, first) <= Numbered(xs, item, first)
    decreases |xs| - j
  {
    if j < |xs| {
      var ys := xs[..|xs| - 1];
      assert ys[..j] == xs[..j];
      NumberedPrefix(ys, item, first, j);
      var a, b := Numbered(xs[..j], item, first), Numbered(ys, item, first);
      assert b <= Numbered(xs, item, first);
      assert a == b[..|a|];
    } else {
      assert xs[..j] == xs;
    }
  }

  /** Item `k` of a numbered list carries number `first + k` and stands right
      after the items before it. */
  lemma NumberedItemAt<T>(xs: seq<T>, item: (nat, T) -> string, first: nat, k: nat)
    requires k < |xs|
    ensures Numbered(xs[..k], item, first) + item(first + k, xs[k]) <= Numbered(xs, item, first)
  {
    assert xs[..k + 1][..k] == xs[..k];
    NumberedPrefix(xs, item, first, k + 1);
  }

  lemma NumberedSnoc<T>(xs: seq<T>, item: (nat, T) -> string, first: nat, i: nat)
    requires i < |xs|
    ensures Numbered(xs[..i + 1], item, first) == Numbered(xs[..i], item, first) + item(first + i, xs[i])
  {
    assert xs[..i + 1][..i] == xs[..i];
  }

  /** When item `k` starts with `head`, `head` sits in the list right after
      the items before `k`. */
  lemma NumberedHeadAt<T>(xs: seq<T>, item: (nat, T) -> string, first: nat, k: nat, head: string, rest: string)
    requires k < |xs| && item(first + k, xs[k]) == head + rest
    ensures OccursAt(Numbered(xs, item, first), |Numbered(xs[..k], item, first)|, head)
  {
    NumberedItemAt(xs, item, first, k);
    PieceAt(Numbered(xs[..k], item, first), head, rest, Numbered(xs, item, first));
  }

  /** `xs` is `ys` with some elements left out, the rest kept in order. */
  predicate IsSubsequence<T(==)>(xs: seq<T>, ys: seq<T>)
    decreases |ys|
  {
    xs == []
    || (ys != [] && ((xs[|xs| - 1] == ys[|ys| - 1] && IsSubsequence(xs[..|xs| - 1], ys[..|ys| - 1]))
                     || IsSubsequence(xs, ys[..|ys| - 1])))
  }

  // ---------------------------------------------------------------------
  // list.remove and duplicate-free lists

  predicate NoDuplicates<T(==)>(xs: seq<T>)
  {
    forall i, j :: 0 <= i < j < |xs| ==> xs[i] != xs[j]
  }

  /** Python's `xs.remove(x)`: drops the first occurrence of `x` (the source
      only calls it after checking `x in xs`). */
  function RemoveFirst<T(==)>(xs: seq<T>, x: T): (r: seq<T>)
    ensures x !in xs ==> r == xs
    decreases |xs|
  {
    if xs == [] then []
    else if xs[0] == x then xs[1..]
    else [xs[0]] + RemoveFirst(xs[1..], x)
  }

  /** Python's `xs.index(x)`: the position of the first occurrence. */
  function IndexOf<T(==)>(xs: seq<T>, x: T): (i: nat)
    requires x in xs
    ensures i < |xs| && xs[i] == x && x !in xs[..i]
    decreases |xs|
  {
    if xs[0] == x then 0
    else
      var j := IndexOf(xs[1..], x);
      assert xs[..j + 1] == [xs[0]] + xs[1..][..j];
      j + 1
  }

  /** Removal cuts out exactly the first occurrence. */
  lemma {:induction false} RemoveFirstAtIndex<T>(xs: seq<T>, x: T)
    requires x in xs
    ensures RemoveFirst(xs, x) == xs[..IndexOf(xs, x)] + xs[IndexOf(xs, x) + 1..]
    decreases |xs|
  {
    if xs[0] != x {
      RemoveFirstAtIndex(xs[1..], x);
      var j := IndexOf(xs[1..], x);
      assert xs[..j + 1] == [xs[0]] + xs[1..][..j];
      assert xs[j + 2..] == xs[1..][j + 1..];
    }
  }

  /** Removal takes exactly one copy of `x` out of the list. */
  lemma {:induction false} RemoveFirstMultiset<T>(xs: seq<T>, x: T)
    requires x in xs
    ensures multiset(RemoveFirst(xs, x)) == multiset(xs) - multiset{x}
    decreases |xs|
  {
    assert xs == [xs[0]] + xs[1..];
    if xs[0] != x {
      RemoveFirstMultiset(xs[1..], x);
    }
  }

  /** Appending a repl element and removing it again gives back the list. */
  lemma {:induction false} RemoveFirstAfterAppend<T>(xs: seq<T>, x: T)
    requires x !in xs
    ensures RemoveFirst(xs + [x], x) == xs
    decreases |xs|
  {
    if xs == [] {
      assert [] + [x] == [x];
    } else {
      assert (xs + [x])[1..] == xs[1..] + [x];
      RemoveFirstAfterAppend(xs[1..], x);
      assert [xs[0]] + xs[1..] == xs;
    }
  }

  /** Appending a repl element and removing any element keep a list duplicate-free. */
  lemma NoDuplicatesAppend<T>(xs: seq<T>, x: T)
    requires NoDuplicates(xs) && x !in xs
    ensures NoDuplicates(xs + [x])
  {
  }

  lemma {:induction false} NoDuplicatesRemove<T>(xs: seq<T>, x: T)
    requires NoDuplicates(xs)
    ensures NoDuplicates(RemoveFirst(xs, x))
    ensures multiset(RemoveFirst(xs, x)) <= multiset(xs)
    decreases |xs|
  {
    if xs != [] && xs[0] != x {
      NoDuplicatesRemove(xs[1..], x);
      var r := RemoveFirst(xs[1..], x);
      assert xs == [xs[0]] + xs[1..];
      assert xs[0] !in multiset(xs[1..]);
      assert xs[0] !in xs[1..];
      assert xs[0] !in multiset(r);
    } else if xs != [] {
      assert xs == [xs[0]] + xs[1..];
    }
  }
}
