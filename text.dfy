/**
 * The parts of Python's `str` and `re` semantics that the document ranker relies on.
 * Whitespace and line boundaries follow Python's full sets; letters, digits, word
 * characters and case folding are ASCII only.
 */
module Text {
  import opened Wrappers

  /** `str.isspace()`; also what regex `\s`, `str.split()` and `str.strip()` treat as whitespace. */
  predicate IsSpace(c: char) {
    var n := c as int;
    (9 <= n <= 13) || (28 <= n <= 32) || n == 0x85 || n == 0xA0 || n == 0x1680
    || (0x2000 <= n <= 0x200A) || n == 0x2028 || n == 0x2029 || n == 0x202F
    || n == 0x205F || n == 0x3000
  }

  predicate IsNonSpace(c: char) { !IsSpace(c) }

  /** The characters at which `str.splitlines()` ends a line. */
  predicate IsLineBoundary(c: char) {
    var n := c as int;
    (10 <= n <= 13) || (28 <= n <= 30) || n == 0x85 || n == 0x2028 || n == 0x2029
  }

  predicate IsNotLineBoundary(c: char) { !IsLineBoundary(c) }

  /** What regex `.` matches: anything but a newline. */
  predicate IsNotNewline(c: char) { c != '\n' }

  predicate IsAsciiLetter(c: char) { 'a' <= c <= 'z' || 'A' <= c <= 'Z' }

  /** Regex `\d`. */
  predicate IsDigit(c: char) { '0' <= c <= '9' }

  /** Regex `\w`, the characters that decide a `\b` boundary. */
  predicate IsWordChar(c: char) { IsAsciiLetter(c) || IsDigit(c) || c == '_' }

  /** `str.isalpha()`: non-empty and letters only. */
  predicate IsAlpha(w: string) {
    |w| > 0 && forall i :: 0 <= i < |w| ==> IsAsciiLetter(w[i])
  }

  function LowerChar(c: char): (d: char)
    ensures IsAsciiLetter(c) <==> IsAsciiLetter(d)
    ensures 'A' <= d <= 'Z' ==> false
    ensures !IsAsciiLetter(c) ==> d == c
  {
    if 'A' <= c <= 'Z' then (c as int + 32) as char else c
  }

  /** `str.lower()`. */
  function Lower(s: string): (r: string)
    ensures |r| == |s|
    ensures forall i :: 0 <= i < |s| ==> r[i] == LowerChar(s[i])
  {
    seq(|s|, i requires 0 <= i < |s| => LowerChar(s[i]))
  }

  lemma LowerIdempotent(s: string)
    ensures Lower(Lower(s)) == Lower(s)
  {
    assert forall i :: 0 <= i < |s| ==> LowerChar(LowerChar(s[i])) == LowerChar(s[i]);
  }

  predicate AllSatisfy(s: string, lo: nat, hi: nat, p: char -> bool)
    requires lo <= hi <= |s|
  {
    forall k :: lo <= k < hi ==> p(s[k])
  }

  /** The end of the longest run of `p`-characters starting at `i`. */
  function RunEnd(s: string, i: nat, p: char -> bool): (e: nat)
    requires i <= |s|
    ensures i <= e <= |s|
    ensures forall k :: i <= k < e ==> p(s[k])
    ensures e < |s| ==> !p(s[e])
    decreases |s| - i
  {
    if i == |s| || !p(s[i]) then i else RunEnd(s, i + 1, p)
  }

  /** A run of `p`-characters reaches at least as far as any stretch of them. */
  lemma {:induction false} RunEndCovers(s: string, i: nat, j: nat, p: char -> bool)
    requires i <= j <= |s|
    requires forall k :: i <= k < j ==> p(s[k])
    ensures RunEnd(s, i, p) >= j
    decreases |s| - i
  {
    if i < j {
      RunEndCovers(s, i + 1, j, p);
    }
  }

  /** Python's `needle in haystack` on strings. */
  predicate IsPrefix(needle: string, haystack: string) {
    |needle| <= |haystack| && haystack[..|needle|] == needle
  }

  predicate IsSubstring(needle: string, haystack: string)
    decreases |haystack|
  {
    IsPrefix(needle, haystack) || (|haystack| > 0 && IsSubstring(needle, haystack[1..]))
  }

  lemma {:induction false} SliceIsSubstring(s: string, i: nat, j: nat)
    requires i <= j <= |s|
    ensures IsSubstring(s[i..j], s)
    decreases i
  {
    if i > 0 {
      SliceIsSubstring(s[1..], i - 1, j - 1);
      assert s[1..][i - 1..j - 1] == s[i..j];
    }
  }

  /** `needle` occurs in `haystack` starting at index `i`. */
  predicate OccursAt(needle: string, haystack: string, i: int) {
    0 <= i && i + |needle| <= |haystack| && haystack[i..i + |needle|] == needle
  }

  /** `needle in haystack` holds exactly when the needle occurs at some index of the haystack. */
  lemma {:induction false} IsSubstringIffOccurs(needle: string, haystack: string)
    ensures IsSubstring(needle, haystack) <==> exists i :: OccursAt(needle, haystack, i)
    decreases |haystack|
  {
    if |haystack| == 0 {
      if IsSubstring(needle, haystack) {
        assert OccursAt(needle, haystack, 0);
      }
      forall i | OccursAt(needle, haystack, i) ensures IsSubstring(needle, haystack) {
        assert haystack[..|needle|] == haystack[i..i + |needle|];
      }
    } else {
      var rest := haystack[1..];
      IsSubstringIffOccurs(needle, rest);
      if IsSubstring(needle, haystack) {
        if IsPrefix(needle, haystack) {
          assert OccursAt(needle, haystack, 0);
        } else {
          var i :| OccursAt(needle, rest, i);
          assert haystack[i + 1..i + 1 + |needle|] == rest[i..i + |needle|];
          assert OccursAt(needle, haystack, i + 1);
        }
      }
      forall i | OccursAt(needle, haystack, i) ensures IsSubstring(needle, haystack) {
        if i == 0 {
          assert haystack[..|needle|] == haystack[i..i + |needle|];
        } else {
          assert rest[i - 1..i - 1 + |needle|] == haystack[i..i + |needle|];
          assert OccursAt(needle, rest, i - 1);
        }
      }
    }
  }

  /** The empty string is `in` every string. */
  lemma EmptyIsSubstring(s: string)
    ensures IsSubstring("", s)
  {
    assert IsPrefix("", s);
  }

  /** `str.strip()` with no argument. */
  function Strip(s: string): (r: string)
    ensures |r| > 0 ==> IsNonSpace(r[0]) && IsNonSpace(r[|r| - 1])
    ensures r == "" <==> forall k :: 0 <= k < |s| ==> IsSpace(s[k])
    ensures IsSubstring(r, s)
    ensures exists a: nat, b: nat ::
              a <= b <= |s| && r == s[a..b]
              && (forall k :: 0 <= k < a ==> IsSpace(s[k])) && (forall k :: b <= k < |s| ==> IsSpace(s[k]))
  {
    var a := RunEnd(s, 0, IsSpace);
    var r := TrimEnd(s[a..]);
    var b := a + |r|;
    assert r == s[a..b];
    assert forall k :: b <= k < |s| ==> IsSpace(s[k]) by {
      forall k | b <= k < |s| ensures IsSpace(s[k]) {
        assert s[k] == s[a..][k - a];
      }
    }
    SliceIsSubstring(s, a, b);
    r
  }

  function TrimEnd(s: string): (r: string)
    ensures |r| <= |s| && r == s[..|r|]
    ensures forall k :: |r| <= k < |s| ==> IsSpace(s[k])
    ensures |r| > 0 ==> IsNonSpace(r[|r| - 1])
    decreases |s|
  {
    if |s| > 0 && IsSpace(s[|s| - 1]) then TrimEnd(s[..|s| - 1]) else s
  }

  /** A half-open span `[start, end)` of a text. */
  type Span = (nat, nat)

  predicate SpansWithin(text: string, spans: seq<Span>) {
    forall i :: 0 <= i < |spans| ==> spans[i].0 < spans[i].1 <= |text|
  }

  /** Matches come in increasing position order and never overlap. */
  predicate InOrder(spans: seq<Span>) {
    forall i :: 0 <= i < |spans| - 1 ==> spans[i].1 <= spans[i + 1].0
  }

  /** The text under each span. */
  function SpanTexts(text: string, spans: seq<Span>): (r: seq<string>)
    requires SpansWithin(text, spans)
    ensures |r| == |spans|
    ensures forall i :: 0 <= i < |spans| ==> r[i] == text[spans[i].0..spans[i].1]
  {
    seq(|spans|, i requires 0 <= i < |spans| => text[spans[i].0..spans[i].1])
  }

  /** `s[a..b]` is a whole word of `s`: non-whitespace, with whitespace or an end of `s` on each side. */
  predicate WordAt(s: string, a: nat, b: nat) {
    a < b <= |s| && (a == 0 || IsSpace(s[a - 1])) && (b == |s| || IsSpace(s[b]))
    && forall k :: a <= k < b ==> IsNonSpace(s[k])
  }

  /** Where the words of `s[p..]` lie in `s`, left to right. */
  function WordSpans(s: string, p: nat): (spans: seq<Span>)
    requires p <= |s|
    ensures SpansWithin(s, spans)
    decreases |s| - p
  {
    var i := RunEnd(s, p, IsSpace);
    if i == |s| then []
    else
      var j := RunEnd(s, i, IsNonSpace);
      [(i, j)] + WordSpans(s, j)
  }

  /** `str.split()` with no argument: the text of each word, left to right. */
  function Words(s: string): (ws: seq<string>)
    ensures forall i :: 0 <= i < |ws| ==> |ws[i]| > 0 && forall k :: 0 <= k < |ws[i]| ==> IsNonSpace(ws[i][k])
    ensures (forall k :: 0 <= k < |s| ==> IsSpace(s[k])) <==> ws == []
  {
    var spans := WordSpans(s, 0);
    WordSpansAreWholeWords(s, 0);
    WordSpansCover(s, 0);
    var ws := SpanTexts(s, spans);
    assert forall i :: 0 <= i < |ws| ==> forall k :: 0 <= k < |ws[i]| ==> ws[i][k] == s[spans[i].0 + k];
    assert ws == [] ==> forall k :: 0 <= k < |s| ==> IsSpace(s[k]);
    assert ws != [] ==> IsNonSpace(s[spans[0].0]);
    ws
  }

  /** Every span is a whole word lying at or after `p`. */
  predicate AllWholeWords(s: string, spans: seq<Span>, p: nat) {
    forall i :: 0 <= i < |spans| ==> p <= spans[i].0 && WordAt(s, spans[i].0, spans[i].1)
  }

  /** Spans come left to right, separated. */
  predicate LeftToRight(spans: seq<Span>) {
    forall i :: 0 <= i < |spans| - 1 ==> spans[i].1 < spans[i + 1].0
  }

  /** Every non-whitespace character from `p` on lies in some span. */
  predicate CoversNonSpace(s: string, spans: seq<Span>, p: nat) {
    forall k :: p <= k < |s| && IsNonSpace(s[k]) ==> exists i :: 0 <= i < |spans| && spans[i].0 <= k < spans[i].1
  }

  /** Each span is a whole word lying at or after `p`. */
  lemma {:induction false} WordSpansAreWholeWords(s: string, p: nat)
    requires p <= |s| && (p == 0 || p == |s| || IsSpace(s[p - 1]) || IsSpace(s[p]))
    ensures AllWholeWords(s, WordSpans(s, p), p)
    decreases |s| - p
  {
    var i := RunEnd(s, p, IsSpace);
    if i < |s| {
      var j := RunEnd(s, i, IsNonSpace);
      var rest := WordSpans(s, j);
      assert IsNonSpace(s[i]);
      assert j == RunEnd(s, i + 1, IsNonSpace);
      assert i == 0 || IsSpace(s[i - 1]) by {
        if i > p { assert IsSpace(s[i - 1]); }
      }
      WordSpansAreWholeWords(s, j);
      assert WordAt(s, i, j);
      var spans := [(i, j)] + rest;
      assert forall m :: 0 <= m < |rest| ==> spans[m + 1] == rest[m];
      assert AllWholeWords(s, spans, p);
    }
  }

  /** The spans come left to right, each starting past the one before. */
  lemma {:induction false} WordSpansLeftToRight(s: string, p: nat)
    requires p <= |s|
    ensures LeftToRight(WordSpans(s, p))
    ensures forall m :: 0 <= m < |WordSpans(s, p)| ==> p <= WordSpans(s, p)[m].0
    decreases |s| - p
  {
    var i := RunEnd(s, p, IsSpace);
    if i < |s| {
      var j := RunEnd(s, i, IsNonSpace);
      var rest := WordSpans(s, j);
      WordSpansLeftToRight(s, j);
      if 0 < |rest| {
        assert j < rest[0].0 by {
          assert !IsSpace(s[j - 1]);
          if j < |s| { assert IsSpace(s[j]); }
        }
      }
      var spans := [(i, j)] + rest;
      assert forall m :: 0 <= m < |rest| ==> spans[m + 1] == rest[m];
      assert LeftToRight(spans);
    }
  }

  /** A non-whitespace character at `k`, from `p` on, lies in a span. */
  lemma {:induction false} WordSpansCoverAt(s: string, p: nat, k: nat)
    requires p <= k < |s| && IsNonSpace(s[k])
    ensures exists m :: 0 <= m < |WordSpans(s, p)| && WordSpans(s, p)[m].0 <= k < WordSpans(s, p)[m].1
    decreases |s| - p
  {
    var i := RunEnd(s, p, IsSpace);
    assert i <= k;
    var j := RunEnd(s, i, IsNonSpace);
    var rest := WordSpans(s, j);
    var spans := [(i, j)] + rest;
    assert WordSpans(s, p) == spans;
    if k < j {
      assert spans[0].0 <= k < spans[0].1;
    } else {
      WordSpansCoverAt(s, j, k);
      var m :| 0 <= m < |rest| && rest[m].0 <= k < rest[m].1;
      assert spans[m + 1] == rest[m];
    }
  }

  /** Every non-whitespace character from `p` on lies in a span. */
  lemma WordSpansCover(s: string, p: nat)
    requires p <= |s|
    ensures CoversNonSpace(s, WordSpans(s, p), p)
  {
    forall k | p <= k < |s| && IsNonSpace(s[k])
      ensures exists m :: 0 <= m < |WordSpans(s, p)| && WordSpans(s, p)[m].0 <= k < WordSpans(s, p)[m].1
    {
      WordSpansCoverAt(s, p, k);
    }
  }

  /** The words of a whole string, stated on `Words` itself. */
  lemma WordsAreWholeWords(s: string)
    ensures Words(s) == SpanTexts(s, WordSpans(s, 0))
    ensures AllWholeWords(s, WordSpans(s, 0), 0) && LeftToRight(WordSpans(s, 0)) && CoversNonSpace(s, WordSpans(s, 0), 0)
  {
    WordSpansAreWholeWords(s, 0);
    WordSpansLeftToRight(s, 0);
    WordSpansCover(s, 0);
  }

  /** `s.splitlines()[0]`, defined when `s` is non-empty (the empty string has no lines). */
  function FirstLine(s: string): (line: string)
    requires |s| > 0
    ensures IsPrefix(line, s)
    ensures forall k :: 0 <= k < |line| ==> IsNotLineBoundary(line[k])
    ensures |line| < |s| ==> IsLineBoundary(s[|line|])
  {
    s[..RunEnd(s, 0, IsNotLineBoundary)]
  }

  /** Python's `s.endswith(suffix)`. */
  predicate EndsWith(s: string, suffix: string) {
    |suffix| <= |s| && s[|s| - |suffix|..] == suffix
  }

  /** `s.endswith(suffix)` holds exactly when `s` is some stem followed by `suffix`. */
  lemma EndsWithIffStem(s: string, suffix: string)
    ensures EndsWith(s, suffix) <==> exists stem :: s == stem + suffix
  {
    if EndsWith(s, suffix) {
      assert s == s[..|s| - |suffix|] + suffix;
    }
    forall stem | s == stem + suffix ensures EndsWith(s, suffix) {
      assert s[|stem|..] == suffix;
    }
  }

  /** The index of the last `c` in `s`, as `str.rfind` finds it. */
  function LastIndexOf(s: string, c: char): (r: Option<nat>)
    ensures r.Some? ==> r.value < |s| && s[r.value] == c && forall k :: r.value < k < |s| ==> s[k] != c
    ensures r.None? ==> forall k :: 0 <= k < |s| ==> s[k] != c
    decreases |s|
  {
    if |s| == 0 then None
    else if s[|s| - 1] == c then Some(|s| - 1)
    else LastIndexOf(s[..|s| - 1], c)
  }

  /**
   * `os.path.splitext(name)[0]` for a directory-listing entry (no path separator):
   * cut at the last dot unless only dots precede it.
   */
  function BaseName(name: string): (b: string)
    ensures IsPrefix(b, name)
    ensures b != name ==> name[|b|] == '.' && forall k :: |b| < k < |name| ==> name[k] != '.'
    ensures b != name ==> exists k :: 0 <= k < |b| && b[k] != '.'
  {
    match LastIndexOf(name, '.')
    case None => name
    case Some(d) =>
      if forall k :: 0 <= k < d ==> name[k] == '.' then name else name[..d]
  }

  /** Splitting off a final extension gives the stem back, whatever the extension. */
  lemma BaseNameOfStemAndExtension(stem: string, ext: string)
    requires |ext| > 0 && ext[0] == '.' && forall k :: 1 <= k < |ext| ==> ext[k] != '.'
    requires exists k :: 0 <= k < |stem| && stem[k] != '.'
    ensures BaseName(stem + ext) == stem
  {
    var name := stem + ext;
    assert name[|stem|] == '.';
    match LastIndexOf(name, '.')
    case None =>
    case Some(d) =>
      assert d == |stem|;
      var k :| 0 <= k < |stem| && stem[k] != '.';
      assert name[k] != '.';
      assert name[..d] == stem;
  }

  /** `s.split(sep)` with an explicit one-character separator. */
  function SplitOn(s: string, sep: char): (pieces: seq<string>)
    ensures |pieces| >= 1
    ensures forall i :: 0 <= i < |pieces| ==> forall k :: 0 <= k < |pieces[i]| ==> pieces[i][k] != sep
    decreases |s|
  {
    var i := RunEnd(s, 0, c => c != sep);
    if i == |s| then [s] else [s[..i]] + SplitOn(s[i + 1..], sep)
  }

  /** `sep.join(pieces)`. */
  function Join(pieces: seq<string>, sep: char): string
    decreases |pieces|
  {
    if |pieces| == 0 then ""
    else if |pieces| == 1 then pieces[0]
    else pieces[0] + [sep] + Join(pieces[1..], sep)
  }

  /** Joining the pieces with the separator gives the string back. */
  lemma {:induction false} SplitOnJoin(s: string, sep: char)
    ensures Join(SplitOn(s, sep), sep) == s
    decreases |s|
  {
    var i := RunEnd(s, 0, c => c != sep);
    if i < |s| {
      SplitOnJoin(s[i + 1..], sep);
      var rest := SplitOn(s[i + 1..], sep);
      assert SplitOn(s, sep) == [s[..i]] + rest;
      assert ([s[..i]] + rest)[1..] == rest;
      assert s == s[..i] + [sep] + s[i + 1..];
    }
  }

  /** A separator at the very end leaves an empty last piece. */
  lemma {:induction false} SplitOnTrailingSeparator(s: string, sep: char)
    requires |s| > 0 && s[|s| - 1] == sep
    ensures SplitOn(s, sep)[|SplitOn(s, sep)| - 1] == ""
    decreases |s|
  {
    var i := RunEnd(s, 0, c => c != sep);
    assert i < |s|;
    var rest := s[i + 1..];
    if |rest| > 0 {
      assert rest[|rest| - 1] == sep;
      SplitOnTrailingSeparator(rest, sep);
    }
  }
}
