/**
 * Field Extractor, name part: `extract_name`. Three sources in a fixed order: a
 * `Name[:\-]?\s*(.+)` label searched case-insensitively, then the first line, then the
 * first acceptable PERSON entity; the sentinel when none applies.
 */
module Names {
  import opened Text
  import opened Wrappers

  const NameSentinel: string := "Name not found"

  /** A named entity as the recogniser reports it: its text and its label (`label_`). */
  datatype Entity = Entity(text: string, kind: string)

  /** `splitlines()[0]` on empty text: Python raises IndexError. */
  datatype NameError = IndexError

  // ---------------------------------------------------------------------------
  // The label pattern, declaratively.

  /** `Name` at `p`, in any letter case. */
  predicate NameAt(text: string, p: nat) {
    p + 4 <= |text|
    && LowerChar(text[p]) == 'n' && LowerChar(text[p + 1]) == 'a'
    && LowerChar(text[p + 2]) == 'm' && LowerChar(text[p + 3]) == 'e'
  }

  predicate IsSeparator(c: char) { c == ':' || c == '-' }

  /** `\s*(.+)` from `s` with the group starting at `j`: whitespace up to `j`, then a non-newline. */
  predicate GroupOK(text: string, s: nat, j: nat) {
    s <= j < |text| && text[j] != '\n' && forall k :: s <= k < j ==> IsSpace(text[k])
  }

  /** A match of the whole pattern at `p` that takes the optional separator. */
  predicate LabelWithSep(text: string, p: nat, j: nat) {
    NameAt(text, p) && p + 4 < |text| && IsSeparator(text[p + 4]) && GroupOK(text, p + 5, j)
  }

  /** A match of the whole pattern at `p` that skips the optional separator. */
  predicate LabelNoSep(text: string, p: nat, j: nat) {
    NameAt(text, p) && GroupOK(text, p + 4, j)
  }

  predicate LabelAt(text: string, p: nat, j: nat) {
    LabelWithSep(text, p, j) || LabelNoSep(text, p, j)
  }

  ghost predicate HasLabel(text: string) {
    exists p: nat, j: nat :: LabelAt(text, p, j)
  }

  /**
   * Among the matches at `p`, the one the backtracking matcher reports: a greedy `?`
   * tries the separator first, and a greedy `\s*` tries the longest run first.
   */
  ghost predicate Preferred(text: string, p: nat, j: nat) {
    && ((exists j': nat :: LabelWithSep(text, p, j')) ==>
          LabelWithSep(text, p, j) && forall j': nat :: LabelWithSep(text, p, j') ==> j' <= j)
    && ((forall j': nat :: !LabelWithSep(text, p, j')) ==>
          forall j': nat :: LabelNoSep(text, p, j') ==> j' <= j)
  }

  /** The match `re.search` reports: leftmost, then preferred. */
  ghost predicate LabelMatch(text: string, p: nat, j: nat) {
    LabelAt(text, p, j) && Preferred(text, p, j)
    && forall p': nat, j': nat :: LabelAt(text, p', j') ==> p <= p'
  }

  /** Stripping a line leaves no newline in it. */
  lemma StripOfLineIsOneLine(line: string)
    requires forall k :: 0 <= k < |line| ==> line[k] != '\n'
    ensures forall k :: 0 <= k < |Strip(line)| ==> Strip(line)[k] != '\n'
  {
    var v := Strip(line);
    var a: nat, b: nat :| a <= b <= |line| && v == line[a..b];
    forall k | 0 <= k < |v| ensures v[k] != '\n' {
      assert v[k] == line[a + k];
    }
  }

  /** `group(1).strip()`: the rest of the line from `j` (`.` stops at a newline), stripped. */
  function LabelValue(text: string, j: nat): (v: string)
    requires j <= |text|
    ensures forall k :: 0 <= k < |v| ==> v[k] != '\n'
    ensures IsSubstring(v, text)
    ensures exists e ::
              j <= e <= |text| && (e == |text| || text[e] == '\n')
              && (forall k :: j <= k < e ==> text[k] != '\n') && v == Strip(text[j..e])
  {
    var e := RunEnd(text, j, IsNotNewline);
    var v := Strip(text[j..e]);
    StripOfLineIsOneLine(text[j..e]);
    SubstringOfSlice(v, text, j, e);
    v
  }

  lemma {:induction false} SubstringTransitive(a: string, b: string, c: string)
    requires IsSubstring(a, b) && IsSubstring(b, c)
    ensures IsSubstring(a, c)
    decreases |c|
  {
    if !IsPrefix(b, c) {
      SubstringTransitive(a, b, c[1..]);
    } else if IsPrefix(a, b) {
      assert c[..|a|] == b[..|a|];
      assert IsPrefix(a, c);
    } else {
      assert IsSubstring(a, b[1..]);
      assert IsSubstring(b[1..], c[1..]) by {
        assert IsPrefix(b[1..], c[1..]) by { assert c[1..][..|b| - 1] == c[..|b|][1..]; }
      }
      SubstringTransitive(a, b[1..], c[1..]);
    }
  }

  lemma SubstringOfSlice(v: string, text: string, i: nat, j: nat)
    requires i <= j <= |text| && IsSubstring(v, text[i..j])
    ensures IsSubstring(v, text)
  {
    SliceIsSubstring(text, i, j);
    SubstringTransitive(v, text[i..j], text);
  }

  // ---------------------------------------------------------------------------
  // The label pattern, as the matcher runs it.

  /** The largest `j` in `[lo, hi)` with a character other than a newline. */
  function LastNonNewline(text: string, lo: nat, hi: nat): (r: Option<nat>)
    requires hi <= |text|
    ensures r.Some? ==> lo <= r.value < hi && text[r.value] != '\n'
    ensures r.Some? ==> forall k :: r.value < k < hi ==> text[k] == '\n'
    ensures r.None? ==> forall k :: lo <= k < hi ==> text[k] == '\n'
    decreases hi
  {
    if hi <= lo then None
    else if text[hi - 1] != '\n' then Some(hi - 1)
    else LastNonNewline(text, lo, hi - 1)
  }

  /** `\s*(.+)` from `s`: the greedy whitespace run, given back one character at a time. */
  function GroupFrom(text: string, s: nat): (r: Option<nat>)
    requires s <= |text|
    ensures r.Some? ==> GroupOK(text, s, r.value) && forall j: nat :: GroupOK(text, s, j) ==> j <= r.value
    ensures r.None? ==> forall j: nat :: !GroupOK(text, s, j)
  {
    var w := RunEnd(text, s, IsSpace);
    var r := LastNonNewline(text, s, if w < |text| then w + 1 else |text|);
    assert forall j: nat :: GroupOK(text, s, j) ==> j <= w;
    r
  }

  /** The group start of the match at `p`, if the pattern matches there. */
  function GroupAt(text: string, p: nat): (r: Option<nat>)
    requires p <= |text|
    ensures r.Some? ==> LabelAt(text, p, r.value) && Preferred(text, p, r.value)
    ensures r.None? ==> forall j: nat :: !LabelAt(text, p, j)
  {
    if !NameAt(text, p) then None
    else
      var q := p + 4;
      if q < |text| && IsSeparator(text[q]) then
        match GroupFrom(text, q + 1)
        case Some(j) => Some(j)
        case None =>
          // `.+` takes the separator itself once `[:\-]?` gives it back
          assert forall j: nat :: LabelNoSep(text, p, j) ==> j <= q;
          assert GroupOK(text, q, q);
          Some(q)
      else
        GroupFrom(text, q)
  }

  /** `re.search`: the first position from `p` on where the pattern matches. */
  function SearchLabel(text: string, p: nat): (r: Option<(nat, nat)>)
    requires p <= |text|
    ensures r.Some? ==> p <= r.value.0 && LabelAt(text, r.value.0, r.value.1) && Preferred(text, r.value.0, r.value.1)
    ensures r.Some? ==> forall p': nat, j': nat :: p <= p' < r.value.0 ==> !LabelAt(text, p', j')
    ensures r.None? ==> forall p': nat, j': nat :: p <= p' ==> !LabelAt(text, p', j')
    decreases |text| - p
  {
    if p == |text| then None
    else
      match GroupAt(text, p)
      case Some(j) => Some((p, j))
      case None => SearchLabel(text, p + 1)
  }

  /** The search reports exactly the leftmost preferred match, and no other exists. */
  lemma {:induction false} SearchLabelIsMatch(text: string)
    ensures SearchLabel(text, 0).None? <==> !HasLabel(text)
    ensures SearchLabel(text, 0).Some? ==> LabelMatch(text, SearchLabel(text, 0).value.0, SearchLabel(text, 0).value.1)
    ensures forall p: nat, j: nat :: LabelMatch(text, p, j) ==> SearchLabel(text, 0) == Some((p, j))
  {
    var r := SearchLabel(text, 0);
    if r.Some? {
      var (p0, j0) := r.value;
      forall p: nat, j: nat | LabelMatch(text, p, j) ensures (p, j) == (p0, j0) {
        assert p == p0;
        if exists j': nat :: LabelWithSep(text, p, j') {
          assert j <= j0 && j0 <= j;
        } else {
          assert LabelNoSep(text, p, j) && LabelNoSep(text, p, j0);
        }
      }
    }
  }

  // ---------------------------------------------------------------------------
  // The first-line and entity fallbacks.

  /** Every whitespace-separated word of the first line is alphabetic or a lone `.`. */
  predicate FirstLineAccepted(text: string)
    requires |text| > 0
  {
    var ws := Words(FirstLine(text));
    forall i :: 0 <= i < |ws| ==> IsAlpha(ws[i]) || ws[i] == "."
  }

  /** A PERSON entity of at least two words, each alphabetic. */
  predicate IsPersonName(e: Entity) {
    e.kind == "PERSON" && AlphaWords(Words(e.text))
  }

  /** At least two words, each alphabetic. */
  predicate AlphaWords(ws: seq<string>) {
    |ws| > 1 && forall i :: 0 <= i < |ws| ==> IsAlpha(ws[i])
  }

  /** The entity loop: the first acceptable PERSON entity's text, else the sentinel. */
  function PersonName(ents: seq<Entity>): string
  {
    if ents == [] then NameSentinel
    else if IsPersonName(ents[0]) then ents[0].text
    else PersonName(ents[1..])
  }

  /** The loop returns the first acceptable entity, and the sentinel only when there is none. */
  lemma {:induction false} PersonNameIsFirst(ents: seq<Entity>)
    ensures (forall i :: 0 <= i < |ents| ==> !IsPersonName(ents[i])) ==> PersonName(ents) == NameSentinel
    ensures (exists i :: 0 <= i < |ents| && IsPersonName(ents[i])) ==>
      exists i :: 0 <= i < |ents| && IsPersonName(ents[i]) && PersonName(ents) == ents[i].text
                  && forall k :: 0 <= k < i ==> !IsPersonName(ents[k])
  {
    if ents != [] && !IsPersonName(ents[0]) {
      var rest := ents[1..];
      PersonNameIsFirst(rest);
      assert forall i :: 0 <= i < |rest| ==> rest[i] == ents[i + 1];
      if exists i :: 0 <= i < |ents| && IsPersonName(ents[i]) {
        var i :| 0 <= i < |ents| && IsPersonName(ents[i]);
        assert IsPersonName(rest[i - 1]);
        var m :| 0 <= m < |rest| && IsPersonName(rest[m]) && PersonName(rest) == rest[m].text
                  && forall k :: 0 <= k < m ==> !IsPersonName(rest[k]);
        assert IsPersonName(ents[m + 1]) && PersonName(ents) == ents[m + 1].text;
        assert forall k :: 0 <= k < m + 1 ==> !IsPersonName(ents[k]) by {
          forall k | 0 <= k < m + 1 ensures !IsPersonName(ents[k]) {
            if k > 0 { assert ents[k] == rest[k - 1]; }
          }
        }
      }
    }
  }

  /** `extract_name`. */
  function ExtractName(text: string, ents: seq<Entity>): (r: Result<string, NameError>)
    ensures r.Failure? <==> text == ""
    ensures forall p: nat, j: nat :: LabelMatch(text, p, j) ==> r == Success(LabelValue(text, j))
    ensures text != "" && !HasLabel(text) && FirstLineAccepted(text) ==> r == Success(Strip(FirstLine(text)))
    ensures text != "" && !HasLabel(text) && !FirstLineAccepted(text) ==> r == Success(PersonName(ents))
  {
    SearchLabelIsMatch(text);
    match SearchLabel(text, 0)
    case Some((_, j)) => Success(LabelValue(text, j))
    case None =>
      if text == "" then Failure(IndexError)
      else if FirstLineAccepted(text) then Success(Strip(FirstLine(text)))
      else Success(PersonName(ents))
  }
}
