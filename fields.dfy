/**
 * Field Extractor, contact part: `extract_email` and `extract_phone`.
 * Each `re.findall` is a left-to-right scanner that, at every position, makes the
 * choice Python's backtracking matcher makes there; a match resumes the scan at its end.
 */
module Fields {
  import opened Text
  import opened Wrappers

  const EmailSentinel: string := "Email not found"
  const PhoneSentinel: string := "Phone number not found"


  // ---------------------------------------------------------------------------
  // Email: [a-zA-Z0-9._%+-]+@[a-zA-Z0-9.-]+\.[a-zA-Z]{2,}

  predicate IsLocalChar(c: char) {
    IsAsciiLetter(c) || IsDigit(c) || c == '.' || c == '_' || c == '%' || c == '+' || c == '-'
  }

  predicate IsDomainChar(c: char) {
    IsAsciiLetter(c) || IsDigit(c) || c == '.' || c == '-'
  }

  /** `e` read as local part `e[..at]`, `@`, domain `e[at+1..dot]`, `.`, top-level domain `e[dot+1..]`. */
  predicate EmailSplit(e: string, at: nat, dot: nat) {
    && 0 < at && at + 1 < dot && dot + 2 < |e|
    && (forall i :: 0 <= i < at ==> IsLocalChar(e[i]))
    && e[at] == '@'
    && (forall i :: at < i < dot ==> IsDomainChar(e[i]))
    && e[dot] == '.'
    && (forall i :: dot < i < |e| ==> IsAsciiLetter(e[i]))
  }

  /** `e` as a whole has the shape of the email pattern. */
  ghost predicate IsEmail(e: string) {
    exists at: nat, dot: nat :: EmailSplit(e, at, dot)
  }

  ghost predicate HasEmail(text: string) {
    exists i: nat, j: nat :: i <= j <= |text| && IsEmail(text[i..j])
  }

  /** A dot that can end the domain: followed by at least two letters. */
  predicate TldDot(text: string, k: nat)
    requires k < |text|
  {
    text[k] == '.' && RunEnd(text, k + 1, IsAsciiLetter) >= k + 3
  }

  /** The last usable dot in `[lo, hi)`: the one the greedy domain part backtracks to first. */
  function LastTldDot(text: string, lo: nat, hi: nat): (r: Option<nat>)
    requires hi <= |text|
    ensures r.Some? ==> lo <= r.value < hi && TldDot(text, r.value)
    ensures r.Some? ==> forall k :: r.value < k < hi ==> !TldDot(text, k)
    ensures r.None? ==> forall k :: lo <= k < hi ==> !TldDot(text, k)
    decreases hi
  {
    if hi <= lo then None
    else if TldDot(text, hi - 1) then Some(hi - 1)
    else LastTldDot(text, lo, hi - 1)
  }

  /** The end of the email match starting exactly at `p`, if the pattern matches there. */
  function EmailMatchAt(text: string, p: nat): (m: Option<nat>)
    requires p <= |text|
    ensures m.Some? ==> p < m.value <= |text| && IsEmail(text[p..m.value])
  {
    if p == |text| || !IsLocalChar(text[p]) then None
    else
      var at := RunEnd(text, p, IsLocalChar);
      if at == |text| || text[at] != '@' then None
      else
        var domainEnd := RunEnd(text, at + 1, IsDomainChar);
        match LastTldDot(text, at + 2, domainEnd)
        case None => None
        case Some(dot) =>
          var m := RunEnd(text, dot + 1, IsAsciiLetter);
          assert EmailSplit(text[p..m], at - p, dot - p);
          Some(m)
  }

  /** The local part of an email-shaped stretch is exactly the run of local characters at its start. */
  lemma EmailLocalRun(text: string, i: nat, j: nat, at: nat, dot: nat)
    requires i <= j <= |text| && EmailSplit(text[i..j], at, dot)
    ensures IsLocalChar(text[i])
    ensures RunEnd(text, i, IsLocalChar) == i + at && text[i + at] == '@'
  {
    var e := text[i..j];
    assert forall k :: i <= k < j ==> text[k] == e[k - i];
    RunEndCovers(text, i, i + at, IsLocalChar);
  }

  /** The top-level-domain dot of an email-shaped stretch lies inside the domain run. */
  lemma EmailDomainDot(text: string, i: nat, j: nat, at: nat, dot: nat)
    requires i <= j <= |text| && EmailSplit(text[i..j], at, dot)
    ensures i + dot < RunEnd(text, i + at + 1, IsDomainChar)
    ensures TldDot(text, i + dot)
  {
    var e := text[i..j];
    assert forall k :: i <= k < j ==> text[k] == e[k - i];
    RunEndCovers(text, i + at + 1, i + dot + 1, IsDomainChar);
    RunEndCovers(text, i + dot + 1, i + dot + 3, IsAsciiLetter);
  }

  /** Wherever an email-shaped stretch starts, the matcher matches. */
  lemma EmailShapeMatches(text: string, i: nat, j: nat)
    requires i <= j <= |text| && IsEmail(text[i..j])
    ensures EmailMatchAt(text, i).Some?
  {
    var at: nat, dot: nat :| EmailSplit(text[i..j], at, dot);
    EmailLocalRun(text, i, j, at, dot);
    EmailDomainDot(text, i, j, at, dot);
    var domainEnd := RunEnd(text, i + at + 1, IsDomainChar);
    assert LastTldDot(text, i + at + 2, domainEnd).Some? by {
      assert i + at + 2 <= i + dot < domainEnd;
    }
  }

  /** `re.findall` of the email pattern from position `p`, as spans. */
  function ScanEmails(text: string, p: nat): (spans: seq<Span>)
    requires p <= |text|
    ensures SpansWithin(text, spans) && InOrder(spans)
    ensures forall i :: 0 <= i < |spans| ==> p <= spans[i].0 && IsEmail(text[spans[i].0..spans[i].1])
    decreases |text| - p
  {
    if p == |text| then []
    else
      match EmailMatchAt(text, p)
      case Some(m) => [(p, m)] + ScanEmails(text, m)
      case None => ScanEmails(text, p + 1)
  }

  /** The scan misses nothing: it finds no match only when no email-shaped stretch exists. */
  lemma {:induction false} ScanEmailsComplete(text: string, p: nat)
    requires p <= |text|
    ensures ScanEmails(text, p) == [] ==> forall i: nat, j: nat :: p <= i <= j <= |text| ==> !IsEmail(text[i..j])
    decreases |text| - p
  {
    if p < |text| && EmailMatchAt(text, p).None? {
      ScanEmailsComplete(text, p + 1);
      forall j: nat | p <= j <= |text| ensures !IsEmail(text[p..j]) {
        if IsEmail(text[p..j]) { EmailShapeMatches(text, p, j); }
      }
    }
  }

  lemma EmailSentinelIsNotEmail()
    ensures !IsEmail(EmailSentinel)
  {
    forall at: nat, dot: nat ensures !EmailSplit(EmailSentinel, at, dot) {
      assert forall k :: 0 <= k < |EmailSentinel| ==> EmailSentinel[k] != '@';
    }
  }

  /** `extract_email`: every match in order, or the sentinel alone when there is none. */
  function ExtractEmail(text: string): (r: seq<string>)
    ensures |r| >= 1
    ensures r == [EmailSentinel] <==> !HasEmail(text)
    ensures HasEmail(text) ==> forall i :: 0 <= i < |r| ==> IsEmail(r[i]) && IsSubstring(r[i], text)
    ensures r != [EmailSentinel] ==> r == SpanTexts(text, ScanEmails(text, 0))
  {
    var spans := ScanEmails(text, 0);
    ScanEmailsComplete(text, 0);
    EmailSentinelIsNotEmail();
    if spans == [] then [EmailSentinel]
    else
      var r := SpanTexts(text, spans);
      assert HasEmail(text) by { assert IsEmail(text[spans[0].0..spans[0].1]); }
      assert forall i :: 0 <= i < |r| ==> IsSubstring(r[i], text) by {
        forall i | 0 <= i < |r| ensures IsSubstring(r[i], text) {
          SliceIsSubstring(text, spans[i].0, spans[i].1);
        }
      }
      r
  }

  // ---------------------------------------------------------------------------
  // Phone: \b\d{10,13}\b

  /** `text[i..j]` is 10 to 13 digits with no word character directly before or after. */
  predicate PhoneAt(text: string, i: nat, j: nat) {
    && i + 10 <= j <= i + 13 && j <= |text|
    && (forall k :: i <= k < j ==> IsDigit(text[k]))
    && (i == 0 || !IsWordChar(text[i - 1]))
    && (j == |text| || !IsWordChar(text[j]))
  }

  ghost predicate HasPhone(text: string) {
    exists i: nat, j: nat :: PhoneAt(text, i, j)
  }

  /** The end of the phone match starting exactly at `p`, if the pattern matches there. */
  function PhoneMatchAt(text: string, p: nat): (m: Option<nat>)
    requires p <= |text|
    ensures m.Some? ==> PhoneAt(text, p, m.value)
    ensures m.None? ==> forall j: nat :: !PhoneAt(text, p, j)
  {
    if p == |text| || !IsDigit(text[p]) || (p > 0 && IsWordChar(text[p - 1])) then None
    else
      var e := RunEnd(text, p, IsDigit);
      if p + 10 <= e <= p + 13 && (e == |text| || !IsWordChar(text[e])) then Some(e)
      else
        assert forall j: nat :: !PhoneAt(text, p, j) by {
          forall j: nat | PhoneAt(text, p, j) ensures false {
            RunEndCovers(text, p, j, IsDigit);
          }
        }
        None
  }

  /** `re.findall` of the phone pattern from position `p`, as spans. */
  function ScanPhones(text: string, p: nat): (spans: seq<Span>)
    requires p <= |text|
    ensures SpansWithin(text, spans) && InOrder(spans)
    ensures forall i :: 0 <= i < |spans| ==> p <= spans[i].0 && PhoneAt(text, spans[i].0, spans[i].1)
    decreases |text| - p
  {
    if p == |text| then []
    else
      match PhoneMatchAt(text, p)
      case Some(m) => [(p, m)] + ScanPhones(text, m)
      case None => ScanPhones(text, p + 1)
  }

  lemma {:induction false} ScanPhonesComplete(text: string, p: nat)
    requires p <= |text|
    ensures ScanPhones(text, p) == [] ==> forall i: nat, j: nat :: p <= i ==> !PhoneAt(text, i, j)
    decreases |text| - p
  {
    if p < |text| && PhoneMatchAt(text, p).None? {
      ScanPhonesComplete(text, p + 1);
    }
  }

  /** A run of 14 or more digits holds no phone match anywhere inside it. */
  lemma LongDigitRunHasNoPhone(text: string, lo: nat, hi: nat, i: nat, j: nat)
    requires lo + 14 <= hi <= |text|
    requires forall k :: lo <= k < hi ==> IsDigit(text[k])
    requires lo <= i && j <= hi
    ensures !PhoneAt(text, i, j)
  {
  }

  /** `extract_phone`: every match in order, or the sentinel alone when there is none. */
  function ExtractPhone(text: string): (r: seq<string>)
    ensures |r| >= 1
    ensures r == [PhoneSentinel] <==> !HasPhone(text)
    ensures forall i :: 0 <= i < |r| && r != [PhoneSentinel] ==>
      10 <= |r[i]| <= 13 && (forall k :: 0 <= k < |r[i]| ==> IsDigit(r[i][k])) && IsSubstring(r[i], text)
    ensures r != [PhoneSentinel] ==> r == SpanTexts(text, ScanPhones(text, 0))
  {
    var spans := ScanPhones(text, 0);
    ScanPhonesComplete(text, 0);
    if spans == [] then [PhoneSentinel]
    else
      var r := SpanTexts(text, spans);
      assert r[0] != PhoneSentinel by { assert IsDigit(r[0][0]); }
      assert forall i :: 0 <= i < |r| ==> IsSubstring(r[i], text) by {
        forall i | 0 <= i < |r| ensures IsSubstring(r[i], text) {
          SliceIsSubstring(text, spans[i].0, spans[i].1);
        }
      }
      r
  }
}
