/**
 * PDF text extraction: `extract_text_from_pdfs`. The directory listing and what each
 * PDF's pages yield are inputs.
 */
module Corpus {
  import opened Wrappers
  import opened Text
  import opened Dicts

  /** What `page.extract_text()` returned for each page of one PDF, in page order. */
  type Pages = seq<Option<string>>

  predicate IsTxt(name: string) { EndsWith(name, ".txt") }

  predicate IsPdf(name: string) { EndsWith(name, ".pdf") }

  lemma TxtIsNotPdf(name: string)
    ensures !(IsTxt(name) && IsPdf(name))
  {
  }

  // ---------------------------------------------------------------------------
  // PDF text

  /** The text a page adds: `if extracted_text: text += extracted_text`. */
  function PageText(page: Option<string>): string {
    if page.Some? && page.value != "" then page.value else ""
  }

  /** A document's text: the pages' texts concatenated in page order, with no separator. */
  function JoinPages(pages: Pages): string
    decreases |pages|
  {
    if pages == [] then "" else JoinPages(pages[..|pages| - 1]) + PageText(pages[|pages| - 1])
  }

  lemma {:induction false} JoinPagesAppend(a: Pages, b: Pages)
    ensures JoinPages(a + b) == JoinPages(a) + JoinPages(b)
    decreases |b|
  {
    if b == [] {
      assert a + b == a;
    } else {
      var n := |b| - 1;
      assert (a + b)[..|a + b| - 1] == a + b[..n];
      assert (a + b)[|a + b| - 1] == b[n];
      JoinPagesAppend(a, b[..n]);
      var x, y, z := JoinPages(a), JoinPages(b[..n]), PageText(b[n]);
      assert JoinPages(a + b) == (x + y) + z;
      assert JoinPages(b) == y + z;
      assert (x + y) + z == x + (y + z);
    }
  }

  /** A document has no text exactly when no page yielded any. */
  lemma {:induction false} JoinPagesEmpty(pages: Pages)
    ensures JoinPages(pages) == "" <==> forall i :: 0 <= i < |pages| ==> PageText(pages[i]) == ""
  {
    if forall i :: 0 <= i < |pages| ==> PageText(pages[i]) == "" {
      NoPageTextJoinsEmpty(pages);
    } else {
      var i :| 0 <= i < |pages| && PageText(pages[i]) != "";
      PageTextReachesJoin(pages, i);
    }
  }

  lemma {:induction false} NoPageTextJoinsEmpty(pages: Pages)
    requires forall i :: 0 <= i < |pages| ==> PageText(pages[i]) == ""
    ensures JoinPages(pages) == ""
    decreases |pages|
  {
    if pages != [] {
      var n := |pages| - 1;
      var front := pages[..n];
      assert forall i :: 0 <= i < n ==> front[i] == pages[i];
      NoPageTextJoinsEmpty(front);
      assert PageText(pages[n]) == "";
      assert JoinPages(pages) == JoinPages(front) + PageText(pages[n]);
    }
  }

  lemma {:induction false} PageTextReachesJoin(pages: Pages, i: nat)
    requires i < |pages| && PageText(pages[i]) != ""
    ensures |JoinPages(pages)| > 0
    decreases |pages|
  {
    var n := |pages| - 1;
    if i < n {
      assert pages[..n][i] == pages[i];
      PageTextReachesJoin(pages[..n], i);
    }
  }

  /** The page loop of `extract_text_from_pdfs`. */
  method ConcatPageTexts(pages: Pages) returns (text: string)
    ensures text == JoinPages(pages)
  {
    text := "";
    for i := 0 to |pages|
      invariant text == JoinPages(pages[..i])
    {
      match pages[i]
      case Some(t) =>
        if t != "" {
          text := text + t;
        }
      case None =>
        // pdfplumber found no text on this page: a warning is printed and the page is skipped
      assert pages[..i + 1][..i] == pages[..i];
    }
    assert pages[..|pages|] == pages;
  }

  /** The names `extract_text_from_pdfs` keeps, in listing order: `.pdf` names that opened without raising. */
  function PdfKeys(listing: seq<string>, pdfs: map<string, Pages>): (ks: seq<string>)
    ensures forall k :: k in ks <==> k in listing && IsPdf(k) && k in pdfs
    ensures forall i, j :: 0 <= i < j < |ks| ==> ks[i] != ks[j]
    decreases |listing|
  {
    if listing == [] then []
    else
      var n := |listing| - 1;
      var prev := PdfKeys(listing[..n], pdfs);
      assert listing == listing[..n] + [listing[n]];
      if IsPdf(listing[n]) && listing[n] in pdfs && listing[n] !in prev then prev + [listing[n]] else prev
  }

  /** One more listing entry adds that entry when it is a readable PDF not kept already. */
  lemma PdfKeysStep(listing: seq<string>, i: nat, pdfs: map<string, Pages>)
    requires i < |listing|
    ensures PdfKeys(listing[..i + 1], pdfs) ==
      var prev := PdfKeys(listing[..i], pdfs);
      if IsPdf(listing[i]) && listing[i] in pdfs && listing[i] !in prev then prev + [listing[i]] else prev
  {
    assert listing[..i + 1][..i] == listing[..i];
  }

  /** `idx` gives, for each of `ks`, a position in `listing` holding it, the positions increasing. */
  predicate PickedFrom(ks: seq<string>, listing: seq<string>, idx: seq<nat>) {
    |idx| == |ks|
    && (forall i :: 0 <= i < |idx| ==> idx[i] < |listing| && listing[idx[i]] == ks[i])
    && (forall i, j :: 0 <= i < j < |idx| ==> idx[i] < idx[j])
  }

  /** A picking from a prefix of the listing is one from the listing, and may be extended by the next entry. */
  lemma PickedFromExtend(ks: seq<string>, listing: seq<string>, idx: seq<nat>, n: nat)
    requires n < |listing| && PickedFrom(ks, listing[..n], idx)
    ensures PickedFrom(ks, listing, idx)
    ensures PickedFrom(ks + [listing[n]], listing, idx + [n])
  {
    assert forall i :: 0 <= i < |idx| ==> idx[i] < n && listing[..n][idx[i]] == listing[idx[i]];
  }

  /** `extract_text_from_pdfs` keeps the names in the order the listing gives them. */
  lemma {:induction false} PdfKeysInListingOrder(listing: seq<string>, pdfs: map<string, Pages>)
    ensures exists idx :: PickedFrom(PdfKeys(listing, pdfs), listing, idx)
    decreases |listing|
  {
    if listing == [] {
      var idx: seq<nat> := [];
      assert PickedFrom(PdfKeys(listing, pdfs), listing, idx);
    } else {
      var n := |listing| - 1;
      PdfKeysInListingOrder(listing[..n], pdfs);
      var prev := PdfKeys(listing[..n], pdfs);
      var idx :| PickedFrom(prev, listing[..n], idx);
      PickedFromExtend(prev, listing, idx, n);
      if IsPdf(listing[n]) && listing[n] in pdfs && listing[n] !in prev {
        assert PdfKeys(listing, pdfs) == prev + [listing[n]];
        assert PickedFrom(PdfKeys(listing, pdfs), listing, idx + [n]);
      } else {
        assert PdfKeys(listing, pdfs) == prev;
        assert PickedFrom(PdfKeys(listing, pdfs), listing, idx);
      }
    }
  }

  /** Each of the names `ks` paired with the text of its PDF, in the order of `ks`. */
  function TextsOf(ks: seq<string>, pdfs: map<string, Pages>): (d: Dict<string>)
    requires forall k :: k in ks ==> k in pdfs
    ensures Keys(d) == ks
    decreases |ks|
  {
    if ks == [] then []
    else
      var n := |ks| - 1;
      assert forall k :: k in ks[..n] ==> k in ks;
      var front := TextsOf(ks[..n], pdfs);
      KeysAppend(front, ks[n], JoinPages(pdfs[ks[n]]));
      assert ks == ks[..n] + [ks[n]];
      front + [(ks[n], JoinPages(pdfs[ks[n]]))]
  }

  /** Entry `i` holds the text of the PDF named `ks[i]`. */
  lemma {:induction false} TextsOfIndex(ks: seq<string>, pdfs: map<string, Pages>)
    requires forall k :: k in ks ==> k in pdfs
    ensures forall i :: 0 <= i < |ks| ==> TextsOf(ks, pdfs)[i] == (ks[i], JoinPages(pdfs[ks[i]]))
    decreases |ks|
  {
    if ks != [] {
      var n := |ks| - 1;
      assert forall k :: k in ks[..n] ==> k in ks;
      TextsOfIndex(ks[..n], pdfs);
      assert forall i :: 0 <= i < n ==> ks[..n][i] == ks[i];
    }
  }

  /** The dictionary `extract_text_from_pdfs` builds: each kept PDF with its text. */
  function ExtractedTexts(listing: seq<string>, pdfs: map<string, Pages>): (d: Dict<string>)
    ensures Keys(d) == PdfKeys(listing, pdfs)
    ensures forall i :: 0 <= i < |d| ==> d[i].0 in pdfs && d[i].1 == JoinPages(pdfs[d[i].0])
  {
    var ks := PdfKeys(listing, pdfs);
    TextsOfIndex(ks, pdfs);
    TextsOf(ks, pdfs)
  }

  /** Storing a PDF's text under its name keeps every entry holding its own PDF's text. */
  lemma PutPdfText(d: Dict<string>, name: string, pdfs: map<string, Pages>)
    requires name in pdfs
    requires forall j :: 0 <= j < |d| ==> d[j].0 in pdfs && d[j].1 == JoinPages(pdfs[d[j].0])
    ensures var r := Put(d, name, JoinPages(pdfs[name]));
      forall j :: 0 <= j < |r| ==> r[j].0 in pdfs && r[j].1 == JoinPages(pdfs[r[j].0])
  {
    if name in Keys(d) {
      var i := IndexOfKey(d, name);
      assert Put(d, name, JoinPages(pdfs[name])) == d[i := (name, JoinPages(pdfs[name]))];
    }
  }

  /** `extract_text_from_pdfs`: a name-to-text dictionary over the listing's readable PDFs. */
  method ExtractTextFromPdfs(listing: seq<string>, pdfs: map<string, Pages>) returns (pdfText: Dict<string>)
    ensures pdfText == ExtractedTexts(listing, pdfs)
    ensures KeysDistinct(pdfText)
  {
    pdfText := [];
    for i := 0 to |listing|
      invariant Keys(pdfText) == PdfKeys(listing[..i], pdfs)
      invariant KeysDistinct(pdfText)
      invariant forall j :: 0 <= j < |pdfText| ==> pdfText[j].0 in pdfs && pdfText[j].1 == JoinPages(pdfs[pdfText[j].0])
    {
      var name := listing[i];
      PdfKeysStep(listing, i, pdfs);
      if EndsWith(name, ".pdf") {
        if name in pdfs {
          var text := ConcatPageTexts(pdfs[name]);
          PutProperties(pdfText, name, text);
          PutPdfText(pdfText, name, pdfs);
          if name !in Keys(pdfText) {
            KeysAppend(pdfText, name, text);
          }
          pdfText := Put(pdfText, name, text);
        }
        // otherwise opening or reading the PDF raised: the error is printed and the file skipped
      }
    }
    assert listing[..|listing|] == listing;
    SameKeysSameTexts(pdfText, ExtractedTexts(listing, pdfs), pdfs);
  }

  /** Two dictionaries holding each key's PDF text, with the same keys in the same order, are equal. */
  lemma SameKeysSameTexts(d: Dict<string>, e: Dict<string>, pdfs: map<string, Pages>)
    requires Keys(d) == Keys(e)
    requires forall j :: 0 <= j < |d| ==> d[j].0 in pdfs && d[j].1 == JoinPages(pdfs[d[j].0])
    requires forall j :: 0 <= j < |e| ==> e[j].0 in pdfs && e[j].1 == JoinPages(pdfs[e[j].0])
    ensures d == e
  {
    assert |d| == |e| by { assert |Keys(d)| == |Keys(e)|; }
    KeysIndex(d);
    KeysIndex(e);
    forall i | 0 <= i < |d| ensures d[i] == e[i] {
      assert Keys(d)[i] == Keys(e)[i];
    }
  }

  /** Every PDF `extract_text_from_pdfs` keeps has text exactly when no entry of its dictionary is empty. */
  lemma ExtractedTextsNonEmpty(listing: seq<string>, pdfs: map<string, Pages>)
    ensures (forall i :: 0 <= i < |ExtractedTexts(listing, pdfs)| ==> ExtractedTexts(listing, pdfs)[i].1 != "")
        <==> (forall k :: k in PdfKeys(listing, pdfs) ==> JoinPages(pdfs[k]) != "")
  {
    var d := ExtractedTexts(listing, pdfs);
    KeysIndex(d);
  }
}
