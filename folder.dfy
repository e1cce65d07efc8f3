/**
 * Folder processing: `process_folder`. The directory listing, the contents of the readable
 * `.txt` files, the pages of each PDF and the language pipeline are inputs.
 */
module Folder {
  import opened Wrappers
  import opened Text
  import opened Dicts
  import opened Names
  import opened Analysis
  import opened Corpus

  /** Why `process_folder` raised. */
  datatype FolderError =
    | Unreadable(file: string)      // opening or decoding a listed `.txt` file raised
    | NameIndexError(file: string)  // `analyze_cv` raised IndexError on this document's empty text

  /** `analyze_cv` as `process_folder` sees it: a document's text in, a record or IndexError out. */
  type Analyser = string -> Result<Record, NameError>

  /** `analyze_cv` with the configured skills and language pipeline. */
  function CvAnalyser(skills: set<string>, nlp: string -> Doc): (analyse: Analyser)
  {
    text => AnalyzeCv(text, skills, nlp(text))
  }

  /** The one fact about `analyze_cv` the folder pass relies on: it raises exactly on empty text. */
  ghost predicate FailsOnlyOnEmpty(analyse: Analyser) {
    forall text :: analyse(text).Failure? <==> text == ""
  }

  lemma CvAnalyserFailsOnlyOnEmpty(skills: set<string>, nlp: string -> Doc)
    ensures FailsOnlyOnEmpty(CvAnalyser(skills, nlp))
  {
    forall text ensures CvAnalyser(skills, nlp)(text).Failure? <==> text == "" {
      assert CvAnalyser(skills, nlp)(text) == AnalyzeCv(text, skills, nlp(text));
    }
  }

  /** No earlier listing entry has the same `splitext` base name as entry `i`. */
  predicate FirstOfBase(listing: seq<string>, i: nat)
    requires i < |listing|
  {
    forall j :: 0 <= j < i ==> BaseName(listing[j]) != BaseName(listing[i])
  }

  /** The base names claimed by a run of listing entries: the `processed` set of `process_folder`. */
  function Bases(names: seq<string>): set<string>
    decreases |names|
  {
    if names == [] then {} else Bases(names[..|names| - 1]) + {BaseName(names[|names| - 1])}
  }

  /** A base name is claimed exactly when some entry of the run has it. */
  lemma {:induction false} BasesMembers(names: seq<string>)
    ensures forall b :: b in Bases(names) <==> exists j :: 0 <= j < |names| && BaseName(names[j]) == b
    decreases |names|
  {
    if names != [] {
      var n := |names| - 1;
      BasesMembers(names[..n]);
      assert forall j :: 0 <= j < n ==> names[..n][j] == names[j];
    }
  }

  lemma BasesStep(listing: seq<string>, i: nat)
    requires i < |listing|
    ensures Bases(listing[..i + 1]) == Bases(listing[..i]) + {BaseName(listing[i])}
  {
    assert listing[..i + 1][..i] == listing[..i];
  }

  /** Entry `i` is the first of its base name exactly when no earlier entry claimed that base name. */
  lemma FirstOfBaseIffUnclaimed(listing: seq<string>, i: nat)
    requires i < |listing|
    ensures FirstOfBase(listing, i) <==> BaseName(listing[i]) !in Bases(listing[..i])
  {
    BasesMembers(listing[..i]);
    assert forall j :: 0 <= j < i ==> listing[..i][j] == listing[j];
  }

  /** Entry `i` is analysed by the first loop: a `.txt` name, and the first of its base name. */
  predicate Admitted(listing: seq<string>, i: nat)
    requires i < |listing|
  {
    IsTxt(listing[i]) && FirstOfBase(listing, i)
  }

  /** Admission looks only at the entry and those before it. */
  lemma AdmittedInPrefix(listing: seq<string>, n: nat, i: nat)
    requires i < n <= |listing|
    ensures listing[..n][i] == listing[i]
    ensures Admitted(listing[..n], i) <==> Admitted(listing, i)
  {
    assert forall j :: 0 <= j <= i ==> listing[..n][j] == listing[j];
  }

  /** The `.txt` names the first loop of `process_folder` analyses, in listing order. */
  function TxtKeys(listing: seq<string>): (ks: seq<string>)
    ensures forall j :: 0 <= j < |ks| ==> IsTxt(ks[j])
    decreases |listing|
  {
    if listing == [] then []
    else
      var n := |listing| - 1;
      var prev := TxtKeys(listing[..n]);
      if Admitted(listing, n) then prev + [listing[n]] else prev
  }

  /** The first loop of `process_folder` visits the names in the order the listing gives them. */
  lemma {:induction false} TxtKeysInListingOrder(listing: seq<string>)
    ensures exists idx :: PickedFrom(TxtKeys(listing), listing, idx)
    decreases |listing|
  {
    if listing == [] {
      var idx: seq<nat> := [];
      assert PickedFrom(TxtKeys(listing), listing, idx);
    } else {
      var n := |listing| - 1;
      TxtKeysInListingOrder(listing[..n]);
      var prev := TxtKeys(listing[..n]);
      var idx :| PickedFrom(prev, listing[..n], idx);
      PickedFromExtend(prev, listing, idx, n);
      if Admitted(listing, n) {
        assert TxtKeys(listing) == prev + [listing[n]];
        assert PickedFrom(TxtKeys(listing), listing, idx + [n]);
      } else {
        assert TxtKeys(listing) == prev;
        assert PickedFrom(TxtKeys(listing), listing, idx);
      }
    }
  }

  /** A name is analysed as text exactly when it ends in `.txt` and is the first entry of its base name. */
  lemma {:induction false} TxtKeysMembers(listing: seq<string>)
    ensures forall k :: k in TxtKeys(listing) <==> exists i :: 0 <= i < |listing| && listing[i] == k && Admitted(listing, i)
    decreases |listing|
  {
    if listing != [] {
      var n := |listing| - 1;
      var front := listing[..n];
      TxtKeysMembers(front);
      forall i | 0 <= i < n ensures front[i] == listing[i] && (Admitted(front, i) <==> Admitted(listing, i)) {
        AdmittedInPrefix(listing, n, i);
      }
      forall k ensures k in TxtKeys(listing) <==> exists i :: 0 <= i < |listing| && listing[i] == k && Admitted(listing, i) {
        if k in TxtKeys(front) {
          var i :| 0 <= i < n && front[i] == k && Admitted(front, i);
          assert listing[i] == k && Admitted(listing, i);
        } else if exists i :: 0 <= i < |listing| && listing[i] == k && Admitted(listing, i) {
          var i :| 0 <= i < |listing| && listing[i] == k && Admitted(listing, i);
          assert i == n;
        }
      }
    }
  }

  /** Admission by a prefix of the listing is admission by the whole listing. */
  lemma TxtKeysPrefix(listing: seq<string>, n: nat, k: string)
    requires n <= |listing| && k in TxtKeys(listing[..n])
    ensures k in TxtKeys(listing)
  {
    var prefix := listing[..n];
    TxtKeysMembers(prefix);
    TxtKeysMembers(listing);
    var i :| 0 <= i < n && prefix[i] == k && Admitted(prefix, i);
    AdmittedInPrefix(listing, n, i);
  }

  /** One more listing entry adds at most that entry. */
  lemma TxtKeysStep(listing: seq<string>, i: nat)
    requires i < |listing|
    ensures TxtKeys(listing[..i + 1]) == TxtKeys(listing[..i]) + (if Admitted(listing, i) then [listing[i]] else [])
  {
    var next := listing[..i + 1];
    assert next[..i] == listing[..i];
    assert Admitted(next, i) <==> Admitted(listing, i) by {
      assert forall j :: 0 <= j <= i ==> next[j] == listing[j];
    }
  }

  /** The first entry of its base name is not among the names admitted before it. */
  lemma FirstOfBaseIsNewKey(listing: seq<string>, i: nat)
    requires i < |listing| && FirstOfBase(listing, i)
    ensures listing[i] !in TxtKeys(listing[..i])
  {
    TxtKeysMembers(listing[..i]);
    assert forall j :: 0 <= j < i ==> listing[..i][j] == listing[j];
  }

  /** An entry that follows another of the same base name is never analysed as text. */
  lemma EarlierSameBaseBlocksTxt(listing: seq<string>, i: nat, j: nat)
    requires forall a, b :: 0 <= a < b < |listing| ==> listing[a] != listing[b]
    requires i < j < |listing| && BaseName(listing[i]) == BaseName(listing[j])
    ensures listing[j] !in TxtKeys(listing)
  {
    TxtKeysMembers(listing);
  }

  /** The text `process_folder` analyses under key `k`. */
  function DocText(k: string, txtFiles: map<string, string>, pdfs: map<string, Pages>): string {
    if IsTxt(k) && k in txtFiles then txtFiles[k]
    else if k in pdfs then JoinPages(pdfs[k])
    else ""
  }

  /** Every `.txt` file the first loop admits opens and has text. */
  predicate TxtFilesReadable(listing: seq<string>, txtFiles: map<string, string>) {
    forall k :: k in TxtKeys(listing) ==> k in txtFiles && txtFiles[k] != ""
  }

  /** Every PDF `extract_text_from_pdfs` keeps has text. */
  predicate PdfsHaveText(listing: seq<string>, pdfs: map<string, Pages>) {
    forall k :: k in PdfKeys(listing, pdfs) ==> JoinPages(pdfs[k]) != ""
  }

  /** When `process_folder` returns instead of raising. */
  predicate FolderSucceeds(listing: seq<string>, txtFiles: map<string, string>, pdfs: map<string, Pages>) {
    TxtFilesReadable(listing, txtFiles) && PdfsHaveText(listing, pdfs)
  }

  /** The sibling `.txt` file written for each PDF, with the PDF's text, in dictionary order. */
  function WriteLog(pdfText: Dict<string>): (w: seq<(string, string)>)
    ensures |w| == |pdfText|
    decreases |pdfText|
  {
    if pdfText == [] then []
    else
      var n := |pdfText| - 1;
      WriteLog(pdfText[..n]) + [(BaseName(pdfText[n].0) + ".txt", pdfText[n].1)]
  }

  /** Write `i` goes to the `.txt` sibling of PDF `i` and holds exactly that PDF's text. */
  lemma {:induction false} WriteLogIndex(pdfText: Dict<string>)
    ensures forall i :: 0 <= i < |pdfText| ==> WriteLog(pdfText)[i] == (BaseName(pdfText[i].0) + ".txt", pdfText[i].1)
    decreases |pdfText|
  {
    if pdfText != [] {
      var n := |pdfText| - 1;
      WriteLogIndex(pdfText[..n]);
      assert forall i :: 0 <= i < n ==> pdfText[..n][i] == pdfText[i];
    }
  }

  /** `results[k]` holds the analysis of the text of `k`. */
  predicate AnalysedEntries(results: Dict<Record>, txtFiles: map<string, string>, pdfs: map<string, Pages>,
                            analyse: Analyser)
  {
    forall i :: 0 <= i < |results| ==>
      var text := DocText(results[i].0, txtFiles, pdfs);
      analyse(text) == Success(results[i].1)
  }

  /** Appending a key with the analysis of its own text keeps every entry analysed. */
  lemma AnalysedEntriesAppend(results: Dict<Record>, k: string, rec: Record, txtFiles: map<string, string>,
                              pdfs: map<string, Pages>, analyse: Analyser)
    requires AnalysedEntries(results, txtFiles, pdfs, analyse)
    requires analyse(DocText(k, txtFiles, pdfs)) == Success(rec)
    ensures AnalysedEntries(results + [(k, rec)], txtFiles, pdfs, analyse)
  {
    var r := results + [(k, rec)];
    forall i | 0 <= i < |r|
      ensures analyse(DocText(r[i].0, txtFiles, pdfs)) == Success(r[i].1)
    {
      if i < |results| {
        assert r[i] == results[i];
      }
    }
  }

  // ---------------------------------------------------------------------------
  // The first loop, over the listing

  /** What the first loop has built so far: the claimed base names and the analysed `.txt` files. */
  datatype TxtState = TxtState(processed: set<string>, results: Dict<Record>)

  /** One turn of the first loop, on listing entry `name`. */
  function TxtTurn(st: TxtState, name: string, txtFiles: map<string, string>, analyse: Analyser): Result<TxtState, FolderError>
  {
    var base := BaseName(name);
    if base in st.processed then Success(st)
    else if !IsTxt(name) then Success(TxtState(st.processed + {base}, st.results))
    else if name !in txtFiles then Failure(Unreadable(name))
    else
      match analyse(txtFiles[name])
      case Failure(_) => Failure(NameIndexError(name))
      case Success(rec) => Success(TxtState(st.processed + {base}, Put(st.results, name, rec)))
  }

  /** The first loop run over a listing, stopping at the first turn that raises. */
  function TxtPass(listing: seq<string>, txtFiles: map<string, string>, analyse: Analyser): Result<TxtState, FolderError>
    decreases |listing|
  {
    if listing == [] then Success(TxtState({}, []))
    else
      var n := |listing| - 1;
      match TxtPass(listing[..n], txtFiles, analyse)
      case Failure(e) => Failure(e)
      case Success(st) => TxtTurn(st, listing[n], txtFiles, analyse)
  }

  /** Once a turn raises, the rest of the listing is never reached. */
  lemma {:induction false} TxtPassStopsAtFailure(listing: seq<string>, n: nat, txtFiles: map<string, string>,
                                                 analyse: Analyser)
    requires n <= |listing| && TxtPass(listing[..n], txtFiles, analyse).Failure?
    ensures TxtPass(listing, txtFiles, analyse) == TxtPass(listing[..n], txtFiles, analyse)
    decreases |listing| - n
  {
    if n < |listing| {
      var m := |listing| - 1;
      assert listing[..m][..n] == listing[..n];
      TxtPassStopsAtFailure(listing[..m], n, txtFiles, analyse);
    } else {
      assert listing[..n] == listing;
    }
  }

  /** After a successful first loop, `processed` holds every listed base name. */
  lemma {:induction false} TxtPassClaimsBases(listing: seq<string>, txtFiles: map<string, string>,
                                              analyse: Analyser)
    requires TxtPass(listing, txtFiles, analyse).Success?
    ensures TxtPass(listing, txtFiles, analyse).value.processed == Bases(listing)
    decreases |listing|
  {
    if listing != [] {
      var n := |listing| - 1;
      TxtPassClaimsBases(listing[..n], txtFiles, analyse);
      assert listing[..n + 1] == listing;
      BasesStep(listing, n);
    }
  }

  /** The first loop gets through exactly when every admitted `.txt` file opens and has text. */
  lemma {:induction false} TxtPassSucceeds(listing: seq<string>, txtFiles: map<string, string>, analyse: Analyser)
    requires FailsOnlyOnEmpty(analyse)
    ensures TxtPass(listing, txtFiles, analyse).Success? <==> TxtFilesReadable(listing, txtFiles)
    decreases |listing|
  {
    if listing != [] {
      var n := |listing| - 1;
      var front := listing[..n];
      var name := listing[n];
      TxtPassSucceeds(front, txtFiles, analyse);
      assert listing[..n + 1] == listing;
      TxtKeysStep(listing, n);
      match TxtPass(front, txtFiles, analyse)
      case Failure(_) =>
        var k :| k in TxtKeys(front) && !(k in txtFiles && txtFiles[k] != "");
        TxtKeysPrefix(listing, n, k);
      case Success(st) =>
        TxtPassClaimsBases(front, txtFiles, analyse);
        FirstOfBaseIffUnclaimed(listing, n);
    }
  }

  /**
   * A first loop that raises names an admitted `.txt` file: one that would not open, or one
   * whose text is empty.
   */
  lemma {:induction false} TxtPassFailure(listing: seq<string>, txtFiles: map<string, string>, analyse: Analyser)
    requires FailsOnlyOnEmpty(analyse) && TxtPass(listing, txtFiles, analyse).Failure?
    ensures TxtPass(listing, txtFiles, analyse).error.file in TxtKeys(listing)
    ensures TxtPass(listing, txtFiles, analyse).error.Unreadable? ==>
      TxtPass(listing, txtFiles, analyse).error.file !in txtFiles
    ensures TxtPass(listing, txtFiles, analyse).error.NameIndexError? ==>
      TxtPass(listing, txtFiles, analyse).error.file in txtFiles
      && txtFiles[TxtPass(listing, txtFiles, analyse).error.file] == ""
    decreases |listing|
  {
    assert listing != [];
    var n := |listing| - 1;
    var front := listing[..n];
    assert listing[..n + 1] == listing;
    TxtKeysStep(listing, n);
    match TxtPass(front, txtFiles, analyse)
    case Failure(e) =>
      TxtPassFailure(front, txtFiles, analyse);
      TxtKeysPrefix(listing, n, e.file);
    case Success(st) =>
      TxtPassClaimsBases(front, txtFiles, analyse);
      FirstOfBaseIffUnclaimed(listing, n);
  }

  /**
   * A first loop that gets through holds one entry per admitted name, in listing order,
   * each the analysis of that file's text.
   */
  lemma {:induction false} TxtPassEntries(listing: seq<string>, txtFiles: map<string, string>,
                                          pdfs: map<string, Pages>, analyse: Analyser)
    requires TxtPass(listing, txtFiles, analyse).Success?
    ensures Keys(TxtPass(listing, txtFiles, analyse).value.results) == TxtKeys(listing)
    ensures KeysDistinct(TxtPass(listing, txtFiles, analyse).value.results)
    ensures AnalysedEntries(TxtPass(listing, txtFiles, analyse).value.results, txtFiles, pdfs, analyse)
    decreases |listing|
  {
    if listing != [] {
      var n := |listing| - 1;
      var front := listing[..n];
      var name := listing[n];
      var st := TxtPass(front, txtFiles, analyse).value;
      TxtPassEntries(front, txtFiles, pdfs, analyse);
      assert listing[..n + 1] == listing;
      TxtKeysStep(listing, n);
      TxtPassClaimsBases(front, txtFiles, analyse);
      FirstOfBaseIffUnclaimed(listing, n);
      if BaseName(name) !in st.processed && IsTxt(name) {
        var rec := analyse(txtFiles[name]).value;
        FirstOfBaseIsNewKey(listing, n);
        assert DocText(name, txtFiles, pdfs) == txtFiles[name];
        AnalysedEntriesAppend(st.results, name, rec, txtFiles, pdfs, analyse);
        PutProperties(st.results, name, rec);
        KeysAppend(st.results, name, rec);
      }
    }
  }

  /** The first loop of `process_folder`, proved to compute `TxtPass`. */
  method AnalyseTxtFiles(listing: seq<string>, txtFiles: map<string, string>, skills: set<string>,
                         nlp: string -> Doc)
    returns (outcome: Result<Dict<Record>, FolderError>)
    ensures TxtPass(listing, txtFiles, CvAnalyser(skills, nlp)).Failure? ==>
      outcome == Failure(TxtPass(listing, txtFiles, CvAnalyser(skills, nlp)).error)
    ensures TxtPass(listing, txtFiles, CvAnalyser(skills, nlp)).Success? ==>
      outcome == Success(TxtPass(listing, txtFiles, CvAnalyser(skills, nlp)).value.results)
  {
    var results: Dict<Record> := [];
    var processed: set<string> := {};
    for i := 0 to |listing|
      invariant TxtPass(listing[..i], txtFiles, CvAnalyser(skills, nlp)) == Success(TxtState(processed, results))
    {
      var name := listing[i];
      assert listing[..i + 1][..i] == listing[..i];
      var base := BaseName(name);
      if base in processed {
        continue;
      }
      processed := processed + {base};
      if EndsWith(name, ".txt") {
        if name !in txtFiles {
          TxtPassStopsAtFailure(listing, i + 1, txtFiles, CvAnalyser(skills, nlp));
          return Failure(Unreadable(name));
        }
        var text := txtFiles[name];
        var analysis := AnalyzeCv(text, skills, nlp(text));
        if analysis.Failure? {
          TxtPassStopsAtFailure(listing, i + 1, txtFiles, CvAnalyser(skills, nlp));
          return Failure(NameIndexError(name));
        }
        results := Put(results, name, analysis.value);
      }
    }
    assert listing[..|listing|] == listing;
    return Success(results);
  }

  // ---------------------------------------------------------------------------
  // The second loop, over the extracted PDF texts

  /** One turn of the second loop, on PDF `name` with text `content`. */
  function PdfTurn(acc: Dict<Record>, name: string, content: string, analyse: Analyser): Result<Dict<Record>, FolderError>
  {
    match analyse(content)
    case Failure(_) => Failure(NameIndexError(name))
    case Success(rec) => Success(Put(acc, name, rec))
  }

  /** The second loop run over a PDF dictionary, from the first loop's results. */
  function PdfPass(results: Dict<Record>, pdfText: Dict<string>, analyse: Analyser): Result<Dict<Record>, FolderError>
    decreases |pdfText|
  {
    if pdfText == [] then Success(results)
    else
      var n := |pdfText| - 1;
      match PdfPass(results, pdfText[..n], analyse)
      case Failure(e) => Failure(e)
      case Success(acc) => PdfTurn(acc, pdfText[n].0, pdfText[n].1, analyse)
  }

  lemma {:induction false} PdfPassStopsAtFailure(results: Dict<Record>, pdfText: Dict<string>, n: nat,
                                                 analyse: Analyser)
    requires n <= |pdfText| && PdfPass(results, pdfText[..n], analyse).Failure?
    ensures PdfPass(results, pdfText, analyse) == PdfPass(results, pdfText[..n], analyse)
    decreases |pdfText| - n
  {
    if n < |pdfText| {
      var m := |pdfText| - 1;
      assert pdfText[..m][..n] == pdfText[..n];
      PdfPassStopsAtFailure(results, pdfText[..m], n, analyse);
    } else {
      assert pdfText[..n] == pdfText;
    }
  }

  /** The second loop gets through exactly when no PDF text is empty. */
  lemma {:induction false} PdfPassSucceeds(results: Dict<Record>, pdfText: Dict<string>, analyse: Analyser)
    requires FailsOnlyOnEmpty(analyse)
    ensures PdfPass(results, pdfText, analyse).Success? <==> forall i :: 0 <= i < |pdfText| ==> pdfText[i].1 != ""
    decreases |pdfText|
  {
    if pdfText != [] {
      var n := |pdfText| - 1;
      var front := pdfText[..n];
      PdfPassSucceeds(results, front, analyse);
      assert forall i :: 0 <= i < n ==> front[i] == pdfText[i];
      if PdfPass(results, front, analyse).Failure? {
        var i :| 0 <= i < n && front[i].1 == "";
        assert pdfText[i].1 == "";
      } else {
        var acc := PdfPass(results, front, analyse).value;
        assert PdfPass(results, pdfText, analyse) == PdfTurn(acc, pdfText[n].0, pdfText[n].1, analyse);
        assert analyse(pdfText[n].1).Failure? <==> pdfText[n].1 == "";
      }
    }
  }

  /**
   * Over PDF texts whose names differ from each other and from the `.txt` results, a second
   * loop that gets through appends each PDF's analysis under its name.
   */
  lemma {:induction false} PdfPassEntries(results: Dict<Record>, pdfText: Dict<string>, txtFiles: map<string, string>,
                                          pdfs: map<string, Pages>, analyse: Analyser)
    requires FailsOnlyOnEmpty(analyse)
    requires KeysDistinct(results) && KeysDistinct(pdfText)
    requires AnalysedEntries(results, txtFiles, pdfs, analyse)
    requires forall i :: 0 <= i < |pdfText| ==>
      IsPdf(pdfText[i].0) && pdfText[i].0 in pdfs && pdfText[i].1 == JoinPages(pdfs[pdfText[i].0])
    requires forall i :: 0 <= i < |results| ==> IsTxt(results[i].0)
    requires PdfPass(results, pdfText, analyse).Success?
    ensures Keys(PdfPass(results, pdfText, analyse).value) == Keys(results) + Keys(pdfText)
    ensures KeysDistinct(PdfPass(results, pdfText, analyse).value)
    ensures AnalysedEntries(PdfPass(results, pdfText, analyse).value, txtFiles, pdfs, analyse)
    decreases |pdfText|
  {
    if pdfText != [] {
      var n := |pdfText| - 1;
      var front := pdfText[..n];
      var name := pdfText[n].0;
      var content := pdfText[n].1;
      assert forall i :: 0 <= i < n ==> front[i] == pdfText[i];
      var acc := PdfPass(results, front, analyse).value;
      PdfPassEntries(results, front, txtFiles, pdfs, analyse);
      var rec := analyse(content).value;
      assert PdfPass(results, pdfText, analyse).value == Put(acc, name, rec);
      assert Keys(pdfText) == Keys(front) + [name];
      assert name !in Keys(acc) by {
        TxtIsNotPdf(name);
        KeysMembers(results, name);
        KeysMembers(front, name);
      }
      assert DocText(name, txtFiles, pdfs) == content by { TxtIsNotPdf(name); }
      PutNewEntry(acc, name, rec, txtFiles, pdfs, analyse);
    }
  }

  /** Putting a fresh, correctly analysed entry keeps the dictionary's invariants. */
  lemma PutNewEntry(acc: Dict<Record>, name: string, rec: Record, txtFiles: map<string, string>,
                    pdfs: map<string, Pages>, analyse: Analyser)
    requires KeysDistinct(acc) && AnalysedEntries(acc, txtFiles, pdfs, analyse)
    requires name !in Keys(acc) && analyse(DocText(name, txtFiles, pdfs)) == Success(rec)
    ensures Keys(Put(acc, name, rec)) == Keys(acc) + [name]
    ensures KeysDistinct(Put(acc, name, rec))
    ensures AnalysedEntries(Put(acc, name, rec), txtFiles, pdfs, analyse)
  {
    PutProperties(acc, name, rec);
    KeysAppend(acc, name, rec);
    AnalysedEntriesAppend(acc, name, rec, txtFiles, pdfs, analyse);
  }

  /** The fold and the write log over one more PDF entry. */
  lemma PdfStep(results: Dict<Record>, pdfText: Dict<string>, i: nat, analyse: Analyser)
    requires i < |pdfText|
    ensures PdfPass(results, pdfText[..i + 1], analyse) ==
      match PdfPass(results, pdfText[..i], analyse)
      case Failure(e) => Failure(e)
      case Success(acc) => PdfTurn(acc, pdfText[i].0, pdfText[i].1, analyse)
    ensures WriteLog(pdfText[..i + 1]) == WriteLog(pdfText[..i]) + [(BaseName(pdfText[i].0) + ".txt", pdfText[i].1)]
  {
    assert pdfText[..i + 1][..i] == pdfText[..i];
  }

  /**
   * The second loop of `process_folder`, proved to compute `PdfPass`. Each PDF's text is
   * written to its sibling `.txt` file before it is analysed; `written` logs those writes.
   */
  method AnalysePdfTexts(results: Dict<Record>, pdfText: Dict<string>, skills: set<string>, nlp: string -> Doc)
    returns (outcome: Result<Dict<Record>, FolderError>, written: seq<(string, string)>)
    ensures outcome == PdfPass(results, pdfText, CvAnalyser(skills, nlp))
    ensures |written| <= |pdfText| && written == WriteLog(pdfText[..|written|])
    ensures outcome.Success? ==> written == WriteLog(pdfText)
    ensures outcome.Failure? ==>
      0 < |written| && pdfText[|written| - 1].1 == "" && outcome.error == NameIndexError(pdfText[|written| - 1].0)
      && forall i :: 0 <= i < |written| - 1 ==> pdfText[i].1 != ""
  {
    var acc := results;
    written := [];
    for i := 0 to |pdfText|
      invariant PdfPass(results, pdfText[..i], CvAnalyser(skills, nlp)) == Success(acc)
      invariant written == WriteLog(pdfText[..i])
      invariant forall j :: 0 <= j < i ==> pdfText[j].1 != ""
    {
      var name := pdfText[i].0;
      var content := pdfText[i].1;
      PdfStep(results, pdfText, i, CvAnalyser(skills, nlp));
      written := written + [(BaseName(name) + ".txt", content)];
      var analysis := AnalyzeCv(content, skills, nlp(content));
      assert CvAnalyser(skills, nlp)(content) == analysis;
      if analysis.Failure? {
        PdfPassStopsAtFailure(results, pdfText, i + 1, CvAnalyser(skills, nlp));
        return Failure(NameIndexError(name)), written;
      }
      assert forall j :: 0 <= j < i + 1 ==> pdfText[j].1 != "" by {
        assert content != "";
      }
      assert PdfPass(results, pdfText[..i + 1], CvAnalyser(skills, nlp)) == Success(Put(acc, name, analysis.value));
      acc := Put(acc, name, analysis.value);
    }
    assert pdfText[..|pdfText|] == pdfText;
    return Success(acc), written;
  }

  /**
   * When the second loop stops at write `w`, the PDF it names was kept by
   * `extract_text_from_pdfs` and has no text, and every earlier write carried text.
   */
  lemma PdfFailureNamesEmptyPdf(listing: seq<string>, pdfs: map<string, Pages>, written: seq<(string, string)>)
    requires 0 < |written| <= |ExtractedTexts(listing, pdfs)|
    requires written == WriteLog(ExtractedTexts(listing, pdfs)[..|written|])
    requires ExtractedTexts(listing, pdfs)[|written| - 1].1 == ""
    requires forall i :: 0 <= i < |written| - 1 ==> ExtractedTexts(listing, pdfs)[i].1 != ""
    ensures var f := ExtractedTexts(listing, pdfs)[|written| - 1].0;
      f in PdfKeys(listing, pdfs) && JoinPages(pdfs[f]) == ""
      && written[|written| - 1] == (BaseName(f) + ".txt", "")
      && forall i :: 0 <= i < |written| - 1 ==> written[i].1 != ""
  {
    var d := ExtractedTexts(listing, pdfs);
    var w := |written|;
    KeysIndex(d);
    assert Keys(d)[w - 1] == d[w - 1].0;
    WriteLogIndex(d[..w]);
    assert forall i :: 0 <= i < w ==> d[..w][i] == d[i];
  }

  // ---------------------------------------------------------------------------
  // The whole folder

  /**
   * The second loop, run from the results of a first loop that got through on the texts
   * `extract_text_from_pdfs` returns: it gets through exactly when every kept PDF has text,
   * and then holds the `.txt` entries followed by the PDF entries, each its document's analysis.
   */
  lemma SecondLoopOverTxtResults(listing: seq<string>, txtFiles: map<string, string>, pdfs: map<string, Pages>,
                                 analyse: Analyser)
    requires FailsOnlyOnEmpty(analyse) && TxtPass(listing, txtFiles, analyse).Success?
    ensures var results := TxtPass(listing, txtFiles, analyse).value.results;
      var pass := PdfPass(results, ExtractedTexts(listing, pdfs), analyse);
      (pass.Success? <==> PdfsHaveText(listing, pdfs))
      && (pass.Success? ==>
            Keys(pass.value) == TxtKeys(listing) + PdfKeys(listing, pdfs) && KeysDistinct(pass.value)
            && AnalysedEntries(pass.value, txtFiles, pdfs, analyse))
  {
    var results := TxtPass(listing, txtFiles, analyse).value.results;
    var pdfText := ExtractedTexts(listing, pdfs);
    TxtPassEntries(listing, txtFiles, pdfs, analyse);
    ExtractedTextsNonEmpty(listing, pdfs);
    assert KeysDistinct(pdfText) by {
      KeysIndex(pdfText);
    }
    assert forall i :: 0 <= i < |results| ==> IsTxt(results[i].0) by {
      KeysIndex(results);
      forall i | 0 <= i < |results| ensures IsTxt(results[i].0) {
        assert Keys(results)[i] in TxtKeys(listing);
      }
    }
    assert forall i :: 0 <= i < |pdfText| ==> IsPdf(pdfText[i].0) by {
      KeysIndex(pdfText);
      forall i | 0 <= i < |pdfText| ensures IsPdf(pdfText[i].0) {
        assert Keys(pdfText)[i] in PdfKeys(listing, pdfs);
      }
    }
    PdfPassSucceeds(results, pdfText, analyse);
    if PdfPass(results, pdfText, analyse).Success? {
      PdfPassEntries(results, pdfText, txtFiles, pdfs, analyse);
    }
  }


  /**
   * `process_folder`: the `.txt` pass with base-name deduplication, then the PDF pass,
   * which ignores the deduplication set. `written` logs the sibling `.txt` files written.
   */
  method ProcessFolder(listing: seq<string>, txtFiles: map<string, string>, pdfs: map<string, Pages>,
                       skills: set<string>, nlp: string -> Doc)
    returns (outcome: Result<Dict<Record>, FolderError>, written: seq<(string, string)>)
    ensures outcome.Success? <==> FolderSucceeds(listing, txtFiles, pdfs)
    ensures outcome.Success? ==> Keys(outcome.value) == TxtKeys(listing) + PdfKeys(listing, pdfs)
    ensures outcome.Success? ==> KeysDistinct(outcome.value)
    ensures outcome.Success? ==> AnalysedEntries(outcome.value, txtFiles, pdfs, CvAnalyser(skills, nlp))
    ensures outcome.Success? ==> written == WriteLog(ExtractedTexts(listing, pdfs))
    ensures |written| <= |ExtractedTexts(listing, pdfs)| && written == WriteLog(ExtractedTexts(listing, pdfs)[..|written|])
    ensures outcome.Failure? && outcome.error.Unreadable? ==>
      outcome.error.file in TxtKeys(listing) && outcome.error.file !in txtFiles && written == []
    ensures outcome.Failure? && outcome.error.NameIndexError? ==>
      var f := outcome.error.file;
      (f in TxtKeys(listing) && f in txtFiles && txtFiles[f] == "" && written == [])
      || (TxtFilesReadable(listing, txtFiles) && f in PdfKeys(listing, pdfs) && JoinPages(pdfs[f]) == ""
          && 0 < |written| && written[|written| - 1] == (BaseName(f) + ".txt", "")
          && forall i :: 0 <= i < |written| - 1 ==> written[i].1 != "")
  {
    written := [];
    var analyse := CvAnalyser(skills, nlp);
    CvAnalyserFailsOnlyOnEmpty(skills, nlp);
    TxtPassSucceeds(listing, txtFiles, analyse);
    var txtOutcome := AnalyseTxtFiles(listing, txtFiles, skills, nlp);
    if txtOutcome.Failure? {
      TxtPassFailure(listing, txtFiles, analyse);
      assert ExtractedTexts(listing, pdfs)[..0] == [];
      return txtOutcome, written;
    }
    var results := txtOutcome.value;
    var pdfText := ExtractTextFromPdfs(listing, pdfs);
    SecondLoopOverTxtResults(listing, txtFiles, pdfs, analyse);
    outcome, written := AnalysePdfTexts(results, pdfText, skills, nlp);
    if outcome.Failure? {
      PdfFailureNamesEmptyPdf(listing, pdfs, written);
    }
  }
}
