/**
 * The two copies of the ranking core. `ttranscribe.py` counts a required skill when it
 * occurs inside some found skill, lowercased; `final_1.py` only when it is literally one of
 * the found skills. Everything else is shared. The lemmas here show, on concrete inputs,
 * where the two differ and where both behave in ways a reader may not expect.
 */
module Variants {
  import opened Text
  import opened Skills
  import opened Names
  import opened Analysis
  import opened Scoring
  import opened Corpus
  import opened Folder

  /** The matching rule of `calculate_score` in `ttranscribe.py`. */
  const TranscribeMode: MatchMode := Substring

  /** The matching rule of `calculate_score` in `final_1.py`. */
  const FinalMode: MatchMode := Exact

  lemma LowerSkillSentinel()
    ensures Lower(SkillSentinel) == "no skills found"
  {
  }

  /**
   * The "No skills found" sentinel is itself a found skill to the substring rule: a required
   * `skill` is credited to a document in which no skill was found. The exact rule does not.
   */
  lemma SentinelCountsAsSkillInTranscribeMode(required: set<string>)
    requires "skill" in required
    ensures "skill" in MatchingSkills({SkillSentinel}, required, TranscribeMode)
    ensures "skill" !in MatchingSkills({SkillSentinel}, required, FinalMode)
  {
    LowerSkillSentinel();
    var s := Lower(SkillSentinel);
    SliceIsSubstring(s, 3, 8);
    assert s[3..8] == "skill";
  }

  /** The exact rule compares letter case: a found `Python` never satisfies a required `python`. */
  lemma FinalModeIsCaseSensitive()
    ensures MatchingSkills({"Python"}, {"python"}, FinalMode) == {}
    ensures MatchingSkills({"Python"}, {"python"}, TranscribeMode) == {"python"}
  {
    assert Lower("Python") == "python";
    assert IsPrefix("python", Lower("Python"));
  }

  /**
   * A document where nothing was found scores nothing under the exact rule, whatever the
   * (lowercase) required skills are.
   */
  lemma SentinelRecordScoresZeroInFinalMode(required: set<string>)
    requires forall r | r in required :: Lower(r) == r
    ensures Score(SentinelRecord, required, FinalMode) == 0
  {
    LowerSkillSentinel();
    assert SkillSentinel !in required;
    assert MatchingSkills(SentinelRecord.skills, required, FinalMode) == {};
  }

  /**
   * A document whose first line is blank (empty or all whitespace) and that carries no `Name`
   * label gets the empty string as its name (a line without words passes the all-alphabetic
   * test), so it earns no name bonus.
   */
  lemma BlankFirstLineEarnsNoNameBonus(text: string, skills: set<string>, doc: Doc)
    requires |text| > 0 && !HasLabel(text)
    requires forall k :: 0 <= k < |FirstLine(text)| ==> IsSpace(FirstLine(text)[k])
    ensures AnalyzeCv(text, skills, doc).Success?
    ensures AnalyzeCv(text, skills, doc).value.name == ""
    ensures !NamePresent(AnalyzeCv(text, skills, doc).value)
  {
    assert Words(FirstLine(text)) == [];
    assert FirstLineAccepted(text);
    assert Strip(FirstLine(text)) == "";
  }

  /**
   * Another file of the same base name listed before `X.txt` (say `X.docx`) claims the base
   * name, so `X.txt` is never read.
   */
  lemma OtherExtensionFirstHidesTxt(stem: string, ext: string)
    requires exists k :: 0 <= k < |stem| && stem[k] != '.'
    requires |ext| > 0 && ext[0] == '.' && (forall k :: 1 <= k < |ext| ==> ext[k] != '.') && ext != ".txt"
    ensures stem + ".txt" !in TxtKeys([stem + ext, stem + ".txt"])
  {
    var listing := [stem + ext, stem + ".txt"];
    BaseNameOfStemAndExtension(stem, ext);
    BaseNameOfStemAndExtension(stem, ".txt");
    EarlierSameBaseBlocksTxt(listing, 0, 1);
  }

  /**
   * `X.txt` followed by `X.pdf`: the text file is analysed by the first loop and the PDF,
   * which the base-name check does not reach, by the second, so both are ranked.
   */
  lemma TxtAndPdfOfOneStemBothKept(stem: string, pages: Pages)
    ensures TxtKeys([stem + ".txt", stem + ".pdf"]) == [stem + ".txt"]
    ensures PdfKeys([stem + ".txt", stem + ".pdf"], map[stem + ".pdf" := pages]) == [stem + ".pdf"]
  {
    var listing := [stem + ".txt", stem + ".pdf"];
    var pdfs := map[stem + ".pdf" := pages];
    assert IsTxt(listing[0]) by { assert listing[0][|listing[0]| - 4..] == ".txt"; }
    assert !IsTxt(listing[1]) by { assert listing[1][|listing[1]| - 4..] == ".pdf"; }
    assert IsPdf(listing[1]) by { assert listing[1][|listing[1]| - 4..] == ".pdf"; }
    assert !IsPdf(listing[0]);
    assert listing[..1] == [listing[0]];
    assert listing[..1][..0] == [];
    assert Admitted(listing[..1], 0);
    assert TxtKeys(listing[..1]) == [listing[0]];
    assert PdfKeys(listing[..1], pdfs) == [];
  }
}
