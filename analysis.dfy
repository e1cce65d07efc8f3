/** Document Analyzer: `analyze_cv`, assembling one record from the field extractors and the skill matcher. */
module Analysis {
  import opened Wrappers
  import opened Text
  import opened Fields
  import opened Names
  import opened Skills

  /** What the language pipeline `nlp(cv_text)` yields that the analyzer reads: token texts and entities. */
  datatype Doc = Doc(tokens: seq<string>, ents: seq<Entity>)

  /** The per-document dictionary: "Name", "Emails", "Phone Numbers", "Skills Found". */
  datatype Record = Record(name: string, emails: seq<string>, phones: seq<string>, skills: set<string>)

  /** The record every extractor produces when it finds nothing. */
  const SentinelRecord: Record := Record(NameSentinel, [EmailSentinel], [PhoneSentinel], {SkillSentinel})

  /** `analyze_cv`, with the language pipeline's output for `text` given as `doc`. */
  function AnalyzeCv(text: string, skills: set<string>, doc: Doc): (r: Result<Record, NameError>)
    ensures r.Failure? <==> text == ""
    ensures r.Success? ==> |r.value.emails| >= 1 && |r.value.phones| >= 1 && r.value.skills != {}
  {
    match ExtractName(text, doc.ents)
    case Failure(e) => Failure(e)
    case Success(name) =>
      Success(Record(name, ExtractEmail(text), ExtractPhone(text), SkillsFound(doc.tokens, skills)))
  }

  /** Each list field holds real hits or exactly its one sentinel, by what the text contains. */
  lemma AnalyzeCvSentinels(text: string, skills: set<string>, doc: Doc)
    requires text != ""
    ensures AnalyzeCv(text, skills, doc).value.emails == [EmailSentinel] <==> !HasEmail(text)
    ensures AnalyzeCv(text, skills, doc).value.phones == [PhoneSentinel] <==> !HasPhone(text)
    ensures (forall i :: 0 <= i < |doc.tokens| ==> !Qualifies(doc.tokens[i], skills)) ==>
      AnalyzeCv(text, skills, doc).value.skills == {SkillSentinel}
  {
    var r := AnalyzeCv(text, skills, doc);
    assert r.value.emails == ExtractEmail(text) && r.value.phones == ExtractPhone(text);
  }
}
