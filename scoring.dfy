/** Scorer: `calculate_score`, 10 points per matched required skill and 5 per present contact field. */
module Scoring {
  import opened Names
  import opened Fields
  import opened Skills
  import opened Analysis
  import opened Text

  /** `result.get("Name") and result["Name"] != "Name not found"`: truthy and not the sentinel. */
  predicate NamePresent(rec: Record) { rec.name != "" && rec.name != NameSentinel }

  predicate EmailPresent(rec: Record) { |rec.emails| > 0 && rec.emails[0] != EmailSentinel }

  predicate PhonePresent(rec: Record) { |rec.phones| > 0 && rec.phones[0] != PhoneSentinel }

  /** How many of name, first email and first phone earn the bonus. */
  function PresentFieldCount(rec: Record): (n: nat)
    ensures n <= 3
  {
    (if NamePresent(rec) then 1 else 0) + (if EmailPresent(rec) then 1 else 0)
    + (if PhonePresent(rec) then 1 else 0)
  }

  /** 10 per matched required skill plus 5 per present field. */
  function Score(rec: Record, required: set<string>, mode: MatchMode): (s: nat)
    ensures s % 5 == 0
    ensures s <= 10 * |required| + 15
  {
    10 * |MatchingSkills(rec.skills, required, mode)| + 5 * PresentFieldCount(rec)
  }

  /** `calculate_score`, adding its terms one at a time. */
  method CalculateScore(rec: Record, required: set<string>, mode: MatchMode) returns (score: int)
    ensures score == Score(rec, required, mode)
    ensures 0 <= score <= 10 * |required| + 15 && score % 5 == 0
  {
    score := 0;
    var matching := set r | r in required && SkillMatches(r, rec.skills, mode);
    score := score + |matching| * 10;
    if rec.name != "" && rec.name != NameSentinel {
      score := score + 5;
    }
    if |rec.emails| > 0 && rec.emails[0] != EmailSentinel {
      score := score + 5;
    }
    if |rec.phones| > 0 && rec.phones[0] != PhoneSentinel {
      score := score + 5;
    }
  }

  /** Two records that agree on the matched skills and on field presence score alike. */
  lemma ScoreDependsOnlyOnMatchesAndPresence(a: Record, b: Record, required: set<string>, mode: MatchMode)
    requires MatchingSkills(a.skills, required, mode) == MatchingSkills(b.skills, required, mode)
    requires NamePresent(a) == NamePresent(b) && EmailPresent(a) == EmailPresent(b) && PhonePresent(a) == PhonePresent(b)
    ensures Score(a, required, mode) == Score(b, required, mode)
  {
  }

  /** With lowercase required skills the exact variant never scores above the substring variant. */
  lemma ExactScoreAtMostSubstringScore(rec: Record, required: set<string>)
    requires forall r | r in required :: Lower(r) == r
    ensures Score(rec, required, Exact) <= Score(rec, required, Substring)
  {
    ExactWithinSubstring(rec.skills, required);
    var e := MatchingSkills(rec.skills, required, Exact);
    var s := MatchingSkills(rec.skills, required, Substring);
    assert s == e + (s - e);
  }
}
