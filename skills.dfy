/**
 * Skill Matcher: `extract_skills`, `find_matching_skills` and the exact-membership
 * test of the second variant, plus the parsing of the comma-separated skill list.
 */
module Skills {
  import opened Text

  const SkillSentinel: string := "No skills found"

  /** How `calculate_score` decides that a required skill was found. */
  datatype MatchMode =
    | Substring  // some found skill, lowercased, contains the required skill
    | Exact      // the required skill is literally one of the found skills

  /** `any(skill in token.lower() for skill in skill_set)`. */
  predicate Qualifies(token: string, skills: set<string>) {
    exists s | s in skills :: IsSubstring(s, Lower(token))
  }

  /** What `extract_skills` returns, as a set: the qualifying tokens in their own casing, or the sentinel. */
  function SkillsFound(tokens: seq<string>, skills: set<string>): (found: set<string>)
    ensures found != {}
  {
    var hits := set t | t in tokens && Qualifies(t, skills);
    if hits == {} then {SkillSentinel} else hits
  }

  /** `extract_skills`: one pass over the tokens, collecting the qualifying ones. */
  method ExtractSkills(tokens: seq<string>, skills: set<string>) returns (found: set<string>)
    ensures found == SkillsFound(tokens, skills)
    ensures (forall i :: 0 <= i < |tokens| ==> !Qualifies(tokens[i], skills)) ==> found == {SkillSentinel}
    ensures forall t :: t in found && t != SkillSentinel ==> t in tokens && Qualifies(t, skills)
  {
    var hits: set<string> := {};
    for i := 0 to |tokens|
      invariant hits == set t | t in tokens[..i] && Qualifies(t, skills)
    {
      if exists s | s in skills :: IsSubstring(s, Lower(tokens[i])) {
        hits := hits + {tokens[i]};
      }
      assert tokens[..i + 1] == tokens[..i] + [tokens[i]];
    }
    assert tokens[..|tokens|] == tokens;
    found := if hits == {} then {SkillSentinel} else hits;
  }

  /** Whether required skill `req` counts as found under `mode`. */
  predicate SkillMatches(req: string, found: set<string>, mode: MatchMode) {
    match mode
    case Substring => exists f | f in found :: IsSubstring(req, Lower(f))
    case Exact => req in found
  }

  /**
   * `find_matching_skills` (Substring) and the inline set comprehension of the second
   * variant (Exact): the required skills counted as found.
   */
  function MatchingSkills(found: set<string>, required: set<string>, mode: MatchMode): (m: set<string>)
    ensures m <= required
    ensures |m| <= |required|
    ensures mode == Exact ==> m <= found
    ensures mode == Substring ==> forall r | r in m :: exists f | f in found :: IsSubstring(r, Lower(f))
  {
    var m := set r | r in required && SkillMatches(r, found, mode);
    assert required == m + (required - m);
    m
  }

  /** With lowercase required skills, every exact match is also a substring match. */
  lemma ExactWithinSubstring(found: set<string>, required: set<string>)
    requires forall r | r in required :: Lower(r) == r
    ensures MatchingSkills(found, required, Exact) <= MatchingSkills(found, required, Substring)
  {
    forall r | r in MatchingSkills(found, required, Exact)
      ensures r in MatchingSkills(found, required, Substring)
    {
      assert IsPrefix(r, Lower(r));
    }
  }

  /** The skill set of the interactive prompt: `{k.strip().lower() for k in text.split(",")}`. */
  function ParseSkillSet(text: string): (skills: set<string>)
    ensures forall s | s in skills :: Lower(s) == s
    ensures skills != {}
  {
    var pieces := SplitOn(text, ',');
    var skills := set i | 0 <= i < |pieces| :: Lower(Strip(pieces[i]));
    assert Lower(Strip(pieces[0])) in skills;
    assert forall s | s in skills :: Lower(s) == s by {
      forall i | 0 <= i < |pieces| ensures Lower(Lower(Strip(pieces[i]))) == Lower(Strip(pieces[i])) {
        LowerIdempotent(Strip(pieces[i]));
      }
    }
    skills
  }

  /** A blank piece in the skill list (as after a trailing comma) makes every token qualify. */
  lemma BlankPieceMatchesEveryToken(text: string, token: string)
    requires exists i :: 0 <= i < |SplitOn(text, ',')| && Strip(SplitOn(text, ',')[i]) == ""
    ensures "" in ParseSkillSet(text)
    ensures Qualifies(token, ParseSkillSet(text))
  {
    var pieces := SplitOn(text, ',');
    var i :| 0 <= i < |pieces| && Strip(pieces[i]) == "";
    assert Lower(Strip(pieces[i])) == "";
    EmptyIsSubstring(Lower(token));
  }

  /** In particular a trailing comma does. */
  lemma TrailingCommaMatchesEveryToken(text: string, token: string)
    requires |text| > 0 && text[|text| - 1] == ','
    ensures Qualifies(token, ParseSkillSet(text))
  {
    SplitOnTrailingSeparator(text, ',');
    var pieces := SplitOn(text, ',');
    assert Strip(pieces[|pieces| - 1]) == "";
    BlankPieceMatchesEveryToken(text, token);
  }
}
