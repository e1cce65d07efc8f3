/** Ranker: `rank_resumes`, scoring every record and ordering by score, highest first. */
module Ranking {
  import opened Dicts
  import opened Skills
  import opened Analysis
  import opened Scoring

  /** A `(file_name, score)` pair of the ranked list. */
  type Entry = (string, int)

  predicate SortedDesc(s: seq<Entry>) {
    forall i, j :: 0 <= i < j < |s| ==> s[i].1 >= s[j].1
  }

  /** The entries of `s` that have score `v`, in their order in `s`. */
  function WithScore(s: seq<Entry>, v: int): seq<Entry>
    decreases |s|
  {
    if s == [] then [] else (if s[0].1 == v then [s[0]] else []) + WithScore(s[1..], v)
  }

  /** Places `e` before the first entry that does not outscore it. */
  function Insert(e: Entry, s: seq<Entry>): (r: seq<Entry>)
    ensures multiset(r) == multiset(s) + multiset{e}
    decreases |s|
  {
    if s == [] || s[0].1 <= e.1 then [e] + s
    else
      assert s == [s[0]] + s[1..];
      [s[0]] + Insert(e, s[1..])
  }

  /** Every entry of `Insert(e, s)` is `e` or an entry of `s`. */
  lemma InsertFrom(e: Entry, s: seq<Entry>, x: Entry)
    requires x in Insert(e, s)
    ensures x == e || x in s
  {
    assert x in multiset(Insert(e, s));
  }

  lemma {:induction false} InsertSorted(e: Entry, s: seq<Entry>)
    requires SortedDesc(s)
    ensures SortedDesc(Insert(e, s))
    decreases |s|
  {
    if s != [] && s[0].1 > e.1 {
      var tail := Insert(e, s[1..]);
      assert SortedDesc(s[1..]);
      InsertSorted(e, s[1..]);
      forall j | 0 <= j < |tail| ensures tail[j].1 <= s[0].1 {
        InsertFrom(e, s[1..], tail[j]);
      }
    }
  }

  lemma WithScoreCons(x: Entry, s: seq<Entry>, v: int)
    ensures WithScore([x] + s, v) == (if x.1 == v then [x] else []) + WithScore(s, v)
  {
    assert ([x] + s)[1..] == s;
  }

  /** Inserting `e` into a sorted list puts it ahead of every entry of its own score. */
  lemma {:induction false} InsertKeepsTies(e: Entry, s: seq<Entry>, v: int)
    requires SortedDesc(s)
    ensures WithScore(Insert(e, s), v) == (if e.1 == v then [e] else []) + WithScore(s, v)
    decreases |s|
  {
    if s == [] || s[0].1 <= e.1 {
      WithScoreCons(e, s, v);
    } else {
      var s0, s1 := s[0], s[1..];
      assert s == [s0] + s1;
      assert SortedDesc(s1);
      InsertKeepsTies(e, s1, v);
      assert Insert(e, s) == [s0] + Insert(e, s1);
      WithScoreCons(s0, Insert(e, s1), v);
      WithScoreCons(s0, s1, v);
      if e.1 == v {
        assert s0.1 != v;
      } else if s0.1 == v {
        assert WithScore(Insert(e, s), v) == [s0] + WithScore(s1, v);
      }
    }
  }

  /**
   * `sorted(items, key=lambda x: x[1], reverse=True)`: a permutation, highest score first,
   * and, since Python's sort is stable even when reversed, entries of equal score in input order.
   */
  function SortByScoreDesc(s: seq<Entry>): (r: seq<Entry>)
    ensures multiset(r) == multiset(s)
    ensures SortedDesc(r)
    ensures forall v :: WithScore(r, v) == WithScore(s, v)
    decreases |s|
  {
    if s == [] then []
    else
      var rest := SortByScoreDesc(s[1..]);
      assert s == [s[0]] + s[1..];
      InsertSorted(s[0], rest);
      forall v ensures WithScore(Insert(s[0], rest), v) == WithScore(s, v) {
        InsertKeepsTies(s[0], rest, v);
      }
      Insert(s[0], rest)
  }

  /** Each record's key paired with its score, in the input's order. */
  function ScoreTable(results: Dict<Record>, required: set<string>, mode: MatchMode): (t: seq<Entry>)
    ensures |t| == |results|
    decreases |results|
  {
    if results == [] then []
    else
      var n := |results| - 1;
      ScoreTable(results[..n], required, mode) + [(results[n].0, Score(results[n].1, required, mode))]
  }

  /** Entry `i` of the table is record `i`'s key with that record's score. */
  lemma {:induction false} ScoreTableIndex(results: Dict<Record>, required: set<string>, mode: MatchMode)
    ensures forall i :: 0 <= i < |results| ==>
      ScoreTable(results, required, mode)[i] == (results[i].0, Score(results[i].1, required, mode))
    decreases |results|
  {
    if results != [] {
      var n := |results| - 1;
      ScoreTableIndex(results[..n], required, mode);
      assert forall i :: 0 <= i < n ==> results[..n][i] == results[i];
    }
  }

  /** One more record adds its fresh key, with its score, at the end of the table. */
  lemma ScoreTableStep(results: Dict<Record>, i: nat, required: set<string>, mode: MatchMode)
    requires KeysDistinct(results) && i < |results|
    ensures ScoreTable(results[..i + 1], required, mode) ==
      Put(ScoreTable(results[..i], required, mode), results[i].0, Score(results[i].1, required, mode))
  {
    var scores := ScoreTable(results[..i], required, mode);
    var name := results[i].0;
    assert name !in Keys(scores) by {
      ScoreTableIndex(results[..i], required, mode);
      KeysMembers(scores, name);
      assert forall j :: 0 <= j < i ==> results[..i][j] == results[j];
    }
    PutProperties(scores, name, Score(results[i].1, required, mode));
    assert results[..i + 1][..i] == results[..i];
  }

  /** The table has the records' keys, so distinct keys stay distinct. */
  lemma ScoreTableKeysDistinct(results: Dict<Record>, required: set<string>, mode: MatchMode)
    requires KeysDistinct(results)
    ensures KeysDistinct(ScoreTable(results, required, mode))
  {
    ScoreTableIndex(results, required, mode);
  }

  /** `rank_resumes`: fill the score dictionary record by record, then sort it. */
  method RankResumes(results: Dict<Record>, required: set<string>, mode: MatchMode) returns (ranked: seq<Entry>)
    requires KeysDistinct(results)
    ensures |ranked| == |results| && KeysDistinct(ranked)
    ensures forall e :: e in ranked <==> e in ScoreTable(results, required, mode)
    ensures SortedDesc(ranked)
    ensures forall v :: WithScore(ranked, v) == WithScore(ScoreTable(results, required, mode), v)
  {
    var scores: Dict<int> := [];
    for i := 0 to |results|
      invariant scores == ScoreTable(results[..i], required, mode)
    {
      var name := results[i].0;
      var score := CalculateScore(results[i].1, required, mode);
      ScoreTableStep(results, i, required, mode);
      scores := Put(scores, name, score);
    }
    assert results[..|results|] == results;
    ScoreTableKeysDistinct(results, required, mode);
    ranked := SortByScoreDesc(scores);
    PermutationKeepsKeysDistinct(scores, ranked);
    assert forall e :: e in ranked <==> e in multiset(scores);
  }
}
