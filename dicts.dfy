/** Python's insertion-ordered `dict` with string keys, as a sequence of entries. */
module Dicts {

  type Dict<V> = seq<(string, V)>

  function Keys<V>(d: Dict<V>): (ks: seq<string>)
    ensures |ks| == |d|
    decreases |d|
  {
    if d == [] then [] else Keys(d[..|d| - 1]) + [d[|d| - 1].0]
  }

  /** The `i`-th key is the key of the `i`-th entry. */
  lemma {:induction false} KeysIndex<V>(d: Dict<V>)
    ensures forall i :: 0 <= i < |d| ==> Keys(d)[i] == d[i].0
    decreases |d|
  {
    if d != [] {
      var n := |d| - 1;
      KeysIndex(d[..n]);
      assert forall i :: 0 <= i < n ==> d[..n][i] == d[i];
    }
  }

  /** A key is present exactly when some entry carries it. */
  lemma KeysMembers<V>(d: Dict<V>, k: string)
    ensures k in Keys(d) <==> exists i :: 0 <= i < |d| && d[i].0 == k
  {
    KeysIndex(d);
  }

  predicate KeysDistinct<V>(d: Dict<V>) {
    forall i, j :: 0 <= i < j < |d| ==> d[i].0 != d[j].0
  }

  /** Where key `k` sits. */
  function IndexOfKey<V>(d: Dict<V>, k: string): (i: nat)
    requires k in Keys(d)
    ensures i < |d| && d[i].0 == k
    decreases |d|
  {
    var n := |d| - 1;
    if d[n].0 == k then n
    else
      assert d[..n][IndexOfKey(d[..n], k)] == d[IndexOfKey(d[..n], k)];
      IndexOfKey(d[..n], k)
  }

  /** Replacing an entry's value leaves the keys alone. */
  lemma KeysUpdate<V>(d: Dict<V>, i: nat, v: V)
    requires i < |d|
    ensures Keys(d[i := (d[i].0, v)]) == Keys(d)
  {
    KeysIndex(d);
    KeysIndex(d[i := (d[i].0, v)]);
  }

  /** `d[k] = v`: an existing key keeps its place and takes the new value; a new key goes last. */
  function Put<V>(d: Dict<V>, k: string, v: V): Dict<V> {
    if k in Keys(d) then d[IndexOfKey(d, k) := (k, v)] else d + [(k, v)]
  }

  /**
   * After `d[k] = v`, the dictionary maps `k` to `v`, every other entry is one of `d`'s, the
   * key order is `d`'s with `k` appended if it was new, and keys stay distinct.
   */
  lemma PutProperties<V>(d: Dict<V>, k: string, v: V)
    ensures k !in Keys(d) ==> Put(d, k, v) == d + [(k, v)]
    ensures k in Keys(d) ==> Keys(Put(d, k, v)) == Keys(d)
    ensures KeysDistinct(d) ==> KeysDistinct(Put(d, k, v))
    ensures (k, v) in Put(d, k, v)
    ensures forall i :: 0 <= i < |Put(d, k, v)| && Put(d, k, v)[i].0 != k ==> Put(d, k, v)[i] in d
  {
    var r := Put(d, k, v);
    if k in Keys(d) {
      var i := IndexOfKey(d, k);
      KeysUpdate(d, i, v);
      assert forall j :: 0 <= j < |d| ==> r[j].0 == d[j].0 && (j != i ==> r[j] == d[j]);
    } else {
      KeysMembers(d, k);
    }
  }

  lemma KeysAppend<V>(d: Dict<V>, k: string, v: V)
    ensures Keys(d + [(k, v)]) == Keys(d) + [k]
  {
    assert (d + [(k, v)])[..|d|] == d;
  }

  lemma KeysPrefix<V>(d: Dict<V>, i: nat)
    requires i < |d|
    ensures Keys(d[..i + 1]) == Keys(d[..i]) + [d[i].0]
  {
    assert d[..i + 1][..i] == d[..i];
  }

  /** An entry list without repeated keys holds each entry once. */
  lemma {:induction false} DistinctKeysCountOnce<V>(d: Dict<V>, e: (string, V))
    requires KeysDistinct(d)
    ensures multiset(d)[e] <= 1
  {
    if d != [] {
      assert d == [d[0]] + d[1..];
      assert KeysDistinct(d[1..]);
      DistinctKeysCountOnce(d[1..], e);
      if e == d[0] {
        assert e !in d[1..];
      }
    }
  }

  /** Reordering an entry list without repeated keys cannot repeat a key. */
  lemma PermutationKeepsKeysDistinct<V>(a: Dict<V>, b: Dict<V>)
    requires KeysDistinct(a) && multiset(a) == multiset(b)
    ensures KeysDistinct(b)
  {
    forall i, j | 0 <= i < j < |b| ensures b[i].0 != b[j].0 {
      if b[i] == b[j] {
        assert b == b[..j] + b[j..];
        assert b[i] in b[..j] && b[j] in b[j..];
        assert multiset(b)[b[i]] == multiset(b[..j])[b[i]] + multiset(b[j..])[b[i]];
        DistinctKeysCountOnce(a, b[i]);
      } else {
        assert b[i] in multiset(a) && b[j] in multiset(a);
      }
    }
  }
}
