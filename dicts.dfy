/**
 * Python dictionaries as association lists: insertion order is kept, a key
 * that is set again keeps its place, and a new key goes to the end.
 */
module Dicts {
  import opened Wrappers

  type Dict<K, V> = seq<(K, V)>

  /** The keys, in insertion order. */
  function Keys<K, V>(d: Dict<K, V>): (r: seq<K>)
    ensures |r| == |d| && forall i :: 0 <= i < |d| ==> r[i] == d[i].0
  {
    seq(|d|, i requires 0 <= i < |d| => d[i].0)
  }

  /** No key appears twice. */
  predicate DistinctKeys<K(==), V>(d: Dict<K, V>) {
    forall i, j :: 0 <= i < j < |d| ==> d[i].0 != d[j].0
  }

  /** Python's `d.get(k)`. */
  function Get<K(==), V>(d: Dict<K, V>, k: K): (r: Option<V>)
    ensures r.None? <==> k !in Keys(d)
    ensures r.Some? ==> exists i :: 0 <= i < |d| && d[i] == (k, r.value)
  {
    if |d| == 0 then None
    else if d[|d| - 1].0 == k then Some(d[|d| - 1].1)
    else Get(d[..|d| - 1], k)
  }

  /** In a dictionary without repeated keys, looking up an entry's key finds that entry. */
  lemma {:induction false} GetEntry<K, V>(d: Dict<K, V>, i: nat)
    requires DistinctKeys(d) && i < |d|
    ensures Get(d, d[i].0) == Some(d[i].1)
  {
    if i < |d| - 1 {
      GetEntry(d[..|d| - 1], i);
    }
  }

  /** Python's `d[k] = v`. */
  function Set<K(==), V>(d: Dict<K, V>, k: K, v: V): (r: Dict<K, V>)
    ensures |r| == if k in Keys(d) then |d| else |d| + 1
    ensures forall i :: 0 <= i < |d| ==> r[i].0 == d[i].0
    ensures k !in Keys(d) ==> r[|d|] == (k, v)
  {
    if |d| == 0 then [(k, v)]
    else if d[|d| - 1].0 == k then d[..|d| - 1] + [(k, v)]
    else if k in Keys(d) then
      assert k in Keys(d[..|d| - 1]);
      Set(d[..|d| - 1], k, v) + [d[|d| - 1]]
    else d + [(k, v)]
  }

  /** After `d[k] = v`, `k` maps to `v` and every other key keeps its value. */
  lemma {:induction false} GetSet<K, V>(d: Dict<K, V>, k: K, v: V, k': K)
    requires DistinctKeys(d)
    ensures Get(Set(d, k, v), k') == if k' == k then Some(v) else Get(d, k')
  {
    if |d| > 0 && d[|d| - 1].0 != k {
      GetSet(d[..|d| - 1], k, v, k');
    }
  }

  /** Setting a key keeps the keys distinct. */
  lemma SetDistinct<K, V>(d: Dict<K, V>, k: K, v: V)
    requires DistinctKeys(d)
    ensures DistinctKeys(Set(d, k, v))
  {
    var r := Set(d, k, v);
    forall i, j | 0 <= i < j < |r| ensures r[i].0 != r[j].0 {
      if j == |d| {
        assert r[i].0 == Keys(d)[i];
      }
    }
  }

  /** The sum of a counter dictionary's values. */
  function Total<K>(d: Dict<K, nat>): nat {
    if |d| == 0 then 0 else Total(d[..|d| - 1]) + d[|d| - 1].1
  }

  /** Setting a key changes the total by the difference between its new and its old value. */
  lemma {:induction false} TotalSet<K>(d: Dict<K, nat>, k: K, v: nat)
    ensures Total(Set(d, k, v)) == Total(d) - Get(d, k).GetOr(0) + v
  {
    if |d| > 0 {
      var init := d[..|d| - 1];
      var last := d[|d| - 1];
      if last.0 == k {
        assert (init + [(k, v)])[..|d| - 1] == init;
      } else if k in Keys(d) {
        TotalSet(init, k, v);
        var r := Set(init, k, v);
        assert (r + [last])[..|r|] == r;
      } else {
        assert (d + [(k, v)])[..|d|] == d;
      }
    }
  }

  /** Python's `d[k] = d.get(k, 0) + 1`. */
  function Increment<K(==)>(d: Dict<K, nat>, k: K): Dict<K, nat> {
    Set(d, k, Get(d, k).GetOr(0) + 1)
  }

  /** Incrementing adds one to the key's count, leaves the others, and adds one to the total. */
  lemma IncrementCounts<K>(d: Dict<K, nat>, k: K, k': K)
    requires DistinctKeys(d)
    ensures DistinctKeys(Increment(d, k))
    ensures Get(Increment(d, k), k') == if k' == k then Some(Get(d, k).GetOr(0) + 1) else Get(d, k')
    ensures Total(Increment(d, k)) == Total(d) + 1
  {
    var v := Get(d, k).GetOr(0) + 1;
    assert Increment(d, k) == Set(d, k, v);
    SetDistinct(d, k, v);
    GetSet(d, k, v, k');
    TotalSet(d, k, v);
  }
}
