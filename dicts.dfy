/** Python's `dict`, which keeps its keys in insertion order: assigning to a key that
    is already present replaces its value where it stands, a new key goes last. */
module Dicts {
  import opened Wrappers

  type Dict<K, V> = seq<(K, V)>

  /** `list(d.keys())`. */
  function Keys<K, V>(d: Dict<K, V>): (ks: seq<K>)
    ensures |ks| == |d|
    ensures forall i :: 0 <= i < |d| ==> ks[i] == d[i].0
  {
    if d == [] then [] else [d[0].0] + Keys(d[1..])
  }

  ghost predicate DistinctKeys<K, V>(d: Dict<K, V>) {
    forall i, j :: 0 <= i < j < |d| ==> d[i].0 != d[j].0
  }

  /** `d.get(k)`. */
  function Get<K(==), V>(d: Dict<K, V>, k: K): (r: Option<V>)
    ensures r.None? <==> k !in Keys(d)
    ensures r.Some? ==> (k, r.value) in d
  {
    if d == [] then None
    else if d[0].0 == k then Some(d[0].1)
    else Get(d[1..], k)
  }

  /** `d[k] = v`. */
  function Put<K(==), V>(d: Dict<K, V>, k: K, v: V): (r: Dict<K, V>)
    ensures Get(r, k) == Some(v)
    ensures |r| == if k in Keys(d) then |d| else |d| + 1
  {
    if d == [] then [(k, v)]
    else if d[0].0 == k then [(k, v)] + d[1..]
    else
      assert Keys(d) == [d[0].0] + Keys(d[1..]);
      [d[0]] + Put(d[1..], k, v)
  }

  /** Assigning to `k` leaves every other key's value as it was. */
  lemma {:induction false} PutOther<K, V>(d: Dict<K, V>, k: K, v: V, k': K)
    requires k' != k
    ensures Get(Put(d, k, v), k') == Get(d, k')
  {
    if d != [] && d[0].0 != k {
      PutOther(d[1..], k, v, k');
      assert ([d[0]] + Put(d[1..], k, v))[1..] == Put(d[1..], k, v);
    } else if d != [] {
      assert ([(k, v)] + d[1..])[1..] == d[1..];
    }
  }

  /** Assigning to a present key keeps the key order; a new key goes last. */
  lemma {:induction false} PutKeys<K, V>(d: Dict<K, V>, k: K, v: V)
    ensures Keys(Put(d, k, v)) == if k in Keys(d) then Keys(d) else Keys(d) + [k]
  {
    if d != [] {
      assert Keys(d) == [d[0].0] + Keys(d[1..]);
      if d[0].0 != k {
        PutKeys(d[1..], k, v);
        KeysCons(d[0], Put(d[1..], k, v));
      } else {
        KeysCons((k, v), d[1..]);
      }
    }
  }

  /** The keys of an entry followed by a dict. */
  lemma KeysCons<K, V>(e: (K, V), d: Dict<K, V>)
    ensures Keys([e] + d) == [e.0] + Keys(d)
  {
    assert ([e] + d)[1..] == d;
  }

  /** Assigning to a dict with distinct keys keeps its keys distinct. */
  lemma PutKeepsDistinct<K, V>(d: Dict<K, V>, k: K, v: V)
    requires DistinctKeys(d)
    ensures DistinctKeys(Put(d, k, v))
  {
    var r := Put(d, k, v);
    PutKeys(d, k, v);
    forall i, j | 0 <= i < j < |r| ensures r[i].0 != r[j].0 {
      assert Keys(r)[i] == r[i].0 && Keys(r)[j] == r[j].0;
      if j < |d| {
        assert Keys(d)[i] == d[i].0 && Keys(d)[j] == d[j].0;
      } else {
        assert k !in Keys(d);
      }
    }
  }

  /** `del d[k]` for a key that is present. */
  function Remove<K(==), V>(d: Dict<K, V>, k: K): (r: Dict<K, V>)
    ensures Get(r, k) == None
    ensures |r| <= |d|
  {
    if d == [] then []
    else if d[0].0 == k then Remove(d[1..], k)
    else
      var rest := Remove(d[1..], k);
      assert Keys([d[0]] + rest) == [d[0].0] + Keys(rest);
      [d[0]] + rest
  }

  /** Deleting `k` leaves every other key's value as it was. */
  lemma {:induction false} RemoveOther<K, V>(d: Dict<K, V>, k: K, k': K)
    requires k' != k
    ensures Get(Remove(d, k), k') == Get(d, k')
  {
    if d != [] {
      RemoveOther(d[1..], k, k');
      if d[0].0 != k {
        assert ([d[0]] + Remove(d[1..], k))[1..] == Remove(d[1..], k);
      }
    }
  }
}
