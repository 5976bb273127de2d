/** PHP arrays with string-like keys, as association lists. PHP arrays are
    ordered: a write to an existing key keeps its position, a write to a new
    key appends it. The serialised output shows this order, so the model keeps
    it instead of using Dafny's unordered `map`. */
module Assoc {
  import opened Wrappers

  type Assoc<K, V> = seq<(K, V)>

  /** The keys, in array order. */
  function Keys<K, V>(m: Assoc<K, V>): (r: seq<K>)
    ensures |r| == |m|
  {
    if |m| == 0 then [] else [m[0].0] + Keys(m[1..])
  }

  /** The i-th key is the key of the i-th entry. */
  lemma {:induction false} KeyAt<K, V>(m: Assoc<K, V>, i: nat)
    requires i < |m|
    ensures Keys(m)[i] == m[i].0
  {
    if i > 0 {
      KeyAt(m[1..], i - 1);
    }
  }

  /** `$m[$k]`: the value stored under `k`, or `None` (PHP's `null`). */
  function Find<K(==, !new), V>(m: Assoc<K, V>, k: K): (r: Option<V>)
  {
    if |m| == 0 then None
    else if m[0].0 == k then Some(m[0].1)
    else Find(m[1..], k)
  }

  /** A key is found exactly when it is one of the array's keys. */
  lemma {:induction false} FindIffKey<K(!new), V>(m: Assoc<K, V>, k: K)
    ensures Find(m, k).Some? <==> k in Keys(m)
  {
    if |m| > 0 {
      FindIffKey(m[1..], k);
      assert Keys(m) == [m[0].0] + Keys(m[1..]);
    }
  }

  /** `$m[$k] = $v`: overwrite in place, or append a new key at the end. */
  function Put<K(==, !new), V>(m: Assoc<K, V>, k: K, v: V): (r: Assoc<K, V>)
    ensures Find(r, k) == Some(v)
    ensures forall k' :: k' != k ==> Find(r, k') == Find(m, k')
  {
    if |m| == 0 then [(k, v)]
    else if m[0].0 == k then [(k, v)] + m[1..]
    else [m[0]] + Put(m[1..], k, v)
  }

  /** A write keeps the key order; a new key goes last. */
  lemma {:induction false} PutKeys<K(!new), V>(m: Assoc<K, V>, k: K, v: V)
    ensures k in Keys(m) ==> Keys(Put(m, k, v)) == Keys(m)
    ensures k !in Keys(m) ==> Keys(Put(m, k, v)) == Keys(m) + [k]
  {
    if |m| == 0 {
    } else if m[0].0 == k {
      assert Keys(m)[0] == k;
      assert Put(m, k, v)[1..] == m[1..];
    } else {
      var tail := m[1..];
      PutKeys(tail, k, v);
      assert Put(m, k, v)[1..] == Put(tail, k, v);
    }
  }
}
