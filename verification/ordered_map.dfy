/**
 * An insertion-ordered map (Java's LinkedHashMap) represented as a sequence of
 * key/value pairs. `Put` replaces the value of a present key in place and
 * appends an absent key at the end, exactly as LinkedHashMap.put does.
 */
module OrderedMap {
  import opened Wrappers

  /** The keys of `m` in insertion order. */
  function Keys<K, V>(m: seq<(K, V)>): (ks: seq<K>)
    ensures |ks| == |m|
    ensures forall i :: 0 <= i < |m| ==> ks[i] == m[i].0
  {
    seq(|m|, i requires 0 <= i < |m| => m[i].0)
  }

  predicate Distinct<K(==)>(ks: seq<K>) {
    forall i, j :: 0 <= i < j < |ks| ==> ks[i] != ks[j]
  }

  /** The position of the first occurrence of `k`. */
  function IndexOf<K(==)>(ks: seq<K>, k: K): (i: nat)
    requires k in ks
    ensures i < |ks| && ks[i] == k
    ensures forall j :: 0 <= j < i ==> ks[j] != k
  {
    if ks[0] == k then 0 else 1 + IndexOf(ks[1..], k)
  }

  /** LinkedHashMap.get: the value stored under `k`, if any. */
  function Get<K(==), V>(m: seq<(K, V)>, k: K): (r: Option<V>)
    ensures r.Some? <==> k in Keys(m)
    ensures r.Some? ==> (k, r.value) in m
  {
    if k in Keys(m) then Some(m[IndexOf(Keys(m), k)].1) else None
  }

  /** LinkedHashMap.put. */
  function Put<K(==), V>(m: seq<(K, V)>, k: K, v: V): seq<(K, V)> {
    if k in Keys(m) then m[IndexOf(Keys(m), k) := (k, v)] else m + [(k, v)]
  }

  /** Put never reorders keys: a present key keeps its place, an absent one goes last. */
  lemma PutKeys<K, V>(m: seq<(K, V)>, k: K, v: V)
    ensures Keys(Put(m, k, v)) == if k in Keys(m) then Keys(m) else Keys(m) + [k]
  {
    var r := Put(m, k, v);
    if k in Keys(m) {
      assert Keys(r) == Keys(m);
    } else {
      assert Keys(r) == Keys(m) + [k];
    }
  }

  /** Put leaves every other key's value as it was. */
  lemma PutOther<K, V>(m: seq<(K, V)>, k: K, v: V, k': K)
    requires k' != k
    ensures Get(Put(m, k, v), k') == Get(m, k')
  {
    var r := Put(m, k, v);
    PutKeys(m, k, v);
    if k' in Keys(m) {
      var a := IndexOf(Keys(m), k');
      var b := IndexOf(Keys(r), k');
      assert Keys(r)[a] == k';
      assert b == a;
      assert r[a] == m[a];
    }
  }

  /** With distinct keys in `ms`, the key after a prefix `fs` of its keys is not among them. */
  lemma NextKeyIsNew<K, V, W>(fs: seq<(K, V)>, ms: seq<(K, W)>)
    requires |fs| < |ms| && Distinct(Keys(ms))
    requires forall i :: 0 <= i < |fs| ==> fs[i].0 == ms[i].0
    ensures ms[|fs|].0 !in Keys(fs)
  {
    forall i | 0 <= i < |fs| ensures Keys(fs)[i] != ms[|fs|].0 {
      assert Keys(ms)[i] != Keys(ms)[|fs|];
    }
  }

  /** Put keeps keys pairwise distinct; afterwards `k` maps to `v` and every other key as before. */
  lemma PutDistinct<K, V>(m: seq<(K, V)>, k: K, v: V)
    requires Distinct(Keys(m))
    ensures Distinct(Keys(Put(m, k, v)))
    ensures Get(Put(m, k, v), k) == Some(v)
    ensures forall k' :: k' != k ==> Get(Put(m, k, v), k') == Get(m, k')
  {
    forall k' | k' != k ensures Get(Put(m, k, v), k') == Get(m, k') {
      PutOther(m, k, v, k');
    }
    var r := Put(m, k, v);
    PutKeys(m, k, v);
    var p := IndexOf(Keys(r), k);
    if k in Keys(m) {
      assert Keys(r)[IndexOf(Keys(m), k)] == k;
    } else {
      assert Keys(r)[|m|] == k;
    }
  }

  /** On a map with distinct keys, Get finds the one entry holding `k`. */
  lemma GetAt<K, V>(m: seq<(K, V)>, i: nat)
    requires Distinct(Keys(m)) && i < |m|
    ensures Get(m, m[i].0) == Some(m[i].1)
  {
    assert Keys(m)[i] == m[i].0;
  }
}
