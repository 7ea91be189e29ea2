/**
  Python dictionaries as association lists: insertion order is iteration
  order, and assigning to a key that is present keeps its place.
 */
module Dicts {
  import opened Wrappers
  import opened Ordered
  import opened Text

  type Dict<K(==), V> = seq<(K, V)>

  function Keys<K(==), V>(d: Dict<K, V>): (ks: seq<K>)
    ensures |ks| == |d| && forall i :: 0 <= i < |d| ==> ks[i] == d[i].0
  {
    seq(|d|, i requires 0 <= i < |d| => d[i].0)
  }

  /** A key is listed exactly when some pair holds it. */
  lemma KeysMembers<K, V>(d: Dict<K, V>)
    ensures forall k :: k in Keys(d) <==> exists v :: (k, v) in d
  {
    forall k ensures k in Keys(d) <==> exists v :: (k, v) in d {
      if k in Keys(d) {
        var i :| 0 <= i < |d| && Keys(d)[i] == k;
        assert (k, d[i].1) in d;
      }
      if exists v :: (k, v) in d {
        var v :| (k, v) in d;
        var i :| 0 <= i < |d| && d[i] == (k, v);
        assert Keys(d)[i] == k;
      }
    }
  }

  /** What every Python dictionary satisfies: no key twice. */
  predicate UniqueKeys<K(==), V>(d: Dict<K, V>) {
    NoDuplicates(Keys(d))
  }

  /** `d[k]` when `k in d`: the value stored with the first occurrence of `k`. */
  function Get<K(==), V>(d: Dict<K, V>, k: K): (r: Option<V>)
    ensures r.None? <==> k !in Keys(d)
  {
    match IndexOf(Keys(d), k)
    case None => None
    case Some(i) => Some(d[i].1)
  }

  /** The assignment `d[k] = v`: a present key keeps its place, a new key goes last. */
  function Put<K(==), V>(d: Dict<K, V>, k: K, v: V): (r: Dict<K, V>)
    ensures Keys(r) == if k in Keys(d) then Keys(d) else Keys(d) + [k]
  {
    match IndexOf(Keys(d), k)
    case None => d + [(k, v)]
    case Some(i) =>
      var r := d[..i] + [(k, v)] + d[i + 1..];
      assert Keys(r) == Keys(d);
      r
  }

  /** After `d[k] = v`, `d[k]` is `v` and every other key reads as before; no key is doubled. */
  lemma PutGet<K, V>(d: Dict<K, V>, k: K, v: V)
    ensures Get(Put(d, k, v), k) == Some(v)
    ensures forall k' :: k' != k ==> Get(Put(d, k, v), k') == Get(d, k')
    ensures UniqueKeys(d) ==> UniqueKeys(Put(d, k, v))
  {
    var r := Put(d, k, v);
    match IndexOf(Keys(d), k)
    case None =>
      assert Keys(r)[..|d|] == Keys(d);
      forall k' | k' != k ensures Get(r, k') == Get(d, k') {
        match IndexOf(Keys(d), k')
        case None =>
        case Some(j) =>
          assert Keys(r)[..j] == Keys(d)[..j];
          assert IndexOf(Keys(r), k') == Some(j);
      }
    case Some(i) =>
      assert Keys(r)[..i] == Keys(d)[..i];
      forall k' | k' != k ensures Get(r, k') == Get(d, k') {
        match IndexOf(Keys(d), k')
        case None =>
        case Some(j) =>
          assert Keys(r)[..j] == Keys(d)[..j];
          assert IndexOf(Keys(r), k') == Some(j);
      }
  }

  /** The value paired with the last occurrence of `k` among the pairs. */
  function LastValue<K(==), V>(kvs: seq<(K, V)>, k: K): V
    requires k in Keys(kvs)
  {
    match LastIndexOf(Keys(kvs), k)
    case Some(i) => kvs[i].1
  }

  /** Assigning every pair of `kvs` in turn: `d[k] = v` in a loop. */
  function PutAll<K(==), V>(d: Dict<K, V>, kvs: seq<(K, V)>): Dict<K, V>
    decreases |kvs|
  {
    if |kvs| == 0 then d else Put(PutAll(d, kvs[..|kvs| - 1]), kvs[|kvs| - 1].0, kvs[|kvs| - 1].1)
  }

  /** Assigning one more pair after the others. */
  lemma PutAllSnoc<K, V>(d: Dict<K, V>, kvs: seq<(K, V)>, kv: (K, V))
    ensures PutAll(d, kvs + [kv]) == Put(PutAll(d, kvs), kv.0, kv.1)
  {
    assert (kvs + [kv])[..|kvs|] == kvs;
  }

  /** The last value of a key after one more pair: that pair's value if it is for the key, else as before. */
  lemma LastValueSnoc<K, V>(kvs: seq<(K, V)>, kv: (K, V), k: K)
    requires k in Keys(kvs + [kv])
    ensures k == kv.0 ==> LastValue(kvs + [kv], k) == kv.1
    ensures k != kv.0 ==> k in Keys(kvs) && LastValue(kvs + [kv], k) == LastValue(kvs, k)
  {
    var ks := Keys(kvs + [kv]);
    assert ks[..|ks| - 1] == Keys(kvs);
    assert (kvs + [kv])[..|kvs|] == kvs;
  }

  /** One more pair, one more key. */
  lemma KeysSnoc<K, V>(kvs: seq<(K, V)>, kv: (K, V))
    ensures Keys(kvs + [kv]) == Keys(kvs) + [kv.0]
  {
  }

  /** An assignment adds its key when it is absent. */
  lemma PutKeys<K, V>(d: Dict<K, V>, k: K, v: V)
    ensures Keys(Put(d, k, v)) == AddAbsent(Keys(d), k)
  {
  }

  /** The keys after the assignments: the old keys, then the new ones in order of first assignment. */
  lemma {:induction false} PutAllKeys<K, V>(d: Dict<K, V>, kvs: seq<(K, V)>)
    ensures Keys(PutAll(d, kvs)) == AppendAbsent(Keys(d), Keys(kvs))
    decreases |kvs|
  {
    if |kvs| > 0 {
      var init := kvs[..|kvs| - 1];
      var last := kvs[|kvs| - 1];
      assert kvs == init + [last];
      PutAllKeys(d, init);
      KeysSnoc(init, last);
      PutKeys(PutAll(d, init), last.0, last.1);
      AppendAbsentSnoc(Keys(d), Keys(init), last.0);
    }
  }

  /** Assignments keep the keys unique. */
  lemma {:induction false} PutAllUnique<K, V>(d: Dict<K, V>, kvs: seq<(K, V)>)
    requires UniqueKeys(d)
    ensures UniqueKeys(PutAll(d, kvs))
    decreases |kvs|
  {
    if |kvs| > 0 {
      PutAllUnique(d, kvs[..|kvs| - 1]);
      PutGet(PutAll(d, kvs[..|kvs| - 1]), kvs[|kvs| - 1].0, kvs[|kvs| - 1].1);
    }
  }

  /** After the assignments a key holds the value of its last assignment, or its old value when it was not assigned. */
  lemma {:induction false} PutAllGet<K, V>(d: Dict<K, V>, kvs: seq<(K, V)>)
    ensures forall k :: Get(PutAll(d, kvs), k) == if k in Keys(kvs) then Some(LastValue(kvs, k)) else Get(d, k)
    decreases |kvs|
  {
    if |kvs| > 0 {
      var init := kvs[..|kvs| - 1];
      var last := kvs[|kvs| - 1];
      assert kvs == init + [last];
      PutAllGet(d, init);
      PutGet(PutAll(d, init), last.0, last.1);
      assert Keys(kvs) == Keys(init) + [last.0];
      forall k ensures Get(PutAll(d, kvs), k) == if k in Keys(kvs) then Some(LastValue(kvs, k)) else Get(d, k) {
        if k in Keys(kvs) {
          LastValueSnoc(init, last, k);
        }
      }
    }
  }
}
