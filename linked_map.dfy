/**
 * An insertion-ordered map (`LinkedHashMap`): the keys in the order they
 * were first put, and the entries. Putting an existing key replaces its
 * value and keeps its position; putting a new key appends it.
 */
module LinkedMaps {
  datatype LinkedMap<K(==,!new), V> = LinkedMap(keys: seq<K>, entries: map<K, V>)

  /** The keys are listed once each, and exactly the keys of the entries are listed. */
  ghost predicate Valid<K(!new), V>(lm: LinkedMap<K, V>) {
    && (forall i, j :: 0 <= i < j < |lm.keys| ==> lm.keys[i] != lm.keys[j])
    && (forall k :: k in lm.entries <==> k in lm.keys)
  }

  function Empty<K(==,!new), V>(): (lm: LinkedMap<K, V>)
    ensures Valid(lm) && lm.keys == []
  {
    LinkedMap([], map[])
  }

  /** `put(k, v)`. */
  function Put<K(==,!new), V>(lm: LinkedMap<K, V>, k: K, v: V): (r: LinkedMap<K, V>)
    ensures Valid(lm) ==> Valid(r)
    ensures r.entries == lm.entries[k := v]
    ensures k in lm.entries ==> r.keys == lm.keys
    ensures k !in lm.entries ==> r.keys == lm.keys + [k]
  {
    LinkedMap(if k in lm.entries then lm.keys else lm.keys + [k], lm.entries[k := v])
  }

  /** The pairs put one after the other, in order. */
  function PutAll<K(==,!new), V>(lm: LinkedMap<K, V>, kvs: seq<(K, V)>): LinkedMap<K, V>
    decreases |kvs|
  {
    if kvs == [] then lm
    else
      var n := |kvs| - 1;
      Put(PutAll(lm, kvs[..n]), kvs[n].0, kvs[n].1)
  }

  /** Putting a list of pairs keeps the map valid and the old keys first, in their order. */
  lemma {:induction false} PutAllKeepsOrder<K(!new), V>(lm: LinkedMap<K, V>, kvs: seq<(K, V)>)
    requires Valid(lm)
    ensures var r := PutAll(lm, kvs);
      Valid(r) && |lm.keys| <= |r.keys| && r.keys[..|lm.keys|] == lm.keys
    decreases |kvs|
  {
    if kvs != [] {
      PutAllKeepsOrder(lm, kvs[..|kvs| - 1]);
    }
  }

  /** A key is present exactly when it was before or some pair puts it. */
  lemma {:induction false} PutAllKeys<K(!new), V>(lm: LinkedMap<K, V>, kvs: seq<(K, V)>, k: K)
    ensures k in PutAll(lm, kvs).entries <==> k in lm.entries || exists i :: 0 <= i < |kvs| && kvs[i].0 == k
    decreases |kvs|
  {
    if kvs != [] {
      var n := |kvs| - 1;
      PutAllKeys(lm, kvs[..n], k);
      if k != kvs[n].0 && k !in lm.entries && k in PutAll(lm, kvs).entries {
        var i :| 0 <= i < n && kvs[..n][i].0 == k;
        assert kvs[i].0 == k;
      }
      if exists i :: 0 <= i < |kvs| && kvs[i].0 == k {
        var i :| 0 <= i < |kvs| && kvs[i].0 == k;
        if i < n {
          assert kvs[..n][i].0 == k;
        }
      }
    }
  }

  /** The last pair for a key decides its value. */
  lemma {:induction false} PutAllLastWins<K(!new), V>(lm: LinkedMap<K, V>, kvs: seq<(K, V)>, i: nat)
    requires i < |kvs| && forall j :: i < j < |kvs| ==> kvs[j].0 != kvs[i].0
    ensures var r := PutAll(lm, kvs); kvs[i].0 in r.entries && r.entries[kvs[i].0] == kvs[i].1
    decreases |kvs|
  {
    var n := |kvs| - 1;
    if i < n {
      assert forall j :: i < j < n ==> kvs[..n][j].0 != kvs[..n][i].0;
      PutAllLastWins(lm, kvs[..n], i);
    }
  }

  /** A key no pair puts keeps its value. */
  lemma {:induction false} PutAllUntouched<K(!new), V>(lm: LinkedMap<K, V>, kvs: seq<(K, V)>, k: K)
    requires k in lm.entries && forall i :: 0 <= i < |kvs| ==> kvs[i].0 != k
    ensures k in PutAll(lm, kvs).entries && PutAll(lm, kvs).entries[k] == lm.entries[k]
    decreases |kvs|
  {
    if kvs != [] {
      var n := |kvs| - 1;
      assert forall i :: 0 <= i < n ==> kvs[..n][i].0 != k;
      PutAllUntouched(lm, kvs[..n], k);
    }
  }

  /** Putting one more pair is putting it after the others. */
  lemma PutAllSnoc<K(!new), V>(lm: LinkedMap<K, V>, kvs: seq<(K, V)>, kv: (K, V))
    ensures PutAll(lm, kvs + [kv]) == Put(PutAll(lm, kvs), kv.0, kv.1)
  {
    assert (kvs + [kv])[..|kvs|] == kvs;
  }
}
