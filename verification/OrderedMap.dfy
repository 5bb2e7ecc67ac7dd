/**
 A JavaScript `Map`, whose iteration order is insertion order: a sequence of entries with
 distinct keys. Setting an existing key keeps its position, setting a new one appends.
 */
module OrderedMap {
  import opened Wrappers

  datatype Entry<+K, +V> = Entry(key: K, val: V)

  ghost predicate Distinct<K, V>(m: seq<Entry<K, V>>) {
    forall i, j :: 0 <= i < j < |m| ==> m[i].key != m[j].key
  }

  /** First position at or after `from` that holds the key, or the length of the map. */
  function IndexFrom<K(==), V>(m: seq<Entry<K, V>>, k: K, from: nat): (i: nat)
    requires from <= |m|
    ensures from <= i <= |m|
    ensures i < |m| ==> m[i].key == k
    ensures forall j :: from <= j < i ==> m[j].key != k
    decreases |m| - from
  {
    if from == |m| || m[from].key == k then from else IndexFrom(m, k, from + 1)
  }

  function IndexOf<K(==), V>(m: seq<Entry<K, V>>, k: K): nat {
    IndexFrom(m, k, 0)
  }

  predicate Has<K(==), V>(m: seq<Entry<K, V>>, k: K) {
    IndexOf(m, k) < |m|
  }

  function Get<K(==), V>(m: seq<Entry<K, V>>, k: K): Option<V> {
    var i := IndexOf(m, k);
    if i < |m| then Some(m[i].val) else None
  }

  function Put<K(==), V>(m: seq<Entry<K, V>>, k: K, v: V): (r: seq<Entry<K, V>>)
    ensures Distinct(m) ==> Distinct(r)
  {
    var i := IndexOf(m, k);
    if i < |m| then m[i := Entry(k, v)] else m + [Entry(k, v)]
  }

  function Remove<K(==), V>(m: seq<Entry<K, V>>, k: K): (r: seq<Entry<K, V>>)
    ensures Distinct(m) ==> Distinct(r)
  {
    var i := IndexOf(m, k);
    if i < |m| then m[..i] + m[i + 1..] else m
  }

  /** With distinct keys the position of an entry is found from its key. */
  lemma IndexIsPosition<K, V>(m: seq<Entry<K, V>>, i: nat)
    requires Distinct(m) && i < |m|
    ensures IndexOf(m, m[i].key) == i
  {
  }

  /** Deleting the oldest key drops the first entry. */
  lemma RemoveOldest<K, V>(m: seq<Entry<K, V>>)
    requires m != []
    ensures Remove(m, m[0].key) == m[1..]
  {
    assert m[..0] + m[1..] == m[1..];
  }

  /** A key is absent exactly when no entry has it. */
  lemma HasIffMember<K, V>(m: seq<Entry<K, V>>, k: K)
    ensures Has(m, k) <==> exists i :: 0 <= i < |m| && m[i].key == k
  {
  }

  /** With distinct keys, looking a key up means finding its entry. */
  lemma GetIffMember<K, V>(m: seq<Entry<K, V>>, k: K, v: V)
    requires Distinct(m)
    ensures Get(m, k) == Some(v) <==> Entry(k, v) in m
  {
    if Entry(k, v) in m {
      var i :| 0 <= i < |m| && m[i] == Entry(k, v);
      IndexIsPosition(m, i);
    }
  }

  /** Setting a key twice is setting it to the second value. */
  lemma PutTwice<K, V>(m: seq<Entry<K, V>>, k: K, v: V, w: V)
    requires !Has(m, k)
    ensures Put(Put(m, k, v), k, w) == m + [Entry(k, w)]
    ensures IndexOf(Put(m, k, v), k) == |m|
  {
    var p := Put(m, k, v);
    assert forall i :: 0 <= i < |m| ==> p[i] == m[i];
    assert p[|m|].key == k;
    assert p[|m| := Entry(k, w)] == m + [Entry(k, w)];
  }

  /** Maps with the same keys in the same order find a key at the same position. */
  lemma {:induction false} SameKeysSameIndex<K, V, W>(m: seq<Entry<K, V>>, m': seq<Entry<K, W>>, k: K)
    requires |m| == |m'| && forall i :: 0 <= i < |m| ==> m[i].key == m'[i].key
    ensures IndexOf(m, k) == IndexOf(m', k)
  {
    var i, i' := IndexOf(m, k), IndexOf(m', k);
    assert i < |m| ==> m'[i].key == k;
    assert i' < |m| ==> m[i'].key == k;
  }

  /** Setting one key does not change what another one holds. */
  lemma {:induction false} GetAfterPut<K, V>(m: seq<Entry<K, V>>, k: K, v: V, other: K)
    requires Distinct(m)
    ensures Get(Put(m, k, v), other) == if other == k then Some(v) else Get(m, other)
  {
    var p := Put(m, k, v);
    var j := IndexOf(m, k);
    if other == k {
      assert p[j] == Entry(k, v);
      IndexIsPosition(p, j);
    } else {
      var i := IndexOf(m, other);
      if i < |m| {
        assert p[i] == m[i];
        IndexIsPosition(p, i);
      } else {
        assert forall l :: 0 <= l < |p| ==> p[l].key != other;
      }
    }
  }

  /** Dropping the oldest entries forgets their keys and no other. */
  lemma {:induction false} GetAfterDrop<K, V>(m: seq<Entry<K, V>>, n: nat, k: K)
    requires Distinct(m) && n <= |m|
    ensures Get(m[n..], k) == if n <= IndexOf(m, k) then Get(m, k) else None
  {
    var i, r := IndexOf(m, k), m[n..];
    if n <= i < |m| {
      assert r[i - n] == m[i];
      IndexIsPosition(r, i - n);
    } else {
      assert forall l :: 0 <= l < |r| ==> r[l].key == m[l + n].key && r[l].key != k;
    }
  }

  /** Setting an existing key keeps every position; setting a new one adds it at the end. */
  lemma {:induction false} PutKeepsPositions<K, V>(m: seq<Entry<K, V>>, k: K, v: V)
    requires Distinct(m)
    ensures var p := Put(m, k, v);
            && |m| <= |p| && (forall i :: 0 <= i < |m| ==> p[i] == if m[i].key == k then Entry(k, v) else m[i])
            && ((exists i :: 0 <= i < |m| && m[i].key == k) ==> |p| == |m|)
            && ((forall i :: 0 <= i < |m| ==> m[i].key != k) ==> p == m + [Entry(k, v)])
  {
    if i :| 0 <= i < |m| && m[i].key == k { IndexIsPosition(m, i); }
  }

  /** Removing a key takes its entry out and keeps the others in order. */
  lemma {:induction false} RemoveKeepsOthers<K, V>(m: seq<Entry<K, V>>, i: nat)
    requires Distinct(m) && i < |m|
    ensures Remove(m, m[i].key) == m[..i] + m[i + 1..]
  {
    IndexIsPosition(m, i);
  }
}
