/** Python dictionaries as the programs use them: entries kept in insertion order, a key
    assigned again keeping its place. */
module Dicts {
  import opened Wrappers

  /** A dictionary as its entries in insertion order. */
  type Table<K, V> = seq<(K, V)>

  predicate UniqueKeys<K(==), V>(d: Table<K, V>) {
    forall i, j | 0 <= i < j < |d| :: d[i].0 != d[j].0
  }

  function Keys<K(==), V>(d: Table<K, V>): (r: set<K>)
    ensures forall i | 0 <= i < |d| :: d[i].0 in r
    ensures forall k | k in r :: exists i | 0 <= i < |d| :: d[i].0 == k
  {
    set i | 0 <= i < |d| :: d[i].0
  }

  /** `d.get(key)`. */
  function Get<K(==), V>(d: Table<K, V>, key: K): Option<V>
    decreases |d|
  {
    if |d| == 0 then None
    else if d[0].0 == key then Some(d[0].1)
    else Get(d[1..], key)
  }

  /** `d[key] = value`: a key already present keeps its place and takes the new value; a new
      key goes last. */
  function Put<K(==), V>(d: Table<K, V>, key: K, value: V): Table<K, V>
    decreases |d|
  {
    if |d| == 0 then [(key, value)]
    else if d[0].0 == key then [(key, value)] + d[1..]
    else [d[0]] + Put(d[1..], key, value)
  }

  /** The value stored under a key is the one found at its entry. */
  lemma {:induction false} GetAt<K, V>(d: Table<K, V>, i: nat)
    requires UniqueKeys(d) && i < |d|
    ensures Get(d, d[i].0) == Some(d[i].1)
    decreases |d|
  {
    if i > 0 {
      assert d[0].0 != d[i].0;
      GetAt(d[1..], i - 1);
    }
  }

  /** A key with a value has an entry. */
  lemma {:induction false} GetFound<K, V>(d: Table<K, V>, key: K)
    requires Get(d, key).Some?
    ensures exists i | 0 <= i < |d| :: d[i].0 == key && d[i].1 == Get(d, key).value
    decreases |d|
  {
    if d[0].0 != key {
      GetFound(d[1..], key);
      var i :| 0 <= i < |d[1..]| && d[1..][i].0 == key && d[1..][i].1 == Get(d, key).value;
      assert d[i + 1] == d[1..][i];
    }
  }

  lemma TailKeys<K, V>(d: Table<K, V>)
    requires |d| > 0
    ensures Keys(d[1..]) <= Keys(d)
  {
    forall i | 0 <= i < |d[1..]| ensures d[1..][i].0 in Keys(d) {
      assert d[1..][i] == d[i + 1];
    }
  }

  lemma {:induction false} GetAbsent<K, V>(d: Table<K, V>, key: K)
    requires key !in Keys(d)
    ensures Get(d, key) == None
    decreases |d|
  {
    if |d| > 0 {
      assert d[0].0 != key;
      TailKeys(d);
      GetAbsent(d[1..], key);
    }
  }

  /** A key already present: the table keeps its length and order, and only that entry's value
      changes. */
  lemma {:induction false} PutPresent<K, V>(d: Table<K, V>, key: K, value: V, i: nat)
    requires UniqueKeys(d) && i < |d| && d[i].0 == key
    ensures |Put(d, key, value)| == |d|
    ensures Put(d, key, value)[i] == (key, value)
    ensures forall j | 0 <= j < |d| && j != i :: Put(d, key, value)[j] == d[j]
    decreases |d|
  {
    if i > 0 {
      assert d[0].0 != key;
      PutPresent(d[1..], key, value, i - 1);
    }
  }

  /** A new key: the entry goes after all others. */
  lemma {:induction false} PutAbsent<K, V>(d: Table<K, V>, key: K, value: V)
    requires key !in Keys(d)
    ensures Put(d, key, value) == d + [(key, value)]
    decreases |d|
  {
    if |d| > 0 {
      assert d[0].0 != key;
      TailKeys(d);
      PutAbsent(d[1..], key, value);
    }
  }

  /** After `d[key] = value` the keys are still unique. */
  lemma PutUnique<K, V>(d: Table<K, V>, key: K, value: V)
    requires UniqueKeys(d)
    ensures UniqueKeys(Put(d, key, value))
  {
    var r := Put(d, key, value);
    if key in Keys(d) {
      var i :| 0 <= i < |d| && d[i].0 == key;
      PutPresent(d, key, value, i);
      assert forall j | 0 <= j < |d| :: r[j].0 == d[j].0;
    } else {
      PutAbsent(d, key, value);
    }
  }

  /** After `d[key] = value` the key is added to the keys. */
  lemma PutKeySet<K, V>(d: Table<K, V>, key: K, value: V)
    requires UniqueKeys(d)
    ensures Keys(Put(d, key, value)) == Keys(d) + {key}
  {
    var r := Put(d, key, value);
    if key in Keys(d) {
      var i :| 0 <= i < |d| && d[i].0 == key;
      PutPresent(d, key, value, i);
      assert forall j | 0 <= j < |d| :: r[j].0 == d[j].0;
    } else {
      PutAbsent(d, key, value);
      assert forall j | 0 <= j < |d| :: r[j] == d[j];
      assert r[|d|].0 == key;
    }
  }

  /** After `d[key] = value` the keys are still unique and the key is added to them. */
  lemma PutKeys<K, V>(d: Table<K, V>, key: K, value: V)
    requires UniqueKeys(d)
    ensures UniqueKeys(Put(d, key, value))
    ensures Keys(Put(d, key, value)) == Keys(d) + {key}
  {
    PutUnique(d, key, value);
    PutKeySet(d, key, value);
  }

  /** After `d[key] = value` the key holds the value. */
  lemma PutGetSame<K, V>(d: Table<K, V>, key: K, value: V)
    requires UniqueKeys(d)
    ensures Get(Put(d, key, value), key) == Some(value)
  {
    var r := Put(d, key, value);
    PutKeys(d, key, value);
    if key in Keys(d) {
      var i :| 0 <= i < |d| && d[i].0 == key;
      PutPresent(d, key, value, i);
      GetAt(r, i);
    } else {
      PutAbsent(d, key, value);
      assert r[|d|] == (key, value);
      GetAt(r, |d|);
    }
  }

  /** After `d[key] = value` every other key holds what it held. */
  lemma PutGetOther<K, V>(d: Table<K, V>, key: K, value: V, other: K)
    requires UniqueKeys(d) && other != key
    ensures Get(Put(d, key, value), other) == Get(d, other)
  {
    var r := Put(d, key, value);
    PutKeys(d, key, value);
    if other in Keys(d) {
      var j :| 0 <= j < |d| && d[j].0 == other;
      GetAt(d, j);
      if key in Keys(d) {
        var i :| 0 <= i < |d| && d[i].0 == key;
        PutPresent(d, key, value, i);
      } else {
        PutAbsent(d, key, value);
      }
      assert r[j] == d[j];
      GetAt(r, j);
    } else {
      GetAbsent(d, other);
      GetAbsent(r, other);
    }
  }
}
