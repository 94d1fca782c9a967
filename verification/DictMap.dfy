/** How the two tables of a dictionary together represent one finite map, and what each
    elementary change of a chain does to that map. */
module DictMap {
  import opened Bytes
  import opened DictTable

  function At<K, V>(m: map<K, V>, k: K): Option<V> {
    if k in m then Some(m[k]) else None
  }

  /** Exactly one of the tables answers for a present key, neither for an absent one. */
  ghost predicate AgreesAt<K, V>(t0: Table<K, V>, t1: Table<K, V>, hash: K -> nat, m: map<K, V>, k: K) {
    || (Find(t0, hash, k) == At(m, k) && Find(t1, hash, k) == None)
    || (Find(t0, hash, k) == None && Find(t1, hash, k) == At(m, k))
  }

  ghost predicate Represents<K(!new), V>(t0: Table<K, V>, t1: Table<K, V>, hash: K -> nat, m: map<K, V>) {
    && WellPlaced(t0, hash) && WellPlaced(t1, hash)
    && Count(t0) + Count(t1) == |m|
    && forall k :: AgreesAt(t0, t1, hash, m, k)
  }

  /** Moving the head of a chain of the old table to the front of its chain in the new one. */
  lemma MoveHead<K(!new), V>(t0: Table<K, V>, t1: Table<K, V>, hash: K -> nat, m: map<K, V>, i: nat)
    requires Represents(t0, t1, hash, m) && i < |t0| && t0[i] != [] && |t1| > 0
    ensures var e := t0[i][0]; var h := Index(hash(e.key), |t1|);
      Represents(t0[i := t0[i][1..]], t1[h := [e] + t1[h]], hash, m)
  {
    var e := t0[i][0];
    var h := Index(hash(e.key), |t1|);
    CountUpdate(t0, i, t0[i][1..]);
    CountUpdate(t1, h, [e] + t1[h]);
    assert AgreesAt(t0, t1, hash, m, e.key);
    WellPlacedPush(t1, hash, e);
    var u0, u1 := t0[i := t0[i][1..]], t1[h := [e] + t1[h]];
    forall k ensures AgreesAt(u0, u1, hash, m, k) {
      MoveHeadFind(t0, t1, hash, i, k);
      assert AgreesAt(t0, t1, hash, m, k);
    }
  }

  /** What the move does to the lookup of one key. */
  lemma MoveHeadFind<K, V>(t0: Table<K, V>, t1: Table<K, V>, hash: K -> nat, i: nat, k: K)
    requires i < |t0| && t0[i] != [] && |t1| > 0
    requires Distinct(t0[i]) && AllHashTo(t0[i], hash, |t0|, i)
    ensures var e := t0[i][0]; var h := Index(hash(e.key), |t1|);
      && Find(t0[i := t0[i][1..]], hash, k) == (if k == e.key then None else Find(t0, hash, k))
      && Find(t1[h := [e] + t1[h]], hash, k) == (if k == e.key then Some(e.val) else Find(t1, hash, k))
  {
    var e := t0[i][0];
    var h := Index(hash(e.key), |t1|);
    var rest := t0[i][1..];
    assert t0[i] == [e] + rest;
    LookupPush(rest, e, k);
    LookupPush(t1[h], e, k);
    LookupAt(rest, e.key);
    FindUpdate(t0, hash, i, rest, k);
    FindUpdate(t1, hash, h, [e] + t1[h], k);
  }

  /** A table stays well placed when a fresh key is pushed on its chain. */
  lemma WellPlacedPush<K, V>(t: Table<K, V>, hash: K -> nat, e: Entry<K, V>)
    requires WellPlaced(t, hash) && |t| > 0 && Find(t, hash, e.key) == None
    ensures var h := Index(hash(e.key), |t|); WellPlaced(t[h := [e] + t[h]], hash)
  {
    var h := Index(hash(e.key), |t|);
    LookupAt(t[h], e.key);
    var grown := [e] + t[h];
    assert forall j :: 0 < j < |grown| ==> grown[j] == t[h][j - 1];
  }

  /** The old table is exhausted: the new one alone represents the map. */
  lemma DropOld<K(!new), V>(t0: Table<K, V>, t1: Table<K, V>, hash: K -> nat, m: map<K, V>)
    requires Represents(t0, t1, hash, m) && Count(t0) == 0
    ensures Represents(t1, [], hash, m)
  {
    CountBounds(t0);
    forall k ensures AgreesAt(t1, [], hash, m, k) {
      assert AgreesAt(t0, t1, hash, m, k);
    }
  }

  lemma StartNew<K(!new), V>(t0: Table<K, V>, size: nat, hash: K -> nat, m: map<K, V>)
    requires Represents(t0, [], hash, m) && size > 0
    ensures Represents(t0, EmptyTable(size), hash, m)
    ensures |t0| == 0 ==> Represents(EmptyTable(size), [], hash, m)
  {
    var n: Table<K, V> := EmptyTable(size);
    CountBounds(n);
    forall k
      ensures AgreesAt(t0, n, hash, m, k)
      ensures |t0| == 0 ==> AgreesAt(n, [], hash, m, k)
    {
      assert AgreesAt(t0, [], hash, m, k);
    }
  }

  /** The two tables play symmetric roles in the representation. */
  lemma SwapTables<K(!new), V>(t0: Table<K, V>, t1: Table<K, V>, hash: K -> nat, m: map<K, V>)
    requires Represents(t0, t1, hash, m)
    ensures Represents(t1, t0, hash, m)
  {
    forall k ensures AgreesAt(t1, t0, hash, m, k) {
      assert AgreesAt(t0, t1, hash, m, k);
    }
  }

  /** Pushing an entry with a new key. */
  lemma Insert<K(!new), V>(t0: Table<K, V>, t1: Table<K, V>, hash: K -> nat, m: map<K, V>, key: K, val: V)
    requires Represents(t0, t1, hash, m) && |t0| > 0 && key !in m
    ensures var h := Index(hash(key), |t0|);
      Represents(t0[h := [Entry(key, val)] + t0[h]], t1, hash, m[key := val])
  {
    var h := Index(hash(key), |t0|);
    var e := Entry(key, val);
    assert AgreesAt(t0, t1, hash, m, key);
    WellPlacedPush(t0, hash, e);
    CountUpdate(t0, h, [e] + t0[h]);
    var u0, m' := t0[h := [e] + t0[h]], m[key := val];
    forall k ensures AgreesAt(u0, t1, hash, m', k) {
      FindUpdate(t0, hash, h, [e] + t0[h], k);
      LookupPush(t0[h], e, k);
      assert AgreesAt(t0, t1, hash, m, k);
    }
  }

  /** Unlinking the entry at position `j` of bucket `i`. */
  lemma Unlink<K(!new), V>(t0: Table<K, V>, t1: Table<K, V>, hash: K -> nat, m: map<K, V>, i: nat, j: nat)
    requires Represents(t0, t1, hash, m) && i < |t0| && j < |t0[i]|
    ensures t0[i][j].key in m
    ensures Represents(t0[i := Without(t0[i], j)], t1, hash, m - {t0[i][j].key})
  {
    var key := t0[i][j].key;
    var shrunk := Without(t0[i], j);
    LookupAt(t0[i], key);
    assert AgreesAt(t0, t1, hash, m, key);
    CountUpdate(t0, i, shrunk);
    assert |m - {key}| == |m| - 1 by { assert (m - {key}).Keys == m.Keys - {key}; }
    var u0, m' := t0[i := shrunk], m - {key};
    forall k ensures AgreesAt(u0, t1, hash, m', k) {
      FindUpdate(t0, hash, i, shrunk, k);
      LookupUnlink(t0[i], j, k);
      assert AgreesAt(t0, t1, hash, m, k);
    }
    LookupUnlink(t0[i], j, key);
  }

  /** Overwriting the value at position `j` of bucket `i`. */
  lemma Overwrite<K(!new), V>(t0: Table<K, V>, t1: Table<K, V>, hash: K -> nat, m: map<K, V>, i: nat, j: nat, v: V)
    requires Represents(t0, t1, hash, m) && i < |t0| && j < |t0[i]|
    ensures var key := t0[i][j].key;
      Represents(t0[i := t0[i][j := Entry(key, v)]], t1, hash, m[key := v])
  {
    var key := t0[i][j].key;
    var c := t0[i][j := Entry(key, v)];
    LookupAt(t0[i], key);
    assert AgreesAt(t0, t1, hash, m, key);
    assert m[key := v].Keys == m.Keys;
    CountUpdate(t0, i, c);
    var u0, m' := t0[i := c], m[key := v];
    forall k ensures AgreesAt(u0, t1, hash, m', k) {
      FindUpdate(t0, hash, i, c, k);
      LookupSet(t0[i], j, v, k);
      assert AgreesAt(t0, t1, hash, m, k);
    }
    LookupSet(t0[i], j, v, key);
  }

  /** `s` lists every entry of the map, and each once. */
  ghost predicate Enumerates<K, V>(s: seq<Entry<K, V>>, m: map<K, V>) {
    && DistinctKeys(s)
    && (forall k :: k in m ==> Entry(k, m[k]) in s)
    && (forall e :: e in s ==> e.key in m && m[e.key] == e.val)
  }

  /** No key is met twice when walking the old table and then the new one. */
  lemma EntriesDistinct<K(!new), V>(t0: Table<K, V>, t1: Table<K, V>, hash: K -> nat, m: map<K, V>)
    requires Represents(t0, t1, hash, m)
    ensures DistinctKeys(Entries(t0, 0) + Entries(t1, 0))
  {
    EntriesAreFound(t0, hash, 0);
    EntriesAreFound(t1, hash, 0);
    var a, b := Entries(t0, 0), Entries(t1, 0);
    forall i, j | 0 <= i < |a| && 0 <= j < |b| ensures a[i].key != b[j].key {
      assert a[i] in a && b[j] in b;
      assert AgreesAt(t0, t1, hash, m, a[i].key);
    }
  }

  /** Walking the old table and then the new one meets every entry of the map exactly once. */
  lemma EntriesEnumerateMap<K(!new), V>(t0: Table<K, V>, t1: Table<K, V>, hash: K -> nat, m: map<K, V>)
    requires Represents(t0, t1, hash, m)
    ensures Enumerates(Entries(t0, 0) + Entries(t1, 0), m)
  {
    EntriesDistinct(t0, t1, hash, m);
    EntriesAreFound(t0, hash, 0);
    EntriesAreFound(t1, hash, 0);
    var a, b := Entries(t0, 0), Entries(t1, 0);
    forall k | k in m ensures Entry(k, m[k]) in a + b {
      assert AgreesAt(t0, t1, hash, m, k);
      if Find(t0, hash, k).Some? { FoundAreEntries(t0, hash, 0, k); }
      if Find(t1, hash, k).Some? { FoundAreEntries(t1, hash, 0, k); }
    }
    forall e: Entry<K, V> | e in a + b ensures e.key in m && m[e.key] == e.val {
      assert AgreesAt(t0, t1, hash, m, e.key);
    }
  }

  /** Erasing a key rewrites at most the one chain that holds it. */
  lemma EraseKeyCases<K(!new), V>(t0: Table<K, V>, t1: Table<K, V>, hash: K -> nat, m: map<K, V>, key: K)
    requires Represents(t0, t1, hash, m)
    ensures key !in m ==> EraseKey(t0, hash, key) == t0 && EraseKey(t1, hash, key) == t1
    ensures forall i, j :: 0 <= i < |t0| && 0 <= j < |t0[i]| && t0[i][j].key == key ==>
      EraseKey(t0, hash, key) == t0[i := Without(t0[i], j)] && EraseKey(t1, hash, key) == t1
    ensures forall i, j :: 0 <= i < |t1| && 0 <= j < |t1[i]| && t1[i][j].key == key ==>
      EraseKey(t0, hash, key) == t0 && EraseKey(t1, hash, key) == t1[i := Without(t1[i], j)]
  {
    assert AgreesAt(t0, t1, hash, m, key);
    LookupAt(Slot(t0, hash, key), key);
    LookupAt(Slot(t1, hash, key), key);
    if Find(t0, hash, key) == None { EraseAbsent(Slot(t0, hash, key), key); }
    if Find(t1, hash, key) == None { EraseAbsent(Slot(t1, hash, key), key); }
    forall i, j | 0 <= i < |t0| && 0 <= j < |t0[i]| && t0[i][j].key == key
      ensures EraseKey(t0, hash, key) == t0[i := Without(t0[i], j)]
    {
      EraseIsWithout(t0[i], j);
    }
    forall i, j | 0 <= i < |t1| && 0 <= j < |t1[i]| && t1[i][j].key == key
      ensures EraseKey(t1, hash, key) == t1[i := Without(t1[i], j)]
    {
      EraseIsWithout(t1[i], j);
    }
  }
}
