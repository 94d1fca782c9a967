/** One chained hash table of a dictionary: buckets, their chains, and what they hold. */
module DictTable {
  import opened Bytes

  datatype Entry<K, V> = Entry(key: K, val: V)

  type Chain<K, V> = seq<Entry<K, V>>
  type Table<K, V> = seq<Chain<K, V>>

  // ---------------------------------------------------------------- chains

  /** The value of the first entry with key `k`. */
  function Lookup<K(==), V>(c: Chain<K, V>, k: K): Option<V> {
    if c == [] then None
    else if c[0].key == k then Some(c[0].val)
    else Lookup(c[1..], k)
  }

  ghost predicate Distinct<K, V>(c: Chain<K, V>) {
    forall i, j :: 0 <= i < j < |c| ==> c[i].key != c[j].key
  }

  lemma {:induction false} LookupAt<K, V>(c: Chain<K, V>, k: K)
    ensures Lookup(c, k).None? <==> forall j :: 0 <= j < |c| ==> c[j].key != k
    ensures Distinct(c) ==> forall j :: 0 <= j < |c| && c[j].key == k ==> Lookup(c, k) == Some(c[j].val)
  {
    if c != [] && c[0].key != k {
      LookupAt(c[1..], k);
      assert forall j :: 1 <= j < |c| ==> c[j] == c[1..][j - 1];
    }
  }

  /** Prepending a fresh key. */
  lemma LookupPush<K, V>(c: Chain<K, V>, e: Entry<K, V>, k: K)
    ensures Lookup([e] + c, k) == if k == e.key then Some(e.val) else Lookup(c, k)
  {
    assert ([e] + c)[1..] == c;
  }

  /** Unlinking entry `j` forgets its key and nothing else. */
  lemma LookupUnlink<K, V>(c: Chain<K, V>, j: nat, k: K)
    requires j < |c| && Distinct(c)
    ensures Distinct(Without(c, j))
    ensures Lookup(Without(c, j), k) == if k == c[j].key then None else Lookup(c, k)
  {
    var d := Without(c, j);
    LookupAt(c, k);
    LookupAt(d, k);
    if i :| 0 <= i < |c| && c[i].key == k && i != j {
      assert c[i] == d[if i < j then i else i - 1];
    }
  }

  /** Overwriting the value of entry `j`. */
  lemma LookupSet<K, V>(c: Chain<K, V>, j: nat, v: V, k: K)
    requires j < |c| && Distinct(c)
    ensures Distinct(c[j := Entry(c[j].key, v)])
    ensures Lookup(c[j := Entry(c[j].key, v)], k) == if k == c[j].key then Some(v) else Lookup(c, k)
  {
    var d := c[j := Entry(c[j].key, v)];
    LookupAt(c, k);
    LookupAt(d, k);
    if i :| 0 <= i < |c| && c[i].key == k && i != j {
      assert c[i] == d[i];
    }
    assert d[j].key == c[j].key;
  }

  /** A chain with entry `j` unlinked. */
  function Without<K, V>(c: Chain<K, V>, j: nat): Chain<K, V>
    requires j < |c|
  {
    c[..j] + c[j + 1..]
  }

  /** A chain without the first entry whose key is `k`. */
  function Erase<K(==), V>(c: Chain<K, V>, k: K): Chain<K, V> {
    if c == [] then c
    else if c[0].key == k then c[1..]
    else [c[0]] + Erase(c[1..], k)
  }

  lemma {:induction false} EraseIsWithout<K, V>(c: Chain<K, V>, j: nat)
    requires j < |c| && Distinct(c)
    ensures Erase(c, c[j].key) == Without(c, j)
  {
    if j > 0 {
      EraseIsWithout(c[1..], j - 1);
      assert Without(c, j) == [c[0]] + Without(c[1..], j - 1);
    }
  }

  lemma {:induction false} EraseAbsent<K, V>(c: Chain<K, V>, k: K)
    requires Lookup(c, k) == None
    ensures Erase(c, k) == c
  {
    if c != [] {
      EraseAbsent(c[1..], k);
    }
  }

  // ---------------------------------------------------------------- tables

  ghost predicate IsPowerOfTwo(n: nat) {
    n == 1 || (n > 1 && n % 2 == 0 && IsPowerOfTwo(n / 2))
  }

  /** `h & sizemask`, where the size is a power of two and sizemask is the size less one. */
  function Index(h: nat, size: nat): (i: nat)
    requires size > 0
    ensures i < size
  {
    h % size
  }

  /** The low bits of the hash: its high bits do not matter. */
  lemma IndexIsMasked(h: nat, k: nat)
    requires h < 4
    ensures Index(h + 4 * k, 4) == h && Index(255, 16) == 15 && Index(256, 16) == 0
  {
  }

  /** The chain in which `k` belongs; empty for an unallocated table. */
  function Slot<K, V>(t: Table<K, V>, hash: K -> nat, k: K): Chain<K, V> {
    if |t| == 0 then [] else t[Index(hash(k), |t|)]
  }

  function Find<K(==), V>(t: Table<K, V>, hash: K -> nat, k: K): Option<V> {
    Lookup(Slot(t, hash, k), k)
  }

  /** Every entry is in the bucket its hash selects, and no chain repeats a key. */
  ghost predicate WellPlaced<K, V>(t: Table<K, V>, hash: K -> nat) {
    forall i :: 0 <= i < |t| ==> Distinct(t[i]) && AllHashTo(t[i], hash, |t|, i)
  }

  ghost predicate AllHashTo<K, V>(c: Chain<K, V>, hash: K -> nat, size: nat, i: nat)
    requires size > 0
  {
    forall j :: 0 <= j < |c| ==> Index(hash(c[j].key), size) == i
  }

  /** Number of entries. */
  function Count<K, V>(t: Table<K, V>): nat {
    if t == [] then 0 else |t[0]| + Count(t[1..])
  }

  /** Number of buckets with at least one entry. */
  function NonEmpty<K, V>(t: Table<K, V>): nat {
    if t == [] then 0 else (if t[0] == [] then 0 else 1) + NonEmpty(t[1..])
  }

  lemma {:induction false} CountUpdate<K, V>(t: Table<K, V>, i: nat, c: Chain<K, V>)
    requires i < |t|
    ensures Count(t[i := c]) == Count(t) - |t[i]| + |c|
    ensures NonEmpty(t[i := c]) == NonEmpty(t) - (if t[i] == [] then 0 else 1) + (if c == [] then 0 else 1)
  {
    if i == 0 {
      assert t[0 := c][1..] == t[1..];
    } else {
      CountUpdate(t[1..], i - 1, c);
      assert t[i := c][1..] == t[1..][i - 1 := c];
    }
  }

  lemma {:induction false} CountBounds<K, V>(t: Table<K, V>)
    ensures NonEmpty(t) <= Count(t) && NonEmpty(t) <= |t|
    ensures (forall i :: 0 <= i < |t| ==> t[i] == []) ==> Count(t) == 0
    ensures forall i :: 0 <= i < |t| ==> |t[i]| <= Count(t)
  {
    if t != [] {
      CountBounds(t[1..]);
      assert forall i :: 1 <= i < |t| ==> t[i] == t[1..][i - 1];
      assert forall i :: 0 <= i < |t[1..]| ==> t[1..][i] == t[i + 1];
    }
  }

  /** A table with entries left has a non-empty bucket at or after the first unscanned one. */
  lemma ScanInBounds<K, V>(t: Table<K, V>, k: nat)
    requires k <= |t| && (forall i :: 0 <= i < k ==> t[i] == []) && Count(t) > 0
    ensures k < |t|
  {
    CountBounds(t);
  }

  function EmptyTable<K, V>(size: nat): (t: Table<K, V>)
    ensures |t| == size && forall i :: 0 <= i < size ==> t[i] == []
  {
    seq(size, _ => [])
  }

  lemma CountEmpty<K, V>(size: nat)
    ensures Count<K, V>(EmptyTable(size)) == 0
  {
    CountBounds<K, V>(EmptyTable(size));
  }

  /** Replacing one chain changes lookups only for the keys of that bucket. */
  lemma FindUpdate<K, V>(t: Table<K, V>, hash: K -> nat, i: nat, c: Chain<K, V>, k: K)
    requires i < |t|
    ensures Find(t[i := c], hash, k) == if Index(hash(k), |t|) == i then Lookup(c, k) else Find(t, hash, k)
  {
  }

  function EraseKey<K(==), V>(t: Table<K, V>, hash: K -> nat, k: K): (r: Table<K, V>)
    ensures |r| == |t|
  {
    if |t| == 0 then t
    else var i := Index(hash(k), |t|); t[i := Erase(t[i], k)]
  }

  /** All entries of the buckets from `i` on, in table order. */
  function Entries<K, V>(t: Table<K, V>, i: nat): seq<Entry<K, V>>
    requires i <= |t|
    decreases |t| - i
  {
    if i == |t| then [] else t[i] + Entries(t, i + 1)
  }

  ghost predicate DistinctKeys<K, V>(s: seq<Entry<K, V>>) {
    forall i, j :: 0 <= i < j < |s| ==> s[i].key != s[j].key
  }

  lemma DistinctAppend<K, V>(c: Chain<K, V>, rest: seq<Entry<K, V>>, hash: K -> nat, size: nat, i: nat)
    requires Distinct(c) && DistinctKeys(rest) && size > 0
    requires forall e :: e in c ==> Index(hash(e.key), size) == i
    requires forall e :: e in rest ==> Index(hash(e.key), size) > i
    ensures DistinctKeys(c + rest)
  {
    var s := c + rest;
    forall a, b | 0 <= a < b < |s| ensures s[a].key != s[b].key {
      if a < |c| <= b {
        assert s[a] in c && s[b] in rest;
      }
    }
  }

  /** The enumeration holds exactly the entries a lookup finds, each key once. */
  lemma {:induction false} EntriesAreFound<K, V>(t: Table<K, V>, hash: K -> nat, i: nat)
    requires WellPlaced(t, hash) && i <= |t|
    ensures DistinctKeys(Entries(t, i))
    ensures forall e :: e in Entries(t, i) ==>
      |t| > 0 && Index(hash(e.key), |t|) >= i && Find(t, hash, e.key) == Some(e.val)
    decreases |t| - i
  {
    if i < |t| {
      EntriesAreFound(t, hash, i + 1);
      forall e | e in t[i] ensures Index(hash(e.key), |t|) == i && Find(t, hash, e.key) == Some(e.val) {
        LookupAt(t[i], e.key);
      }
      DistinctAppend(t[i], Entries(t, i + 1), hash, |t|, i);
    }
  }

  lemma {:induction false} FoundAreEntries<K, V>(t: Table<K, V>, hash: K -> nat, i: nat, k: K)
    requires |t| > 0 && i <= Index(hash(k), |t|) && Find(t, hash, k).Some?
    ensures Entry(k, Find(t, hash, k).value) in Entries(t, i)
    decreases |t| - i
  {
    if i < Index(hash(k), |t|) {
      FoundAreEntries(t, hash, i + 1, k);
    } else {
      LookupIsMember(t[i], k);
    }
  }

  lemma {:induction false} LookupIsMember<K, V>(c: Chain<K, V>, k: K)
    requires Lookup(c, k).Some?
    ensures Entry(k, Lookup(c, k).value) in c
  {
    if c[0].key != k {
      LookupIsMember(c[1..], k);
    }
  }
}
