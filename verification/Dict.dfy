/**
  The incrementally rehashed dictionary of dict.c: two chained tables and a moving
  `rehashidx`. At every intermediate state the two tables together represent the one
  finite map `Contents`.
*/
module Dict {
  import opened Bytes
  import opened CTypes
  import opened DictTable
  import opened DictMap

  const DICT_HT_INITIAL_SIZE := 4
  const FORCE_RESIZE_RATIO := 5
  const LONG_MAX := 0x7FFF_FFFF_FFFF_FFFF

  /** Where an entry lives; stands for a `dictEntry *`. */
  datatype EntryRef = EntryRef(table: nat, bucket: nat, pos: nat)

  /** The least power of two, from the initial size up, that is at least `size`. */
  method NextPower(size: nat) returns (r: nat)
    ensures size >= LONG_MAX ==> r == LONG_MAX
    ensures size < LONG_MAX ==>
      IsPowerOfTwo(r) && r >= size && r >= DICT_HT_INITIAL_SIZE && (r > DICT_HT_INITIAL_SIZE ==> r / 2 < size)
  {
    var i := DICT_HT_INITIAL_SIZE;
    if size >= LONG_MAX { return LONG_MAX; }
    while true
      invariant i >= DICT_HT_INITIAL_SIZE && IsPowerOfTwo(i)
      invariant i > DICT_HT_INITIAL_SIZE ==> i / 2 < size
      decreases size - i
    {
      if i >= size { return i; }
      assert (2 * i) % 2 == 0 && (2 * i) / 2 == i;
      i := i * 2;
    }
  }

  class Dictionary<K(!new, ==), V> {
    const hash: K -> nat
    var ht0: Table<K, V>
    var ht1: Table<K, V>
    var used0: nat
    var used1: nat
    var rehashidx: int
    var iterators: nat
    ghost var Contents: map<K, V>

    predicate IsRehashing()
      reads `rehashidx
    {
      rehashidx != -1
    }

    ghost predicate Valid()
      reads `ht0, `ht1, `used0, `used1, `rehashidx, `Contents
    {
      && (|ht0| > 0 ==> IsPowerOfTwo(|ht0|))
      && used0 == Count(ht0) && used1 == Count(ht1)
      && (!IsRehashing() ==> ht1 == [])
      && (IsRehashing() ==>
        && |ht0| > 0 && |ht1| > 0 && IsPowerOfTwo(|ht1|)
        && 0 <= rehashidx <= |ht0|
        && forall i :: 0 <= i < rehashidx ==> ht0[i] == [])
      && Represents(ht0, ht1, hash, Contents)
    }

    /** Entries still to be paid for: each non-empty old bucket costs one more step. */
    ghost function Load(): nat
      reads this
    {
      used0 + used1 + NonEmpty(ht0)
    }

    /** Rehashing keeps ahead of insertion. */
    ghost predicate Bounded()
      reads this
    {
      if IsRehashing() then Load() <= |ht1| + 1 else used0 <= |ht0| + 1
    }

    constructor (hash: K -> nat)
      ensures Valid()
      ensures Bounded() && Contents == map[] && iterators == 0 && !IsRehashing()
      ensures this.hash == hash && ht0 == []
    {
      this.hash := hash;
      ht0, ht1, used0, used1, rehashidx, iterators := [], [], 0, 0, -1, 0;
      Contents := map[];
    }

    /** Install an empty table: the first one, or the target of a rehash. */
    method Expand(size: nat) returns (ok: bool)
      requires Valid() && size < LONG_MAX
      modifies `ht0, `ht1, `rehashidx
      ensures Valid()
      ensures ok <==> !old(IsRehashing()) && used0 <= size
      ensures !ok ==> ht0 == old(ht0) && ht1 == old(ht1) && rehashidx == old(rehashidx)
      ensures ok && old(|ht0|) == 0 ==> !IsRehashing() && |ht0| >= size && |ht0| >= DICT_HT_INITIAL_SIZE
      ensures ok && old(|ht0|) > 0 ==> rehashidx == 0 && ht0 == old(ht0) && |ht1| >= size
      ensures ok && old(|ht0|) > 0 && |ht1| > DICT_HT_INITIAL_SIZE ==> |ht1| / 2 < size
    {
      var realsize := NextPower(size);
      if IsRehashing() || used0 > size { return false; }
      if |ht0| == 0 {
        FirstTable(realsize);
      } else {
        StartRehash(realsize);
      }
      return true;
    }

    method FirstTable(size: nat)
      requires Valid() && |ht0| == 0 && size > 0 && IsPowerOfTwo(size)
      modifies `ht0
      ensures Valid()
      ensures |ht0| == size
    {
      StartNew(ht0, size, hash, Contents);
      CountEmpty<K, V>(size);
      ht0 := EmptyTable(size);
    }

    method StartRehash(size: nat)
      requires Valid() && |ht0| > 0 && !IsRehashing() && size > 0 && IsPowerOfTwo(size)
      modifies `ht1, `rehashidx
      ensures Valid()
      ensures rehashidx == 0 && |ht1| == size
    {
      StartNew(ht0, size, hash, Contents);
      CountEmpty<K, V>(size);
      ht1 := EmptyTable(size);
      rehashidx := 0;
    }

    /** One step: finish when the old table is empty, otherwise migrate one bucket. */
    method RehashOne() returns (more: bool)
      requires Valid() && IsRehashing()
      modifies `ht0, `ht1, `used0, `used1, `rehashidx
      ensures Valid()
      ensures more == IsRehashing()
      ensures more ==> |ht0| == old(|ht0|) && |ht1| == old(|ht1|) && Load() == old(Load()) - 1
      ensures more ==> rehashidx > old(rehashidx) && used0 + used1 == old(used0 + used1)
      ensures !more ==> old(used0) == 0 && ht0 == old(ht1) && used0 == old(used1)
    {
      if used0 == 0 {
        DropOld(ht0, ht1, hash, Contents);
        ht0, used0 := ht1, used1;
        ht1, used1 := [], 0;
        rehashidx := -1;
        return false;
      }
      ScanInBounds(ht0, rehashidx);
      assert rehashidx < |ht0|; // the assertion before the scan
      while ht0[rehashidx] == []
        invariant old(rehashidx) <= rehashidx < |ht0|
        invariant forall i :: 0 <= i < rehashidx ==> ht0[i] == []
        decreases |ht0| - rehashidx
        modifies `rehashidx
      {
        ScanInBounds(ht0, rehashidx + 1);
        rehashidx := rehashidx + 1;
      }
      MigrateBucket();
      return true;
    }

    /** Move every entry of bucket `rehashidx` to the new table, clear the bucket, advance. */
    method MigrateBucket()
      requires Valid() && IsRehashing() && rehashidx < |ht0| && ht0[rehashidx] != []
      modifies `ht0, `ht1, `used0, `used1, `rehashidx
      ensures Valid()
      ensures rehashidx == old(rehashidx) + 1
      ensures |ht0| == old(|ht0|) && |ht1| == old(|ht1|) && Load() == old(Load()) - 1
      ensures used0 + used1 == old(used0 + used1)
    {
      var i := rehashidx;
      var de := ht0[i];
      CountUpdate(ht0, i, de);
      CountUpdate(ht0, i, []);
      assert ht0[i := de] == ht0;
      while de != []
        invariant 0 <= i < |ht0| && |ht1| == old(|ht1|)
        invariant Represents(ht0[i := de], ht1, hash, Contents)
        invariant used0 == Count(ht0[i := de]) && used1 == Count(ht1)
        invariant used0 + used1 == old(used0 + used1)
        decreases |de|
        modifies `ht1, `used0, `used1
      {
        ghost var t0 := ht0[i := de];
        var head, nextde := de[0], de[1..];
        var h := Index(hash(head.key), |ht1|);
        MoveHead(t0, ht1, hash, Contents, i);
        assert t0[i := nextde] == ht0[i := nextde];
        CountUpdate(t0, i, nextde);
        CountUpdate(ht1, h, [head] + ht1[h]);
        ht1 := ht1[h := [head] + ht1[h]];
        used0, used1 := used0 - 1, used1 + 1;
        de := nextde;
      }
      ht0 := ht0[i := []];
      rehashidx := rehashidx + 1;
    }

    /** `n` steps of incremental rehashing; true when keys may remain in the old table. */
    method Rehash(n: nat) returns (more: bool)
      requires Valid()
      modifies `ht0, `ht1, `used0, `used1, `rehashidx
      ensures Valid()
      ensures more == IsRehashing()
      ensures !old(IsRehashing()) ==> ht0 == old(ht0) && used0 == old(used0) && used1 == old(used1) && !more
      ensures more ==> |ht1| == old(|ht1|) && Load() + n == old(Load())
      ensures old(Bounded()) ==> Bounded()
      ensures |ht0| >= old(if |ht1| < |ht0| then |ht1| else |ht0|) || !old(IsRehashing())
    {
      if !IsRehashing() { return false; }
      var left := n;
      while left > 0
        invariant 0 <= left <= n && Valid() && IsRehashing()
        invariant |ht0| == old(|ht0|) && |ht1| == old(|ht1|) && Load() + (n - left) == old(Load())
      {
        more := RehashOne();
        if !more { return false; }
        left := left - 1;
      }
      return true;
    }

    /** The step taken by lookups and updates, unless a safe iterator is running. */
    method RehashStep()
      requires Valid()
      modifies `ht0, `ht1, `used0, `used1, `rehashidx
      ensures Valid()
      ensures iterators > 0 ==>
        ht0 == old(ht0) && ht1 == old(ht1) && used0 == old(used0) && used1 == old(used1) && rehashidx == old(rehashidx)
      ensures old(Bounded()) ==> Bounded()
      ensures old(IsRehashing()) && iterators == 0 && IsRehashing() ==> |ht1| == old(|ht1|) && Load() + 1 == old(Load())
      ensures old(|ht0|) > 0 ==> |ht0| > 0
      ensures IsRehashing() ==> old(IsRehashing())
    {
      if iterators == 0 {
        var _ := Rehash(1);
      }
    }

    /** Grow when the table is full and growth is allowed or long overdue. */
    method ExpandIfNeeded(canResize: bool) returns (ok: bool)
      requires Valid() && 2 * |Contents| < LONG_MAX
      modifies `ht0, `ht1, `rehashidx
      ensures Valid()
      ensures ok && |ht0| > 0
      ensures old(IsRehashing()) ==> ht0 == old(ht0) && ht1 == old(ht1) && rehashidx == old(rehashidx)
      ensures !old(IsRehashing()) && canResize && old(Bounded()) ==>
        if IsRehashing() then 2 * used0 <= |ht1| else used0 < |ht0|
      ensures !old(IsRehashing()) && old(|ht0|) > 0 ==>
        (IsRehashing() <==> used0 >= |ht0| && (canResize || used0 / |ht0| > FORCE_RESIZE_RATIO))
    {
      if IsRehashing() { return true; }
      if |ht0| == 0 {
        ok := Expand(DICT_HT_INITIAL_SIZE);
        return;
      }
      if used0 >= |ht0| && (canResize || used0 / |ht0| > FORCE_RESIZE_RATIO) {
        ok := Expand((if |ht0| > used0 then |ht0| else used0) * 2);
        return;
      }
      return true;
    }

    /** Position of `key` in a chain, or -1. */
    static method SearchChain(c: Chain<K, V>, key: K) returns (j: int)
      ensures -1 <= j < |c|
      ensures j == -1 <==> Lookup(c, key) == None
      ensures j >= 0 ==> c[j].key == key && Lookup(c, key) == Some(c[j].val)
    {
      j := 0;
      while j < |c|
        invariant 0 <= j <= |c|
        invariant Lookup(c, key) == Lookup(c[j..], key)
      {
        if key == c[j].key { return; }
        assert c[j..][1..] == c[j + 1..];
        j := j + 1;
      }
      j := -1;
    }

    /** The bucket for a new entry with this key, or -1 when the key is present. */
    method KeyIndex(key: K, canResize: bool) returns (index: int)
      requires Valid() && 2 * |Contents| < LONG_MAX
      modifies `ht0, `ht1, `rehashidx
      ensures Valid()
      ensures |ht0| > 0
      ensures index == -1 <==> key in Contents
      ensures index != -1 ==> index == Index(hash(key), if IsRehashing() then |ht1| else |ht0|)
      ensures old(IsRehashing()) ==> ht0 == old(ht0) && ht1 == old(ht1) && rehashidx == old(rehashidx)
      ensures !old(IsRehashing()) && canResize && old(Bounded()) ==>
        if IsRehashing() then 2 * used0 <= |ht1| else used0 < |ht0|
    {
      var ok := ExpandIfNeeded(canResize);
      if !ok { return -1; }
      var h := hash(key);
      assert AgreesAt(ht0, ht1, hash, Contents, key);
      index := Index(h, |ht0|);
      var j := SearchChain(ht0[index], key);
      if j != -1 { return -1; }
      if !IsRehashing() { return; }
      index := Index(h, |ht1|);
      j := SearchChain(ht1[index], key);
      if j != -1 { return -1; }
    }

    /** Insert; fails exactly when the key is present. */
    method Add(key: K, val: V, canResize: bool) returns (ok: bool)
      requires Valid() && 2 * |Contents| < LONG_MAX
      modifies `ht0, `ht1, `used0, `used1, `rehashidx, `Contents
      ensures Valid()
      ensures ok <==> key !in old(Contents)
      ensures Contents == if ok then old(Contents)[key := val] else old(Contents)
      ensures iterators == 0 && canResize && old(Bounded()) ==> Bounded()
    {
      if IsRehashing() { RehashStep(); }
      var index := KeyIndex(key, canResize);
      CountBounds(ht0);
      if index == -1 { return false; }
      if IsRehashing() {
        PushNew(index, key, val);
      } else {
        PushOld(index, key, val);
      }
      return true;
    }

    /** Link a new entry at the head of its bucket in ht[0]. */
    method PushOld(index: nat, key: K, val: V)
      requires Valid() && !IsRehashing() && |ht0| > 0
      requires key !in Contents && index == Index(hash(key), |ht0|)
      modifies `ht0, `used0, `Contents
      ensures Valid()
      ensures Contents == old(Contents)[key := val]
      ensures used0 == old(used0) + 1 && |ht0| == old(|ht0|)
    {
      Insert(ht0, ht1, hash, Contents, key, val);
      CountUpdate(ht0, index, [Entry(key, val)] + ht0[index]);
      ht0 := ht0[index := [Entry(key, val)] + ht0[index]];
      used0 := used0 + 1;
      Contents := Contents[key := val];
    }

    /** Link a new entry at the head of its bucket in ht[1], the target of the rehash. */
    method PushNew(index: nat, key: K, val: V)
      requires Valid() && IsRehashing()
      requires key !in Contents && index == Index(hash(key), |ht1|)
      modifies `ht1, `used1, `Contents
      ensures Valid()
      ensures Contents == old(Contents)[key := val]
      ensures used1 == old(used1) + 1 && |ht1| == old(|ht1|)
    {
      ghost var m := Contents;
      SwapTables(ht0, ht1, hash, m);
      Insert(ht1, ht0, hash, m, key, val);
      CountUpdate(ht1, index, [Entry(key, val)] + ht1[index]);
      ht1 := ht1[index := [Entry(key, val)] + ht1[index]];
      used1 := used1 + 1;
      SwapTables(ht1, ht0, hash, m[key := val]);
      Contents := m[key := val];
    }

    ghost predicate IsRef(r: EntryRef)
      reads this
    {
      if r.table == 0 then r.bucket < |ht0| && r.pos < |ht0[r.bucket]|
      else r.bucket < |ht1| && r.pos < |ht1[r.bucket]|
    }

    ghost function Deref(r: EntryRef): Entry<K, V>
      requires IsRef(r)
      reads this
    {
      if r.table == 0 then ht0[r.bucket][r.pos] else ht1[r.bucket][r.pos]
    }

    /** Search both tables after one rehash step. */
    method FindEntry(key: K) returns (r: Option<EntryRef>)
      requires Valid()
      modifies `ht0, `ht1, `used0, `used1, `rehashidx
      ensures Valid()
      ensures r.Some? <==> key in Contents
      ensures r.Some? ==> IsRef(r.value) && Deref(r.value) == Entry(key, Contents[key])
      ensures old(Bounded()) ==> Bounded()
      ensures iterators > 0 ==>
        ht0 == old(ht0) && ht1 == old(ht1) && used0 == old(used0) && used1 == old(used1) && rehashidx == old(rehashidx)
      ensures r.Some? && r.value.table == 0 ==> r.value.bucket == Index(hash(key), |ht0|)
    {
      assert AgreesAt(ht0, ht1, hash, Contents, key);
      if |ht0| == 0 { return None; }
      if IsRehashing() { RehashStep(); }
      assert AgreesAt(ht0, ht1, hash, Contents, key);
      var h := hash(key);
      var idx := Index(h, |ht0|);
      var j := SearchChain(ht0[idx], key);
      if j != -1 { return Some(EntryRef(0, idx, j)); }
      if !IsRehashing() { return None; }
      idx := Index(h, |ht1|);
      j := SearchChain(ht1[idx], key);
      if j != -1 { return Some(EntryRef(1, idx, j)); }
      return None;
    }

    method FetchValue(key: K) returns (v: Option<V>)
      requires Valid()
      modifies `ht0, `ht1, `used0, `used1, `rehashidx
      ensures Valid()
      ensures v == At(Contents, key)
      ensures old(Bounded()) ==> Bounded()
    {
      var r := FindEntry(key);
      if r == None { return None; }
      v := Some(if r.value.table == 0 then ht0[r.value.bucket][r.value.pos].val
                else ht1[r.value.bucket][r.value.pos].val);
    }

    /** Insert or overwrite; true when the key was added from scratch. */
    method Replace(key: K, val: V, canResize: bool) returns (added: bool)
      requires Valid() && 2 * |Contents| < LONG_MAX
      modifies `ht0, `ht1, `used0, `used1, `rehashidx, `Contents
      ensures Valid()
      ensures added <==> key !in old(Contents)
      ensures Contents == old(Contents)[key := val]
      ensures iterators == 0 && canResize && old(Bounded()) ==> Bounded()
    {
      var ok := Add(key, val, canResize);
      if ok { return true; }
      var r := FindEntry(key);
      SetValue(r.value, val);
      return false;
    }

    /** dictSetVal on the referenced entry. */
    method SetValue(r: EntryRef, val: V)
      requires Valid() && IsRef(r)
      modifies `ht0, `ht1, `Contents
      ensures Valid()
      ensures Contents == old(Contents)[old(Deref(r).key) := val]
      ensures old(Bounded()) ==> Bounded()
    {
      var i, j := r.bucket, r.pos;
      ghost var m, key := Contents, Deref(r).key;
      if r.table == 0 {
        Overwrite(ht0, ht1, hash, m, i, j, val);
        CountUpdate(ht0, i, ht0[i][j := Entry(ht0[i][j].key, val)]);
        ht0 := ht0[i := ht0[i][j := Entry(ht0[i][j].key, val)]];
      } else {
        SwapTables(ht0, ht1, hash, m);
        Overwrite(ht1, ht0, hash, m, i, j, val);
        CountUpdate(ht1, i, ht1[i][j := Entry(ht1[i][j].key, val)]);
        ht1 := ht1[i := ht1[i][j := Entry(ht1[i][j].key, val)]];
        SwapTables(ht1, ht0, hash, m[key := val]);
      }
      Contents := m[key := val];
    }

    /** Search and unlink. */
    method Delete(key: K) returns (ok: bool)
      requires Valid()
      modifies `ht0, `ht1, `used0, `used1, `rehashidx, `Contents
      ensures Valid()
      ensures ok <==> key in old(Contents)
      ensures Contents == old(Contents) - {key}
      ensures old(Bounded()) ==> Bounded()
      ensures iterators > 0 ==>
        && ht0 == EraseKey(old(ht0), hash, key) && ht1 == EraseKey(old(ht1), hash, key)
        && rehashidx == old(rehashidx)
    {
      var r := FindEntry(key); // the search loop, shared with dictFind
      EraseKeyCases(ht0, ht1, hash, Contents, key);
      if r == None { return false; }
      Remove(r.value);
      return true;
    }

    /** Unlink the referenced entry from its chain. */
    method Remove(r: EntryRef)
      requires Valid() && IsRef(r)
      modifies `ht0, `ht1, `used0, `used1, `Contents
      ensures Valid()
      ensures Contents == old(Contents) - {old(Deref(r).key)}
      ensures old(Bounded()) ==> Bounded()
      ensures r.table == 0 ==> ht1 == old(ht1) && ht0 == old(ht0)[r.bucket := Without(old(ht0)[r.bucket], r.pos)]
      ensures r.table != 0 ==> ht0 == old(ht0) && ht1 == old(ht1)[r.bucket := Without(old(ht1)[r.bucket], r.pos)]
    {
      if r.table == 0 {
        RemoveOld(r.bucket, r.pos);
      } else {
        RemoveNew(r.bucket, r.pos);
      }
    }

    method RemoveOld(i: nat, j: nat)
      requires Valid() && i < |ht0| && j < |ht0[i]|
      modifies `ht0, `used0, `Contents
      ensures Valid()
      ensures Contents == old(Contents) - {old(ht0)[i][j].key}
      ensures ht0 == old(ht0)[i := Without(old(ht0)[i], j)]
      ensures used0 == old(used0) - 1 && NonEmpty(ht0) <= old(NonEmpty(ht0))
    {
      Unlink(ht0, ht1, hash, Contents, i, j);
      CountUpdate(ht0, i, Without(ht0[i], j));
      Contents := Contents - {ht0[i][j].key};
      ht0 := ht0[i := Without(ht0[i], j)];
      used0 := used0 - 1;
    }

    method RemoveNew(i: nat, j: nat)
      requires Valid() && i < |ht1| && j < |ht1[i]|
      modifies `ht1, `used1, `Contents
      ensures Valid()
      ensures Contents == old(Contents) - {old(ht1)[i][j].key}
      ensures ht1 == old(ht1)[i := Without(old(ht1)[i], j)]
      ensures used1 == old(used1) - 1
    {
      ghost var m, key := Contents, ht1[i][j].key;
      SwapTables(ht0, ht1, hash, m);
      Unlink(ht1, ht0, hash, m, i, j);
      CountUpdate(ht1, i, Without(ht1[i], j));
      ht1 := ht1[i := Without(ht1[i], j)];
      used1 := used1 - 1;
      SwapTables(ht1, ht0, hash, m - {key});
      Contents := m - {key};
    }

    /** Shrink to the smallest table that holds all entries. The count is kept in an int, so that from
        2^31 entries on the table asked for is too small and refused. */
    method Resize(canResize: bool) returns (ok: bool)
      requires Valid() && |Contents| < LONG_MAX
      modifies `ht0, `ht1, `rehashidx
      ensures Valid()
      ensures ok <==> canResize && !old(IsRehashing()) && used0 <= INT_MAX
      ensures ok && old(|ht0|) > 0 ==>
        IsRehashing() && |ht1| >= used0
          && (|ht1| > DICT_HT_INITIAL_SIZE ==> |ht1| / 2 < used0 || |ht1| / 2 < DICT_HT_INITIAL_SIZE)
    {
      if !canResize || IsRehashing() { return false; }
      var minimal := Int32(used0);
      if minimal < DICT_HT_INITIAL_SIZE { minimal := DICT_HT_INITIAL_SIZE; }
      ok := Expand(minimal);
    }
  }
}
