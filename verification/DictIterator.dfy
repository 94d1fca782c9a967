/** The safe iterator of dict.c. */
module DictIterator {
  import opened Bytes
  import opened DictTable
  import opened DictMap
  import opened Dict

  // ---------------------------------------------------------------- a position in a table

  /** The part of a chain that starts at the entry with key `k`. */
  function From<K(==), V>(c: Chain<K, V>, k: K): Chain<K, V> {
    if c == [] || c[0].key == k then c else From(c[1..], k)
  }

  /** `p` is null or points into chain `i`. */
  ghost predicate Points<K, V>(t: Table<K, V>, i: int, p: Option<K>) {
    p.Some? ==> 0 <= i < |t| && Lookup(t[i], p.value).Some?
  }

  /** The entries from `p` to the end of its chain, then those of the buckets after it. */
  ghost function Rest<K, V>(t: Table<K, V>, i: int, p: Option<K>): seq<Entry<K, V>>
    requires i >= -1 && Points(t, i, p)
  {
    (if p.Some? then From(t[i], p.value) else []) + (if i + 1 <= |t| then Entries(t, i + 1) else [])
  }

  /** Stepping over the entry pointed to leaves the same entries after it. */
  lemma {:induction false} Successor<K, V>(c: Chain<K, V>, k: K)
    requires Distinct(c) && Lookup(c, k).Some?
    ensures var f := From(c, k);
      && |f| > 0 && f[0].key == k
      && (|f| > 1 ==> Lookup(c, f[1].key).Some? && From(c, f[1].key) == f[1..])
  {
    if c[0].key != k {
      Successor(c[1..], k);
      var f := From(c[1..], k);
      if |f| > 1 {
        FromHasKey(c[1..], k);
        LookupAt(c[1..], f[1].key);
      }
    } else if |c| > 1 {
      assert c[1..][0] == c[1];
    }
  }

  lemma {:induction false} FromHasKey<K, V>(c: Chain<K, V>, k: K)
    ensures forall e :: e in From(c, k) ==> e in c
  {
    if c != [] && c[0].key != k {
      FromHasKey(c[1..], k);
    }
  }

  ghost predicate KeyAbsent<K, V>(s: seq<Entry<K, V>>, k: K) {
    forall e :: e in s ==> e.key != k
  }

  /** Deleting an entry that has been passed does not disturb those still to come. */
  lemma {:induction false} EraseKeepsFrom<K, V>(c: Chain<K, V>, gone: K, k: K)
    requires Lookup(c, k).Some? && Lookup(From(c, k), gone) == None
    ensures Lookup(Erase(c, gone), k).Some? && From(Erase(c, gone), k) == From(c, k)
  {
    if c[0].key == k {
      EraseAbsent(c, gone);
    } else if c[0].key != gone {
      EraseKeepsFrom(c[1..], gone, k);
      assert ([c[0]] + Erase(c[1..], gone))[1..] == Erase(c[1..], gone);
    }
  }

  lemma {:induction false} EraseKeepsEntries<K, V>(t: Table<K, V>, hash: K -> nat, i: nat, gone: K)
    requires i <= |t| && KeyAbsent(Entries(t, i), gone)
    ensures Entries(EraseKey(t, hash, gone), i) == Entries(t, i)
    decreases |t| - i
  {
    if i < |t| {
      forall e | e in Entries(t, i + 1) ensures e.key != gone {
        assert e in Entries(t, i);
      }
      EraseKeepsEntries(t, hash, i + 1, gone);
      if Index(hash(gone), |t|) == i {
        forall j | 0 <= j < |t[i]| ensures t[i][j].key != gone {
          assert t[i][j] in Entries(t, i);
        }
        LookupAt(t[i], gone);
        EraseAbsent(t[i], gone);
      }
    }
  }

  lemma EraseKeepsRest<K, V>(t: Table<K, V>, hash: K -> nat, i: int, p: Option<K>, gone: K)
    requires i >= -1 && Points(t, i, p) && KeyAbsent(Rest(t, i, p), gone)
    ensures Points(EraseKey(t, hash, gone), i, p)
    ensures Rest(EraseKey(t, hash, gone), i, p) == Rest(t, i, p)
  {
    if i + 1 <= |t| {
      forall e | e in Entries(t, i + 1) ensures e.key != gone {
        assert e in Rest(t, i, p);
      }
      EraseKeepsEntries(t, hash, i + 1, gone);
    }
    if p.Some? {
      var f := From(t[i], p.value);
      forall j | 0 <= j < |f| ensures f[j].key != gone {
        assert f[j] in Rest(t, i, p);
      }
      LookupAt(f, gone);
      EraseKeepsFrom(t[i], gone, p.value);
    }
  }

  /** The pointer to the entry after the first of a chain suffix. */
  function Second<K, V>(f: Chain<K, V>): Option<K> {
    if |f| > 1 then Some(f[1].key) else None
  }

  /** Returning the entry pointed to and saving its successor. */
  lemma RestTake<K, V>(t: Table<K, V>, i: int, k: K)
    requires 0 <= i < |t| && Distinct(t[i]) && Points(t, i, Some(k))
    ensures var f := From(t[i], k);
      && |f| > 0 && f[0].key == k && Points(t, i, Second(f))
      && Rest(t, i, Some(k)) == [f[0]] + Rest(t, i, Second(f))
  {
    Successor(t[i], k);
    var f := From(t[i], k);
    assert f == [f[0]] + f[1..];
  }

  // ---------------------------------------------------------------- a walk over both tables

  /** A position in the walk: bucket `index` of table `table`, with `p` pointing into its chain. */
  ghost predicate Position<K, V>(t0: Table<K, V>, t1: Table<K, V>, table: nat, index: int, p: Option<K>) {
    && index >= -1 && (table == 1 ==> index >= 0) && table <= 1
    && Points(if table == 0 then t0 else t1, index, p)
  }

  /** The entries still to come at a position. */
  ghost function Todo<K, V>(t0: Table<K, V>, t1: Table<K, V>, table: nat, index: int, p: Option<K>): seq<Entry<K, V>>
    requires Position(t0, t1, table, index, p)
  {
    if table == 0 then Rest(t0, index, p) + Entries(t1, 0) else Rest(t1, index, p)
  }

  /** The pointer to the first entry of a chain. */
  function Head<K, V>(c: Chain<K, V>): Option<K> {
    if c == [] then None else Some(c[0].key)
  }

  lemma TodoNextBucket<K, V>(t0: Table<K, V>, t1: Table<K, V>, table: nat, index: int)
    requires Position(t0, t1, table, index, None)
    ensures var t := if table == 0 then t0 else t1;
      if index + 1 < |t| then
        Position(t0, t1, table, index + 1, Head(t[index + 1])) &&
        Todo(t0, t1, table, index, None) == Todo(t0, t1, table, index + 1, Head(t[index + 1]))
      else if table == 0 && |t1| > 0 then
        Position(t0, t1, 1, 0, Head(t1[0])) &&
        Todo(t0, t1, table, index, None) == Todo(t0, t1, 1, 0, Head(t1[0]))
      else
        Todo(t0, t1, table, index, None) == [] && Todo(t0, t1, table, index + 1, None) == []
  {
    var t := if table == 0 then t0 else t1;
    if index + 1 < |t| {
      assert Entries(t, index + 1) == t[index + 1] + Entries(t, index + 2);
    } else if table == 0 && |t1| > 0 {
      assert Entries(t1, 0) == t1[0] + Entries(t1, 1);
    }
  }

  lemma TodoTake<K, V>(t0: Table<K, V>, t1: Table<K, V>, hash: K -> nat, table: nat, index: int, k: K)
    requires WellPlaced(t0, hash) && WellPlaced(t1, hash)
    requires Position(t0, t1, table, index, Some(k))
    ensures var f := From((if table == 0 then t0 else t1)[index], k);
      && |f| > 0 && f[0].key == k && Position(t0, t1, table, index, Second(f))
      && Todo(t0, t1, table, index, Some(k)) == [f[0]] + Todo(t0, t1, table, index, Second(f))
  {
    RestTake(if table == 0 then t0 else t1, index, k);
  }

  lemma TodoErase<K, V>(t0: Table<K, V>, t1: Table<K, V>, hash: K -> nat, table: nat, index: int, p: Option<K>, gone: K)
    requires Position(t0, t1, table, index, p)
    requires KeyAbsent(Todo(t0, t1, table, index, p), gone)
    ensures var u0, u1 := EraseKey(t0, hash, gone), EraseKey(t1, hash, gone);
      Position(u0, u1, table, index, p) && Todo(u0, u1, table, index, p) == Todo(t0, t1, table, index, p)
  {
    if table == 0 {
      assert Todo(t0, t1, table, index, p) == Rest(t0, index, p) + Entries(t1, 0);
      EraseKeepsRest(t0, hash, index, p, gone);
      EraseKeepsEntries(t1, hash, 0, gone);
    } else {
      EraseKeepsRest(t1, hash, index, p, gone);
    }
  }

  // ---------------------------------------------------------------- the iterator object

  class SafeIterator<K(!new, ==), V> {
    const d: Dictionary<K, V>
    var table: nat
    var index: int
    var entry: Option<K>     // an entry pointer; the key identifies the entry
    var nextEntry: Option<K>

    predicate Started()
      reads `table, `index
    {
      !(index == -1 && table == 0)
    }

    /** The entry pointer from which the walk goes on. */
    ghost function Pointer(): Option<K>
      reads `entry, `nextEntry
    {
      if entry.Some? then nextEntry else None
    }

    ghost predicate Valid()
      reads this, d
    {
      && (d.IsRehashing() <==> |d.ht1| > 0)
      && Position(d.ht0, d.ht1, table, index, Pointer())
      && (entry.Some? ==> 0 <= index < if table == 0 then |d.ht0| else |d.ht1|)
    }

    /** Entries not yet returned, in the order in which they will be. */
    ghost function Remaining(): seq<Entry<K, V>>
      requires Valid()
      reads this, d
    {
      Todo(d.ht0, d.ht1, table, index, Pointer())
    }

    constructor (d: Dictionary<K, V>)
      requires d.IsRehashing() <==> |d.ht1| > 0
      ensures this.d == d && Valid() && !Started()
      ensures Remaining() == Entries(d.ht0, 0) + Entries(d.ht1, 0)
    {
      this.d := d;
      table, index, entry, nextEntry := 0, -1, None, None;
    }

    /** Buckets left in the current table. */
    ghost function Left(): int
      reads `table, `index, d`ht0, d`ht1
    {
      (if table == 0 then |d.ht0| else |d.ht1|) - index
    }

    /** dictNext: the first entry still to be returned. */
    method Next() returns (r: Option<Entry<K, V>>)
      requires Valid() && WellPlaced(d.ht0, d.hash) && WellPlaced(d.ht1, d.hash)
      modifies this, d`iterators
      ensures Valid()
      ensures Started()
      ensures d.iterators == old(d.iterators) + if old(Started()) then 0 else 1
      ensures r == None ==> old(Remaining()) == [] && Remaining() == []
      ensures r.Some? ==> old(Remaining()) == [r.value] + Remaining() && entry == Some(r.value.key)
    {
      var end := Seek();
      if end { return None; }
      r := Take();
    }

    /** The loop of dictNext: advance until an entry is reached or the walk is over. */
    method Seek() returns (end: bool)
      requires Valid()
      modifies `table, `index, `entry, d`iterators
      ensures Started() && (d.IsRehashing() <==> |d.ht1| > 0) && Position(d.ht0, d.ht1, table, index, entry)
      ensures d.iterators == old(d.iterators) + if old(Started()) then 0 else 1
      ensures end ==> entry == None && old(Remaining()) == [] && Todo(d.ht0, d.ht1, table, index, None) == []
      ensures !end ==> entry.Some? && Todo(d.ht0, d.ht1, table, index, entry) == old(Remaining())
    {
      end := Advance();
      while !end && entry == None
        invariant Started() && (d.IsRehashing() <==> |d.ht1| > 0) && Position(d.ht0, d.ht1, table, index, entry)
        invariant d.iterators == old(d.iterators) + if old(Started()) then 0 else 1
        invariant end ==> entry == None && old(Remaining()) == [] && Todo(d.ht0, d.ht1, table, index, None) == []
        invariant !end ==> Todo(d.ht0, d.ht1, table, index, entry) == old(Remaining())
        decreases !end, 1 - table, Left()
      {
        end := Advance();
      }
    }

    /** Follow the saved successor, or enter the next bucket when there is none. */
    method Advance() returns (end: bool)
      requires Valid()
      modifies `table, `index, `entry, d`iterators
      ensures Started() && (d.IsRehashing() <==> |d.ht1| > 0) && Position(d.ht0, d.ht1, table, index, entry)
      ensures d.iterators == old(d.iterators) + if old(Started()) then 0 else 1
      ensures end ==> entry == None && old(Remaining()) == [] && Todo(d.ht0, d.ht1, table, index, None) == []
      ensures !end ==> Todo(d.ht0, d.ht1, table, index, entry) == old(Remaining())
      ensures !end ==> table >= old(table) && (table == old(table) ==> Left() <= old(Left()) && old(Left()) >= 0)
      ensures !end && table == old(table) && Left() == old(Left()) ==> old(entry.Some?)
    {
      if entry == None {
        TodoNextBucket(d.ht0, d.ht1, table, index);
        end := NextBucket();
      } else {
        entry := nextEntry;
        end := false;
      }
    }

    /** Return the entry arrived at, saving its successor first. */
    method Take() returns (r: Option<Entry<K, V>>)
      requires entry.Some? && Position(d.ht0, d.ht1, table, index, entry)
      requires (d.IsRehashing() <==> |d.ht1| > 0) && WellPlaced(d.ht0, d.hash) && WellPlaced(d.ht1, d.hash)
      modifies `nextEntry
      ensures Valid()
      ensures r.Some? && entry == Some(r.value.key)
      ensures Todo(d.ht0, d.ht1, table, index, entry) == [r.value] + Remaining()
    {
      TodoTake(d.ht0, d.ht1, d.hash, table, index, entry.value);
      var f := From(if table == 0 then d.ht0[index] else d.ht1[index], entry.value);
      nextEntry := Second(f);
      r := Some(f[0]);
    }

    /** Move to the next bucket, into ht[1] after the last of ht[0] while rehashing. */
    method NextBucket() returns (end: bool)
      requires Valid() && entry == None
      modifies `table, `index, `entry, d`iterators
      ensures d.iterators == old(d.iterators) + if old(Started()) then 0 else 1
      ensures var t := if old(table) == 0 then d.ht0 else d.ht1;
        if old(index) + 1 < |t| then
          !end && table == old(table) && index == old(index) + 1 && entry == Head(t[index])
        else if old(table) == 0 && |d.ht1| > 0 then
          !end && table == 1 && index == 0 && entry == Head(d.ht1[0])
        else
          end && table == old(table) && index == old(index) + 1 && entry == None
    {
      if !Started() {
        d.iterators := d.iterators + 1;
      }
      index := index + 1;
      if index >= if table == 0 then |d.ht0| else |d.ht1| {
        if d.IsRehashing() && table == 0 {
          table, index := 1, 0;
        } else {
          return true;
        }
      }
      entry := Head(if table == 0 then d.ht0[index] else d.ht1[index]);
      return false;
    }
  }

  // ---------------------------------------------------------------- whole iterations

  /** Keys of the returned entries that the caller deleted. */
  ghost function Deleted<K, V>(visited: seq<Entry<K, V>>, deletes: nat -> bool): set<K> {
    if visited == [] then {}
    else
      var last := |visited| - 1;
      Deleted(visited[..last], deletes) + (if deletes(last) then {visited[last].key} else {})
  }

  lemma DeletedOneMore<K, V>(m: map<K, V>, visited: seq<Entry<K, V>>, e: Entry<K, V>, deletes: nat -> bool)
    ensures m - Deleted(visited + [e], deletes) ==
      if deletes(|visited|) then m - Deleted(visited, deletes) - {e.key} else m - Deleted(visited, deletes)
  {
    assert (visited + [e])[..|visited|] == visited;
  }

  lemma OthersDiffer<K, V>(all: seq<Entry<K, V>>, n: nat)
    requires DistinctKeys(all) && n < |all|
    ensures KeyAbsent(all[n + 1..], all[n].key)
  {
  }

  lemma TakeOneMore<T>(all: seq<T>, n: nat)
    requires n < |all|
    ensures all[..n + 1] == all[..n] + [all[n]]
  {
  }

  lemma WholeSequence<T>(all: seq<T>)
    ensures all[0..] == all && all[..|all|] == all
  {
  }

  lemma SuffixStep<T>(all: seq<T>, n: nat, x: T, rest: seq<T>)
    requires n <= |all| && all[n..] == [x] + rest
    ensures n < |all| && all[n] == x && all[n + 1..] == rest
  {
    assert |all[n..]| > 0;
    assert all[n..][0] == x;
    assert all[n..][1..] == rest;
  }

  /** Lookups while a safe iterator is running do not move entries. */
  method Probe<K(!new, ==), V>(d: Dictionary<K, V>, keys: seq<K>)
    requires d.Valid() && d.iterators > 0
    modifies d`ht0, d`ht1, d`used0, d`used1, d`rehashidx
    ensures d.Valid()
    ensures d.ht0 == old(d.ht0) && d.ht1 == old(d.ht1) && d.rehashidx == old(d.rehashidx)
  {
    var i := 0;
    while i < |keys|
      invariant 0 <= i <= |keys| && d.Valid()
      invariant d.ht0 == old(d.ht0) && d.ht1 == old(d.ht1) && d.rehashidx == old(d.rehashidx)
    {
      var _ := d.FindEntry(keys[i]);
      i := i + 1;
    }
  }

  /** Deleting the entry just returned leaves the rest of the walk as it was. */
  method DeleteReturned<K(!new, ==), V>(it: SafeIterator<K, V>, key: K)
    requires it.Valid() && it.d.Valid() && it.d.iterators > 0
    requires KeyAbsent(it.Remaining(), key)
    modifies it.d`ht0, it.d`ht1, it.d`used0, it.d`used1, it.d`rehashidx, it.d`Contents
    ensures it.Valid()
    ensures it.d.Valid()
    ensures it.Remaining() == old(it.Remaining())
    ensures it.d.Contents == old(it.d.Contents) - {key}
  {
    TodoErase(it.d.ht0, it.d.ht1, it.d.hash, it.table, it.index, it.Pointer(), key);
    var _ := it.d.Delete(key);
  }

  /** What a caller may do between two calls of dictNext: look keys up, and delete the
      entry just returned. Neither disturbs the walk, because a running safe iterator
      suspends rehashing. */
  method Interfere<K(!new, ==), V>(it: SafeIterator<K, V>, probes: seq<K>, last: Entry<K, V>, delete: bool)
    requires it.Valid() && it.d.Valid() && it.d.iterators > 0
    requires KeyAbsent(it.Remaining(), last.key)
    modifies it.d
    ensures it.Valid()
    ensures it.d.Valid()
    ensures it.d.iterators == old(it.d.iterators)
    ensures it.Remaining() == old(it.Remaining())
    ensures it.d.Contents == if delete then old(it.d.Contents) - {last.key} else old(it.d.Contents)
  {
    Probe(it.d, probes);
    if delete {
      DeleteReturned(it, last.key);
    }
  }

  /** `n` entries of `all` have been dealt with, `r` is the next one, the others are to come. */
  ghost predicate Walk<K(!new), V>(it: SafeIterator<K, V>, all: seq<Entry<K, V>>, n: nat, r: Option<Entry<K, V>>)
    reads it, it.d
  {
    && it.Valid() && it.d.Valid() && it.d.iterators > 0 && it.Started()
    && n <= |all|
    && (if r.Some? then n < |all| && all[n] == r.value && it.Remaining() == all[n + 1..] else n == |all|)
  }

  /** dictNext, keeping the whole dictionary valid. */
  method NextOf<K(!new, ==), V>(it: SafeIterator<K, V>, ghost all: seq<Entry<K, V>>, ghost n: nat)
    returns (r: Option<Entry<K, V>>)
    requires it.Valid() && it.d.Valid() && n <= |all| && it.Remaining() == all[n..]
    requires it.Started() ==> it.d.iterators > 0
    modifies it, it.d`iterators
    ensures Walk(it, all, n, r)
    ensures it.d.iterators == old(it.d.iterators) + if old(it.Started()) then 0 else 1
  {
    r := it.Next();
    if r.Some? {
      SuffixStep(all, n, r.value, it.Remaining());
    }
  }

  method Following<K(!new, ==), V>(it: SafeIterator<K, V>, ghost all: seq<Entry<K, V>>, ghost n: nat,
                                   last: Entry<K, V>, probes: seq<K>, delete: bool)
    returns (r: Option<Entry<K, V>>)
    requires Walk(it, all, n, Some(last)) && KeyAbsent(all[n + 1..], last.key)
    modifies it, it.d
    ensures Walk(it, all, n + 1, r)
    ensures it.d.iterators == old(it.d.iterators)
    ensures it.d.Contents == if delete then old(it.d.Contents) - {last.key} else old(it.d.Contents)
  {
    Interfere(it, probes, last, delete);
    r := NextOf(it, all, n + 1);
  }

  /** The caller's loop: while ((de = dictNext(it)) != NULL) ... */
  method VisitRest<K(!new, ==), V>(it: SafeIterator<K, V>, ghost all: seq<Entry<K, V>>, first: Option<Entry<K, V>>,
                                   probes: nat -> seq<K>, deletes: nat -> bool)
    returns (visited: seq<Entry<K, V>>)
    requires Walk(it, all, 0, first) && DistinctKeys(all)
    modifies it, it.d
    ensures it.d.Valid()
    ensures it.d.iterators == old(it.d.iterators)
    ensures visited == all
    ensures it.d.Contents == old(it.d.Contents) - Deleted(visited, deletes)
  {
    var r := first;
    visited := [];
    while r.Some?
      invariant Walk(it, all, |visited|, r)
      invariant it.d.iterators == old(it.d.iterators)
      invariant visited == all[..|visited|]
      invariant it.d.Contents == old(it.d.Contents) - Deleted(visited, deletes)
      decreases |all| - |visited|
    {
      var last := r.value;
      r := VisitOne(it, all, visited, last, probes, deletes, old(it.d.Contents));
      visited := visited + [last];
    }
    WholeSequence(all);
  }

  method VisitOne<K(!new, ==), V>(it: SafeIterator<K, V>, ghost all: seq<Entry<K, V>>, visited: seq<Entry<K, V>>,
      last: Entry<K, V>, probes: nat -> seq<K>, deletes: nat -> bool, ghost was: map<K, V>)
    returns (r: Option<Entry<K, V>>)
    requires Walk(it, all, |visited|, Some(last)) && DistinctKeys(all) && visited == all[..|visited|]
    requires it.d.Contents == was - Deleted(visited, deletes)
    modifies it, it.d
    ensures Walk(it, all, |visited| + 1, r)
    ensures it.d.iterators == old(it.d.iterators)
    ensures visited + [last] == all[..|visited| + 1]
    ensures it.d.Contents == was - Deleted(visited + [last], deletes)
  {
    DeletedOneMore(was, visited, last, deletes);
    TakeOneMore(all, |visited|);
    OthersDiffer(all, |visited|);
    r := Following(it, all, |visited|, last, probes(|visited|), deletes(|visited|));
  }

  method Begin<K(!new, ==), V>(d: Dictionary<K, V>, ghost all: seq<Entry<K, V>>)
    returns (it: SafeIterator<K, V>, first: Option<Entry<K, V>>)
    requires d.Valid() && all == Entries(d.ht0, 0) + Entries(d.ht1, 0)
    modifies d`iterators
    ensures fresh(it) && it.d == d && Walk(it, all, 0, first) && d.iterators == old(d.iterators) + 1
  {
    it := new SafeIterator(d);
    WholeSequence(all);
    first := NextOf(it, all, 0);
  }

  /** Get a safe iterator, loop, release it. */
  method VisitEntries<K(!new, ==), V>(d: Dictionary<K, V>, probes: nat -> seq<K>, deletes: nat -> bool)
    returns (visited: seq<Entry<K, V>>)
    requires d.Valid() && DistinctKeys(Entries(d.ht0, 0) + Entries(d.ht1, 0))
    modifies d
    ensures d.Valid()
    ensures d.iterators == old(d.iterators)
    ensures visited == old(Entries(d.ht0, 0) + Entries(d.ht1, 0))
    ensures d.Contents == old(d.Contents) - Deleted(visited, deletes)
  {
    ghost var all := Entries(d.ht0, 0) + Entries(d.ht1, 0);
    var it, first := Begin(d, all);
    visited := VisitRest(it, all, first, probes, deletes);
    d.iterators := d.iterators - 1; // dictReleaseIterator
  }

  /** A whole safe iteration from any state, with any probes and deletions in between,
      returns every entry present at its start exactly once. */
  method VisitAll<K(!new, ==), V>(d: Dictionary<K, V>, probes: nat -> seq<K>, deletes: nat -> bool)
    returns (visited: seq<Entry<K, V>>)
    requires d.Valid()
    modifies d
    ensures d.Valid()
    ensures d.iterators == old(d.iterators)
    ensures Enumerates(visited, old(d.Contents))
    ensures d.Contents == old(d.Contents) - Deleted(visited, deletes)
  {
    EntriesEnumerateMap(d.ht0, d.ht1, d.hash, d.Contents);
    visited := VisitEntries(d, probes, deletes);
  }
}
