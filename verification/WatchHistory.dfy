/** What it means for a watched key to have been touched. */
module WatchHistory {
  import opened WatchIndex

  datatype Flags = Flags(multi: bool, dirtyCas: bool, dirtyExec: bool)

  /** For each signal so far, the keys it touched. */
  type Log<K(==)> = seq<set<Watched<K>>>

  /** The watched keys of a client, and how many signals there had been when each was watched. */
  type Dates<K(==)> = map<Watched<K>, nat>

  ghost predicate TouchedSince<K(!new)>(log: Log<K>, k: Watched<K>, n: nat) {
    exists t :: n <= t < |log| && k in log[t]
  }

  /** Some watched key was touched after it was watched. */
  ghost predicate Stale<K(!new)>(since: Dates<K>, log: Log<K>) {
    exists k :: k in since && TouchedSince(log, k, since[k])
  }

  /** The dated keys are those of the list. */
  ghost predicate Dated<K(!new)>(keys: seq<Watched<K>>, since: Dates<K>, log: Log<K>) {
    && (forall k :: k in keys <==> k in since)
    && (forall k :: k in since ==> since[k] <= |log|)
  }

  /** A client's REDIS_DIRTY_CAS flag is set exactly when one of its keys was touched. */
  ghost predicate ExactAt<K(!new)>(f: Flags, keys: seq<Watched<K>>, since: Dates<K>, log: Log<K>) {
    Dated(keys, since, log) && (f.dirtyCas <==> Stale(since, log))
  }

  lemma TouchedLater<K(!new)>(log: Log<K>, s: set<Watched<K>>, k: Watched<K>, n: nat)
    requires n <= |log|
    ensures TouchedSince(log + [s], k, n) <==> TouchedSince(log, k, n) || k in s
  {
    var log' := log + [s];
    if TouchedSince(log, k, n) {
      var t :| n <= t < |log| && k in log[t];
      assert k in log'[t];
    }
    if k in s { assert k in log'[|log|]; }
  }

  ghost predicate Hits<K(!new)>(keys: seq<Watched<K>>, s: set<Watched<K>>) {
    exists k :: k in keys && k in s
  }

  /** A signal makes a client stale exactly when it touches one of its keys. */
  lemma StaleLater<K(!new)>(keys: seq<Watched<K>>, since: Dates<K>, log: Log<K>, s: set<Watched<K>>)
    requires Dated(keys, since, log)
    ensures Dated(keys, since, log + [s])
    ensures Stale(since, log + [s]) <==> Stale(since, log) || Hits(keys, s)
  {
    forall k | k in since ensures TouchedSince(log + [s], k, since[k]) <==> TouchedSince(log, k, since[k]) || k in s {
      TouchedLater(log, s, k, since[k]);
    }
  }

  /** The key is watched from the n-th signal on. */
  ghost function WatchedAt<K>(since: Dates<K>, k: Watched<K>, n: nat): Dates<K> {
    since[k := n]
  }

  /** A key just watched has not been touched. */
  lemma StaleAdd<K(!new)>(keys: seq<Watched<K>>, since: Dates<K>, log: Log<K>, k: Watched<K>)
    requires Dated(keys, since, log) && k !in keys
    ensures Dated(keys + [k], WatchedAt(since, k, |log|), log)
    ensures Stale(WatchedAt(since, k, |log|), log) <==> Stale(since, log)
  {
    var since' := WatchedAt(since, k, |log|);
    if Stale(since, log) {
      var k' :| k' in since && TouchedSince(log, k', since[k']);
      assert k' in since' && TouchedSince(log, k', since'[k']);
    }
    if Stale(since', log) {
      var k' :| k' in since' && TouchedSince(log, k', since'[k']);
      assert k' in since && TouchedSince(log, k', since[k']);
    }
  }

  // ---------------------------------------------------------------- all clients

  ghost predicate Exact<K(!new)>(flags: map<Id, Flags>, watched: KeyLists<K>, since: map<Id, Dates<K>>, log: Log<K>,
      but: set<Id>)
  {
    forall c :: c in watched && c !in but ==> c in flags && c in since && ExactAt(flags[c], watched[c], since[c], log)
  }

  /** The flags of exactly the clients in `hit` get REDIS_DIRTY_CAS. */
  ghost predicate Marked(flags: map<Id, Flags>, flags': map<Id, Flags>, hit: set<Id>) {
    && flags'.Keys == flags.Keys
    && forall c :: c in flags ==> flags'[c] == if c in hit then flags[c].(dirtyCas := true) else flags[c]
  }

  lemma MarkedMore(flags: map<Id, Flags>, flags': map<Id, Flags>, hit: set<Id>, c: Id)
    requires Marked(flags, flags', hit) && c in flags
    ensures Marked(flags, flags'[c := flags'[c].(dirtyCas := true)], hit + {c})
  {
  }

  lemma HitsAppend<K(!new)>(keys: seq<Watched<K>>, i: nat, s: set<Watched<K>>)
    requires i < |keys|
    ensures Hits(keys[..i + 1], s) <==> Hits(keys[..i], s) || keys[i] in s
  {
    assert keys[..i + 1] == keys[..i] + [keys[i]];
    if keys[i] in s { assert keys[i] in keys[..i + 1]; }
    if Hits(keys[..i], s) {
      var k :| k in keys[..i] && k in s;
      assert k in keys[..i + 1];
    }
  }

  /** Exactly the clients in `hit` watch a key of s. */
  ghost predicate HitBy<K(!new)>(watched: KeyLists<K>, s: set<Watched<K>>, hit: set<Id>) {
    forall c :: c in watched ==> (c in hit <==> Hits(watched[c], s))
  }

  lemma MarkedExact<K(!new)>(flags: map<Id, Flags>, flags': map<Id, Flags>, hit: set<Id>, watched: KeyLists<K>,
      since: map<Id, Dates<K>>, log: Log<K>, s: set<Watched<K>>)
    requires Exact(flags, watched, since, log, {}) && Marked(flags, flags', hit) && HitBy(watched, s, hit)
    ensures Exact(flags', watched, since, log + [s], {})
  {
    forall c | c in watched ensures c in flags' && c in since && ExactAt(flags'[c], watched[c], since[c], log + [s]) {
      assert ExactAt(flags[c], watched[c], since[c], log);
      StaleLater(watched[c], since[c], log, s);
      assert c in hit <==> Hits(watched[c], s);
    }
  }

  lemma WatchExact<K(!new)>(flags: map<Id, Flags>, watched: KeyLists<K>, since: map<Id, Dates<K>>, log: Log<K>, c: Id,
      k: Watched<K>)
    requires Exact(flags, watched, since, log, {}) && c in watched && k !in watched[c]
    ensures c in since
      && Exact(flags, watched[c := watched[c] + [k]], since[c := WatchedAt(since[c], k, |log|)], log, {})
  {
    assert ExactAt(flags[c], watched[c], since[c], log);
    StaleAdd(watched[c], since[c], log, k);
  }

  lemma ExactOthers<K(!new)>(flags: map<Id, Flags>, watched: KeyLists<K>, since: map<Id, Dates<K>>, log: Log<K>, c: Id,
      rest: seq<Watched<K>>)
    requires Exact(flags, watched, since, log, {c}) && c in watched
    ensures Exact(flags, watched[c := rest], since, log, {c})
  {
  }

  // ---------------------------------------------------------------- the whole state

  /** One record of each kind for each client. */
  ghost predicate Complete<Cmd, K(!new)>(clients: seq<Id>, db: map<Id, nat>, flags: map<Id, Flags>,
      queue: map<Id, seq<Cmd>>, watched: KeyLists<K>, since: map<Id, Dates<K>>)
  {
    && NoDup(clients) && (forall c :: c in clients <==> c in watched)
    && db.Keys == watched.Keys && flags.Keys == watched.Keys && queue.Keys == watched.Keys && since.Keys == watched.Keys
  }

  lemma CompleteWatched<Cmd, K(!new)>(clients: seq<Id>, db: map<Id, nat>, flags: map<Id, Flags>,
      queue: map<Id, seq<Cmd>>, watched: KeyLists<K>, since: map<Id, Dates<K>>, c: Id, list: seq<Watched<K>>,
      dates: Dates<K>)
    requires Complete(clients, db, flags, queue, watched, since) && c in watched
    ensures Complete(clients, db, flags, queue, watched[c := list], since[c := dates])
    ensures Complete(clients, db, flags, queue, watched[c := list], since)
  {
    assert watched[c := list].Keys == watched.Keys;
    assert since[c := dates].Keys == since.Keys;
  }

  lemma CompleteFlags<Cmd, K(!new)>(clients: seq<Id>, db: map<Id, nat>, flags: map<Id, Flags>, queue: map<Id, seq<Cmd>>,
      watched: KeyLists<K>, since: map<Id, Dates<K>>, flags': map<Id, Flags>)
    requires Complete(clients, db, flags, queue, watched, since) && flags'.Keys == flags.Keys
    ensures Complete(clients, db, flags', queue, watched, since)
  {
  }

  lemma CompleteDb<Cmd, K(!new)>(clients: seq<Id>, db: map<Id, nat>, flags: map<Id, Flags>, queue: map<Id, seq<Cmd>>,
      watched: KeyLists<K>, since: map<Id, Dates<K>>, c: Id, n: nat)
    requires Complete(clients, db, flags, queue, watched, since) && c in clients
    ensures Complete(clients, db[c := n], flags, queue, watched, since)
  {
    assert db[c := n].Keys == db.Keys;
  }

  lemma CompleteQueue<Cmd, K(!new)>(clients: seq<Id>, db: map<Id, nat>, flags: map<Id, Flags>, queue: map<Id, seq<Cmd>>,
      watched: KeyLists<K>, since: map<Id, Dates<K>>, c: Id, q: seq<Cmd>)
    requires Complete(clients, db, flags, queue, watched, since) && c in clients
    ensures Complete(clients, db, flags, queue[c := q], watched, since)
  {
    assert queue[c := q].Keys == queue.Keys;
  }

  lemma CompleteConnect<Cmd, K(!new)>(clients: seq<Id>, db: map<Id, nat>, flags: map<Id, Flags>,
      queue: map<Id, seq<Cmd>>, watched: KeyLists<K>, since: map<Id, Dates<K>>, c: Id)
    requires Complete(clients, db, flags, queue, watched, since) && c !in clients
    ensures Complete(clients
      + [c], db[c := 0], flags[c := Flags(false, false, false)], queue[c := []], watched[c := []], since[c := map[]])
  {
  }

  lemma CompleteDisconnect<Cmd, K(!new)>(clients: seq<Id>, db: map<Id, nat>, flags: map<Id, Flags>,
      queue: map<Id, seq<Cmd>>, watched: KeyLists<K>, since: map<Id, Dates<K>>, c: Id)
    requires Complete(clients, db, flags, queue, watched, since) && c in clients
    ensures Complete(Without(clients, c), db - {c}, flags - {c}, queue - {c}, watched - {c}, since - {c})
  {
    WithoutMembers(clients, c);
  }

  /** The two-way index is exact and so are the flags, those of the clients in `but` apart. */
  ghost predicate InOrder<K(!new)>(flags: map<Id, Flags>, watched: KeyLists<K>, index: Index<K>,
      since: map<Id, Dates<K>>, log: Log<K>, but: set<Id>)
  {
    Inverse(index, watched) && Exact(flags, watched, since, log, but)
  }

  lemma MarkedInOrder<K(!new)>(flags: map<Id, Flags>, watched: KeyLists<K>, index: Index<K>, since: map<Id, Dates<K>>,
      log: Log<K>, flags': map<Id, Flags>, hit: set<Id>, s: set<Watched<K>>)
    requires InOrder(flags, watched, index, since, log, {}) && Marked(flags, flags', hit) && HitBy(watched, s, hit)
    ensures InOrder(flags', watched, index, since, log + [s], {})
  {
    MarkedExact(flags, flags', hit, watched, since, log, s);
  }

  lemma WatchInOrder<K(!new)>(flags: map<Id, Flags>, watched: KeyLists<K>, index: Index<K>, since: map<Id, Dates<K>>,
      log: Log<K>, c: Id, k: Watched<K>)
    requires InOrder(flags, watched, index, since, log, {}) && c in watched && k !in watched[c]
    ensures c in since
    ensures InOrder(flags, watched[c := watched[c] + [k]], Appended(index, k, c),
      since[c := WatchedAt(since[c], k, |log|)], log, {})
  {
    AddPair(index, watched, c, k);
    WatchExact(flags, watched, since, log, c, k);
  }

  lemma UnwatchInOrder<K(!new)>(flags: map<Id, Flags>, watched: KeyLists<K>, index: Index<K>, since: map<Id, Dates<K>>,
      log: Log<K>, c: Id)
    requires InOrder(flags, watched, index, since, log, {c}) && c in watched && watched[c] != []
    ensures Listed(index, watched[c][0], c)
    ensures InOrder(flags, watched[c := watched[c][1..]], Removed(index, watched[c][0], c), since, log, {c})
  {
    RemovePair(index, watched, c);
    ExactOthers(flags, watched, since, log, c, watched[c][1..]);
  }

  /** Without watched keys and without the flag, a client is in order again. */
  lemma UnwatchedInOrder<K(!new)>(flags: map<Id, Flags>, watched: KeyLists<K>, index: Index<K>,
      since: map<Id, Dates<K>>, log: Log<K>, c: Id)
    requires InOrder(flags, watched, index, since, log, {c}) && c in watched && watched[c] == [] && c in flags
      && !flags[c].dirtyCas
    ensures InOrder(flags, watched, index, since[c := map[]], log, {})
  {
    var since' := since[c := map[]];
    forall c' | c' in watched ensures c' in flags && c' in since' && ExactAt(flags[c'], watched[c'], since'[c'], log) {
      if c' != c { assert c' !in {c}; }
    }
  }

  /** A client may be excepted from the flags' exactness. */
  lemma ExceptInOrder<K(!new)>(flags: map<Id, Flags>, watched: KeyLists<K>, index: Index<K>, since: map<Id, Dates<K>>,
      log: Log<K>, c: Id)
    requires InOrder(flags, watched, index, since, log, {})
    ensures InOrder(flags, watched, index, since, log, {c})
  {
  }

  lemma ConnectInOrder<K(!new)>(flags: map<Id, Flags>, watched: KeyLists<K>, index: Index<K>, since: map<Id, Dates<K>>,
      log: Log<K>, c: Id)
    requires InOrder(flags, watched, index, since, log, {}) && c !in watched
    ensures InOrder(flags[c := Flags(false, false, false)], watched[c := []], index, since[c := map[]], log, {})
  {
    AddClient(index, watched, c);
    assert !Stale(map[], log);
  }

  lemma DisconnectInOrder<K(!new)>(flags: map<Id, Flags>, watched: KeyLists<K>, index: Index<K>,
      since: map<Id, Dates<K>>, log: Log<K>, c: Id)
    requires InOrder(flags, watched, index, since, log, {c}) && c in watched && watched[c] == []
    ensures InOrder(flags - {c}, watched - {c}, index, since - {c}, log, {})
  {
    DropClient(index, watched, c);
    forall c' | c' in watched - {c} ensures c' in flags - {c} && c' in since - {c}
      && ExactAt((flags - {c})[c'], watched[c'], since[c'], log) {
      assert c' !in {c};
    }
  }

  /** The dirty flags outside `but` are kept. */
  ghost predicate DirtyKept(flags: map<Id, Flags>, flags': map<Id, Flags>, but: set<Id>) {
    && flags'.Keys == flags.Keys
    && forall c :: c in flags && c !in but ==> flags'[c].dirtyCas == flags[c].dirtyCas
  }

  /** Changes to the flags of one client, and to the other two flags of any. */
  lemma FlagsInOrder<K(!new)>(flags: map<Id, Flags>, watched: KeyLists<K>, index: Index<K>, since: map<Id, Dates<K>>,
      log: Log<K>, flags': map<Id, Flags>, but: set<Id>)
    requires InOrder(flags, watched, index, since, log, {}) && DirtyKept(flags, flags', but)
    ensures InOrder(flags', watched, index, since, log, but)
  {
    forall c | c in watched && c !in but
      ensures c in flags' && c in since && ExactAt(flags'[c], watched[c], since[c], log)
    {
      assert ExactAt(flags[c], watched[c], since[c], log);
    }
  }
}
