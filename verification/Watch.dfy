/** WATCH, MULTI and EXEC, multi.c. */
module Watch {
  import opened Admission
  import opened Bytes
  import opened WatchIndex
  import opened WatchHistory
  import opened WatchSpec

  /** Signals change no flag but REDIS_DIRTY_CAS. */
  ghost predicate SameButDirty(flags: map<Id, Flags>, flags': map<Id, Flags>) {
    && flags'.Keys == flags.Keys
    && forall c :: c in flags ==> flags'[c].multi == flags[c].multi && flags'[c].dirtyExec == flags[c].dirtyExec
  }

  // ---------------------------------------------------------------- the sessions a state represents

  ghost function Sessions<K(!new), Cmd>(db: map<Id, nat>, flags: map<Id, Flags>, queue: map<Id, seq<Command<Cmd>>>,
      since: map<Id, Dates<K>>): map<Id, Session<K, Cmd>>
  {
    map c | c in db && c in flags && c in queue && c in since ::
      Session(db[c], flags[c].multi, flags[c].dirtyExec, queue[c], since[c])
  }

  lemma SessionsKept<K(!new), Cmd>(db: map<Id, nat>, flags: map<Id, Flags>, flags': map<Id, Flags>,
      queue: map<Id, seq<Command<Cmd>>>, since: map<Id, Dates<K>>)
    requires SameButDirty(flags, flags')
    ensures Sessions(db, flags', queue, since) == Sessions(db, flags, queue, since)
  {
  }

  lemma Whole<T>(s: seq<T>)
    ensures s[..|s|] == s
  {
  }

  lemma SessionsSet<K(!new), Cmd>(db: map<Id, nat>, flags: map<Id, Flags>, queue: map<Id, seq<Command<Cmd>>>,
      since: map<Id, Dates<K>>, c: Id, n: nat, f: Flags, q: seq<Command<Cmd>>, d: Dates<K>)
    ensures Sessions(db[c := n], flags[c := f], queue[c := q], since[c := d])
      == Sessions(db, flags, queue, since)[c := Session(n, f.multi, f.dirtyExec, q, d)]
  {
  }

  lemma SetSame<V>(m: map<Id, V>, c: Id)
    requires c in m
    ensures m[c := m[c]] == m
  {
  }

  lemma SessionsDrop<K(!new), Cmd>(db: map<Id, nat>, flags: map<Id, Flags>, queue: map<Id, seq<Command<Cmd>>>,
      since: map<Id, Dates<K>>, c: Id)
    ensures Sessions(db - {c}, flags - {c}, queue - {c}, since - {c}) == Sessions(db, flags, queue, since) - {c}
  {
  }

  /** The world after client c's session and the data have changed. */
  ghost function Stepped<K(!new), Cmd>(w: World<K, Cmd>, c: Id, s: Session<K, Cmd>, d: Data<K>): World<K, Cmd> {
    World(w.sessions[c := s], d)
  }

  /** The world of these records. */
  ghost function WorldOf<K(!new), Cmd>(db: map<Id, nat>, flags: map<Id, Flags>, queue: map<Id, seq<Command<Cmd>>>,
      since: map<Id, Dates<K>>, keys: set<Watched<K>>, log: Log<K>): World<K, Cmd>
  {
    World(Sessions(db, flags, queue, since), Data(keys, log))
  }

  lemma WorldSet<K(!new), Cmd>(db: map<Id, nat>, flags: map<Id, Flags>, queue: map<Id, seq<Command<Cmd>>>,
      since: map<Id, Dates<K>>, keys: set<Watched<K>>, log: Log<K>, c: Id, n: nat, f: Flags, q: seq<Command<Cmd>>,
      d: Dates<K>)
    ensures WorldOf(db[c := n], flags[c := f], queue[c := q], since[c := d], keys, log)
      == Stepped(WorldOf(db, flags, queue, since, keys, log), c, Session(n, f.multi, f.dirtyExec, q, d),
        Data(keys, log))
  {
    SessionsSet(db, flags, queue, since, c, n, f, q, d);
  }

  lemma SteppedTwice<K(!new), Cmd>(w: World<K, Cmd>, c: Id, s: Session<K, Cmd>, d: Data<K>, s': Session<K, Cmd>,
      d': Data<K>)
    ensures Stepped(Stepped(w, c, s, d), c, s', d') == Stepped(w, c, s', d')
  {
    UpdateTwice(w.sessions, c, s, s');
  }

  lemma SteppedSame<K(!new), Cmd>(w: World<K, Cmd>, c: Id)
    requires c in w.sessions
    ensures Stepped(w, c, w.sessions[c], w.data) == w
  {
    SetSame(w.sessions, c);
  }

  /** The world after one command, or all commands of a list, of client c. */
  ghost function OnePerformed<K(!new), Cmd>(run: Runner<K, Cmd>, cmd: Command<Cmd>, w: World<K, Cmd>, c: Id)
    : World<K, Cmd>
    requires c in w.sessions
  {
    var p := Performed(run, cmd, w.sessions[c], w.data);
    Stepped(w, c, p.0, p.1)
  }

  ghost function AllPerformed<K(!new), Cmd>(run: Runner<K, Cmd>, cmds: seq<Command<Cmd>>, w: World<K, Cmd>, c: Id)
    : (w': World<K, Cmd>)
    requires c in w.sessions
    ensures c in w'.sessions
  {
    var p := PerformedAll(run, cmds, w.sessions[c], w.data);
    Stepped(w, c, p.0, p.1)
  }

  lemma OtherPerformed<K(!new), Cmd>(run: Runner<K, Cmd>, w: World<K, Cmd>, c: Id, x: Cmd)
    requires c in w.sessions
    ensures OnePerformed(run, Other(x), w, c)
      == World(w.sessions, AfterActs(run(x, w.sessions[c].db, w.data.keys), w.data))
  {
    SetSame(w.sessions, c);
  }

  lemma NonePerformed<K(!new), Cmd>(run: Runner<K, Cmd>, w: World<K, Cmd>, c: Id)
    requires c in w.sessions
    ensures AllPerformed(run, [], w, c) == w
  {
    SteppedSame(w, c);
  }

  lemma NextPerformed<K(!new), Cmd>(run: Runner<K, Cmd>, cmds: seq<Command<Cmd>>, j: nat, w: World<K, Cmd>, c: Id)
    requires c in w.sessions && j < |cmds|
    ensures AllPerformed(run, cmds[..j + 1], w, c) == OnePerformed(run, cmds[j], AllPerformed(run, cmds[..j], w, c), c)
  {
    assert cmds[..j + 1][..j] == cmds[..j];
    var p := PerformedAll(run, cmds[..j], w.sessions[c], w.data);
    var p' := Performed(run, cmds[j], p.0, p.1);
    SteppedTwice(w, c, p.0, p.1, p'.0, p'.1);
  }

  ghost function Unwatched<K(!new), Cmd>(w: World<K, Cmd>, c: Id): (w': World<K, Cmd>)
    requires c in w.sessions
    ensures c in w'.sessions
  {
    Stepped(w, c, w.sessions[c].(since := map[]), w.data)
  }

  ghost function Reset<K(!new), Cmd>(w: World<K, Cmd>, c: Id): World<K, Cmd>
    requires c in w.sessions
  {
    Stepped(w, c, Fresh(w.sessions[c].db), w.data)
  }

  ghost function WhenExecuted<K(!new), Cmd>(run: Runner<K, Cmd>, w: World<K, Cmd>, c: Id): World<K, Cmd>
    requires c in w.sessions
  {
    var e := Executed(run, w.sessions[c], w.data);
    Stepped(w, c, e.0, e.1)
  }

  /** Unwatching, running the queue and resetting is what EXEC calls for. */
  lemma ExecutedInSteps<K(!new), Cmd>(run: Runner<K, Cmd>, w: World<K, Cmd>, c: Id)
    requires c in w.sessions && w.sessions[c].multi && !w.sessions[c].refused && !Stale(w.sessions[c].since, w.data.log)
    ensures Reset(AllPerformed(run, w.sessions[c].queue, Unwatched(w, c), c), c) == WhenExecuted(run, w, c)
  {
    var s := w.sessions[c].(since := map[]);
    var p := PerformedAll(run, s.queue, s, w.data);
    SteppedTwice(w, c, s, w.data, p.0, p.1);
    SteppedTwice(w, c, p.0, p.1, Fresh(p.0.db), p.1);
  }

  /** Watching one key that may be watched already. */
  ghost function Also<K>(since: Dates<K>, k: Watched<K>, now: nat): Dates<K> {
    if k in since then since else WatchedAt(since, k, now)
  }

  lemma WatchingNext<K(!new)>(since: Dates<K>, db: nat, names: seq<K>, now: nat, j: nat)
    requires j < |names|
    ensures Watching(since, db, names[..j + 1], now)
      == Also(Watching(since, db, names[..j], now), Watched(db, names[j]), now)
  {
    assert names[..j + 1] == names[..j] + [names[j]];
  }

  class Server<K(==, !new), Cmd(!new)> {
    /** What a command does in a given database on a given set of keys. */
    const run: Runner<K, Cmd>
    var clients: seq<Id>
    var db: map<Id, nat>
    var flags: map<Id, Flags>
    var queue: map<Id, seq<Command<Cmd>>>
    var watched: KeyLists<K>
    var index: Index<K>
    var keys: set<Watched<K>>
    /** The keys touched by each signal so far, and how many there had been when a key was watched. */
    ghost var log: Log<K>
    ghost var since: map<Id, Dates<K>>

    ghost predicate ValidBut(but: set<Id>)
      reads this
    {
      Complete(clients, db, flags, queue, watched, since) && InOrder(flags, watched, index, since, log, but)
    }

    ghost predicate Valid()
      reads this
    {
      ValidBut({})
    }

    ghost function View(): World<K, Cmd>
      reads this
    {
      WorldOf(db, flags, queue, since, keys, log)
    }

    constructor (run: Runner<K, Cmd>)
      ensures Valid()
      ensures clients == [] && this.run == run && View() == Begin()
    {
      this.run := run;
      clients, db, flags, queue, watched, index, keys := [], map[], map[], map[], map[], map[], {};
      log, since := [], map[];
    }

    /** The search at the head of watchForKey. */
    method IsWatched(c: Id, wk: Watched<K>) returns (found: bool)
      requires c in watched
      ensures found <==> wk in watched[c]
    {
      var list := watched[c];
      for i := 0 to |list|
        invariant wk !in list[..i]
      {
        if list[i] == wk { return true; }
      }
      return false;
    }

    lemma DatesOf(c: Id)
      requires Valid() && c in clients
      ensures c in watched && c in since && c in flags && c in db && c in queue
        && ExactAt(flags[c], watched[c], since[c], log)
    {
    }

    lemma SessionAt(c: Id)
      requires c in View().sessions
      ensures c in db && c in flags && c in queue && c in since
      ensures View().sessions[c] == Session(db[c], flags[c].multi, flags[c].dirtyExec, queue[c], since[c])
    {
    }

    lemma ClientAt(c: Id)
      requires Valid() && c in View().sessions
      ensures c in clients && c in watched
    {
    }

    /** watchForKey. */
    method WatchForKey(c: Id, key: K)
      requires Valid() && c in clients
      modifies `watched, `index, `since
      ensures Valid()
      ensures Watched(db[c], key) in old(watched[c]) ==> watched == old(watched) && since == old(since)
      ensures Watched(db[c], key) !in old(watched[c]) ==>
        && watched == old(watched)[c := old(watched[c]) + [Watched(db[c], key)]]
        && since == old(since)[c := WatchedAt(old(since[c]), Watched(db[c], key), |log|)]
    {
      var wk := Watched(db[c], key);
      var found := IsWatched(c, wk);
      if !found { AddWatch(c, wk); }
    }

    method AddWatch(c: Id, wk: Watched<K>)
      requires Valid() && c in watched && wk !in watched[c]
      modifies `watched, `index, `since
      ensures Valid()
      ensures watched == old(watched)[c := old(watched[c]) + [wk]]
      ensures since == old(since)[c := WatchedAt(old(since[c]), wk, |log|)]
    {
      WatchInOrder(flags, watched, index, since, log, c, wk);
      CompleteWatched(clients, db, flags, queue, watched, since, c, watched[c] + [wk], WatchedAt(since[c], wk, |log|));
      LinkPair(c, wk);
    }

    /** The updates of watchForKey. */
    method LinkPair(c: Id, wk: Watched<K>)
      requires c in watched && c in since
      modifies `watched, `index, `since
      ensures index == Appended(old(index), wk, c) && watched == old(watched)[c := old(watched[c]) + [wk]]
      ensures since == old(since)[c := WatchedAt(old(since[c]), wk, |log|)]
    {
      var list := if wk in index then index[wk] else [];
      index := index[wk := list + [c]];
      watched := watched[c := watched[c] + [wk]];
      since := since[c := WatchedAt(since[c], wk, |log|)];
    }

    /** unwatchAllKeys: the flag is left to the caller. */
    method UnwatchAllKeys(c: Id)
      requires ValidBut({c}) && c in clients
      modifies `watched, `index
      ensures ValidBut({c}) && watched == old(watched)[c := []]
    {
      while watched[c] != []
        invariant ValidBut({c}) && c in watched
        invariant watched == old(watched)[c := watched[c]]
        decreases |watched[c]|
      {
        ghost var rest := watched[c][1..];
        UpdateTwice(old(watched), c, watched[c], rest);
        UnwatchFirst(c);
      }
    }

    method UnwatchFirst(c: Id)
      requires ValidBut({c}) && c in watched && watched[c] != []
      modifies `watched, `index
      ensures ValidBut({c}) && watched == old(watched)[c := old(watched[c])[1..]]
    {
      UnwatchInOrder(flags, watched, index, since, log, c);
      CompleteWatched(clients, db, flags, queue, watched, since, c, watched[c][1..], since[c]);
      UnlinkPair(c);
    }

    /** The updates of one round of unwatchAllKeys. */
    method UnlinkPair(c: Id)
      requires c in watched && watched[c] != [] && Listed(index, watched[c][0], c)
      modifies `watched, `index
      ensures index == Removed(old(index), old(watched[c])[0], c) && watched == old(watched)[c := old(watched[c])[1..]]
    {
      var wk := watched[c][0];
      var list := Without(index[wk], c);
      if |list| == 0 { index := index - {wk}; } else { index := index[wk := list]; }
      watched := watched[c := watched[c][1..]];
    }

    // -------------------------------------------------------------- clients

    /** The part of createClient that concerns watched keys. */
    method Connect(c: Id)
      requires Valid() && c !in clients
      modifies `clients, `db, `flags, `queue, `watched, `since
      ensures Valid()
      ensures clients == old(clients) + [c]
      ensures db == old(db)[c := 0] && flags == old(flags)[c := Flags(false, false, false)]
        && queue == old(queue)[c := []]
      ensures watched == old(watched)[c := []] && since == old(since)[c := map[]]
    {
      CompleteConnect(clients, db, flags, queue, watched, since, c);
      ConnectInOrder(flags, watched, index, since, log, c);
      AddClient(c);
    }

    method AddClient(c: Id)
      modifies `clients, `db, `flags, `queue, `watched, `since
      ensures clients == old(clients) + [c]
      ensures db == old(db)[c := 0] && flags == old(flags)[c := Flags(false, false, false)]
        && queue == old(queue)[c := []]
      ensures watched == old(watched)[c := []] && since == old(since)[c := map[]]
    {
      clients := clients + [c];
      db, flags, queue := db[c := 0], flags[c := Flags(false, false, false)], queue[c := []];
      watched, since := watched[c := []], since[c := map[]];
    }

    /** The part of freeClient that concerns watched keys. */
    method Disconnect(c: Id)
      requires Valid() && c in clients
      modifies `clients, `db, `flags, `queue, `watched, `index, `since
      ensures Valid()
      ensures clients == Without(old(clients), c) && watched == old(watched) - {c}
      ensures db == old(db) - {c} && flags == old(flags) - {c} && queue == old(queue) - {c} && since == old(since) - {c}
    {
      ExceptInOrder(flags, watched, index, since, log, c);
      UnwatchAllKeys(c);
      RemoveUpdated(old(watched), c, []);
      DropClient(c);
    }

    method DropClient(c: Id)
      requires ValidBut({c}) && c in clients && watched[c] == []
      modifies `clients, `db, `flags, `queue, `watched, `since
      ensures Valid()
      ensures clients == Without(old(clients), c) && watched == old(watched) - {c}
      ensures db == old(db) - {c} && flags == old(flags) - {c} && queue == old(queue) - {c} && since == old(since) - {c}
    {
      CompleteDisconnect(clients, db, flags, queue, watched, since, c);
      DisconnectInOrder(flags, watched, index, since, log, c);
      RemoveClient(c);
    }

    method RemoveClient(c: Id)
      requires c in clients
      modifies `clients, `db, `flags, `queue, `watched, `since
      ensures clients == Without(old(clients), c) && db == old(db) - {c} && flags == old(flags) - {c}
      ensures queue == old(queue) - {c} && watched == old(watched) - {c} && since == old(since) - {c}
    {
      clients := Without(clients, c);
      db, flags, queue, watched, since := db - {c}, flags - {c}, queue - {c}, watched - {c}, since - {c};
    }

    /** selectCommand. */
    method SelectDb(c: Id, n: nat)
      requires Valid() && c in clients
      modifies `db
      ensures Valid()
      ensures db == old(db)[c := n]
    {
      CompleteDb(clients, db, flags, queue, watched, since, c, n);
      db := db[c := n];
    }

    /** watchCommand; the reply is whether WATCH was allowed. */
    method WatchKeys(c: Id, names: seq<K>) returns (ok: bool)
      requires Valid() && c in clients
      modifies `watched, `index, `since
      ensures Valid()
      ensures ok == !flags[c].multi
      ensures !ok ==> watched == old(watched) && since == old(since)
      ensures ok ==>
        c in db && c in old(since) && since == old(since)[c := Watching(old(since[c]), db[c], names, |log|)]
    {
      if flags[c].multi { return false; }
      WatchEach(c, names);
      return true;
    }

    method WatchEach(c: Id, names: seq<K>)
      requires Valid() && c in clients
      modifies `watched, `index, `since
      ensures Valid()
      ensures c in db && c in old(since)
      ensures since == old(since)[c := Watching(old(since[c]), db[c], names, |log|)]
    {
      DatesOf(c);
      WatchingNone(c);
      ghost var was, dates, n := since, since[c], db[c];
      for j := 0 to |names|
        invariant Valid()
        invariant since == was[c := Watching(dates, n, names[..j], |log|)]
      {
        WatchNext(c, names, j, was, dates);
      }
      Whole(names);
    }

    method WatchNext(c: Id, names: seq<K>, j: nat, ghost was: map<Id, Dates<K>>, ghost dates: Dates<K>)
      requires Valid() && c in clients && j < |names| && c in db
      requires since == was[c := Watching(dates, db[c], names[..j], |log|)]
      modifies `watched, `index, `since
      ensures Valid()
      ensures since == was[c := Watching(dates, db[c], names[..j + 1], |log|)]
    {
      WatchingNext(dates, db[c], names, |log|, j);
      UpdateTwice(was, c, Watching(dates, db[c], names[..j], |log|), Watching(dates, db[c], names[..j + 1], |log|));
      WatchAlso(c, names[j]);
    }

    lemma WatchingNone(c: Id)
      requires c in since && c in db
      ensures since == since[c := Watching(since[c], db[c], [], |log|)]
    {
      assert Watching(since[c], db[c], [], |log|) == since[c];
    }

    method WatchAlso(c: Id, key: K)
      requires Valid() && c in clients
      modifies `watched, `index, `since
      ensures Valid()
      ensures c in db && c in old(since)
      ensures since == old(since)[c := Also(old(since[c]), Watched(db[c], key), |log|)]
    {
      DatesOf(c);
      SetSame(since, c);
      WatchForKey(c, key);
    }

    // -------------------------------------------------------------- transactions

    /** New flags for client c that keep REDIS_DIRTY_CAS. */
    method SetFlags(c: Id, f: Flags)
      requires Valid() && c in clients && f.dirtyCas == flags[c].dirtyCas
      modifies `flags
      ensures Valid()
      ensures flags == old(flags)[c := f]
    {
      FlagsInOrder(flags, watched, index, since, log, flags[c := f], {});
      CompleteFlags(clients, db, flags, queue, watched, since, flags[c := f]);
      flags := flags[c := f];
    }

    /** multiCommand. */
    method Multi(c: Id) returns (ok: bool)
      requires Valid() && c in clients
      modifies `flags
      ensures Valid()
      ensures ok == !old(flags[c].multi)
      ensures flags == if ok then old(flags)[c := old(flags[c]).(multi := true)] else old(flags)
    {
      if flags[c].multi { return false; }
      SetFlags(c, flags[c].(multi := true));
      return true;
    }

    /** flagTransaction. */
    method FlagTransaction(c: Id)
      requires Valid() && c in clients
      modifies `flags
      ensures Valid()
      ensures flags == old(flags)[c := old(flags[c]).(dirtyExec := old(flags[c]).dirtyExec || old(flags[c]).multi)]
    {
      SetSame(flags, c);
      if flags[c].multi { SetFlags(c, flags[c].(dirtyExec := true)); }
    }

    /** queueMultiCommand. */
    method Queue(c: Id, cmd: Command<Cmd>)
      requires Valid() && c in clients
      modifies `queue
      ensures Valid()
      ensures queue == old(queue)[c := old(queue[c]) + [cmd]]
    {
      CompleteQueue(clients, db, flags, queue, watched, since, c, queue[c] + [cmd]);
      queue := queue[c := queue[c] + [cmd]];
    }

    /** Unwatch everything, with new flags. */
    method ResetFlags(c: Id, f: Flags)
      requires Valid() && c in clients && !f.dirtyCas
      modifies `flags, `watched, `index, `since
      ensures Valid()
      ensures watched == old(watched)[c := []] && flags == old(flags)[c := f] && since == old(since)[c := map[]]
    {
      FlagsInOrder(flags, watched, index, since, log, flags[c := f], {c});
      CompleteFlags(clients, db, flags, queue, watched, since, flags[c := f]);
      flags := flags[c := f];
      UnwatchAllKeys(c);
      Forget(c);
    }

    ghost method Forget(c: Id)
      requires ValidBut({c}) && c in clients && watched[c] == [] && !flags[c].dirtyCas
      modifies `since
      ensures Valid()
      ensures since == old(since)[c := map[]]
    {
      UnwatchedInOrder(flags, watched, index, since, log, c);
      CompleteWatched(clients, db, flags, queue, watched, since, c, [], map[]);
      SetSame(watched, c);
      since := since[c := map[]];
    }

    /** unwatchCommand. */
    method Unwatch(c: Id)
      requires Valid() && c in clients
      modifies `watched, `index, `flags, `since
      ensures Valid()
      ensures watched == old(watched)[c := []] && since == old(since)[c := map[]]
      ensures flags == old(flags)[c := old(flags[c]).(dirtyCas := false)]
    {
      ResetFlags(c, flags[c].(dirtyCas := false));
    }

    /** discardTransaction. */
    method DiscardTransaction(c: Id)
      requires Valid() && c in clients
      modifies `queue, `flags, `watched, `index, `since
      ensures Valid()
      ensures queue == old(queue)[c := []] && watched == old(watched)[c := []]
      ensures flags == old(flags)[c := Flags(false, false, false)] && since == old(since)[c := map[]]
    {
      CompleteQueue(clients, db, flags, queue, watched, since, c, []);
      queue := queue[c := []];
      ResetFlags(c, Flags(false, false, false));
    }

    // -------------------------------------------------------------- signals

    /** Set REDIS_DIRTY_CAS for each client of a list. */
    method MarkDirty(list: seq<Id>)
      requires forall c :: c in list ==> c in flags
      modifies `flags
      ensures Marked(old(flags), flags, set c | c in list)
    {
      for i := 0 to |list|
        invariant Marked(old(flags), flags, set c | c in list[..i])
      {
        flags := flags[list[i] := flags[list[i]].(dirtyCas := true)];
      }
      assert list[..|list|] == list;
    }

    /** The ghost side of a signal that touched the keys of s. */
    ghost method Logged(flags': map<Id, Flags>, hit: set<Id>, s: set<Watched<K>>)
      requires Complete(clients, db, flags', queue, watched, since) && InOrder(flags', watched, index, since, log, {})
      requires Marked(flags', flags, hit) && HitBy(watched, s, hit)
      modifies `log
      ensures Valid()
      ensures log == old(log) + [s] && SameButDirty(flags', flags)
    {
      MarkedInOrder(flags', watched, index, since, log, flags, hit, s);
      CompleteFlags(clients, db, flags', queue, watched, since, flags);
      log := log + [s];
    }

    /** touchWatchedKey. */
    method TouchWatchedKey(k: Watched<K>)
      requires Valid()
      modifies `flags, `log
      ensures Valid()
      ensures log == old(log) + [{k}] && SameButDirty(old(flags), flags)
    {
      ghost var hit := MarkWatchers(k);
      Logged(old(flags), hit, {k});
    }

    method MarkWatchers(k: Watched<K>) returns (ghost hit: set<Id>)
      requires Inverse(index, watched) && flags.Keys == watched.Keys
      modifies `flags
      ensures Marked(old(flags), flags, hit) && HitBy(watched, {k}, hit)
    {
      hit := {};
      if k in index {
        hit := set c | c in index[k];
        forall c | c in index[k] ensures c in flags { assert Listed(index, k, c); }
        MarkDirty(index[k]);
      }
      forall c | c in watched ensures c in hit <==> Hits(watched[c], {k}) {
        assert Listed(index, k, c) <==> Watches(watched, c, k);
      }
    }

    /** Whether one of a client's watched keys exists and is about to be flushed. */
    method WatchesFlushed(list: seq<Watched<K>>, dbid: Option<nat>) returns (hit: bool)
      ensures hit <==> Hits(list, Flushed(keys, dbid))
    {
      hit := false;
      for i := 0 to |list|
        invariant hit <==> Hits(list[..i], Flushed(keys, dbid))
      {
        HitsAppend(list, i, Flushed(keys, dbid));
        if dbid == None || list[i].db == dbid.value {
          if list[i] in keys { hit := true; }
        }
      }
      assert list[..|list|] == list;
    }

    /** touchWatchedKeysOnFlush. */
    method TouchWatchedKeysOnFlush(dbid: Option<nat>)
      requires Valid()
      modifies `flags, `log
      ensures Valid()
      ensures log == old(log) + [Flushed(keys, dbid)] && SameButDirty(old(flags), flags)
    {
      ghost var hit := MarkFlushed(dbid);
      Logged(old(flags), hit, Flushed(keys, dbid));
    }

    method MarkFlushed(dbid: Option<nat>) returns (ghost hit: set<Id>)
      requires Complete(clients, db, flags, queue, watched, since)
      modifies `flags
      ensures Marked(old(flags), flags, hit) && HitBy(watched, Flushed(keys, dbid), hit)
    {
      hit := {};
      for i := 0 to |clients|
        invariant Marked(old(flags), flags, hit)
        invariant forall c :: c in watched ==>
          (c in hit <==> c in clients[..i] && Hits(watched[c], Flushed(keys, dbid)))
      {
        var c := clients[i];
        assert clients[..i + 1] == clients[..i] + [c];
        var h := WatchesFlushed(watched[c], dbid);
        if h {
          MarkedMore(old(flags), flags, hit, c);
          flags := flags[c := flags[c].(dirtyCas := true)];
          hit := hit + {c};
        }
      }
      assert clients[..|clients|] == clients;
    }

    // -------------------------------------------------------------- commands

    /** One signal or one change of the data. */
    method Perform(act: Act<K>)
      requires Valid()
      modifies `flags, `log, `keys
      ensures Valid()
      ensures SameButDirty(old(flags), flags)
      ensures Data(keys, log) == AfterAct(act, old(Data(keys, log)))
    {
      match act
      case Signal(k) => TouchWatchedKey(k);
      case SignalFlush(dbid) => TouchWatchedKeysOnFlush(dbid);
      case Store(keys') => keys := keys';
    }

    /** The body of a command: everything it signals and stores, in order. */
    method Call(cmd: Cmd, n: nat)
      requires Valid()
      modifies `flags, `log, `keys
      ensures Valid()
      ensures SameButDirty(old(flags), flags)
      ensures Data(keys, log) == AfterActs(run(cmd, n, old(keys)), old(Data(keys, log)))
    {
      var acts := run(cmd, n, keys);
      for i := 0 to |acts|
        invariant Valid()
        invariant SameButDirty(old(flags), flags)
        invariant Data(keys, log) == AfterActs(acts[..i], old(Data(keys, log)))
      {
        Perform(acts[i]);
        assert acts[..i + 1][..i] == acts[..i];
      }
      assert acts[..|acts|] == acts;
    }

    /** One command of client c, called from processCommand or from execCommand. */
    method PerformCommand(c: Id, cmd: Command<Cmd>)
      requires Valid() && c in View().sessions
      modifies `db, `flags, `watched, `index, `since, `log, `keys
      ensures Valid()
      ensures View() == OnePerformed(run, cmd, old(View()), c)
    {
      match cmd
      case Select(n) => PerformSelect(c, n);
      case Unwatch => PerformUnwatch(c);
      case Other(x) => PerformOther(c, x);
    }

    method PerformSelect(c: Id, n: nat)
      requires Valid() && c in View().sessions
      modifies `db
      ensures Valid()
      ensures View() == OnePerformed(run, Select(n), old(View()), c)
    {
      SessionAt(c);
      WorldSet(db, flags, queue, since, keys, log, c, n, flags[c], queue[c], since[c]);
      SetSame(flags, c); SetSame(queue, c); SetSame(since, c);
      ClientAt(c);
      SelectDb(c, n);
    }

    method PerformUnwatch(c: Id)
      requires Valid() && c in View().sessions
      modifies `flags, `watched, `index, `since
      ensures Valid()
      ensures View() == OnePerformed(run, Command.Unwatch, old(View()), c)
    {
      SessionAt(c);
      WorldSet(db, flags, queue, since, keys, log, c, db[c], flags[c].(dirtyCas := false), queue[c], map[]);
      SetSame(db, c); SetSame(queue, c);
      ClientAt(c);
      Unwatch(c);
    }

    method PerformOther(c: Id, x: Cmd)
      requires Valid() && c in View().sessions
      modifies `flags, `log, `keys
      ensures Valid()
      ensures View() == OnePerformed(run, Other(x), old(View()), c)
    {
      SessionAt(c);
      OtherPerformed(run, View(), c, x);
      CallFor(x, db[c]);
    }

    method CallFor(x: Cmd, n: nat)
      requires Valid()
      modifies `flags, `log, `keys
      ensures Valid()
      ensures View() == World(old(View()).sessions, AfterActs(run(x, n, old(View()).data.keys), old(View()).data))
    {
      Call(x, n);
      SessionsKept(db, old(flags), flags, queue, since);
    }

    /** All commands of a transaction, nothing in between. */
    method PerformAll(c: Id, cmds: seq<Command<Cmd>>)
      requires Valid() && c in View().sessions
      modifies `db, `flags, `watched, `index, `since, `log, `keys
      ensures Valid()
      ensures View() == AllPerformed(run, cmds, old(View()), c)
    {
      ghost var w := View();
      NonePerformed(run, w, c);
      for j := 0 to |cmds|
        invariant Valid()
        invariant View() == AllPerformed(run, cmds[..j], w, c)
      {
        PerformNext(c, cmds, j, w);
      }
      Whole(cmds);
    }

    method PerformNext(c: Id, cmds: seq<Command<Cmd>>, j: nat, ghost w: World<K, Cmd>)
      requires Valid() && c in w.sessions && j < |cmds| && View() == AllPerformed(run, cmds[..j], w, c)
      modifies `db, `flags, `watched, `index, `since, `log, `keys
      ensures Valid()
      ensures View() == AllPerformed(run, cmds[..j + 1], w, c)
    {
      NextPerformed(run, cmds, j, w, c);
      PerformCommand(c, cmds[j]);
    }

    // -------------------------------------------------------------- EXEC

    /** execCommand: the queue runs exactly when no watched key was touched since it was watched
        and no command was refused while queueing. */
    method Exec(c: Id) returns (o: Reply<Cmd>)
      requires Valid() && c in View().sessions
      modifies `db, `flags, `queue, `watched, `index, `since, `log, `keys
      ensures Valid()
      ensures View() == WhenExecuted(run, old(View()), c)
      ensures o == Executed(run, old(View()).sessions[c], old(View()).data).2
    {
      SessionAt(c);
      FlagIsExact(c);
      if !flags[c].multi {
        SteppedSame(View(), c);
        return ExecWithoutMulti;
      }
      if flags[c].dirtyCas || flags[c].dirtyExec {
        o := if flags[c].dirtyExec then ExecAbort else NullReply;
        ResetTransaction(c);
        return;
      }
      o := Ran(queue[c]);
      ExecutedInSteps(run, View(), c);
      RunQueue(c);
    }

    lemma FlagIsExact(c: Id)
      requires Valid() && c in View().sessions
      ensures c in flags && c in since && (flags[c].dirtyCas <==> Stale(since[c], log))
    {
      SessionAt(c);
      ClientAt(c);
      assert ExactAt(flags[c], watched[c], since[c], log);
    }

    /** The successful path: unwatch, run the queue, reset the transaction. */
    method RunQueue(c: Id)
      requires Valid() && c in View().sessions && c in flags && !flags[c].dirtyCas
      modifies `db, `flags, `queue, `watched, `index, `since, `log, `keys
      ensures Valid()
      ensures View() == Reset(AllPerformed(run, old(View()).sessions[c].queue, Unwatched(old(View()), c), c), c)
    {
      SessionAt(c);
      UnwatchClean(c);
      PerformAll(c, queue[c]);
      ResetTransaction(c);
    }

    method UnwatchClean(c: Id)
      requires Valid() && c in View().sessions && c in flags && !flags[c].dirtyCas
      modifies `watched, `index, `since
      ensures Valid()
      ensures View() == Unwatched(old(View()), c)
    {
      SessionAt(c);
      ClientAt(c);
      ExceptInOrder(flags, watched, index, since, log, c);
      WorldSet(db, flags, queue, since, keys, log, c, db[c], flags[c], queue[c], map[]);
      SetSame(db, c); SetSame(flags, c); SetSame(queue, c);
      UnwatchAllKeys(c);
      Forget(c);
    }

    /** discardTransaction, seen from outside. */
    method ResetTransaction(c: Id)
      requires Valid() && c in View().sessions
      modifies `queue, `flags, `watched, `index, `since
      ensures Valid()
      ensures View() == Reset(old(View()), c)
    {
      SessionAt(c);
      WorldSet(db, flags, queue, since, keys, log, c, db[c], Flags(false, false, false), [], map[]);
      SetSame(db, c);
      ClientAt(c);
      DiscardTransaction(c);
    }

    // -------------------------------------------------------------- processCommand

    /** processCommand, for client e.c. */
    method Process(e: Event<K, Cmd>) returns (r: Reply<Cmd>)
      requires Valid() && e.c in View().sessions && e.Asked?
      modifies `db, `flags, `queue, `watched, `index, `since, `log, `keys
      ensures Valid()
      ensures
        var (s, d, r') := Answered(run, old(View()).sessions[e.c], old(View()).data, e);
        View() == Stepped(old(View()), e.c, s, d) && r == r'
    {
      match Check(e.situation)
      case Some(why) =>
        ProcessRefusal(e.c, why);
        r := Refused(why);
      case None =>
        r := Serve(e.c, e.request);
    }

    /** A request that passed all checks. */
    method Serve(c: Id, request: Request<K, Cmd>) returns (r: Reply<Cmd>)
      requires Valid() && c in View().sessions
      modifies `db, `flags, `queue, `watched, `index, `since, `log, `keys
      ensures Valid()
      ensures
        var (s, d, r') := Served(run, old(View()).sessions[c], old(View()).data, request);
        View() == Stepped(old(View()), c, s, d) && r == r'
    {
      SessionAt(c);
      SteppedSame(View(), c);
      match request
      case WatchKeys(names) =>
        if flags[c].multi { return WatchInsideMulti; }
        ProcessWatch(c, names);
        r := Done;
      case Multi =>
        if flags[c].multi { return NestedMulti; }
        ProcessMulti(c);
        r := Done;
      case Discard =>
        if !flags[c].multi { return DiscardWithoutMulti; }
        ResetTransaction(c);
        r := Done;
      case Exec =>
        r := Exec(c);
      case Ordinary(cmd) =>
        if flags[c].multi {
          ProcessQueue(c, cmd);
          r := Queued;
        } else {
          PerformCommand(c, cmd);
          r := Done;
        }
    }

    method ProcessRefusal(c: Id, why: Refusal)
      requires Valid() && c in View().sessions
      modifies `flags
      ensures Valid()
      ensures View() == Stepped(old(View()), c, AfterRefusal(old(View()).sessions[c], why), Data(keys, log))
    {
      SteppedSame(View(), c);
      if Marks(why) { ProcessFlag(c); }
    }

    method ProcessWatch(c: Id, names: seq<K>)
      requires Valid() && c in View().sessions && !View().sessions[c].multi
      modifies `watched, `index, `since
      ensures Valid()
      ensures
        var s := old(View()).sessions[c];
        View() == Stepped(old(View()), c, s.(since := Watching(s.since, s.db, names, |log|)), Data(keys, log))
    {
      SessionAt(c);
      WorldSet(db, flags, queue, since, keys, log, c, db[c], flags[c], queue[c],
        Watching(since[c], db[c], names, |log|));
      SetSame(db, c); SetSame(flags, c); SetSame(queue, c);
      ClientAt(c);
      var _ := WatchKeys(c, names);
    }

    method ProcessMulti(c: Id)
      requires Valid() && c in View().sessions && !View().sessions[c].multi
      modifies `flags
      ensures Valid()
      ensures View() == Stepped(old(View()), c, old(View()).sessions[c].(multi := true), Data(keys, log))
    {
      SessionAt(c);
      WorldSet(db, flags, queue, since, keys, log, c, db[c], flags[c].(multi := true), queue[c], since[c]);
      SetSame(db, c); SetSame(queue, c); SetSame(since, c);
      ClientAt(c);
      var _ := Multi(c);
    }

    method ProcessQueue(c: Id, cmd: Command<Cmd>)
      requires Valid() && c in View().sessions
      modifies `queue
      ensures Valid()
      ensures
        var s := old(View()).sessions[c];
        View() == Stepped(old(View()), c, s.(queue := s.queue + [cmd]), Data(keys, log))
    {
      SessionAt(c);
      WorldSet(db, flags, queue, since, keys, log, c, db[c], flags[c], queue[c] + [cmd], since[c]);
      SetSame(db, c); SetSame(flags, c); SetSame(since, c);
      ClientAt(c);
      Queue(c, cmd);
    }

    method ProcessFlag(c: Id)
      requires Valid() && c in View().sessions
      modifies `flags
      ensures Valid()
      ensures
        var s := old(View()).sessions[c];
        View() == Stepped(old(View()), c, s.(refused := s.refused || s.multi), Data(keys, log))
    {
      SessionAt(c);
      ghost var f := flags[c];
      WorldSet(db, flags, queue, since, keys, log, c, db[c], f.(dirtyExec := f.dirtyExec || f.multi), queue[c],
        since[c]);
      SetSame(db, c); SetSame(queue, c); SetSame(since, c);
      ClientAt(c);
      FlagTransaction(c);
    }

    method ProcessConnect(c: Id)
      requires Valid() && c !in clients
      modifies `clients, `db, `flags, `queue, `watched, `since
      ensures Valid()
      ensures View() == Stepped(old(View()), c, Fresh(0), Data(keys, log))
    {
      WorldSet(db, flags, queue, since, keys, log, c, 0, Flags(false, false, false), [], map[]);
      Connect(c);
    }

    method ProcessDisconnect(c: Id)
      requires Valid() && c in clients
      modifies `clients, `db, `flags, `queue, `watched, `index, `since
      ensures Valid()
      ensures View() == World(old(View()).sessions - {c}, Data(keys, log))
    {
      SessionsDrop(db, flags, queue, since, c);
      Disconnect(c);
    }

    lemma ClientsAreSessions()
      requires Valid()
      ensures forall c :: c in clients <==> c in View().sessions
    {
    }

    /** One event. */
    method Handle(e: Event<K, Cmd>) returns (r: Reply<Cmd>)
      requires Valid()
      modifies this
      ensures Valid()
      ensures (View(), r) == Next(run, old(View()), e)
    {
      ClientsAreSessions();
      r := Silence;
      if e.c !in clients {
        if e.Connected? { ProcessConnect(e.c); }
      } else if e.Disconnected? {
        ProcessDisconnect(e.c);
      } else if e.Connected? {
        SteppedSame(View(), e.c);
      } else {
        r := Process(e);
      }
    }
  }

  // ---------------------------------------------------------------- runs

  /** In every run, the replies and the state are those the events call for. The state includes the
      log of signals; that the index is a two-way index and that each flag says exactly whether a
      watched key was touched is Valid. */
  method Run<K(==, !new), Cmd(!new)>(run: Runner<K, Cmd>, events: Events<K, Cmd>)
      returns (s: Server<K, Cmd>, replies: seq<Reply<Cmd>>)
    ensures s.Valid()
    ensures (s.View(), replies) == After(run, events)
  {
    s := new Server(run);
    replies := [];
    for i := 0 to |events|
      invariant s.Valid()
      invariant fresh(s) && s.run == run
      invariant (s.View(), replies) == After(run, events[..i])
    {
      AfterSplit(run, events, i);
      var r := s.Handle(events[i]);
      replies := replies + [r];
    }
    assert events[..|events|] == events;
  }
}
