/** What makes an EXEC fail, said with the commands of the run alone: which of them signal a watched
    key. No log of signals is mentioned. */
module WatchTouches {
  import opened Admission
  import opened Bytes
  import opened WatchHistory
  import opened WatchIndex
  import opened WatchSpec

  /** The keys that exist after these acts: those last stored. */
  ghost function KeysAfter<K>(acts: seq<Act<K>>, keys: set<Watched<K>>): set<Watched<K>> {
    if acts == [] then keys
    else
      var last := acts[|acts| - 1];
      if last.Store? then last.keys else KeysAfter(acts[..|acts| - 1], keys)
  }

  /** A signal of the key, or of a flush of its database, or of all, while it exists. */
  ghost predicate ActTouches<K>(act: Act<K>, keys: set<Watched<K>>, k: Watched<K>) {
    match act
    case Signal(x) => x == k
    case SignalFlush(dbid) => k in keys && (dbid == None || dbid == Some(k.db))
    case Store(_) => false
  }

  /** One of the acts hits the key. */
  ghost predicate Touches<K>(acts: seq<Act<K>>, keys: set<Watched<K>>, k: Watched<K>) {
    exists t {:trigger acts[t]} :: 0 <= t < |acts| && ActTouches(acts[t], KeysAfter(acts[..t], keys), k)
  }

  /** The database selected after these commands. */
  ghost function DbAfter<Cmd>(cmds: seq<Command<Cmd>>, db: nat): nat {
    if cmds == [] then db
    else
      var last := cmds[|cmds| - 1];
      if last.Select? then last.n else DbAfter(cmds[..|cmds| - 1], db)
  }

  /** What these commands do, one after the other. */
  ghost function ActsOf<K, Cmd>(run: Runner<K, Cmd>, cmds: seq<Command<Cmd>>, db: nat, keys: set<Watched<K>>)
    : seq<Act<K>>
  {
    if cmds == [] then []
    else
      var before, last := ActsOf(run, cmds[..|cmds| - 1], db, keys), cmds[|cmds| - 1];
      if last.Other? then before + run(last.cmd, DbAfter(cmds[..|cmds| - 1], db), KeysAfter(before, keys)) else before
  }

  /** The commands that an event carries out: the one asked for outside MULTI, or a transaction. */
  ghost function CarriedOut<K(!new), Cmd>(run: Runner<K, Cmd>, w: World<K, Cmd>, e: Event<K, Cmd>): seq<Command<Cmd>> {
    match Next(run, w, e).1
    case Done => if e.Asked? && e.request.Ordinary? then [e.request.command] else []
    case Ran(cmds) => cmds
    case _ => []
  }

  /** What they do. */
  ghost function ActsAt<K(!new), Cmd>(run: Runner<K, Cmd>, events: Events<K, Cmd>, j: nat): seq<Act<K>>
    requires j < |events|
  {
    var w, c := At(run, events, j), events[j].c;
    if c in w.sessions then ActsOf(run, CarriedOut(run, w, events[j]), w.sessions[c].db, w.data.keys) else []
  }

  /** Event j of the run touches the key. */
  ghost predicate TouchesAt<K(!new), Cmd>(run: Runner<K, Cmd>, events: Events<K, Cmd>, k: Watched<K>, j: nat) {
    j < |events| && Touches(ActsAt(run, events, j), At(run, events, j).data.keys, k)
  }

  // ---------------------------------------------------------------- the log says the same

  lemma {:induction false} KeysKept<K>(acts: seq<Act<K>>, d: Data<K>)
    ensures AfterActs(acts, d).keys == KeysAfter(acts, d.keys)
  {
    if acts != [] { KeysKept(acts[..|acts| - 1], d); }
  }

  lemma TouchesNext<K(!new)>(acts: seq<Act<K>>, keys: set<Watched<K>>, k: Watched<K>)
    requires acts != []
    ensures
      var n := |acts| - 1;
      Touches(acts, keys, k) <==> Touches(acts[..n], keys, k) || ActTouches(acts[n], KeysAfter(acts[..n], keys), k)
  {
    var n := |acts| - 1;
    forall t | 0 <= t < n ensures acts[..n][t] == acts[t] && acts[..n][..t] == acts[..t] { }
    if Touches(acts[..n], keys, k) {
      var t :| 0 <= t < n && ActTouches(acts[..n][t], KeysAfter(acts[..n][..t], keys), k);
      assert ActTouches(acts[t], KeysAfter(acts[..t], keys), k);
    }
  }

  lemma SinceNext<K(!new)>(log: Log<K>, s: set<Watched<K>>, k: Watched<K>, n: nat)
    requires n <= |log|
    ensures TouchedSince(log + [s], k, n) <==> TouchedSince(log, k, n) || k in s
  {
    TouchedLater(log, s, k, n);
  }

  lemma {:induction false} ActsLogged<K(!new)>(acts: seq<Act<K>>, d: Data<K>, k: Watched<K>)
    ensures d.log <= AfterActs(acts, d).log
    ensures TouchedSince(AfterActs(acts, d).log, k, |d.log|) <==> Touches(acts, d.keys, k)
  {
    if acts != [] {
      var n := |acts| - 1;
      var before := AfterActs(acts[..n], d);
      ActsLogged(acts[..n], d, k);
      KeysKept(acts[..n], d);
      TouchesNext(acts, d.keys, k);
      match acts[n]
      case Signal(x) => SinceNext(before.log, {x}, k, |d.log|);
      case SignalFlush(dbid) => SinceNext(before.log, Flushed(before.keys, dbid), k, |d.log|);
      case Store(_) =>
    }
  }

  lemma {:induction false} ActsAppend<K>(a: seq<Act<K>>, b: seq<Act<K>>, d: Data<K>)
    ensures AfterActs(a + b, d) == AfterActs(b, AfterActs(a, d))
  {
    if b == [] {
      assert a + b == a;
    } else {
      assert (a + b)[..|a + b| - 1] == a + b[..|b| - 1];
      ActsAppend(a, b[..|b| - 1], d);
    }
  }

  /** Commands one after the other do what they do: this pins the data and the selected database. */
  lemma {:induction false} PerformedByActs<K, Cmd>(
    run: Runner<K, Cmd>, cmds: seq<Command<Cmd>>, s: Session<K, Cmd>, d: Data<K>)
    ensures PerformedAll(run, cmds, s, d).0.db == DbAfter(cmds, s.db)
    ensures PerformedAll(run, cmds, s, d).1 == AfterActs(ActsOf(run, cmds, s.db, d.keys), d)
  {
    if cmds != [] {
      var before, last := cmds[..|cmds| - 1], cmds[|cmds| - 1];
      PerformedByActs(run, before, s, d);
      if last.Other? {
        var acts := ActsOf(run, before, s.db, d.keys);
        KeysKept(acts, d);
        ActsAppend(acts, run(last.cmd, DbAfter(before, s.db), KeysAfter(acts, d.keys)), d);
      }
    }
  }

  lemma PerformedOne<K, Cmd>(run: Runner<K, Cmd>, cmd: Command<Cmd>, s: Session<K, Cmd>, d: Data<K>)
    ensures PerformedAll(run, [cmd], s, d) == Performed(run, cmd, s, d)
  {
    assert [cmd][..0] == [];
  }

  /** An event changes the data by what the commands it carries out do, and the client's database to
      the one they select. */
  lemma NextByActs<K(!new), Cmd>(run: Runner<K, Cmd>, w: World<K, Cmd>, e: Event<K, Cmd>)
    ensures e.c !in w.sessions ==> Next(run, w, e).0.data == w.data
    ensures e.c in w.sessions ==>
      Next(run, w, e).0.data == AfterActs(ActsOf(run, CarriedOut(run, w, e), w.sessions[e.c].db, w.data.keys), w.data)
    ensures e.c in w.sessions && !e.Disconnected? ==>
      && e.c in Next(run, w, e).0.sessions
      && Next(run, w, e).0.sessions[e.c].db == DbAfter(CarriedOut(run, w, e), w.sessions[e.c].db)
  {
    if e.c in w.sessions && e.Asked? && Check(e.situation) == None {
      var s := w.sessions[e.c];
      match e.request
      case Ordinary(cmd) =>
        PerformedOne(run, cmd, s, w.data);
        PerformedByActs(run, [cmd], s, w.data);
      case Exec => PerformedByActs(run, s.queue, s.(since := map[]), w.data);
      case _ =>
    }
  }

  // ---------------------------------------------------------------- over a run

  lemma EventLogged<K(!new), Cmd>(run: Runner<K, Cmd>, events: Events<K, Cmd>, k: Watched<K>, j: nat)
    requires j < |events|
    ensures At(run, events, j).data.log <= At(run, events, j + 1).data.log
    ensures TouchedSince(At(run, events, j + 1).data.log, k, |At(run, events, j).data.log|)
      <==> TouchesAt(run, events, k, j)
  {
    var w := At(run, events, j);
    AfterSplit(run, events, j);
    NextByActs(run, w, events[j]);
    ActsLogged(ActsAt(run, events, j), w.data, k);
  }

  lemma SinceSplit<K(!new)>(log: Log<K>, log': Log<K>, k: Watched<K>, n: nat)
    requires n <= |log| && log <= log'
    ensures TouchedSince(log', k, n) <==> TouchedSince(log, k, n) || TouchedSince(log', k, |log|)
  {
    if TouchedSince(log, k, n) {
      var t :| n <= t < |log| && k in log[t];
      assert log'[t] == log[t];
    }
    if TouchedSince(log', k, n) {
      var t :| n <= t < |log'| && k in log'[t];
      if t < |log| { assert log[t] == log'[t]; }
    }
  }

  ghost predicate TouchesBetween<K(!new), Cmd>(
    run: Runner<K, Cmd>, events: Events<K, Cmd>, k: Watched<K>, i: nat, m: nat)
  {
    exists j :: i <= j < m && TouchesAt(run, events, k, j)
  }

  lemma LogNext<K(!new)>(l0: Log<K>, l1: Log<K>, l2: Log<K>, k: Watched<K>, before: bool, here: bool)
    requires l0 <= l1 <= l2
    requires (TouchedSince(l1, k, |l0|) <==> before) && (TouchedSince(l2, k, |l1|) <==> here)
    ensures l0 <= l2
    ensures TouchedSince(l2, k, |l0|) <==> before || here
  {
    SinceSplit(l1, l2, k, |l0|);
  }

  lemma {:induction false} RunLogged<K(!new), Cmd>(
    run: Runner<K, Cmd>, events: Events<K, Cmd>, k: Watched<K>, i: nat, m: nat)
    requires i <= m <= |events|
    ensures At(run, events, i).data.log <= At(run, events, m).data.log
    ensures TouchedSince(At(run, events, m).data.log, k, |At(run, events, i).data.log|)
      <==> TouchesBetween(run, events, k, i, m)
    decreases m
  {
    if i < m {
      RunLogged(run, events, k, i, m - 1);
      RunLoggedNext(run, events, k, i, m - 1);
    } else {
      BetweenNone(run, events, k, i);
    }
  }

  lemma RunLoggedNext<K(!new), Cmd>(
    run: Runner<K, Cmd>, events: Events<K, Cmd>, k: Watched<K>, i: nat, m: nat)
    requires i <= m < |events| && At(run, events, i).data.log <= At(run, events, m).data.log
    requires TouchedSince(At(run, events, m).data.log, k, |At(run, events, i).data.log|)
      <==> TouchesBetween(run, events, k, i, m)
    ensures At(run, events, i).data.log <= At(run, events, m + 1).data.log
    ensures TouchedSince(At(run, events, m + 1).data.log, k, |At(run, events, i).data.log|)
      <==> TouchesBetween(run, events, k, i, m + 1)
  {
    var l0, l1, l2 := At(run, events, i).data.log, At(run, events, m).data.log, At(run, events, m + 1).data.log;
    EventLogged(run, events, k, m);
    BetweenNext(run, events, k, i, m);
    LogNext(l0, l1, l2, k, TouchesBetween(run, events, k, i, m), TouchesAt(run, events, k, m));
  }

  lemma BetweenNext<K(!new), Cmd>(
    run: Runner<K, Cmd>, events: Events<K, Cmd>, k: Watched<K>, i: nat, m: nat)
    requires i <= m < |events|
    ensures TouchesBetween(run, events, k, i, m + 1)
      <==> TouchesBetween(run, events, k, i, m) || TouchesAt(run, events, k, m)
  {
  }

  lemma BetweenNone<K(!new), Cmd>(run: Runner<K, Cmd>, events: Events<K, Cmd>, k: Watched<K>, i: nat)
    requires i <= |events|
    ensures !TouchesBetween(run, events, k, i, i)
    ensures !TouchedSince(At(run, events, i).data.log, k, |At(run, events, i).data.log|)
  {
  }

  /** A WATCH in force at event m, and an event after it that touches its key. */
  ghost predicate TouchedBy<K(!new), Cmd>(
    run: Runner<K, Cmd>, events: Events<K, Cmd>, c: Id, k: Watched<K>, i: nat, j: nat, m: nat)
  {
    InForce(run, events, c, k, i, m) && i < j < m && TouchesAt(run, events, k, j)
  }

  lemma WatchTouchesNothing<K(!new), Cmd>(
    run: Runner<K, Cmd>, events: Events<K, Cmd>, c: Id, k: Watched<K>, i: nat)
    requires StartedAt(run, events, c, k, i)
    ensures !TouchesAt(run, events, k, i)
  {
    assert CarriedOut(run, At(run, events, i), events[i]) == [];
    assert ActsAt(run, events, i) == [];
  }

  lemma BetweenIsTouched<K(!new), Cmd>(
    run: Runner<K, Cmd>, events: Events<K, Cmd>, c: Id, k: Watched<K>, i: nat, m: nat)
    requires InForce(run, events, c, k, i, m) && !TouchesAt(run, events, k, i)
    ensures TouchesBetween(run, events, k, i, m) <==> exists j :: TouchedBy(run, events, c, k, i, j, m)
  {
    if TouchesBetween(run, events, k, i, m) {
      var j :| i <= j < m && TouchesAt(run, events, k, j);
      assert TouchedBy(run, events, c, k, i, j, m);
    }
  }

  lemma TouchedByWhom<K(!new), Cmd>(
    run: Runner<K, Cmd>, events: Events<K, Cmd>, c: Id, k: Watched<K>, i: nat, m: nat)
    requires InForce(run, events, c, k, i, m)
    ensures TouchedAfter(run, events, c, k, i, m) <==> exists j :: TouchedBy(run, events, c, k, i, j, m)
  {
    WatchTouchesNothing(run, events, c, k, i);
    BetweenIsTouched(run, events, c, k, i, m);
    RunLogged(run, events, k, i, m);
  }

  /** Some key of a WATCH in force has been touched by a command after it. */
  ghost predicate WatchBroken<K(!new), Cmd>(run: Runner<K, Cmd>, events: Events<K, Cmd>, c: Id, m: nat) {
    exists k, i: nat, j: nat :: TouchedBy(run, events, c, k, i, j, m)
  }

  lemma BrokenExactly<K(!new), Cmd>(run: Runner<K, Cmd>, events: Events<K, Cmd>, c: Id, m: nat)
    requires m <= |events|
    ensures WatchBroken(run, events, c, m) <==> exists k, i: nat :: TouchedAfter(run, events, c, k, i, m)
  {
    if WatchBroken(run, events, c, m) {
      var k, i: nat, j: nat :| TouchedBy(run, events, c, k, i, j, m);
      TouchedByWhom(run, events, c, k, i, m);
      assert TouchedAfter(run, events, c, k, i, m);
    }
    forall k, i: nat | TouchedAfter(run, events, c, k, i, m) ensures WatchBroken(run, events, c, m) {
      TouchedByWhom(run, events, c, k, i, m);
      var j :| TouchedBy(run, events, c, k, i, j, m);
    }
  }

  // ---------------------------------------------------------------- what EXEC answers

  /** The answer to the EXEC of an open transaction: an abort exactly when a request since MULTI was
      refused with a mark; otherwise nothing is run exactly when some command, of whatever client and
      in a transaction or not, signalled a key of a WATCH in force; otherwise everything is. */
  lemma ExecDecided<K(!new), Cmd>(run: Runner<K, Cmd>, events: Events<K, Cmd>, c: Id, i: nat, m: nat)
    requires OpenSince(run, events, c, i, m) && m < |events| && Accepts(events[m], c, Exec)
    ensures
      ReplyAt(run, events, m)
        == if MarkedBetween(events, c, i, m) then ExecAbort
           else if WatchBroken(run, events, c, m) then NullReply
           else Ran(Commands(events[i + 1..m], c, false))
  {
    ExecAnswer(run, events, c, i, m);
    BrokenExactly(run, events, c, m);
  }

  /** A null reply has its cause: a WATCH of that client still in force, and a command after it that
      signalled its key. */
  lemma NullReplyHasCommand<K(!new), Cmd>(run: Runner<K, Cmd>, events: Events<K, Cmd>, m: nat)
    requires m < |events| && ReplyAt(run, events, m) == NullReply
    ensures WatchBroken(run, events, events[m].c, m)
  {
    NullReplyHasCause(run, events, m);
    BrokenExactly(run, events, events[m].c, m);
  }

  /** A command that client c' has carried out at once signals a key that client c watches: the EXEC
      of c does not run. */
  lemma CommandStopsExec<K(!new), Cmd>(
    run: Runner<K, Cmd>, events: Events<K, Cmd>, c: Id, k: Watched<K>, i: nat, j: nat, m: nat, c': Id, x: Cmd)
    requires InForce(run, events, c, k, i, m) && i < j < m < |events| && Accepts(events[m], c, Exec)
    requires OutsideMulti(At(run, events, j), c') && Accepts(events[j], c', Ordinary(Other(x)))
    requires
      var w := At(run, events, j);
      Touches(run(x, w.sessions[c'].db, w.data.keys), w.data.keys, k)
    ensures !ReplyAt(run, events, m).Ran?
  {
    OneCommand(run, At(run, events, j), events[j], x);
    assert TouchedBy(run, events, c, k, i, j, m);
    TouchedByWhom(run, events, c, k, i, m);
    TouchedKeyStopsExec(run, events, c, k, i, m);
  }

  lemma OneCommand<K(!new), Cmd>(run: Runner<K, Cmd>, w: World<K, Cmd>, e: Event<K, Cmd>, x: Cmd)
    requires OutsideMulti(w, e.c) && Accepts(e, e.c, Ordinary(Other(x)))
    ensures ActsOf(run, CarriedOut(run, w, e), w.sessions[e.c].db, w.data.keys)
      == run(x, w.sessions[e.c].db, w.data.keys)
  {
    var db, keys := w.sessions[e.c].db, w.data.keys;
    var cmds: seq<Command<Cmd>> := [Other(x)];
    assert CarriedOut(run, w, e) == cmds;
    assert cmds[..0] == [];
    assert ActsOf(run, cmds[..0], db, keys) == [];
    assert [] + run(x, db, keys) == run(x, db, keys);
  }

  /** A command whose acts include a signal of the key touches it; so does a flush of the key's
      database, or of all, if the key is there. */
  lemma SignalTouches<K(!new)>(acts: seq<Act<K>>, keys: set<Watched<K>>, k: Watched<K>)
    ensures Signal(k) in acts ==> Touches(acts, keys, k)
    ensures acts != [] && k in keys && (acts[0] == SignalFlush(None) || acts[0] == SignalFlush(Some(k.db))) ==>
      Touches(acts, keys, k)
  {
    if Signal(k) in acts {
      var t :| 0 <= t < |acts| && acts[t] == Signal(k);
      assert ActTouches(acts[t], KeysAfter(acts[..t], keys), k);
    }
    if acts != [] && k in keys && (acts[0] == SignalFlush(None) || acts[0] == SignalFlush(Some(k.db))) {
      assert acts[..0] == [];
      assert ActTouches(acts[0], KeysAfter(acts[..0], keys), k);
    }
  }
}
