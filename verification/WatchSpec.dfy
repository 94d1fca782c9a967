/** What WATCH, MULTI and EXEC mean, as functions of the events: no flag, no index, only the keys
    each client watches, since which signal, and the signals there were. */
module WatchSpec {
  import opened Admission
  import opened Bytes
  import opened WatchIndex
  import opened WatchHistory

  /** What a command does that matters here: signal a modified key, signal a flush of one
      database or of all, or change which keys exist. */
  datatype Act<K(==)> = Signal(k: Watched<K>) | SignalFlush(db: Option<nat>) | Store(keys: set<Watched<K>>)

  /** A command that MULTI makes wait. */
  datatype Command<Cmd> = Select(n: nat) | Unwatch | Other(cmd: Cmd)

  /** What a command other than these does, on a database and the keys that exist. */
  type Runner<!K, !Cmd> = (Cmd, nat, set<Watched<K>>) -> seq<Act<K>>

  datatype Request<K, Cmd> =
    | WatchKeys(names: seq<K>)
    | Multi
    | Discard
    | Exec
    | Ordinary(command: Command<Cmd>)

  /** A client comes, goes, or asks for something in some situation. */
  datatype Event<K, Cmd> =
    | Connected(c: Id)
    | Disconnected(c: Id)
    | Asked(c: Id, request: Request<K, Cmd>, situation: Situation)

  type Events<K, Cmd> = seq<Event<K, Cmd>>

  datatype Reply<Cmd> =
    | Silence
    | Done
    | Queued
    | Refused(why: Refusal)
    | WatchInsideMulti
    | NestedMulti
    | DiscardWithoutMulti
    | ExecWithoutMulti
    | ExecAbort
    | NullReply
    | Ran(cmds: seq<Command<Cmd>>)

  datatype Session<K(==), Cmd> =
    Session(db: nat, multi: bool, refused: bool, queue: seq<Command<Cmd>>, since: Dates<K>)

  /** The keys that exist, and the keys touched by each signal so far. */
  datatype Data<K(==)> = Data(keys: set<Watched<K>>, log: Log<K>)

  datatype World<K(==), Cmd> = World(sessions: map<Id, Session<K, Cmd>>, data: Data<K>)

  // ---------------------------------------------------------------- commands

  /** The existing keys that a flush of one database, or of all, removes. */
  ghost function Flushed<K>(keys: set<Watched<K>>, dbid: Option<nat>): set<Watched<K>> {
    set k | k in keys && (dbid == None || k.db == dbid.value)
  }

  ghost function AfterAct<K>(act: Act<K>, d: Data<K>): Data<K> {
    match act
    case Signal(k) => d.(log := d.log + [{k}])
    case SignalFlush(dbid) => d.(log := d.log + [Flushed(d.keys, dbid)])
    case Store(keys) => d.(keys := keys)
  }

  ghost function AfterActs<K>(acts: seq<Act<K>>, d: Data<K>): Data<K> {
    if acts == [] then d else AfterAct(acts[|acts| - 1], AfterActs(acts[..|acts| - 1], d))
  }

  /** One command of one client. */
  ghost function Performed<K, Cmd>(run: Runner<K, Cmd>, cmd: Command<Cmd>, s: Session<K, Cmd>, d: Data<K>)
    : (Session<K, Cmd>, Data<K>)
  {
    match cmd
    case Select(n) => (s.(db := n), d)
    case Unwatch => (s.(since := map[]), d)
    case Other(x) => (s, AfterActs(run(x, s.db, d.keys), d))
  }

  ghost function PerformedAll<K, Cmd>(run: Runner<K, Cmd>, cmds: seq<Command<Cmd>>, s: Session<K, Cmd>, d: Data<K>)
    : (Session<K, Cmd>, Data<K>)
  {
    if cmds == [] then (s, d)
    else
      var (s', d') := PerformedAll(run, cmds[..|cmds| - 1], s, d);
      Performed(run, cmds[|cmds| - 1], s', d')
  }

  // ---------------------------------------------------------------- events

  ghost function Fresh<K, Cmd>(db: nat): Session<K, Cmd> {
    Session(db, false, false, [], map[])
  }

  /** Named keys of the database are watched from now on, those already watched from before. */
  ghost function Watching<K>(since: Dates<K>, db: nat, names: seq<K>, now: nat): Dates<K> {
    (map x | x in names :: Watched(db, x) := now) + since
  }

  /** EXEC runs the queue exactly when MULTI was given, no refused command marked the transaction,
      and no watched key was touched since it was watched; the queue runs as a whole. */
  ghost function Executed<K(!new), Cmd>(run: Runner<K, Cmd>, s: Session<K, Cmd>, d: Data<K>)
    : (Session<K, Cmd>, Data<K>, Reply<Cmd>)
  {
    if !s.multi then (s, d, ExecWithoutMulti)
    else if s.refused then (Fresh(s.db), d, ExecAbort)
    else if Stale(s.since, d.log) then (Fresh(s.db), d, NullReply)
    else
      var (s', d') := PerformedAll(run, s.queue, s.(since := map[]), d);
      (Fresh(s'.db), d', Ran(s.queue))
  }

  /** What a request that passed all checks does to the client's own session and to the data. */
  ghost function Served<K(!new), Cmd>(run: Runner<K, Cmd>, s: Session<K, Cmd>, d: Data<K>, request: Request<K, Cmd>)
    : (Session<K, Cmd>, Data<K>, Reply<Cmd>)
  {
    match request
    case WatchKeys(names) =>
      if s.multi then (s, d, WatchInsideMulti)
      else (s.(since := Watching(s.since, s.db, names, |d.log|)), d, Done)
    case Multi => if s.multi then (s, d, NestedMulti) else (s.(multi := true), d, Done)
    case Discard => if s.multi then (Fresh(s.db), d, Done) else (s, d, DiscardWithoutMulti)
    case Exec => Executed(run, s, d)
    case Ordinary(cmd) =>
      if s.multi then (s.(queue := s.queue + [cmd]), d, Queued)
      else var (s', d') := Performed(run, cmd, s, d); (s', d', Done)
  }

  /** What a refusal leaves of the client's session. */
  ghost function AfterRefusal<K, Cmd>(s: Session<K, Cmd>, why: Refusal): Session<K, Cmd> {
    s.(refused := s.refused || (Marks(why) && s.multi))
  }

  ghost function Answered<K(!new), Cmd>(run: Runner<K, Cmd>, s: Session<K, Cmd>, d: Data<K>, e: Event<K, Cmd>)
    : (Session<K, Cmd>, Data<K>, Reply<Cmd>)
    requires e.Asked?
  {
    match Check(e.situation)
    case Some(why) => (AfterRefusal(s, why), d, Refused(why))
    case None => Served(run, s, d, e.request)
  }

  ghost function Next<K(!new), Cmd>(run: Runner<K, Cmd>, w: World<K, Cmd>, e: Event<K, Cmd>)
    : (World<K, Cmd>, Reply<Cmd>)
  {
    if e.c !in w.sessions then
      (if e.Connected? then w.(sessions := w.sessions[e.c := Fresh(0)]) else w, Silence)
    else match e
      case Connected(_) => (w, Silence)
      case Disconnected(_) => (w.(sessions := w.sessions - {e.c}), Silence)
      case Asked(_, _, _) =>
        var (s, d, r) := Answered(run, w.sessions[e.c], w.data, e);
        (World(w.sessions[e.c := s], d), r)
  }

  ghost function Begin<K, Cmd>(): World<K, Cmd> {
    World(map[], Data({}, []))
  }

  /** The state after a run, and all replies of the run. */
  ghost function After<K(!new), Cmd>(run: Runner<K, Cmd>, events: Events<K, Cmd>)
    : (r: (World<K, Cmd>, seq<Reply<Cmd>>))
    ensures |r.1| == |events|
  {
    if events == [] then (Begin(), [])
    else
      var (w, rs) := After(run, events[..|events| - 1]);
      var (w', r) := Next(run, w, events[|events| - 1]);
      (w', rs + [r])
  }

  /** The state in which event m of a run is met. */
  ghost function At<K(!new), Cmd>(run: Runner<K, Cmd>, events: Events<K, Cmd>, m: nat): World<K, Cmd>
    requires m <= |events|
  {
    After(run, events[..m]).0
  }

  ghost function ReplyAt<K(!new), Cmd>(run: Runner<K, Cmd>, events: Events<K, Cmd>, m: nat): Reply<Cmd>
    requires m < |events|
  {
    After(run, events).1[m]
  }

  // ---------------------------------------------------------------- what follows for whole runs

  lemma AfterSplit<K(!new), Cmd>(run: Runner<K, Cmd>, events: Events<K, Cmd>, m: nat)
    requires m < |events|
    ensures At(run, events, m + 1) == Next(run, At(run, events, m), events[m]).0
    ensures After(run, events[..m + 1]).1
      == After(run, events[..m]).1 + [Next(run, At(run, events, m), events[m]).1]
  {
    assert events[..m + 1][..m] == events[..m];
  }

  /** The replies of a run are fixed as they are given. */
  lemma {:induction false} RepliesKept<K(!new), Cmd>(run: Runner<K, Cmd>, events: Events<K, Cmd>, m: nat)
    requires m < |events|
    ensures ReplyAt(run, events, m) == Next(run, At(run, events, m), events[m]).1
  {
    if m == |events| - 1 {
      AfterSplit(run, events, m);
      assert events[..m + 1] == events;
    } else {
      var shorter := events[..|events| - 1];
      RepliesKept(run, shorter, m);
      assert shorter[..m] == events[..m];
    }
  }

  /** Nothing signalled is forgotten. */
  lemma {:induction false} ActsKeepLog<K>(acts: seq<Act<K>>, d: Data<K>)
    ensures d.log <= AfterActs(acts, d).log
  {
    if acts != [] { ActsKeepLog(acts[..|acts| - 1], d); }
  }

  lemma {:induction false} PerformedKeepsLog<K, Cmd>(
    run: Runner<K, Cmd>, cmds: seq<Command<Cmd>>, s: Session<K, Cmd>, d: Data<K>)
    ensures d.log <= PerformedAll(run, cmds, s, d).1.log
  {
    if cmds != [] {
      PerformedKeepsLog(run, cmds[..|cmds| - 1], s, d);
      var (s', d') := PerformedAll(run, cmds[..|cmds| - 1], s, d);
      var last := cmds[|cmds| - 1];
      if last.Other? { ActsKeepLog(run(last.cmd, s'.db, d'.keys), d'); }
    }
  }

  lemma NextKeepsLog<K(!new), Cmd>(run: Runner<K, Cmd>, w: World<K, Cmd>, e: Event<K, Cmd>)
    ensures w.data.log <= Next(run, w, e).0.data.log
  {
    if e.c in w.sessions && e.Asked? {
      var s := w.sessions[e.c];
      match e.request
      case Ordinary(cmd) => if cmd.Other? { ActsKeepLog(run(cmd.cmd, s.db, w.data.keys), w.data); }
      case Exec => PerformedKeepsLog(run, s.queue, s.(since := map[]), w.data);
      case _ =>
    }
  }

  // ---------------------------------------------------------------- requests of one client

  /** Client c asks for this, and no check refuses it. */
  ghost predicate Accepts<K(!new), Cmd>(e: Event<K, Cmd>, c: Id, request: Request<K, Cmd>) {
    e.Asked? && e.c == c && e.request == request && Check(e.situation) == None
  }

  /** A check refuses what client c asks for. */
  ghost predicate Refuses<K(!new), Cmd>(e: Event<K, Cmd>, c: Id) {
    e.Asked? && e.c == c && Check(e.situation).Some?
  }

  /** It does so with a call of flagTransaction. */
  ghost predicate RefusesMarked<K(!new), Cmd>(e: Event<K, Cmd>, c: Id) {
    Refuses(e, c) && Marks(Check(e.situation).value)
  }

  ghost predicate InMulti<K(!new), Cmd>(w: World<K, Cmd>, c: Id) {
    c in w.sessions && w.sessions[c].multi
  }

  ghost predicate OutsideMulti<K(!new), Cmd>(w: World<K, Cmd>, c: Id) {
    c in w.sessions && !w.sessions[c].multi
  }

  // ---------------------------------------------------------------- watched keys

  /** An event that ends client c's watching: it goes, ends a transaction, or unwatches outside one. */
  ghost predicate EndsWatching<K(!new), Cmd>(w: World<K, Cmd>, e: Event<K, Cmd>, c: Id) {
    || (e.Disconnected? && e.c == c)
    || (InMulti(w, c) && (Accepts(e, c, Discard) || Accepts(e, c, Exec)))
    || (OutsideMulti(w, c) && Accepts(e, c, Ordinary(Unwatch)))
  }

  ghost predicate WatchesSince<K(!new), Cmd>(w: World<K, Cmd>, c: Id, k: Watched<K>, n: nat) {
    c in w.sessions && k in w.sessions[c].since && w.sessions[c].since[k] <= n
  }

  lemma NextKeepsWatching<K(!new), Cmd>(
    run: Runner<K, Cmd>, w: World<K, Cmd>, e: Event<K, Cmd>, c: Id, k: Watched<K>, n: nat)
    requires WatchesSince(w, c, k, n) && !EndsWatching(w, e, c)
    ensures WatchesSince(Next(run, w, e).0, c, k, n)
  {
  }

  /** Client c had k watched by event i, outside MULTI and in its database of that moment. */
  ghost predicate StartedAt<K(!new), Cmd>(
    run: Runner<K, Cmd>, events: Events<K, Cmd>, c: Id, k: Watched<K>, i: nat)
  {
    && i < |events| && OutsideMulti(At(run, events, i), c) && k.db == At(run, events, i).sessions[c].db
    && events[i].Asked? && events[i].request.WatchKeys? && k.key in events[i].request.names
    && Accepts(events[i], c, events[i].request)
  }

  /** That WATCH is still in force when event m is met. */
  ghost predicate InForce<K(!new), Cmd>(
    run: Runner<K, Cmd>, events: Events<K, Cmd>, c: Id, k: Watched<K>, i: nat, m: nat)
  {
    && i < m <= |events| && StartedAt(run, events, c, k, i)
    && forall t :: i < t < m ==> !EndsWatching(At(run, events, t), events[t], c)
  }

  /** A key of such a WATCH has been touched after it. */
  ghost predicate TouchedAfter<K(!new), Cmd>(
    run: Runner<K, Cmd>, events: Events<K, Cmd>, c: Id, k: Watched<K>, i: nat, m: nat)
  {
    InForce(run, events, c, k, i, m) && TouchedSince(At(run, events, m).data.log, k, |At(run, events, i).data.log|)
  }

  ghost predicate DatedAt<K(!new), Cmd>(w: World<K, Cmd>, c: Id) {
    c in w.sessions ==> forall k :: k in w.sessions[c].since ==> w.sessions[c].since[k] <= |w.data.log|
  }

  lemma NextDated<K(!new), Cmd>(run: Runner<K, Cmd>, w: World<K, Cmd>, e: Event<K, Cmd>, c: Id)
    requires DatedAt(w, c)
    ensures DatedAt(Next(run, w, e).0, c)
  {
    NextKeepsLog(run, w, e);
  }

  lemma {:induction false} DatesBounded<K(!new), Cmd>(run: Runner<K, Cmd>, events: Events<K, Cmd>, c: Id)
    ensures DatedAt(After(run, events).0, c)
  {
    if events != [] {
      DatesBounded(run, events[..|events| - 1], c);
      NextDated(run, After(run, events[..|events| - 1]).0, events[|events| - 1], c);
    }
  }

  lemma WatchStarts<K(!new), Cmd>(run: Runner<K, Cmd>, w: World<K, Cmd>, e: Event<K, Cmd>, c: Id, x: K)
    requires OutsideMulti(w, c) && DatedAt(w, c)
    requires e.Asked? && e.request.WatchKeys? && Accepts(e, c, e.request) && x in e.request.names
    ensures WatchesSince(Next(run, w, e).0, c, Watched(w.sessions[c].db, x), |w.data.log|)
  {
  }

  lemma StartedWatches<K(!new), Cmd>(
    run: Runner<K, Cmd>, events: Events<K, Cmd>, c: Id, k: Watched<K>, i: nat)
    requires StartedAt(run, events, c, k, i)
    ensures WatchesSince(At(run, events, i + 1), c, k, |At(run, events, i).data.log|)
  {
    AfterSplit(run, events, i);
    DatesBounded(run, events[..i], c);
    WatchStarts(run, At(run, events, i), events[i], c, k.key);
  }

  lemma StillWatches<K(!new), Cmd>(
    run: Runner<K, Cmd>, events: Events<K, Cmd>, c: Id, k: Watched<K>, n: nat, m: nat)
    requires m < |events| && WatchesSince(At(run, events, m), c, k, n)
    requires !EndsWatching(At(run, events, m), events[m], c)
    ensures WatchesSince(At(run, events, m + 1), c, k, n)
  {
    AfterSplit(run, events, m);
    NextKeepsWatching(run, At(run, events, m), events[m], c, k, n);
  }

  /** As long as a WATCH is in force its keys are watched, since then or before. */
  lemma {:induction false} InForceWatches<K(!new), Cmd>(
    run: Runner<K, Cmd>, events: Events<K, Cmd>, c: Id, k: Watched<K>, i: nat, m: nat)
    requires InForce(run, events, c, k, i, m)
    ensures WatchesSince(At(run, events, m), c, k, |At(run, events, i).data.log|)
    decreases m
  {
    if i == m - 1 {
      StartedWatches(run, events, c, k, i);
    } else {
      InForceWatches(run, events, c, k, i, m - 1);
      StillWatches(run, events, c, k, |At(run, events, i).data.log|, m - 1);
    }
  }

  /** A watched key was watched before the event, which did not end it, or is watched by it. */
  lemma WatchedBefore<K(!new), Cmd>(run: Runner<K, Cmd>, w: World<K, Cmd>, e: Event<K, Cmd>, c: Id, k: Watched<K>)
    requires c in Next(run, w, e).0.sessions && k in Next(run, w, e).0.sessions[c].since
    ensures
      var n := Next(run, w, e).0.sessions[c].since[k];
      || (c in w.sessions && k in w.sessions[c].since && w.sessions[c].since[k] == n && !EndsWatching(w, e, c))
      || (&& OutsideMulti(w, c) && k.db == w.sessions[c].db && n == |w.data.log|
          && e.Asked? && e.request.WatchKeys? && k.key in e.request.names && Accepts(e, c, e.request))
  {
  }

  /** Client c watches k, since the n-th signal. */
  ghost predicate WatchesAt<K(!new), Cmd>(w: World<K, Cmd>, c: Id, k: Watched<K>, n: nat) {
    c in w.sessions && k in w.sessions[c].since && w.sessions[c].since[k] == n
  }

  /** The same for the state of a run. */
  lemma WatchedOneBefore<K(!new), Cmd>(
    run: Runner<K, Cmd>, events: Events<K, Cmd>, c: Id, k: Watched<K>, n: nat, m: nat)
    requires m < |events| && WatchesAt(At(run, events, m + 1), c, k, n)
    ensures
      || (WatchesAt(At(run, events, m), c, k, n) && !EndsWatching(At(run, events, m), events[m], c))
      || (StartedAt(run, events, c, k, m) && n == |At(run, events, m).data.log|)
  {
    AfterSplit(run, events, m);
    WatchedBefore(run, At(run, events, m), events[m], c, k);
  }

  lemma InForceFirst<K(!new), Cmd>(run: Runner<K, Cmd>, events: Events<K, Cmd>, c: Id, k: Watched<K>, i: nat)
    requires StartedAt(run, events, c, k, i)
    ensures InForce(run, events, c, k, i, i + 1)
  {
  }

  lemma InForceNext<K(!new), Cmd>(
    run: Runner<K, Cmd>, events: Events<K, Cmd>, c: Id, k: Watched<K>, i: nat, m: nat)
    requires m < |events| && InForce(run, events, c, k, i, m) && !EndsWatching(At(run, events, m), events[m], c)
    ensures InForce(run, events, c, k, i, m + 1)
  {
  }

  /** Every watched key has been watched by a WATCH of that client that is in force, at its date. */
  lemma {:induction false} WatchedByWatch<K(!new), Cmd>(
    run: Runner<K, Cmd>, events: Events<K, Cmd>, c: Id, k: Watched<K>, n: nat, m: nat)
    requires m <= |events| && WatchesAt(At(run, events, m), c, k, n)
    ensures exists i: nat :: InForce(run, events, c, k, i, m) && |At(run, events, i).data.log| == n
    decreases m
  {
    if m > 0 {
      WatchedOneBefore(run, events, c, k, n, m - 1);
      if StartedAt(run, events, c, k, m - 1) && n == |At(run, events, m - 1).data.log| {
        InForceFirst(run, events, c, k, m - 1);
      } else {
        WatchedByWatch(run, events, c, k, n, m - 1);
        var i: nat :| InForce(run, events, c, k, i, m - 1) && |At(run, events, i).data.log| == n;
        InForceNext(run, events, c, k, i, m - 1);
      }
    }
  }

  ghost predicate StaleAt<K(!new), Cmd>(w: World<K, Cmd>, c: Id) {
    c in w.sessions && Stale(w.sessions[c].since, w.data.log)
  }

  /** A client is stale exactly when some WATCH in force has a key touched after it. */
  lemma StaleExactly<K(!new), Cmd>(run: Runner<K, Cmd>, events: Events<K, Cmd>, c: Id, m: nat)
    requires m <= |events|
    ensures StaleAt(At(run, events, m), c) <==> exists k, i: nat :: TouchedAfter(run, events, c, k, i, m)
  {
    var w := At(run, events, m);
    if StaleAt(w, c) {
      var k :| k in w.sessions[c].since && TouchedSince(w.data.log, k, w.sessions[c].since[k]);
      WatchedByWatch(run, events, c, k, w.sessions[c].since[k], m);
      var i: nat :| InForce(run, events, c, k, i, m) && |At(run, events, i).data.log| == w.sessions[c].since[k];
      assert TouchedAfter(run, events, c, k, i, m);
    }
    forall k, i: nat | TouchedAfter(run, events, c, k, i, m) ensures StaleAt(w, c) {
      InForceWatches(run, events, c, k, i, m);
      var t :| |At(run, events, i).data.log| <= t < |w.data.log| && k in w.data.log[t];
      assert TouchedSince(w.data.log, k, w.sessions[c].since[k]);
    }
  }

  // ---------------------------------------------------------------- what a transaction consists of

  /** The commands client c asked for, in order: those accepted, or all of them. */
  ghost function Commands<K(!new), Cmd>(events: Events<K, Cmd>, c: Id, refusedToo: bool): seq<Command<Cmd>> {
    if events == [] then []
    else
      Commands(events[..|events| - 1], c, refusedToo) + CommandOf(events[|events| - 1], c, refusedToo)
  }

  ghost function CommandOf<K(!new), Cmd>(e: Event<K, Cmd>, c: Id, refusedToo: bool): seq<Command<Cmd>> {
    if e.Asked? && e.c == c && e.request.Ordinary? && (refusedToo || Check(e.situation) == None) then
      [e.request.command]
    else []
  }

  lemma CommandsNext<K(!new), Cmd>(events: Events<K, Cmd>, i: nat, m: nat, c: Id, refusedToo: bool)
    requires i <= m < |events|
    ensures Commands(events[i..m + 1], c, refusedToo)
      == Commands(events[i..m], c, refusedToo) + CommandOf(events[m], c, refusedToo)
  {
    assert events[i..m + 1][..m - i] == events[i..m];
  }

  /** A queueable command was refused. */
  ghost predicate Loses<K(!new), Cmd>(e: Event<K, Cmd>, c: Id) {
    Refuses(e, c) && e.request.Ordinary?
  }

  /** The accepted commands are all commands exactly when none was refused. */
  lemma {:induction false} AllAccepted<K(!new), Cmd>(events: Events<K, Cmd>, c: Id)
    ensures |Commands(events, c, false)| <= |Commands(events, c, true)|
    ensures |Commands(events, c, false)| < |Commands(events, c, true)| <==>
      exists t :: 0 <= t < |events| && Loses(events[t], c)
    ensures Commands(events, c, false) == Commands(events, c, true) <==>
      !exists t :: 0 <= t < |events| && Loses(events[t], c)
  {
    if events != [] {
      var m := |events| - 1;
      AllAccepted(events[..m], c);
      assert forall t :: 0 <= t < m ==> events[..m][t] == events[t];
      assert |CommandOf(events[m], c, false)| < |CommandOf(events[m], c, true)| <==> Loses(events[m], c);
      assert (exists t :: 0 <= t < |events| && Loses(events[t], c))
        <==> (exists t :: 0 <= t < m && Loses(events[..m][t], c)) || Loses(events[m], c);
    }
  }

  /** Outside MULTI nothing waits and nothing is marked. */
  ghost predicate IdleAt<K(!new), Cmd>(w: World<K, Cmd>, c: Id) {
    OutsideMulti(w, c) ==> w.sessions[c].queue == [] && !w.sessions[c].refused
  }

  lemma NextIdle<K(!new), Cmd>(run: Runner<K, Cmd>, w: World<K, Cmd>, e: Event<K, Cmd>, c: Id)
    requires IdleAt(w, c)
    ensures IdleAt(Next(run, w, e).0, c)
  {
  }

  lemma {:induction false} RunIdle<K(!new), Cmd>(run: Runner<K, Cmd>, events: Events<K, Cmd>, c: Id)
    ensures IdleAt(After(run, events).0, c)
  {
    if events != [] {
      RunIdle(run, events[..|events| - 1], c);
      NextIdle(run, After(run, events[..|events| - 1]).0, events[|events| - 1], c);
    }
  }

  /** An event that closes client c's transaction. */
  ghost predicate Closes<K(!new), Cmd>(e: Event<K, Cmd>, c: Id) {
    (e.Disconnected? && e.c == c) || Accepts(e, c, Discard) || Accepts(e, c, Exec)
  }

  ghost predicate Opens<K(!new), Cmd>(w: World<K, Cmd>, e: Event<K, Cmd>, c: Id) {
    OutsideMulti(w, c) && Accepts(e, c, Multi)
  }

  /** Client c's transaction, open when event m is met, was opened by event i. */
  ghost predicate OpenSince<K(!new), Cmd>(run: Runner<K, Cmd>, events: Events<K, Cmd>, c: Id, i: nat, m: nat) {
    && i < m <= |events| && Opens(At(run, events, i), events[i], c)
    && forall t :: i < t < m ==> !Closes(events[t], c)
  }

  ghost predicate Collecting<K(!new), Cmd>(w: World<K, Cmd>, c: Id, cmds: seq<Command<Cmd>>, marked: bool) {
    InMulti(w, c) && w.sessions[c].queue == cmds && w.sessions[c].refused == marked
  }

  lemma MultiCollects<K(!new), Cmd>(run: Runner<K, Cmd>, w: World<K, Cmd>, e: Event<K, Cmd>, c: Id)
    requires Opens(w, e, c) && IdleAt(w, c)
    ensures Collecting(Next(run, w, e).0, c, [], false)
  {
  }

  lemma NextCollects<K(!new), Cmd>(
    run: Runner<K, Cmd>, w: World<K, Cmd>, e: Event<K, Cmd>, c: Id, cmds: seq<Command<Cmd>>, marked: bool)
    requires Collecting(w, c, cmds, marked) && !Closes(e, c)
    ensures Collecting(Next(run, w, e).0, c, cmds + CommandOf(e, c, false), marked || RefusesMarked(e, c))
  {
  }

  /** Some request of client c between two events was refused with a mark. */
  ghost predicate MarkedBetween<K(!new), Cmd>(events: Events<K, Cmd>, c: Id, i: nat, m: nat)
    requires m <= |events|
  {
    exists t :: i < t < m && RefusesMarked(events[t], c)
  }

  lemma MarkedNext<K(!new), Cmd>(events: Events<K, Cmd>, c: Id, i: nat, m: nat)
    requires i < m < |events|
    ensures MarkedBetween(events, c, i, m + 1) <==> MarkedBetween(events, c, i, m) || RefusesMarked(events[m], c)
  {
  }

  /** The transaction opened by event i has taken in everything before event m. */
  ghost predicate Collected<K(!new), Cmd>(run: Runner<K, Cmd>, events: Events<K, Cmd>, c: Id, i: nat, m: nat)
    requires i < m <= |events|
  {
    Collecting(At(run, events, m), c, Commands(events[i + 1..m], c, false), MarkedBetween(events, c, i, m))
  }

  lemma CollectedFirst<K(!new), Cmd>(run: Runner<K, Cmd>, events: Events<K, Cmd>, c: Id, i: nat)
    requires i < |events| && Opens(At(run, events, i), events[i], c)
    ensures Collected(run, events, c, i, i + 1)
  {
    AfterSplit(run, events, i);
    RunIdle(run, events[..i], c);
    MultiCollects(run, At(run, events, i), events[i], c);
  }

  lemma CollectedNext<K(!new), Cmd>(run: Runner<K, Cmd>, events: Events<K, Cmd>, c: Id, i: nat, m: nat)
    requires i < m < |events| && Collected(run, events, c, i, m) && !Closes(events[m], c)
    ensures Collected(run, events, c, i, m + 1)
  {
    AfterSplit(run, events, m);
    CommandsNext(events, i + 1, m, c, false);
    MarkedNext(events, c, i, m);
    var cmds, marked := Commands(events[i + 1..m], c, false), MarkedBetween(events, c, i, m);
    NextCollects(run, At(run, events, m), events[m], c, cmds, marked);
  }

  /** An open transaction holds the accepted commands, and whether one was refused with a mark. */
  lemma {:induction false} OpenCollects<K(!new), Cmd>(
    run: Runner<K, Cmd>, events: Events<K, Cmd>, c: Id, i: nat, m: nat)
    requires OpenSince(run, events, c, i, m)
    ensures Collected(run, events, c, i, m)
    decreases m
  {
    if i == m - 1 {
      CollectedFirst(run, events, c, i);
    } else {
      OpenCollects(run, events, c, i, m - 1);
      CollectedNext(run, events, c, i, m - 1);
    }
  }

  lemma OpenedBefore<K(!new), Cmd>(run: Runner<K, Cmd>, w: World<K, Cmd>, e: Event<K, Cmd>, c: Id)
    requires InMulti(Next(run, w, e).0, c)
    ensures Opens(w, e, c) || (InMulti(w, c) && !Closes(e, c))
  {
  }

  /** A client is inside MULTI exactly when a transaction of its own is open. */
  lemma {:induction false} OpenExactly<K(!new), Cmd>(run: Runner<K, Cmd>, events: Events<K, Cmd>, c: Id, m: nat)
    requires m <= |events|
    ensures InMulti(At(run, events, m), c) <==> exists i: nat :: OpenSince(run, events, c, i, m)
    decreases m
  {
    forall i: nat | OpenSince(run, events, c, i, m) ensures InMulti(At(run, events, m), c) {
      OpenCollects(run, events, c, i, m);
    }
    if m > 0 && InMulti(At(run, events, m), c) {
      AfterSplit(run, events, m - 1);
      OpenedBefore(run, At(run, events, m - 1), events[m - 1], c);
      if Opens(At(run, events, m - 1), events[m - 1], c) {
        assert OpenSince(run, events, c, m - 1, m);
      } else {
        OpenExactly(run, events, c, m - 1);
        var i: nat :| OpenSince(run, events, c, i, m - 1);
        assert OpenSince(run, events, c, i, m);
      }
    }
  }

  // ---------------------------------------------------------------- what EXEC answers

  /** The answer to an EXEC is decided by the events: by the refusals with a mark since MULTI, then
      by the touches of keys of a WATCH in force, whatever all the clients did in between. */
  lemma ExecAnswer<K(!new), Cmd>(run: Runner<K, Cmd>, events: Events<K, Cmd>, c: Id, i: nat, m: nat)
    requires OpenSince(run, events, c, i, m) && m < |events| && Accepts(events[m], c, Exec)
    ensures
      var touched := exists k, j: nat :: TouchedAfter(run, events, c, k, j, m);
      ReplyAt(run, events, m)
        == if MarkedBetween(events, c, i, m) then ExecAbort
           else if touched then NullReply
           else Ran(Commands(events[i + 1..m], c, false))
  {
    OpenCollects(run, events, c, i, m);
    StaleExactly(run, events, c, m);
    RepliesKept(run, events, m);
  }

  /** A key of a WATCH in force that has been touched keeps an EXEC from running. */
  lemma TouchedKeyStopsExec<K(!new), Cmd>(
    run: Runner<K, Cmd>, events: Events<K, Cmd>, c: Id, k: Watched<K>, i: nat, m: nat)
    requires m < |events| && Accepts(events[m], c, Exec) && TouchedAfter(run, events, c, k, i, m)
    ensures !ReplyAt(run, events, m).Ran?
  {
    StaleExactly(run, events, c, m);
    RepliesKept(run, events, m);
  }

  /** An EXEC that comes to nothing has its cause in the run: a WATCH of that client that is still in
      force, and a signal for one of its keys after it. */
  lemma NullReplyHasCause<K(!new), Cmd>(run: Runner<K, Cmd>, events: Events<K, Cmd>, m: nat)
    requires m < |events| && ReplyAt(run, events, m) == NullReply
    ensures Accepts(events[m], events[m].c, Exec)
    ensures exists k, i: nat :: TouchedAfter(run, events, events[m].c, k, i, m)
  {
    StaleExactly(run, events, events[m].c, m);
    RepliesKept(run, events, m);
  }

  /** EXEC is refused for want of a MULTI exactly when no transaction of that client is open. */
  lemma ExecNeedsMulti<K(!new), Cmd>(run: Runner<K, Cmd>, events: Events<K, Cmd>, c: Id, m: nat)
    requires m < |events| && Accepts(events[m], c, Exec) && c in At(run, events, m).sessions
    ensures ReplyAt(run, events, m) == ExecWithoutMulti <==> !exists i: nat :: OpenSince(run, events, c, i, m)
  {
    OpenExactly(run, events, c, m);
    RepliesKept(run, events, m);
  }

  /** When an EXEC runs, it runs the accepted commands since its MULTI. These are all commands its
      client asked for exactly when none of them was refused, which then was without a mark. */
  lemma TransactionIsWhole<K(!new), Cmd>(run: Runner<K, Cmd>, events: Events<K, Cmd>, c: Id, i: nat, m: nat)
    requires OpenSince(run, events, c, i, m) && m < |events| && Accepts(events[m], c, Exec)
    requires ReplyAt(run, events, m).Ran?
    ensures ReplyAt(run, events, m).cmds == Commands(events[i + 1..m], c, false)
    ensures ReplyAt(run, events, m).cmds == Commands(events[i + 1..m], c, true) <==>
      !exists t :: i < t < m && Loses(events[t], c)
    ensures forall t :: i < t < m && Loses(events[t], c) ==> !Marks(Check(events[t].situation).value)
  {
    ExecAnswer(run, events, c, i, m);
    var between := events[i + 1..m];
    AllAccepted(between, c);
    forall t | i < t < m ensures events[t] == between[t - i - 1] { }
    assert !MarkedBetween(events, c, i, m);
  }

  /** A request of client c that was answered with an error while its transaction was open. */
  ghost predicate Fails<K(!new), Cmd>(run: Runner<K, Cmd>, events: Events<K, Cmd>, c: Id, t: nat) {
    t < |events| && events[t].Asked? && events[t].c == c && ReplyAt(run, events, t) != Queued
  }

  /** A request that an open transaction answers with an error: refused by a check, or nested. */
  ghost predicate IsError<K(!new), Cmd>(e: Event<K, Cmd>, c: Id) {
    e.Asked? && e.c == c && (Check(e.situation).Some? || e.request.WatchKeys? || e.request.Multi?)
  }

  /** Inside MULTI a request is queued, or refused by a check, or a nested WATCH or MULTI. */
  lemma FailsWhen<K(!new), Cmd>(run: Runner<K, Cmd>, events: Events<K, Cmd>, c: Id, i: nat, t: nat)
    requires OpenSince(run, events, c, i, t) && t < |events|
    requires events[t].Asked? && events[t].c == c && !Closes(events[t], c)
    ensures Fails(run, events, c, t) <==> IsError(events[t], c)
  {
    OpenExactly(run, events, c, t);
    RepliesKept(run, events, t);
  }

  lemma AfterOneMore<K(!new), Cmd>(run: Runner<K, Cmd>, events: Events<K, Cmd>, e: Event<K, Cmd>)
    ensures
      var (w, rs) := After(run, events);
      After(run, events + [e]) == (Next(run, w, e).0, rs + [Next(run, w, e).1])
  {
    assert (events + [e])[..|events|] == events;
  }

  /** The world of one client, which has only its transaction. */
  ghost function Alone<K, Cmd>(multi: bool): World<K, Cmd> {
    World(map[0 := Session(0, multi, false, [], map[])], Data({}, []))
  }

  lemma AloneConnects<K(!new), Cmd>(run: Runner<K, Cmd>)
    ensures Next(run, Begin(), Connected(0)) == (Alone(false), Silence)
  {
    var w := Begin<K, Cmd>().sessions[0 := Fresh(0)];
    assert w == Alone<K, Cmd>(false).sessions;
  }

  lemma AloneAsks<K(!new), Cmd>(run: Runner<K, Cmd>, e: Event<K, Cmd>, multi: bool)
    requires e.Asked? && e.c == 0
    requires
      || (Check(e.situation).Some? && !Marks(Check(e.situation).value))
      || (Check(e.situation) == None && e.request.Multi? && !multi)
    ensures Next(run, Alone(multi), e) == match Check(e.situation)
      case Some(why) => (Alone(multi), Refused(why))
      case None => (Alone(true), Done)
  {
    var w: World<K, Cmd>, w': World<K, Cmd> := Alone(multi), Alone(multi || Check(e.situation) == None);
    assert w.sessions[0 := w'.sessions[0]] == w'.sessions;
  }

  lemma AloneInMulti<K(!new), Cmd>(run: Runner<K, Cmd>, fine: Situation)
    requires Check(fine) == None
    ensures After(run, [Connected(0), Asked(0, Multi, fine)]) == (Alone(true), [Silence, Done])
  {
    var connect: Event<K, Cmd>, multi: Event<K, Cmd> := Connected(0), Asked(0, Multi, fine);
    AfterOneMore(run, [], connect);
    AloneConnects(run);
    assert [] + [connect] == [connect];
    assert After(run, [connect]).0 == Alone(false);
    assert After(run, [connect]).1 == [Silence];
    AfterOneMore(run, [connect], multi);
    AloneAsks(run, multi, false);
    assert [connect] + [multi] == [connect, multi];
    assert After(run, [connect, multi]).1 == [Silence, Done];
  }

  /** A command is refused without a mark while a transaction is queued, and EXEC runs without it. */
  lemma RefusedYetRun<K(!new), Cmd>(run: Runner<K, Cmd>, x: Command<Cmd>, fine: Situation, bad: Situation)
    requires Check(fine) == None && Check(bad).Some? && !Marks(Check(bad).value)
    ensures
      After(run, [Connected(0), Asked(0, Multi, fine)] + [Asked(0, Ordinary(x), bad)] + [Asked(0, Exec, fine)]).1
        == [Silence, Done, Refused(Check(bad).value), Ran([])]
  {
    var start: Events<K, Cmd> := [Connected(0), Asked(0, Multi, fine)];
    var refused := start + [Asked(0, Ordinary(x), bad)];
    AloneInMulti(run, fine);
    AfterOneMore(run, start, Asked(0, Ordinary(x), bad));
    AloneAsks(run, Asked(0, Ordinary(x), bad), true);
    assert After(run, refused).0 == Alone(true);
    AfterOneMore(run, refused, Asked(0, Exec, fine));
  }

  /** So it is for a write on a read-only slave. */
  lemma SlaveDropsWrite<K(!new), Cmd>(run: Runner<K, Cmd>, x: Command<Cmd>)
    ensures
      After(run, [Connected(0), Asked(0, Multi, plain)] + [Asked(0, Ordinary(x), writeOnSlave)]
        + [Asked(0, Exec, plain)]).1
        == [Silence, Done, Refused(ReadOnlySlave), Ran([])]
  {
    RefusedYetRun(run, x, plain, writeOnSlave);
  }

  /** Errors since MULTI that do not make EXEC fail with EXECABORT: exactly when there are some and
      none was a refusal with a mark. */
  lemma ErrorsIgnoredExactly<K(!new), Cmd>(run: Runner<K, Cmd>, events: Events<K, Cmd>, c: Id, i: nat, m: nat)
    requires OpenSince(run, events, c, i, m) && m < |events| && Accepts(events[m], c, Exec)
    ensures (exists t: nat :: i < t < m && Fails(run, events, c, t)) && ReplyAt(run, events, m) != ExecAbort <==>
      && (exists t :: i < t < m && IsError(events[t], c))
      && (forall t :: i < t < m && Refuses(events[t], c) ==> !Marks(Check(events[t].situation).value))
  {
    ExecAnswer(run, events, c, i, m);
    forall t: nat | i < t < m ensures Fails(run, events, c, t) <==> IsError(events[t], c) {
      assert OpenSince(run, events, c, i, t);
      if events[t].Asked? && events[t].c == c { FailsWhen(run, events, c, i, t); }
    }
  }
}
