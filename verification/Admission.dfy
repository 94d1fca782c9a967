/** The checks a command has to pass before it is called or queued, redis.c. */
module Admission {
  import opened Bytes

  /** The commands that the checks single out. */
  datatype Proc = Auth | Subscribe | Unsubscribe | PSubscribe | PUnsubscribe | Shutdown | Script | AnyOther

  /** An entry of the command table. */
  datatype Entry = Entry(proc: Proc, arity: int, write: bool, denyOom: bool, stale: bool, loading: bool)

  /** What processCommand looks at: the command and its arguments, the client, and the server. */
  datatype Situation = Situation(
    entry: Option<Entry>,
    argc: nat,
    letter: char,
    requirePass: bool,
    authenticated: bool,
    maxMemory: bool,
    memoryFreed: bool,
    stopWritesOnError: bool,
    savePoints: nat,
    lastSaveOk: bool,
    slave: bool,
    slaveReadOnly: bool,
    fromMaster: bool,
    channels: nat,
    patterns: nat,
    linkUp: bool,
    serveStale: bool,
    loading: bool,
    scriptTimedOut: bool)

  datatype Refusal =
    | UnknownCommand
    | WrongArity
    | NotAuthenticated
    | OutOfMemory
    | DiskError
    | ReadOnlySlave
    | PubSubMode
    | MasterDown
    | LoadingData
    | SlowScript

  /** The refusals that call flagTransaction. */
  predicate Marks(r: Refusal) {
    !r.ReadOnlySlave? && !r.PubSubMode? && !r.LoadingData?
  }

  predicate LetsThroughSlowScript(e: Entry, argc: nat, letter: char) {
    || e.proc.Auth?
    || (e.proc.Shutdown? && argc == 2 && letter in {'n', 'N'})
    || (e.proc.Script? && argc == 2 && letter in {'k', 'K'})
  }

  /** The guard of each refusal, whatever came before it. */
  predicate Applies(r: Refusal, s: Situation) {
    if s.entry == None then r.UnknownCommand?
    else
      var e := s.entry.value;
      match r
      case UnknownCommand => false
      case WrongArity => (e.arity > 0 && e.arity != s.argc) || s.argc < -e.arity
      case NotAuthenticated => s.requirePass && !s.authenticated && !e.proc.Auth?
      case OutOfMemory => s.maxMemory && e.denyOom && !s.memoryFreed
      case DiskError => s.stopWritesOnError && s.savePoints > 0 && !s.lastSaveOk && e.write
      case ReadOnlySlave => s.slave && s.slaveReadOnly && !s.fromMaster && e.write
      case PubSubMode =>
        (s.channels > 0 || s.patterns > 0) && e.proc !in {Subscribe, Unsubscribe, PSubscribe, PUnsubscribe}
      case MasterDown => s.slave && !s.linkUp && !s.serveStale && !e.stale
      case LoadingData => s.loading && !e.loading
      case SlowScript => s.scriptTimedOut && !LetsThroughSlowScript(e, s.argc, s.letter)
  }

  const checks: seq<Refusal> :=
    [UnknownCommand, WrongArity, NotAuthenticated, OutOfMemory, DiskError,
     ReadOnlySlave, PubSubMode, MasterDown, LoadingData, SlowScript]

  /** The first check that fails. */
  function Check(s: Situation): (r: Option<Refusal>)
    ensures r == None <==> forall x :: !Applies(x, s)
    ensures r.Some? ==> Applies(r.value, s)
  {
    if Applies(UnknownCommand, s) then Some(UnknownCommand)
    else if Applies(WrongArity, s) then Some(WrongArity)
    else if Applies(NotAuthenticated, s) then Some(NotAuthenticated)
    else if Applies(OutOfMemory, s) then Some(OutOfMemory)
    else if Applies(DiskError, s) then Some(DiskError)
    else if Applies(ReadOnlySlave, s) then Some(ReadOnlySlave)
    else if Applies(PubSubMode, s) then Some(PubSubMode)
    else if Applies(MasterDown, s) then Some(MasterDown)
    else if Applies(LoadingData, s) then Some(LoadingData)
    else if Applies(SlowScript, s) then Some(SlowScript)
    else None
  }

  /** The refusal is that of the first guard that holds, in the order of the code. */
  lemma FirstApplies(s: Situation, i: nat)
    requires i < |checks| && Applies(checks[i], s) && forall j :: 0 <= j < i ==> !Applies(checks[j], s)
    ensures Check(s) == Some(checks[i])
  {
    assert checks[0] == UnknownCommand && checks[1] == WrongArity && checks[2] == NotAuthenticated;
    assert checks[3] == OutOfMemory && checks[4] == DiskError && checks[5] == ReadOnlySlave;
    assert checks[6] == PubSubMode && checks[7] == MasterDown && checks[8] == LoadingData && checks[9] == SlowScript;
  }

  /** A refusal leaves a transaction unmarked exactly when the first five checks pass and then the
      server is a read-only slave, the client is in Pub/Sub mode, or data are being loaded while the
      master is not missed. */
  lemma UnmarkedExactly(s: Situation)
    ensures Check(s).Some? && !Marks(Check(s).value) <==>
      && (forall r :: r in checks[..5] ==> !Applies(r, s))
      && (Applies(ReadOnlySlave, s) || Applies(PubSubMode, s) || (Applies(LoadingData, s) && !Applies(MasterDown, s)))
  {
    assert checks[..5] == [UnknownCommand, WrongArity, NotAuthenticated, OutOfMemory, DiskError];
  }

  /** A command that takes no arguments, on a server and for a client in no special state. */
  const plain: Situation := Situation(
    Some(Entry(AnyOther, 1, false, false, false, false)), 1, '\0',
    false, false, false, true, true, 1, true, false, true, false, 0, 0, true, true, false, false)

  const auth: Entry := Entry(Auth, 1, false, false, false, false)
  const writing: Entry := Entry(AnyOther, 1, true, true, false, false)
  const subscribe: Entry := Entry(Subscribe, 1, false, false, false, false)
  const always: Entry := Entry(AnyOther, 1, false, false, true, true)

  /** Each guard at work, and what it lets through. */
  lemma Guards()
    ensures Check(plain) == None
    ensures Check(plain.(entry := None)) == Some(UnknownCommand)
    ensures Check(plain.(argc := 2)) == Some(WrongArity)
    ensures Check(plain.(argc := 2, entry := Some(always.(arity := -2)))) == None
    ensures Check(plain.(argc := 1, entry := Some(always.(arity := -2)))) == Some(WrongArity)
    ensures Check(plain.(requirePass := true)) == Some(NotAuthenticated)
    ensures Check(plain.(requirePass := true, authenticated := true)) == None
    ensures Check(plain.(requirePass := true, entry := Some(auth))) == None
  {
  }

  lemma MemoryGuard()
    ensures Check(plain.(entry := Some(writing))) == None
    ensures Check(plain.(entry := Some(writing), maxMemory := true)) == None
    ensures Check(plain.(entry := Some(writing), maxMemory := true, memoryFreed := false)) == Some(OutOfMemory)
    ensures Check(plain.(maxMemory := true, memoryFreed := false)) == None
  {
  }

  lemma DiskGuard()
    ensures
      var failed := plain.(entry := Some(writing), stopWritesOnError := true, lastSaveOk := false);
      Check(failed) == Some(DiskError) && Check(failed.(savePoints := 0)) == None
  {
  }

  lemma SlaveGuard()
    ensures
      var slave := plain.(entry := Some(writing), slave := true);
      && Check(slave) == Some(ReadOnlySlave)
      && Check(slave.(fromMaster := true)) == None && Check(slave.(slaveReadOnly := false)) == None
  {
  }

  lemma PubSubGuard()
    ensures Check(plain.(patterns := 1)) == Some(PubSubMode)
    ensures Check(plain.(channels := 1, entry := Some(subscribe))) == None
  {
  }

  lemma MasterGuard()
    ensures
      var down := plain.(slave := true, linkUp := false);
      Check(down) == None && Check(down.(serveStale := false)) == Some(MasterDown)
  {
  }

  lemma LoadingGuard()
    ensures Check(plain.(loading := true)) == Some(LoadingData)
    ensures Check(plain.(loading := true, entry := Some(always))) == None
  {
  }

  lemma ScriptGuard()
    ensures
      var slow := plain.(scriptTimedOut := true);
      Check(slow) == Some(SlowScript) && Check(slow.(entry := Some(auth))) == None
  {
  }

  lemma ScriptKillGuard()
    ensures
      var script := Some(Entry(Script, -2, false, false, false, false));
      var slow := plain.(scriptTimedOut := true, argc := 2, letter := 'k', entry := script);
      Check(slow) == None && Check(slow.(letter := 'x')) == Some(SlowScript)
  {
  }

  const writeOnSlave: Situation :=
    plain.(entry := Some(Entry(AnyOther, 1, true, false, false, false)), slave := true)
  const readWhileSubscribed: Situation := plain.(channels := 1)
  const readWhileLoading: Situation := plain.(loading := true)

  lemma Refusals()
    ensures Check(writeOnSlave) == Some(ReadOnlySlave)
    ensures Check(readWhileSubscribed) == Some(PubSubMode)
    ensures Check(readWhileLoading) == Some(LoadingData)
  {
  }
}
