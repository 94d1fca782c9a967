/** What the append only file means: replaying its commands rebuilds a dataset. */
module AofReplay {
  import opened Bytes
  import opened Decimal
  import opened Multibulk
  import opened AofFormat
  import opened Sequences

  const SELECT: seq<Byte> := [83, 69, 76, 69, 67, 84]
  const SET: seq<Byte> := [83, 69, 84]
  const PEXPIREAT: seq<Byte> := [80, 69, 88, 80, 73, 82, 69, 65, 84]

  /** `cmd->proc`, as far as feedAppendOnlyFile distinguishes it. */
  datatype Kind = Expire | PExpire | ExpireAt | SetEx | PSetEx | Other

  datatype Command = Command(kind: Kind, argv: Request)

  /** The dataset after a command, and the command vectors propagated for it: none when nothing
      changed, and not always the client's own. */
  datatype Effect<Data> = Effect(data: Data, fed: seq<Command>)

  /** The dataset is uninterpreted: `live` is a client's command at a given time, `apply` a
      command read back from the file. The `timeless` commands are those for which the two should
      agree whenever the file is read. */
  datatype World<!Data> = World(
    empty: Data,
    apply: (nat, Request, Data) -> Data,
    live: (nat, Command, int, Data) -> Effect<Data>,
    timeless: Command -> bool)

  datatype State<Data> = State(db: nat, data: Data)

  function SelectDb(db: nat): Request { [SELECT, PrintNat(db)] }

  /** The database a SELECT names. */
  function Selected(r: Request): Option<nat> {
    if |r| == 2 && r[0] == SELECT && (forall i :: 0 <= i < |r[1]| ==> IsDigit(r[1][i])) then Some(Val(r[1])) else None
  }

  function Step<Data>(w: World<Data>, r: Request, s: State<Data>): State<Data> {
    match Selected(r)
    case Some(db) => State(db, s.data)
    case None => State(s.db, w.apply(s.db, r, s.data))
  }

  /** Run the commands of a log from a given state. */
  function Replay<Data>(w: World<Data>, log: seq<Request>, s: State<Data>): State<Data> {
    if log == [] then s else Step(w, log[|log| - 1], Replay(w, log[..|log| - 1], s))
  }

  /** The loader: database 0, empty dataset. */
  function Load<Data>(w: World<Data>, file: seq<Byte>): Option<Data> {
    match ParseFile(file)
    case None => None
    case Some(log) => Some(Replay(w, log, State(0, w.empty)).data)
  }

  lemma {:induction false} ReplayAppend<Data>(w: World<Data>, a: seq<Request>, b: seq<Request>, s: State<Data>)
    ensures Replay(w, a + b, s) == Replay(w, b, Replay(w, a, s))
  {
    if b == [] {
      assert a + b == a;
    } else {
      ReplayAppend(w, a, b[..|b| - 1], s);
      assert (a + b)[..|a + b| - 1] == a + b[..|b| - 1];
    }
  }

  // ---------------------------------------------------------------- translation of expires

  /** Absolute expire time in milliseconds of a relative or absolute, second or millisecond
      argument, on one reading of the clock. */
  function When(kind: Kind, arg: seq<Byte>, now: int): int {
    var given := Strtol(arg);
    var millis := if kind == Expire || kind == SetEx || kind == ExpireAt then given * 1000 else given;
    Wrap64(if kind == Expire || kind == PExpire || kind == SetEx || kind == PSetEx then millis + now else millis)
  }

  /** A value of C type `long long`. */
  function Wrap64(x: int): (r: int)
    ensures LLONG_MIN <= r <= LLONG_MAX
  {
    (x - LLONG_MIN) % 0x1_0000_0000_0000_0000 + LLONG_MIN
  }

  function ExpireAtCommand(kind: Kind, key: seq<Byte>, arg: seq<Byte>, now: int): Request {
    [PEXPIREAT, key, Print(When(kind, arg, now))]
  }

  ghost predicate WellFormed(c: Command) {
    && Storable(c.argv) && Selected(c.argv) == None
    && (c.kind == Expire || c.kind == PExpire || c.kind == ExpireAt ==> |c.argv| == 3)
    && (c.kind == SetEx || c.kind == PSetEx ==> |c.argv| == 4)
  }

  /** The commands written to the file in place of `c`. */
  function Translate(c: Command, now: int): seq<Request>
    requires WellFormed(c)
  {
    match c.kind
    case Expire => [ExpireAtCommand(c.kind, c.argv[1], c.argv[2], now)]
    case PExpire => [ExpireAtCommand(c.kind, c.argv[1], c.argv[2], now)]
    case ExpireAt => [ExpireAtCommand(c.kind, c.argv[1], c.argv[2], now)]
    case SetEx => [[SET, c.argv[1], c.argv[3]], ExpireAtCommand(c.kind, c.argv[1], c.argv[2], now)]
    case PSetEx => [[SET, c.argv[1], c.argv[3]], ExpireAtCommand(c.kind, c.argv[1], c.argv[2], now)]
    case Other => [c.argv]
  }

  ghost predicate AllWellFormed(cs: seq<Command>) {
    forall i {:trigger WellFormed(cs[i])} :: 0 <= i < |cs| ==> WellFormed(cs[i])
  }

  function TranslateAll(cs: seq<Command>, now: int): seq<Request>
    requires AllWellFormed(cs)
  {
    if cs == [] then [] else TranslateAll(cs[..|cs| - 1], now) + Translate(cs[|cs| - 1], now)
  }

  /** A timeless command has the effect of what is written for it, on one clock reading. */
  ghost predicate Faithful<Data(!new)>(w: World<Data>) {
    forall db: nat, c: Command, now: int, d: Data ::
      WellFormed(c) && w.timeless(c) ==> FaithfulAt(w, db, c, now, d)
  }

  ghost predicate FaithfulAt<Data>(w: World<Data>, db: nat, c: Command, now: int, d: Data) {
    var e := w.live(db, c, now, d);
    AllWellFormed(e.fed) && Replay(w, TranslateAll(e.fed, now), State(db, d)) == State(db, e.data)
  }

  /** The dataset when the first k of these commands have been replayed. */
  ghost function Midway<Data>(w: World<Data>, cs: seq<Command>, k: nat, now: int, db: nat, d: Data): Data
    requires AllWellFormed(cs) && k <= |cs|
  {
    Replay(w, TranslateAll(cs[..k], now), State(db, d)).data
  }

  /** None of these requests names a database. */
  ghost predicate NoSelect(rs: seq<Request>) {
    forall i :: 0 <= i < |rs| ==> Selected(rs[i]) == None
  }

  lemma {:induction false} ReplayStays<Data>(w: World<Data>, rs: seq<Request>, s: State<Data>)
    requires NoSelect(rs)
    ensures Replay(w, rs, s).db == s.db
  {
    if rs != [] { ReplayStays(w, rs[..|rs| - 1], s); }
  }

  lemma {:induction false} TranslatedNoSelect(cs: seq<Command>, now: int)
    requires AllWellFormed(cs)
    ensures NoSelect(TranslateAll(cs, now))
  {
    if cs != [] {
      TranslatedNoSelect(cs[..|cs| - 1], now);
      assert WellFormed(cs[|cs| - 1]);
    }
  }

  lemma MidwayNext<Data>(w: World<Data>, cs: seq<Command>, k: nat, now: int, db: nat, d: Data)
    requires AllWellFormed(cs) && k < |cs|
    ensures Replay(w, Translate(cs[k], now), State(db, Midway(w, cs, k, now, db, d)))
      == State(db, Midway(w, cs, k + 1, now, db, d))
  {
    assert cs[..k + 1][..k] == cs[..k];
    TranslatedNoSelect(cs[..k], now);
    TranslatedNoSelect(cs[..k + 1], now);
    ReplayStays(w, TranslateAll(cs[..k], now), State(db, d));
    ReplayStays(w, TranslateAll(cs[..k + 1], now), State(db, d));
    ReplayAppend(w, TranslateAll(cs[..k], now), Translate(cs[k], now), State(db, d));
  }

  /** The child's file rebuilds the dataset it was forked with. */
  ghost predicate Rebuilds<Data(!new)>(w: World<Data>, dump: Data -> seq<Request>) {
    forall d: Data :: RebuildsAt(w, dump, d)
  }

  ghost predicate RebuildsAt<Data>(w: World<Data>, dump: Data -> seq<Request>, d: Data) {
    AllStorable(dump(d)) && Replay(w, dump(d), State(0, w.empty)).data == d
  }

  /** What feedAppendOnlyFile appends: a SELECT when the last one named another database. */
  function Fed(selectedDb: int, db: nat, c: Command, now: int): seq<Request>
    requires WellFormed(c)
  {
    (if db != selectedDb then [SelectDb(db)] else []) + Translate(c, now)
  }

  /** Replaying `log` gives `data`, with `selectedDb` current when it is known. */
  ghost predicate Tracks<Data>(w: World<Data>, log: seq<Request>, selectedDb: int, data: Data) {
    var s := Replay(w, log, State(0, w.empty));
    s.data == data && (selectedDb >= 0 ==> s.db == selectedDb)
  }

  lemma SelectStep<Data>(w: World<Data>, log: seq<Request>, db: nat, s: State<Data>)
    ensures Replay(w, log + [SelectDb(db)], s) == State(db, Replay(w, log, s).data)
  {
    PrintNatIsCanonical(db);
    assert (log + [SelectDb(db)])[..|log|] == log;
  }

  /** What is written for c turns the first dataset into the second. */
  ghost predicate Turns<Data>(w: World<Data>, db: nat, c: Command, now: int, data: Data, data': Data) {
    WellFormed(c) && Replay(w, Translate(c, now), State(db, data)) == State(db, data')
  }

  /** Feeding such a command makes any log that tracked the first dataset track the second. */
  lemma FeedTracks<Data>(w: World<Data>, log: seq<Request>, selectedDb: int, data: Data, db: nat, c: Command,
      now: int, data': Data)
    requires Turns(w, db, c, now, data, data') && Tracks(w, log, selectedDb, data)
    ensures Tracks(w, log + Fed(selectedDb, db, c, now), db, data')
  {
    var s0 := State(0, w.empty);
    var t := Translate(c, now);
    if db != selectedDb {
      SelectStep(w, log, db, s0);
      ReplayAppend(w, log + [SelectDb(db)], t, s0);
      assert log + ([SelectDb(db)] + t) == log + [SelectDb(db)] + t;
    } else {
      ReplayAppend(w, log, t, s0);
      assert [] + t == t;
    }
  }

  lemma {:induction false} StreamAppend(a: seq<Request>, b: seq<Request>)
    ensures Stream(a + b) == Stream(a) + Stream(b)
  {
    if a == [] {
      assert a + b == b;
    } else {
      assert (a + b)[0] == a[0] && (a + b)[1..] == a[1..] + b;
      StreamAppend(a[1..], b);
      Associates(EncodeRequest(a[0]), Stream(a[1..]), Stream(b));
    }
  }

  lemma FedStorable(selectedDb: int, db: nat, c: Command, now: int)
    requires WellFormed(c) && db < 0x8000_0000
    ensures AllStorable(Fed(selectedDb, db, c, now))
  {
    var arg := if |c.argv| > 2 then c.argv[2] else [];
    var at := When(c.kind, arg, now);
    assert Pow10(10) == 10_000_000_000 && Pow10(20) == 10_000_000_000 * 10_000_000_000;
    PrintNatLength(db, 10);
    PrintNatLength(if at < 0 then -at else at, 20);
  }

  /** `bytes` prints `log`, and replaying it after `base` tracks the dataset. */
  ghost predicate Holds<Data>(w: World<Data>, base: seq<Request>, log: seq<Request>, bytes: seq<Byte>, selectedDb: int,
      data: Data)
  {
    AllStorable(log) && bytes == Stream(log) && Tracks(w, base + log, selectedDb, data)
  }

  lemma HoldsEmpty<Data>(w: World<Data>, base: seq<Request>, selectedDb: int, data: Data)
    requires Tracks(w, base, selectedDb, data)
    ensures Holds(w, base, [], [], selectedDb, data)
  {
    assert base + [] == base;
  }

  /** Appending `fed` to any log that tracks `data` makes it track `data'`. */
  ghost predicate Carries<Data>(w: World<Data>, fed: seq<Request>, selectedDb: int, db: nat, data: Data, data': Data) {
    forall log :: Tracks(w, log, selectedDb, data) ==> Tracks(w, log + fed, db, data')
  }

  lemma FedCarries<Data>(w: World<Data>, selectedDb: int, data: Data, db: nat, c: Command, now: int, data': Data)
    requires Turns(w, db, c, now, data, data')
    ensures Carries(w, Fed(selectedDb, db, c, now), selectedDb, db, data, data')
  {
    forall log | Tracks(w, log, selectedDb, data) ensures Tracks(w, log + Fed(selectedDb, db, c, now), db, data') {
      FeedTracks(w, log, selectedDb, data, db, c, now, data');
    }
  }

  lemma HoldsExtend<Data>(w: World<Data>, base: seq<Request>, log: seq<Request>, bytes: seq<Byte>,
                          selectedDb: int, data: Data, fed: seq<Request>, db: nat, data': Data)
    requires Holds(w, base, log, bytes, selectedDb, data)
    requires AllStorable(fed) && Carries(w, fed, selectedDb, db, data, data')
    ensures Holds(w, base, log + fed, bytes + Stream(fed), db, data')
  {
    ghost var all := base + log;
    assert Tracks(w, all + fed, db, data');
    Associates(base, log, fed);
    StreamAppend(log, fed);
  }

  /** Moving the log to the base leaves nothing to replay after it. */
  lemma HoldsFlush<Data>(w: World<Data>, base: seq<Request>, log: seq<Request>, bytes: seq<Byte>, selectedDb: int,
      data: Data)
    requires Holds(w, base, log, bytes, selectedDb, data) && AllStorable(base)
    ensures AllStorable(base + log) && Stream(base) + bytes == Stream(base + log)
    ensures Holds(w, base + log, [], [], selectedDb, data)
  {
    StreamAppend(base, log);
    HoldsEmpty(w, base + log, selectedDb, data);
  }

  /** What the base alone replays to. */
  lemma HoldsNothing<Data>(w: World<Data>, base: seq<Request>, selectedDb: int, data: Data)
    requires Holds(w, base, [], [], selectedDb, data)
    ensures Tracks(w, base, -1, data)
  {
    assert base + [] == base;
  }

  /** Forgetting which database is selected is always safe. */
  lemma HoldsForget<Data>(w: World<Data>, base: seq<Request>, selectedDb: int, data: Data)
    requires Holds(w, base, [], [], selectedDb, data)
    ensures Holds(w, base, [], [], -1, data)
  {
  }

  // ---------------------------------------------------------------- files

  /** -1, an open descriptor, or one that was closed without being reset. */
  datatype Fd = NoFd | Open(inode: nat) | Closed

  /** Inodes from `next` on are free; the name and the descriptor refer to existing ones. */
  ghost predicate InUse(disk: map<nat, seq<Byte>>, named: Option<nat>, fd: Fd, next: nat) {
    && (forall i :: i in disk ==> i < next)
    && (named.Some? ==> named.value in disk) && (fd.Open? ==> fd.inode in disk)
  }
}
