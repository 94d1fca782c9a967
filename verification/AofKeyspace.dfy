/** Strings with deadlines: what SET, DEL and the five commands that set a deadline do, db.c and
    t_string.c, to a client and on loading. This says when the append only file keeps deadlines. */
module AofKeyspace {
  import opened AofFormat
  import opened AofReplay
  import opened Bytes
  import opened Decimal
  import opened Multibulk

  datatype Name = Name(db: nat, key: seq<Byte>)

  /** A deadline is a time in milliseconds. */
  datatype Item = Item(value: seq<Byte>, deadline: Option<int>)

  type Keyspace = map<Name, Item>

  const DEL: seq<Byte> := [68, 69, 76]
  const EXPIRE: seq<Byte> := [69, 88, 80, 73, 82, 69]
  const PEXPIRE: seq<Byte> := [80] + EXPIRE
  const EXPIREAT: seq<Byte> := EXPIRE + [65, 84]
  const SETEX: seq<Byte> := SET + [69, 88]
  const PSETEX: seq<Byte> := [80] + SETEX

  /** Command names are looked up whatever their case. */
  function Upper(s: seq<Byte>): (u: seq<Byte>)
    ensures |u| == |s|
  {
    seq(|s|, i requires 0 <= i < |s| => if 97 <= s[i] <= 122 then s[i] - 32 else s[i])
  }

  function KindOf(argv: Request): Kind {
    if argv == [] then Other
    else
      var name := Upper(argv[0]);
      if name == EXPIRE then Expire
      else if name == PEXPIRE then PExpire
      else if name == EXPIREAT then ExpireAt
      else if name == SETEX then SetEx
      else if name == PSETEX then PSetEx
      else Other
  }

  // ---------------------------------------------------------------- getLongLongFromObject

  function DigitRun(s: seq<Byte>): (n: nat)
    ensures n <= |s|
  {
    if s == [] || !IsDigit(s[0]) then 0 else 1 + DigitRun(s[1..])
  }

  /** strtoll reads the C string to its end. */
  predicate IsInteger(s: seq<Byte>) {
    if s == [] || s[0] == 0 then true
    else
      var sign := if s[0] == MINUS || s[0] == 43 then 1 else 0;
      var n := DigitRun(s[sign..]);
      n > 0 && (sign + n == |s| || s[sign + n] == 0)
  }

  function LongLong(s: seq<Byte>): Option<int> {
    if IsInteger(s) && LLONG_MIN <= Number(s) <= LLONG_MAX then Some(Number(s)) else None
  }

  // ---------------------------------------------------------------- the commands

  /** The key's deadline has passed; nothing expires while the file is loaded. */
  predicate Gone(loading: bool, d: Keyspace, n: Name, now: int) {
    !loading && n in d && d[n].deadline.Some? && 0 <= d[n].deadline.value < now
  }

  /** expireIfNeeded, which propagates a DEL. */
  function LookedUp(loading: bool, d: Keyspace, n: Name, now: int): Keyspace {
    if Gone(loading, d, n, now) then d - {n} else d
  }

  function Delete(key: seq<Byte>): Command {
    Command(Other, [DEL, key])
  }

  function LookupFeeds(loading: bool, d: Keyspace, n: Name, now: int): seq<Command> {
    if Gone(loading, d, n, now) then [Delete(n.key)] else []
  }

  function Millis(given: int, seconds: bool): int {
    if seconds then Wrap64(given * 1000) else given
  }

  /** expireGenericCommand. */
  function ExpireGeneric(loading: bool, n: Name, c: Command, base: int, seconds: bool, now: int, d: Keyspace)
    : Effect<Keyspace>
    requires |c.argv| == 3
  {
    match LongLong(c.argv[2])
    case None => Effect(d, [])
    case Some(given) => ExpireAtTime(loading, n, c, Wrap64(Millis(given, seconds) + base), now, d)
  }

  function ExpireAtTime(loading: bool, n: Name, c: Command, when: int, now: int, d: Keyspace): Effect<Keyspace> {
    var d' := LookedUp(loading, d, n, now);
    if n !in d' then Effect(d', LookupFeeds(loading, d, n, now))
    else if when <= now && !loading then Effect(d' - {n}, [Delete(n.key)])
    else Effect(d'[n := d'[n].(deadline := Some(when))], [c])
  }

  /** The options of SET. */
  datatype Options = Options(nx: bool, xx: bool, expire: Option<seq<Byte>>, seconds: bool)

  predicate IsOption(a: seq<Byte>, letter: Byte) {
    |a| >= 2 && Upper(a[..2]) == [letter, 88] && (|a| == 2 || a[2] == 0)
  }

  function ParseOptions(args: seq<seq<Byte>>, o: Options): Option<Options> {
    if args == [] then Some(o)
    else if IsOption(args[0], 78) then ParseOptions(args[1..], o.(nx := true))
    else if IsOption(args[0], 88) then ParseOptions(args[1..], o.(xx := true))
    else if IsOption(args[0], 69) && |args| > 1 then
      ParseOptions(args[2..], o.(expire := Some(args[1]), seconds := true))
    else if IsOption(args[0], 80) && |args| > 1 then
      ParseOptions(args[2..], o.(expire := Some(args[1]), seconds := false))
    else None
  }

  const noOptions := Options(false, false, None, true)

  /** The time to live asked for, in milliseconds: None for one that is refused. */
  function TimeToLive(o: Options): Option<int>
    requires o.expire.Some?
  {
    match LongLong(o.expire.value)
    case None => None
    case Some(given) => if given <= 0 then None else Some(Millis(given, o.seconds))
  }

  predicate Aborts(o: Options, d: Keyspace, n: Name) {
    (o.nx && n in d) || (o.xx && n !in d)
  }

  /** setGenericCommand. */
  function SetGeneric(loading: bool, n: Name, c: Command, value: seq<Byte>, o: Options, now: int, d: Keyspace)
    : Effect<Keyspace>
  {
    if o.expire.Some? && TimeToLive(o) == None then Effect(d, [])
    else
      var d', feeds := LookedUp(loading, d, n, now), LookupFeeds(loading, d, n, now);
      if Aborts(o, d', n) then Effect(d', feeds)
      else
        var deadline := if o.expire == None then None else Some(Wrap64(now + TimeToLive(o).value));
        Effect(d'[n := Item(value, deadline)], feeds + [c])
  }

  /** delCommand. */
  function DeleteKeys(db: nat, c: Command, d: Keyspace): Effect<Keyspace> {
    var named := Named(db, c.argv);
    Effect(d - named, if named !! d.Keys then [] else [c])
  }

  /** The keys a DEL names. */
  function Named(db: nat, argv: Request): set<Name> {
    set i | 1 <= i < |argv| :: Name(db, argv[i])
  }

  /** A command, for a client or while the file is loaded. */
  function Execute(loading: bool, db: nat, c: Command, now: int, d: Keyspace): Effect<Keyspace> {
    if |c.argv| < 2 then Effect(d, [])
    else
      var n := Name(db, c.argv[1]);
      match c.kind
      case Expire => if |c.argv| == 3 then ExpireGeneric(loading, n, c, now, true, now, d) else Effect(d, [])
      case PExpire => if |c.argv| == 3 then ExpireGeneric(loading, n, c, now, false, now, d) else Effect(d, [])
      case ExpireAt => if |c.argv| == 3 then ExpireGeneric(loading, n, c, 0, true, now, d) else Effect(d, [])
      case SetEx =>
        if |c.argv| != 4 then Effect(d, [])
        else SetGeneric(loading, n, c, c.argv[3], Options(false, false, Some(c.argv[2]), true), now, d)
      case PSetEx =>
        if |c.argv| != 4 then Effect(d, [])
        else SetGeneric(loading, n, c, c.argv[3], Options(false, false, Some(c.argv[2]), false), now, d)
      case Other => ExecuteOther(loading, n, c, now, d)
  }

  /** Commands that are not translated; all but these three leave the dataset alone. */
  function ExecuteOther(loading: bool, n: Name, c: Command, now: int, d: Keyspace): Effect<Keyspace>
    requires |c.argv| >= 2
  {
    var name := Upper(c.argv[0]);
    if name == SET && |c.argv| >= 3 then
      match ParseOptions(c.argv[3..], noOptions)
      case None => Effect(d, [])
      case Some(o) => SetGeneric(loading, n, c, c.argv[2], o, now, d)
    else if name == PEXPIREAT && |c.argv| == 3 then ExpireGeneric(loading, n, c, 0, false, now, d)
    else if name == DEL then DeleteKeys(n.db, c, d)
    else Effect(d, [])
  }

  /** SET with EX or PX. */
  predicate SetsDeadline(c: Command) {
    && c.kind == Other && |c.argv| > 3 && Upper(c.argv[0]) == SET
    && ParseOptions(c.argv[3..], noOptions).Some? && ParseOptions(c.argv[3..], noOptions).value.expire.Some?
  }

  /** A server with these commands whose file is loaded when the clock shows `loadedAt`. */
  function Strings(loadedAt: int): World<Keyspace> {
    World(
      map[],
      (db: nat, r: Request, d: Keyspace) => Execute(true, db, Command(KindOf(r), r), loadedAt, d).data,
      (db: nat, c: Command, now: int, d: Keyspace) => Execute(false, db, c, now, d),
      (c: Command) => c.kind == KindOf(c.argv) && !SetsDeadline(c))
  }

  // ---------------------------------------------------------------- numbers

  lemma {:induction false} DigitRunAll(s: seq<Byte>)
    requires AllDigits(s)
    ensures DigitRun(s) == |s|
  {
    if s != [] { DigitRunAll(s[1..]); }
  }

  lemma PrintedLongLong(v: int)
    requires LLONG_MIN <= v <= LLONG_MAX
    ensures LongLong(Print(v)) == Some(v)
  {
    var digits := PrintNat(if v < 0 then -v else v);
    PrintNatIsCanonical(if v < 0 then -v else v);
    DigitRunAll(digits);
    NumberOfPrint(v);
    assert digits[0..] == digits;
    if v < 0 { assert Print(v)[1..] == digits; }
  }

  /** Wrapping in two steps is wrapping once; numbers that fit are kept. */
  lemma WrapTwice(a: int, b: int)
    ensures Wrap64(Wrap64(a) + b) == Wrap64(a + b)
    ensures LLONG_MIN <= a <= LLONG_MAX ==> Wrap64(a) == a
  {
    var q := (a - LLONG_MIN) / 0x1_0000_0000_0000_0000;
    assert Wrap64(a) == a - q * 0x1_0000_0000_0000_0000;
    var x, y := Wrap64(a) + b - LLONG_MIN, a + b - LLONG_MIN;
    assert y == x + q * 0x1_0000_0000_0000_0000;
    SameRemainder(x, q);
  }

  lemma SameRemainder(x: int, q: int)
    ensures (x + q * 0x1_0000_0000_0000_0000) % 0x1_0000_0000_0000_0000 == x % 0x1_0000_0000_0000_0000
  {
  }

  // ---------------------------------------------------------------- reading the file back

  lemma ReplayOne<Data>(w: World<Data>, r: Request, s: State<Data>)
    ensures Replay(w, [r], s) == Step(w, r, s)
  {
    assert [r][..0] == [];
  }

  lemma ReplayTwo<Data>(w: World<Data>, r: Request, r': Request, s: State<Data>)
    ensures Replay(w, [r, r'], s) == Step(w, r', Step(w, r, s))
  {
    assert [r, r'][..1] == [r];
    ReplayOne(w, r, s);
  }

  lemma UpperKept(s: seq<Byte>)
    requires forall i :: 0 <= i < |s| ==> !(97 <= s[i] <= 122)
    ensures Upper(s) == s
  {
  }

  lemma DeleteRead(t: int, n: Name, d: Keyspace)
    ensures Step(Strings(t), [DEL, n.key], State(n.db, d)) == State(n.db, d - {n})
  {
    var r := [DEL, n.key];
    UpperKept(DEL);
    assert |EXPIRE| == 6 && |PEXPIRE| == 7 && |EXPIREAT| == 8 && |SETEX| == 5 && |PSETEX| == 6;
    assert DEL[0] != SET[0] && DEL[0] != SELECT[0] && KindOf(r) == Other;
    assert r[1] == n.key && Name(n.db, r[1]) in Named(n.db, r);
    assert Named(n.db, r) == {n};
  }

  lemma SetRead(t: int, n: Name, value: seq<Byte>, d: Keyspace)
    ensures Step(Strings(t), [SET, n.key, value], State(n.db, d)) == State(n.db, d[n := Item(value, None)])
  {
    var r := [SET, n.key, value];
    UpperKept(SET);
    assert |EXPIRE| == 6 && |PEXPIRE| == 7 && |EXPIREAT| == 8 && |SETEX| == 5 && |PSETEX| == 6;
    assert r[3..] == [];
  }

  /** A key given this deadline, if it is there. */
  function Expiring(d: Keyspace, n: Name, when: int): Keyspace {
    if n in d then d[n := d[n].(deadline := Some(when))] else d
  }

  lemma ExpireRead(t: int, n: Name, r: Request, when: int, d: Keyspace)
    requires |r| == 3 && Upper(r[0]) == PEXPIREAT && r[1] == n.key && LongLong(r[2]) == Some(when)
    ensures Step(Strings(t), r, State(n.db, d)) == State(n.db, Expiring(d, n, when))
  {
    assert |EXPIRE| == 6 && |PEXPIRE| == 7 && |EXPIREAT| == 8 && |SETEX| == 5 && |PSETEX| == 6 && |PEXPIREAT| == 9;
    WrapTwice(when, 0);
  }

  lemma PrintedRead(t: int, n: Name, when: int, d: Keyspace)
    requires LLONG_MIN <= when <= LLONG_MAX
    ensures Step(Strings(t), [PEXPIREAT, n.key, Print(when)], State(n.db, d)) == State(n.db, Expiring(d, n, when))
  {
    PrintedLongLong(when);
    UpperKept(PEXPIREAT);
    ExpireRead(t, n, [PEXPIREAT, n.key, Print(when)], when, d);
  }

  // ---------------------------------------------------------------- what is fed, read back

  /** Reading back what a command propagates gives the dataset it leaves. */
  ghost predicate ReadsBack(t: int, db: nat, now: int, d: Keyspace, e: Effect<Keyspace>) {
    && AllWellFormed(e.fed)
    && Replay(Strings(t), TranslateAll(e.fed, now), State(db, d)) == State(db, e.data)
  }

  lemma NothingReadsBack(t: int, db: nat, now: int, d: Keyspace)
    ensures ReadsBack(t, db, now, d, Effect(d, []))
  {
  }

  lemma TranslateOne(c: Command, now: int)
    requires WellFormed(c)
    ensures AllWellFormed([c]) && TranslateAll([c], now) == Translate(c, now)
  {
    assert [c][..0] == [];
    assert TranslateAll([], now) == [];
  }

  lemma DeleteReadsBack(t: int, n: Name, now: int, d: Keyspace)
    requires Short(n.key)
    ensures ReadsBack(t, n.db, now, d, Effect(d - {n}, [Delete(n.key)]))
  {
    var c := Delete(n.key);
    assert Short(DEL) && DEL[0] != SELECT[0];
    assert WellFormed(c);
    TranslateOne(c, now);
    ReplayOne(Strings(t), c.argv, State(n.db, d));
    DeleteRead(t, n, d);
  }

  lemma LookupReadsBack(t: int, n: Name, now: int, d: Keyspace)
    requires Short(n.key)
    ensures ReadsBack(t, n.db, now, d, Effect(LookedUp(false, d, n, now), LookupFeeds(false, d, n, now)))
  {
    if Gone(false, d, n, now) { DeleteReadsBack(t, n, now, d); }
  }

  /** One more command after others. */
  lemma OneMore(t: int, db: nat, now: int, d: Keyspace, e: Effect<Keyspace>, c: Command)
    requires ReadsBack(t, db, now, d, e) && WellFormed(c)
    ensures AllWellFormed(e.fed + [c])
    ensures Replay(Strings(t), TranslateAll(e.fed + [c], now), State(db, d))
      == Replay(Strings(t), Translate(c, now), State(db, e.data))
  {
    var fed := e.fed + [c];
    forall i | 0 <= i < |fed| ensures WellFormed(fed[i]) {
      if i < |e.fed| { assert fed[i] == e.fed[i]; }
    }
    assert fed[..|fed| - 1] == e.fed;
    ReplayAppend(Strings(t), TranslateAll(e.fed, now), Translate(c, now), State(db, d));
  }

  /** The deadline a translated command gives is that of the command. */
  lemma SameDeadline(kind: Kind, arg: seq<Byte>, now: int)
    requires kind != Other && LongLong(arg).Some?
    ensures
      var seconds := kind == Expire || kind == SetEx || kind == ExpireAt;
      var base := if kind == ExpireAt then 0 else now;
      When(kind, arg, now) == Wrap64(Millis(LongLong(arg).value, seconds) + base)
  {
    var given := LongLong(arg).value;
    WrapTwice(given * 1000, now);
    WrapTwice(given * 1000, 0);
  }

  /** The unit and the starting point of the deadline that a command names. */
  ghost predicate Names(c: Command, base: int, seconds: bool, now: int) {
    match c.kind
    case Expire => seconds && base == now
    case PExpire => !seconds && base == now
    case ExpireAt => seconds && base == 0
    case Other => !seconds && base == 0 && |c.argv| == 3 && Upper(c.argv[0]) == PEXPIREAT
    case _ => false
  }

  lemma NamedDeadline(n: Name, c: Command, base: int, seconds: bool, now: int, d: Keyspace) returns (when: int)
    requires |c.argv| == 3 && Names(c, base, seconds, now) && LongLong(c.argv[2]).Some?
    ensures ExpireGeneric(false, n, c, base, seconds, now, d) == ExpireAtTime(false, n, c, when, now, d)
    ensures if c.kind == Other then LongLong(c.argv[2]) == Some(when) else when == When(c.kind, c.argv[2], now)
  {
    when := Wrap64(Millis(LongLong(c.argv[2]).value, seconds) + base);
    if c.kind == Other {
      WrapTwice(LongLong(c.argv[2]).value, 0);
    } else {
      SameDeadline(c.kind, c.argv[2], now);
    }
  }

  lemma ExpireReadsBack(t: int, n: Name, c: Command, base: int, seconds: bool, now: int, d: Keyspace)
    requires WellFormed(c) && |c.argv| == 3 && n.key == c.argv[1] && Names(c, base, seconds, now)
    ensures ReadsBack(t, n.db, now, d, ExpireGeneric(false, n, c, base, seconds, now, d))
  {
    if LongLong(c.argv[2]) == None {
      NothingReadsBack(t, n.db, now, d);
    } else {
      var when := NamedDeadline(n, c, base, seconds, now, d);
      ExpireAtReadsBack(t, n, c, when, now, d);
    }
  }

  lemma ExpireAtReadsBack(t: int, n: Name, c: Command, when: int, now: int, d: Keyspace)
    requires WellFormed(c) && |c.argv| == 3 && n.key == c.argv[1] && LongLong(c.argv[2]).Some?
    requires
      if c.kind == Other then Upper(c.argv[0]) == PEXPIREAT && LongLong(c.argv[2]) == Some(when)
      else c.kind != SetEx && c.kind != PSetEx && when == When(c.kind, c.argv[2], now)
    ensures ReadsBack(t, n.db, now, d, ExpireAtTime(false, n, c, when, now, d))
  {
    assert Short(c.argv[1]);
    if n !in LookedUp(false, d, n, now) {
      LookupReadsBack(t, n, now, d);
    } else if when <= now {
      DeleteReadsBack(t, n, now, d);
    } else {
      DeadlineReadsBack(t, n, c, when, now, d);
    }
  }

  lemma DeadlineReadsBack(t: int, n: Name, c: Command, when: int, now: int, d: Keyspace)
    requires WellFormed(c) && |c.argv| == 3 && n.key == c.argv[1] && n in d && LongLong(c.argv[2]).Some?
    requires
      if c.kind == Other then Upper(c.argv[0]) == PEXPIREAT && LongLong(c.argv[2]) == Some(when)
      else c.kind != SetEx && c.kind != PSetEx && when == When(c.kind, c.argv[2], now)
    ensures ReadsBack(t, n.db, now, d, Effect(Expiring(d, n, when), [c]))
  {
    TranslateOne(c, now);
    if c.kind == Other {
      ReplayOne(Strings(t), c.argv, State(n.db, d));
      ExpireRead(t, n, c.argv, when, d);
    } else {
      assert Translate(c, now) == [[PEXPIREAT, n.key, Print(when)]];
      ReplayOne(Strings(t), [PEXPIREAT, n.key, Print(when)], State(n.db, d));
      PrintedRead(t, n, when, d);
    }
  }

  lemma DelReadsBack(t: int, db: nat, c: Command, now: int, d: Keyspace)
    requires WellFormed(c) && c.kind == KindOf(c.argv) == Other && |c.argv| >= 2 && Upper(c.argv[0]) == DEL
    ensures ReadsBack(t, db, now, d, DeleteKeys(db, c, d))
  {
    var e := DeleteKeys(db, c, d);
    if e.fed == [] {
      assert forall x :: x in d ==> x !in Named(db, c.argv);
      assert e.data == d;
    } else {
      TranslateOne(c, now);
      ReplayOne(Strings(t), c.argv, State(db, d));
      assert DEL[0] != SET[0] && |DEL| != |PEXPIREAT|;
    }
  }

  // ---------------------------------------------------------------- SET

  /** What SET leaves of a dataset without expired keys, when its time to live starts at `from`. */
  function Stored(n: Name, value: seq<Byte>, o: Options, from: int, d: Keyspace): Keyspace
    requires o.expire.Some? ==> TimeToLive(o).Some?
  {
    d[n := Item(value, if o.expire == None then None else Some(Wrap64(from + TimeToLive(o).value)))]
  }

  /** SETEX and PSETEX. */
  lemma SetExReadsBack(t: int, n: Name, c: Command, seconds: bool, now: int, d: Keyspace)
    requires WellFormed(c) && |c.argv| == 4 && n.key == c.argv[1]
    requires c.kind == if seconds then SetEx else PSetEx
    ensures
      var o := Options(false, false, Some(c.argv[2]), seconds);
      ReadsBack(t, n.db, now, d, SetGeneric(false, n, c, c.argv[3], o, now, d))
  {
    var o := Options(false, false, Some(c.argv[2]), seconds);
    if TimeToLive(o) == None {
      NothingReadsBack(t, n.db, now, d);
    } else {
      SetExEffect(n, c, seconds, now, d);
      StoredReadsBack(t, n, c, now, d);
    }
  }

  lemma SetExEffect(n: Name, c: Command, seconds: bool, now: int, d: Keyspace)
    requires |c.argv| == 4 && c.kind == if seconds then SetEx else PSetEx
    requires TimeToLive(Options(false, false, Some(c.argv[2]), seconds)).Some?
    ensures
      var d' := LookedUp(false, d, n, now)[n := Item(c.argv[3], Some(When(c.kind, c.argv[2], now)))];
      SetGeneric(false, n, c, c.argv[3], Options(false, false, Some(c.argv[2]), seconds), now, d)
        == Effect(d', LookupFeeds(false, d, n, now) + [c])
  {
    SameDeadline(c.kind, c.argv[2], now);
  }

  lemma StoredReadsBack(t: int, n: Name, c: Command, now: int, d: Keyspace)
    requires WellFormed(c) && |c.argv| == 4 && n.key == c.argv[1] && (c.kind == SetEx || c.kind == PSetEx)
    ensures
      var d' := LookedUp(false, d, n, now)[n := Item(c.argv[3], Some(When(c.kind, c.argv[2], now)))];
      ReadsBack(t, n.db, now, d, Effect(d', LookupFeeds(false, d, n, now) + [c]))
  {
    assert Short(c.argv[1]);
    LookupReadsBack(t, n, now, d);
    OneMore(t, n.db, now, d, Effect(LookedUp(false, d, n, now), LookupFeeds(false, d, n, now)), c);
    SetThenExpire(t, n, c, now, LookedUp(false, d, n, now));
  }

  lemma SetThenExpire(t: int, n: Name, c: Command, now: int, d: Keyspace)
    requires WellFormed(c) && (c.kind == SetEx || c.kind == PSetEx) && n.key == c.argv[1]
    ensures Replay(Strings(t), Translate(c, now), State(n.db, d))
      == State(n.db, d[n := Item(c.argv[3], Some(When(c.kind, c.argv[2], now)))])
  {
    var when := When(c.kind, c.argv[2], now);
    var store, expire := [SET, n.key, c.argv[3]], ExpireAtCommand(c.kind, n.key, c.argv[2], now);
    ReplayTwo(Strings(t), store, expire, State(n.db, d));
    SetRead(t, n, c.argv[3], d);
    PrintedRead(t, n, when, d[n := Item(c.argv[3], None)]);
    assert Expiring(d[n := Item(c.argv[3], None)], n, when) == d[n := Item(c.argv[3], Some(when))];
  }

  /** SET with its options: what is read back is what would be stored at the time of loading. */
  lemma SetReplayed(t: int, n: Name, c: Command, o: Options, now: int, d: Keyspace)
    requires WellFormed(c) && c.kind == KindOf(c.argv) == Other && |c.argv| >= 3 && n.key == c.argv[1]
    requires Upper(c.argv[0]) == SET && ParseOptions(c.argv[3..], noOptions) == Some(o)
    requires o.expire.Some? ==> TimeToLive(o).Some?
    requires !Aborts(o, LookedUp(false, d, n, now), n)
    ensures
      var e := SetGeneric(false, n, c, c.argv[2], o, now, d);
      && AllWellFormed(e.fed)
      && Replay(Strings(t), TranslateAll(e.fed, now), State(n.db, d))
        == State(n.db, Stored(n, c.argv[2], o, t, LookedUp(false, d, n, now)))
  {
    assert Short(c.argv[1]);
    var d' := LookedUp(false, d, n, now);
    var e := Effect(d', LookupFeeds(false, d, n, now));
    LookupReadsBack(t, n, now, d);
    OneMore(t, n.db, now, d, e, c);
    ReplayOne(Strings(t), c.argv, State(n.db, d'));
  }

  lemma SetReadsBack(t: int, n: Name, c: Command, o: Options, now: int, d: Keyspace)
    requires WellFormed(c) && c.kind == KindOf(c.argv) == Other && |c.argv| >= 3 && n.key == c.argv[1]
    requires Upper(c.argv[0]) == SET && ParseOptions(c.argv[3..], noOptions) == Some(o)
    requires o.expire == None || TimeToLive(o) == None || Aborts(o, LookedUp(false, d, n, now), n)
    ensures ReadsBack(t, n.db, now, d, SetGeneric(false, n, c, c.argv[2], o, now, d))
  {
    assert Short(c.argv[1]);
    if o.expire.Some? && TimeToLive(o) == None {
      NothingReadsBack(t, n.db, now, d);
    } else if Aborts(o, LookedUp(false, d, n, now), n) {
      LookupReadsBack(t, n, now, d);
    } else {
      SetReplayed(t, n, c, o, now, d);
    }
  }

  // ---------------------------------------------------------------- the file keeps deadlines

  /** Whenever the file is loaded, it gives back what every command left, values and deadlines, SET
      with EX or PX apart. */
  lemma StringsFaithful(loadedAt: int)
    ensures Faithful(Strings(loadedAt))
  {
    var w := Strings(loadedAt);
    forall db: nat, c: Command, now: int, d: Keyspace | WellFormed(c) && w.timeless(c)
      ensures FaithfulAt(w, db, c, now, d)
    {
      StringsFaithfulAt(loadedAt, db, c, now, d);
    }
  }

  lemma StringsFaithfulAt(t: int, db: nat, c: Command, now: int, d: Keyspace)
    requires WellFormed(c) && c.kind == KindOf(c.argv) && !SetsDeadline(c)
    ensures ReadsBack(t, db, now, d, Execute(false, db, c, now, d))
  {
    if |c.argv| < 2 {
      NothingReadsBack(t, db, now, d);
    } else {
      var n := Name(db, c.argv[1]);
      match c.kind
      case Expire => ExpireReadsBack(t, n, c, now, true, now, d);
      case PExpire => ExpireReadsBack(t, n, c, now, false, now, d);
      case ExpireAt => ExpireReadsBack(t, n, c, 0, true, now, d);
      case SetEx => SetExReadsBack(t, n, c, true, now, d);
      case PSetEx => SetExReadsBack(t, n, c, false, now, d);
      case Other => OtherReadsBack(t, n, c, now, d);
    }
  }

  lemma OtherReadsBack(t: int, n: Name, c: Command, now: int, d: Keyspace)
    requires WellFormed(c) && c.kind == KindOf(c.argv) == Other && |c.argv| >= 2 && n.key == c.argv[1]
    requires !SetsDeadline(c)
    ensures ReadsBack(t, n.db, now, d, ExecuteOther(false, n, c, now, d))
  {
    var name := Upper(c.argv[0]);
    if name == SET && |c.argv| >= 3 {
      match ParseOptions(c.argv[3..], noOptions)
      case None => NothingReadsBack(t, n.db, now, d);
      case Some(o) => SetReadsBack(t, n, c, o, now, d);
    } else if name == PEXPIREAT && |c.argv| == 3 {
      ExpireReadsBack(t, n, c, 0, false, now, d);
    } else if name == DEL {
      DelReadsBack(t, n.db, c, now, d);
    } else {
      NothingReadsBack(t, n.db, now, d);
    }
  }

  /** SET with EX or PX is written as the client sent it. It is read back right exactly when it did
      nothing or the clock stands, up to 64 bits, where it stood. */
  lemma SetWithDeadlineExactly(loadedAt: int, db: nat, c: Command, now: int, d: Keyspace)
    requires WellFormed(c) && c.kind == KindOf(c.argv) && SetsDeadline(c)
    ensures
      var n, o := Name(db, c.argv[1]), ParseOptions(c.argv[3..], noOptions).value;
      FaithfulAt(Strings(loadedAt), db, c, now, d) <==>
        || TimeToLive(o) == None || Aborts(o, LookedUp(false, d, n, now), n)
        || Wrap64(loadedAt) == Wrap64(now)
  {
    var n, o := Name(db, c.argv[1]), ParseOptions(c.argv[3..], noOptions).value;
    if TimeToLive(o) == None || Aborts(o, LookedUp(false, d, n, now), n) {
      SetReadsBack(loadedAt, n, c, o, now, d);
    } else {
      SetReplayed(loadedAt, n, c, o, now, d);
      StoredSame(n, c.argv[2], o, loadedAt, now, LookedUp(false, d, n, now));
      SetEffect(n, c, o, now, d);
    }
  }

  lemma SetEffect(n: Name, c: Command, o: Options, now: int, d: Keyspace)
    requires SetsDeadline(c) && n.key == c.argv[1] && ParseOptions(c.argv[3..], noOptions) == Some(o)
    requires TimeToLive(o).Some? && !Aborts(o, LookedUp(false, d, n, now), n)
    ensures Execute(false, n.db, c, now, d) == SetGeneric(false, n, c, c.argv[2], o, now, d)
    ensures SetGeneric(false, n, c, c.argv[2], o, now, d).data
      == Stored(n, c.argv[2], o, now, LookedUp(false, d, n, now))
  {
  }

  lemma StoredSame(n: Name, value: seq<Byte>, o: Options, a: int, b: int, d: Keyspace)
    requires o.expire.Some? && TimeToLive(o).Some?
    ensures Stored(n, value, o, a, d) == Stored(n, value, o, b, d)
      <==> Wrap64(a) == Wrap64(b)
  {
    SameClock(a, b, TimeToLive(o).value);
    var x, y := Stored(n, value, o, a, d), Stored(n, value, o, b, d);
    if x == y { assert x[n] == y[n]; }
  }

  lemma SameClock(a: int, b: int, ttl: int)
    ensures Wrap64(a + ttl) == Wrap64(b + ttl) <==> Wrap64(a) == Wrap64(b)
    ensures LLONG_MIN <= a <= LLONG_MAX && LLONG_MIN <= b <= LLONG_MAX ==> (Wrap64(a) == Wrap64(b) <==> a == b)
  {
    WrapTwice(a, ttl);
    WrapTwice(b, ttl);
    WrapTwice(a + ttl, -ttl);
    WrapTwice(b + ttl, -ttl);
    WrapTwice(b, 0);
  }

  /** A SET with EX or PX that stores its key is read back wrong at any other time. */
  lemma SetMoves(loadedAt: int, db: nat, c: Command, o: Options, now: int, d: Keyspace)
    requires WellFormed(c) && c.kind == KindOf(c.argv) && SetsDeadline(c)
    requires ParseOptions(c.argv[3..], noOptions) == Some(o) && TimeToLive(o).Some?
    requires !Aborts(o, LookedUp(false, d, Name(db, c.argv[1]), now), Name(db, c.argv[1]))
    requires 0 <= now <= LLONG_MAX && 0 <= loadedAt <= LLONG_MAX && loadedAt != now
    ensures FaithfulAt(Strings(loadedAt), db, c, now, d) == false
  {
    SetWithDeadlineExactly(loadedAt, db, c, now, d);
    DifferentClock(loadedAt, now);
  }

  /** SET k v EX 10. */
  const setExTen := Command(Other, [SET, [107], [118], [69, 88], [49, 48]])

  lemma SetExTenOptions()
    ensures ParseOptions(setExTen.argv[3..], noOptions) == Some(noOptions.(expire := Some([49, 48])))
  {
    var args: seq<seq<Byte>> := [[69, 88], [49, 48]];
    assert setExTen.argv[3..] == args && args[2..] == [];
    UpperKept([69, 88]);
    assert [69, 88][..2] == [69, 88];
  }

  lemma SetExTenWellFormed()
    ensures WellFormed(setExTen) && setExTen.kind == KindOf(setExTen.argv) && SetsDeadline(setExTen)
  {
    UpperKept(SET);
    assert |EXPIRE| == 6 && |PEXPIRE| == 7 && |EXPIREAT| == 8 && |SETEX| == 5 && |PSETEX| == 6;
    SetExTenOptions();
  }

  lemma SetExTenStores(now: int)
    ensures
      var n, o := Name(0, setExTen.argv[1]), noOptions.(expire := Some([49, 48]));
      TimeToLive(o).Some? && !Aborts(o, LookedUp(false, map[], n, now), n)
  {
    Ten();
  }

  /** It is such a command: read back a second later, it gives another deadline. */
  lemma SetExTenMoves(now: int)
    requires 0 <= now < LLONG_MAX - 20_000
    ensures FaithfulAt(Strings(now + 1000), 0, setExTen, now, map[]) == false
  {
    SetExTenWellFormed();
    SetExTenOptions();
    SetExTenStores(now);
    SetMoves(now + 1000, 0, setExTen, noOptions.(expire := Some([49, 48])), now, map[]);
  }

  lemma DifferentClock(a: int, b: int)
    requires 0 <= a <= LLONG_MAX && 0 <= b <= LLONG_MAX && a != b
    ensures Wrap64(a) != Wrap64(b)
  {
    SameClock(a, b, 0);
  }

  lemma Ten()
    ensures LongLong([49, 48]) == Some(10) && Print(10) == [49, 48]
  {
    assert PrintNat(10) == PrintNat(1) + [48];
    PrintedLongLong(10);
  }

  // ---------------------------------------------------------------- what a deadline is

  /** The deadline, in milliseconds, that a command means. */
  function Meant(kind: Kind, given: int, now: int): int {
    match kind
    case Expire => now + 1000 * given
    case PExpire => now + given
    case ExpireAt => 1000 * given
    case SetEx => now + 1000 * given
    case PSetEx => now + given
    case Other => given
  }

  /** What is written for a command names the deadline it means, if that fits 64 bits. */
  lemma WrittenDeadline(kind: Kind, arg: seq<Byte>, given: int, now: int)
    requires kind != Other && LongLong(arg) == Some(given) && LLONG_MIN <= Meant(kind, given, now) <= LLONG_MAX
    ensures When(kind, arg, now) == Meant(kind, given, now)
  {
    WrapTwice(Meant(kind, given, now), 0);
  }

  /** EXPIRE k 10, with the clock at 1000000 ms, is written as PEXPIREAT k 1010000. */
  lemma ExpireTen(k: seq<Byte>)
    requires Short(k)
    ensures Translate(Command(Expire, [EXPIRE, k, [49, 48]]), 1_000_000) == [[PEXPIREAT, k, Print(1_010_000)]]
  {
    var c := Command(Expire, [EXPIRE, k, [49, 48]]);
    assert Short(EXPIRE) && Short(k) && Short([49, 48]);
    assert WellFormed(c);
    Ten();
    WrittenDeadline(Expire, [49, 48], 10, 1_000_000);
  }

  /** A client's EXPIRE, PEXPIRE or EXPIREAT with a deadline to come gives a key that deadline. */
  lemma ExpireMeans(db: nat, c: Command, given: int, now: int, d: Keyspace)
    requires |c.argv| == 3 && (c.kind == Expire || c.kind == PExpire || c.kind == ExpireAt)
    requires LongLong(c.argv[2]) == Some(given) && now < Meant(c.kind, given, now) <= LLONG_MAX && now >= 0
    requires Name(db, c.argv[1]) in d && !Gone(false, d, Name(db, c.argv[1]), now)
    ensures Execute(false, db, c, now, d)
      == Effect(Expiring(d, Name(db, c.argv[1]), Meant(c.kind, given, now)), [c])
  {
    WrapTwice(given * 1000, now);
    WrapTwice(given * 1000, 0);
    WrapTwice(Meant(c.kind, given, now), 0);
  }

  /** A client's SETEX or PSETEX stores the value with that deadline. */
  lemma SetExMeans(db: nat, c: Command, given: int, now: int, d: Keyspace)
    requires |c.argv| == 4 && (c.kind == SetEx || c.kind == PSetEx)
    requires LongLong(c.argv[2]) == Some(given) && 0 < given && Meant(c.kind, given, now) <= LLONG_MAX && now >= 0
    ensures
      var n := Name(db, c.argv[1]);
      Execute(false, db, c, now, d).data
        == LookedUp(false, d, n, now)[n := Item(c.argv[3], Some(Meant(c.kind, given, now)))]
  {
    WrapTwice(given * 1000, now);
    WrapTwice(Meant(c.kind, given, now), 0);
    assert LLONG_MIN <= given * 1000 || c.kind == PSetEx;
    WrapTwice(given * 1000, 0);
  }

  /** The code reads the clock again when it writes a relative deadline: it then moves by as much. */
  lemma ClockDrift(kind: Kind, arg: seq<Byte>, given: int, now: int, later: int)
    requires kind == Expire || kind == PExpire || kind == SetEx || kind == PSetEx
    requires LongLong(arg) == Some(given) && LLONG_MIN <= Meant(kind, given, now) <= LLONG_MAX
    requires LLONG_MIN <= Meant(kind, given, later) <= LLONG_MAX
    ensures When(kind, arg, later) == When(kind, arg, now) + (later - now)
  {
    WrittenDeadline(kind, arg, given, now);
    WrittenDeadline(kind, arg, given, later);
  }
}
