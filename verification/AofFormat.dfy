/** The append only file as bytes: `catAppendOnlyGenericCommand` prints, the loop of
    `loadAppendOnlyFile` parses. */
module AofFormat {
  import opened Bytes
  import opened CTypes
  import opened Decimal
  import opened Multibulk
  import opened Sequences
  import Rio

  const LINE_BUFFER := 128 // char buf[128] in the loader

  // ---------------------------------------------------------------- libc

  /** Bytes fgets takes from the front of `s`: up to and including LF, at most one less than
      the buffer. */
  function FgetsLength(s: seq<Byte>, room: nat): (n: nat)
    ensures n <= |s| && n <= room
  {
    if s == [] || room == 0 then 0
    else if s[0] == LF then 1
    else 1 + FgetsLength(s[1..], room - 1)
  }

  // ---------------------------------------------------------------- printing

  /** catAppendOnlyGenericCommand. */
  method CatCommand(dst: seq<Byte>, argv: Request) returns (r: seq<Byte>)
    ensures r == dst + EncodeRequest(argv)
  {
    var n := LongLongToString(|argv|);
    r := dst + ([STAR] + n + CRLF);
    ghost var head := r;
    var j := 0;
    assert argv[0..] == argv;
    while j < |argv|
      invariant 0 <= j <= |argv|
      invariant head + EncodeArgs(argv) == r + EncodeArgs(argv[j..])
    {
      var len := LongLongToString(|argv[j]|);
      ghost var before := r;
      r := r + ([DOLLAR] + len + CRLF);
      r := r + argv[j];
      r := r + CRLF;
      ArgPrinted(before, argv, j);
      j := j + 1;
    }
    assert argv[j..] == [] && head + EncodeArgs(argv) == r;
    Associates(dst, Header(STAR, |argv|), EncodeArgs(argv));
  }

  lemma ArgPrinted(before: seq<Byte>, argv: Request, j: nat)
    requires j < |argv|
    ensures before + EncodeArgs(argv[j..])
      == before + Header(DOLLAR, |argv[j]|) + argv[j] + CRLF + EncodeArgs(argv[j + 1..])
  {
    assert argv[j..][0] == argv[j] && argv[j..][1..] == argv[j + 1..];
    var h, a, rest := Header(DOLLAR, |argv[j]|), argv[j], EncodeArgs(argv[j + 1..]);
    assert EncodeArgs(argv[j..]) == h + a + CRLF + rest;
    assert before + (h + a + CRLF + rest) == before + h + a + CRLF + rest;
  }

  // ---------------------------------------------------------------- parsing

  datatype Parsed<T> = Ok(value: T, rest: seq<Byte>) | Malformed

  /** A header line: its mark and number, and the input after it. */
  function ParseHeader(s: seq<Byte>, mark: Byte): Parsed<int> {
    var n := FgetsLength(s, LINE_BUFFER - 1);
    if n == 0 || s[0] != mark then Malformed else Ok(Strtol(s[1..n]), s[n..])
  }

  /** One argument: a length line, that many bytes, and two more that are discarded. The length is
      taken as unsigned. */
  function ParseArg(s: seq<Byte>): (p: Parsed<seq<Byte>>)
    ensures p.Ok? ==> |p.rest| < |s|
  {
    match ParseHeader(s, DOLLAR)
    case Malformed => Malformed
    case Ok(number, rest) =>
      var len := Unsigned64(number);
      if |rest| < len + 2 then Malformed else Ok(rest[..len], rest[len + 2..])
  }

  function ParseArgs(s: seq<Byte>, argc: nat): (p: Parsed<Request>)
    ensures p.Ok? ==> |p.rest| <= |s|
  {
    if argc == 0 then Ok([], s)
    else
      match ParseArg(s)
      case Malformed => Malformed
      case Ok(a, rest) =>
        match ParseArgs(rest, argc - 1)
        case Malformed => Malformed
        case Ok(args, rest') => Ok([a] + args, rest')
  }

  function ParseRequest(s: seq<Byte>): (p: Parsed<Request>)
    ensures p.Ok? ==> |p.rest| < |s|
  {
    match ParseHeader(s, STAR)
    case Malformed => Malformed
    case Ok(number, rest) =>
      var argc := Int32(number); // atoi
      if argc < 1 then Malformed else ParseArgs(rest, argc)
  }

  /** The whole file: None when the loader would give up. */
  function ParseFile(s: seq<Byte>): Option<seq<Request>>
    decreases |s|
  {
    if s == [] then Some([])
    else
      match ParseRequest(s)
      case Malformed => None
      case Ok(r, rest) =>
        match ParseFile(rest)
        case None => None
        case Some(rs) => Some([r] + rs)
  }

  // ---------------------------------------------------------------- the parser undoes the printer

  /** What the file format can hold: at least one argument, and lengths that fit their types. */
  ghost predicate Storable(r: Request) {
    0 < |r| < 0x8000_0000 && AllShort(r)
  }

  ghost predicate Short(a: seq<Byte>) { |a| <= LLONG_MAX }

  ghost predicate AllShort(r: Request) {
    forall i {:trigger Short(r[i])} :: 0 <= i < |r| ==> Short(r[i])
  }

  ghost predicate AllStorable(rs: seq<Request>) {
    forall i {:trigger Storable(rs[i])} :: 0 <= i < |rs| ==> Storable(rs[i])
  }

  lemma {:induction false} FgetsLine(line: seq<Byte>, rest: seq<Byte>, room: nat)
    requires |line| < room && forall i :: 0 <= i < |line| ==> line[i] != LF
    ensures FgetsLength(line + [LF] + rest, room) == |line| + 1
  {
    var s := line + [LF] + rest;
    if line != [] {
      assert s[1..] == line[1..] + [LF] + rest;
      FgetsLine(line[1..], rest, room - 1);
    }
  }

  lemma StrtolPrinted(n: nat, t: seq<Byte>)
    requires |t| > 0 && !IsDigit(t[0]) && n <= LLONG_MAX
    ensures Strtol(PrintNat(n) + t) == n
  {
    PrintNatIsCanonical(n);
    assert (PrintNat(n) + t)[0] == PrintNat(n)[0];
    LeadingDigitsOf(PrintNat(n), t, 0);
  }

  lemma HeaderParsed(mark: Byte, n: nat, rest: seq<Byte>)
    requires n <= LLONG_MAX && mark != LF
    ensures ParseHeader(Header(mark, n) + rest, mark) == Ok(n, rest)
  {
    var line := [mark] + PrintNat(n) + [CR];
    var s := Header(mark, n) + rest;
    PrintNatIsCanonical(n);
    assert Pow10(10) == 10_000_000_000 && Pow10(20) == 10_000_000_000 * 10_000_000_000;
    PrintNatLength(n, 20);
    assert s == line + [LF] + rest;
    assert forall i :: 1 <= i < |line| - 1 ==> line[i] == PrintNat(n)[i - 1];
    FgetsLine(line, rest, LINE_BUFFER - 1);
    assert s[1..|line| + 1] == PrintNat(n) + CRLF;
    StrtolPrinted(n, CRLF);
  }

  lemma ArgParsed(a: seq<Byte>, rest: seq<Byte>)
    requires Short(a)
    ensures ParseArg(EncodeArg(a) + rest) == Ok(a, rest)
  {
    var tail := a + CRLF + rest;
    assert EncodeArg(a) + rest == Header(DOLLAR, |a|) + tail;
    HeaderParsed(DOLLAR, |a|, tail);
    assert tail[..|a|] == a && tail[|a| + 2..] == rest;
  }

  lemma {:induction false} ArgsParsed(args: Request, rest: seq<Byte>)
    requires AllShort(args)
    ensures ParseArgs(EncodeArgs(args) + rest, |args|) == Ok(args, rest)
  {
    if args == [] {
      assert EncodeArgs(args) + rest == rest;
    } else {
      var tail := EncodeArgs(args[1..]) + rest;
      Associates(EncodeArg(args[0]), EncodeArgs(args[1..]), rest);
      ArgParsed(args[0], tail);
      ArgsParsed(args[1..], rest);
      ArgsParsedStep(EncodeArgs(args) + rest, args, tail, rest);
    }
  }

  lemma ArgsParsedStep(s: seq<Byte>, args: Request, tail: seq<Byte>, rest: seq<Byte>)
    requires args != [] && ParseArg(s) == Ok(args[0], tail) && ParseArgs(tail, |args| - 1) == Ok(args[1..], rest)
    ensures ParseArgs(s, |args|) == Ok(args, rest)
  {
    assert [args[0]] + args[1..] == args;
  }

  lemma RequestParsed(r: Request, rest: seq<Byte>)
    requires Storable(r)
    ensures ParseRequest(EncodeRequest(r) + rest) == Ok(r, rest)
  {
    Associates(Header(STAR, |r|), EncodeArgs(r), rest);
    HeaderParsed(STAR, |r|, EncodeArgs(r) + rest);
    ArgsParsed(r, rest);
  }

  lemma FileParsedStep(s: seq<Byte>, rs: seq<Request>)
    requires rs != [] && ParseRequest(s) == Ok(rs[0], Stream(rs[1..])) && ParseFile(Stream(rs[1..])) == Some(rs[1..])
    ensures ParseFile(s) == Some(rs)
  {
    assert [rs[0]] + rs[1..] == rs;
  }

  /** Loading a file of printed commands gives back exactly those commands. */
  lemma {:induction false} FileParsed(rs: seq<Request>)
    requires AllStorable(rs)
    ensures ParseFile(Stream(rs)) == Some(rs)
  {
    if rs != [] {
      RequestParsed(rs[0], Stream(rs[1..]));
      FileParsed(rs[1..]);
      FileParsedStep(Stream(rs), rs);
    }
  }

  // ---------------------------------------------------------------- a file cut short

  /** The first n bytes, of more. */
  ghost predicate Cut(p: seq<Byte>, whole: seq<Byte>) {
    |p| < |whole| && p == whole[..|p|]
  }

  lemma {:induction false} FgetsAll(s: seq<Byte>, room: nat)
    requires |s| <= room && forall i :: 0 <= i < |s| - 1 ==> s[i] != LF
    ensures FgetsLength(s, room) == |s|
  {
    if s != [] { FgetsAll(s[1..], room - 1); }
  }

  /** Of a header cut short nothing is left to read. */
  lemma HeaderCut(p: seq<Byte>, mark: Byte, n: nat)
    requires n <= LLONG_MAX && mark != LF && Cut(p, Header(mark, n))
    ensures ParseHeader(p, mark).Ok? ==> ParseHeader(p, mark).rest == []
  {
    PrintNatIsCanonical(n);
    assert Pow10(10) == 10_000_000_000 && Pow10(20) == 10_000_000_000 * 10_000_000_000;
    PrintNatLength(n, 20);
    var h := Header(mark, n);
    forall i | 0 <= i < |p| ensures p[i] != LF {
      assert p[i] == h[i];
      if 0 < i < |h| - 2 { assert h[i] == PrintNat(n)[i - 1]; }
    }
    FgetsAll(p, LINE_BUFFER - 1);
  }

  lemma ArgCut(p: seq<Byte>, a: seq<Byte>)
    requires Short(a) && Cut(p, EncodeArg(a))
    ensures ParseArg(p) == Malformed
  {
    var h := Header(DOLLAR, |a|);
    if |p| < |h| {
      assert p == h[..|p|];
      HeaderCut(p, DOLLAR, |a|);
    } else {
      assert p == h + p[|h|..];
      HeaderParsed(DOLLAR, |a|, p[|h|..]);
    }
  }

  lemma {:induction false} ArgsCut(p: seq<Byte>, args: Request)
    requires AllShort(args) && Cut(p, EncodeArgs(args))
    ensures args != [] && ParseArgs(p, |args|) == Malformed
  {
    assert Short(args[0]);
    var first := EncodeArg(args[0]);
    if |p| < |first| {
      assert p == first[..|p|];
      ArgCut(p, args[0]);
    } else {
      var tail := p[|first|..];
      assert p == first + tail && tail == EncodeArgs(args[1..])[..|tail|];
      ArgParsed(args[0], tail);
      ArgsCut(tail, args[1..]);
    }
  }

  lemma RequestCut(p: seq<Byte>, r: Request)
    requires Storable(r) && Cut(p, EncodeRequest(r))
    ensures ParseRequest(p) == Malformed
  {
    var h := Header(STAR, |r|);
    if |p| < |h| {
      assert p == h[..|p|];
      HeaderCut(p, STAR, |r|);
      assert ParseArg([]) == Malformed;
    } else {
      var tail := p[|h|..];
      assert p == h + tail && tail == EncodeArgs(r)[..|tail|];
      HeaderParsed(STAR, |r|, tail);
      ArgsCut(tail, r);
    }
  }

  /** A file cut short inside a command is refused. */
  lemma {:induction false} TruncationRefused(rs: seq<Request>, r: Request, p: seq<Byte>)
    requires AllStorable(rs) && Storable(r) && p != [] && Cut(p, EncodeRequest(r))
    ensures ParseFile(Stream(rs) + p) == None
  {
    if rs == [] {
      assert Stream(rs) + p == p;
      RequestCut(p, r);
    } else {
      assert Storable(rs[0]);
      Associates(EncodeRequest(rs[0]), Stream(rs[1..]), p);
      RequestParsed(rs[0], Stream(rs[1..]) + p);
      TruncationRefused(rs[1..], r, p);
    }
  }

  // ---------------------------------------------------------------- the loader's loop

  /** loadAppendOnlyFile without the execution of the commands. */
  method LoadFile(file: seq<Byte>) returns (r: Option<seq<Request>>)
    ensures r == ParseFile(file)
  {
    var rest, loaded := file, [];
    ghost var whole := ParseFile(file);
    while rest != []
      invariant whole == Prepended(loaded, ParseFile(rest))
      decreases |rest|
    {
      var header := ParseHeader(rest, STAR);
      if header.Malformed? { return None; }
      var argc := Int32(header.value);
      if argc < 1 { return None; }
      var args := LoadArgs(header.rest, argc);
      if args.Malformed? { return None; }
      assert ParseRequest(rest) == args;
      rest := args.rest;
      if ParseFile(rest).Some? { Associates(loaded, [args.value], ParseFile(rest).value); }
      loaded := loaded + [args.value];
    }
    return Some(loaded);
  }

  ghost function Prepended(done: seq<Request>, r: Option<seq<Request>>): (p: Option<seq<Request>>)
    ensures done == [] ==> p == r
    ensures r == Some([]) ==> p == Some(done)
  {
    if r == None then None
    else assert [] + r.value == r.value && done + [] == done; Some(done + r.value)
  }

  /** The arguments still to be read at `rest` complete `argv` to `whole`. */
  ghost predicate Completes(whole: Parsed<Request>, argv: Request, rest: seq<Byte>, left: nat) {
    match ParseArgs(rest, left)
    case Malformed => whole == Malformed
    case Ok(args, end) => whole == Ok(argv + args, end)
  }

  lemma CompletesStart(s: seq<Byte>, argc: nat)
    ensures Completes(ParseArgs(s, argc), [], s, argc)
  {
    var p := ParseArgs(s, argc);
    if p.Ok? { assert [] + p.value == p.value; }
  }

  lemma CompletesStep(whole: Parsed<Request>, argv: Request, rest: seq<Byte>, left: nat)
    requires Completes(whole, argv, rest, left) && left > 0
    ensures match ParseArg(rest)
      case Malformed => whole == Malformed
      case Ok(a, rest') => Completes(whole, argv + [a], rest', left - 1)
  {
    var a := ParseArg(rest);
    if a.Ok? {
      var q := ParseArgs(a.rest, left - 1);
      if q.Ok? { assert argv + [a.value] + q.value == argv + ([a.value] + q.value); }
    }
  }

  lemma CompletesEnd(whole: Parsed<Request>, argv: Request, rest: seq<Byte>)
    requires Completes(whole, argv, rest, 0)
    ensures whole == Ok(argv, rest)
  {
    assert argv + [] == argv;
  }

  method LoadArgs(s: seq<Byte>, argc: nat) returns (p: Parsed<Request>)
    ensures p == ParseArgs(s, argc)
  {
    var rest, argv, left := s, [], argc;
    ghost var whole := ParseArgs(s, argc);
    CompletesStart(s, argc);
    while left > 0
      invariant Completes(whole, argv, rest, left)
    {
      CompletesStep(whole, argv, rest, left);
      var a := ParseArg(rest);
      if a.Malformed? { return Malformed; }
      argv, rest, left := argv + [a.value], a.rest, left - 1;
    }
    CompletesEnd(whole, argv, rest);
    return Ok(argv, rest);
  }

  // ---------------------------------------------------------------- rewriteListObject

  const ITEMS_PER_CMD := 64
  const RPUSH: seq<Byte> := [82, 80, 85, 83, 72]

  function CommandItems(left: nat): nat {
    if left > ITEMS_PER_CMD then ITEMS_PER_CMD else left
  }

  /** The commands that rebuild a list, at most ITEMS_PER_CMD items each. */
  function PushCommands(key: seq<Byte>, items: seq<seq<Byte>>): seq<Request> {
    if items == [] then []
    else
      var n := CommandItems(|items|);
      [[RPUSH, key] + items[..n]] + PushCommands(key, items[n..])
  }

  /** What RPUSH does to a list value. */
  function PushAll(list: seq<seq<Byte>>, commands: seq<Request>): seq<seq<Byte>>
    requires forall i :: 0 <= i < |commands| ==> |commands[i]| >= 2
    decreases |commands|
  {
    if commands == [] then list else PushAll(list + commands[0][2..], commands[1..])
  }

  /** Every command is small and declares what it holds; together they rebuild the list. */
  lemma {:induction false} PushCommandsRebuild(key: seq<Byte>, items: seq<seq<Byte>>, list: seq<seq<Byte>>)
    ensures var cs := PushCommands(key, items);
      && (forall i :: 0 <= i < |cs| ==> 3 <= |cs[i]| <= 2 + ITEMS_PER_CMD && cs[i][0] == RPUSH && cs[i][1] == key)
      && PushAll(list, cs) == list + items
    decreases |items|
  {
    if items == [] {
      assert list + items == list;
    } else {
      var n := CommandItems(|items|);
      var c := [RPUSH, key] + items[..n];
      PushCommandsRebuild(key, items[n..], list + items[..n]);
      assert c[2..] == items[..n];
      assert list + items[..n] + items[n..] == list + items;
      assert PushCommands(key, items)[1..] == PushCommands(key, items[n..]);
    }
  }

  /** What is still to be written when items from `j` on are left and the open command ends
      at item `end`. */
  ghost function Pending(key: seq<Byte>, list: seq<seq<Byte>>, j: nat, end: nat): seq<Byte>
    requires j <= end <= |list|
  {
    EncodeArgs(list[j..end]) + Stream(PushCommands(key, list[end..]))
  }

  /** `out` and what is still to be written make up `whole`. */
  ghost predicate Completed(whole: seq<Byte>, out: seq<Byte>, key: seq<Byte>, list: seq<seq<Byte>>, j: nat, end: nat) {
    j <= end <= |list| && whole == out + Pending(key, list, j, end)
  }

  function CommandHead(key: seq<Byte>, n: nat): seq<Byte> {
    Header(STAR, 2 + n) + EncodeArg(RPUSH) + EncodeArg(key)
  }

  // rio.c prints the counts from an int, so that a string of 2^31 bytes or more would be announced
  // with another length. Nothing below promises anything of what such strings give.

  /** rioWriteBulkCount. */
  method WriteBulkCount<C>(r: Rio.Stream<Byte, C>, prefix: Byte, count: int) returns (ok: bool)
    requires r.Valid()
    modifies r
    ensures r.Valid()
    ensures ok && count >= 0 ==> r.ptr == old(r.ptr) + Header(prefix, count)
    ensures r.lost == (old(r.lost) || !ok)
    ensures !ok ==> r.file && exists f :: f in old(r.faults) && f.Fails?
    ensures forall f :: f in r.faults ==> f in old(r.faults)
  {
    var digits := LongLongToString(count);
    ok := r.Write([prefix] + digits + CRLF);
  }

  /** rioWriteBulkString. */
  method WriteBulkString<C>(r: Rio.Stream<Byte, C>, s: seq<Byte>) returns (ok: bool)
    requires r.Valid()
    modifies r
    ensures r.Valid()
    ensures ok && |s| <= INT_MAX ==> r.ptr == old(r.ptr) + EncodeArg(s)
    ensures r.lost == (old(r.lost) || !ok)
    ensures !ok ==> r.file && exists f :: f in old(r.faults) && f.Fails?
    ensures forall f :: f in r.faults ==> f in old(r.faults)
  {
    ok := WriteBulkCount(r, DOLLAR, Int32(|s|));
    if !ok { return; }
    if |s| > 0 {
      ok := r.Write(s);
      if !ok { return; }
    }
    ok := r.Write(CRLF);
    AppendFour(old(r.ptr), Header(DOLLAR, |s|), s, CRLF);
    if s == [] { assert old(r.ptr) + Header(DOLLAR, 0) + s == old(r.ptr) + Header(DOLLAR, 0); }
  }

  /** The start of a command: the count, the name and the key. */
  method WriteHead<C>(r: Rio.Stream<Byte, C>, key: seq<Byte>, n: nat) returns (ok: bool)
    requires r.Valid() && n <= ITEMS_PER_CMD
    modifies r
    ensures r.Valid()
    ensures ok && |key| <= INT_MAX ==> r.ptr == old(r.ptr) + CommandHead(key, n)
    ensures r.lost == (old(r.lost) || !ok)
    ensures !ok ==> r.file && exists f :: f in old(r.faults) && f.Fails?
    ensures forall f :: f in r.faults ==> f in old(r.faults)
  {
    ok := WriteBulkCount(r, STAR, 2 + n);
    if !ok { return; }
    ok := WriteBulkString(r, RPUSH);
    if !ok { return; }
    ok := WriteBulkString(r, key);
    AppendFour(old(r.ptr), Header(STAR, 2 + n), EncodeArg(RPUSH), EncodeArg(key));
  }

  ghost predicate AllFit(key: seq<Byte>, list: seq<seq<Byte>>) {
    |key| <= INT_MAX && forall i :: 0 <= i < |list| ==> |list[i]| <= INT_MAX
  }

  /** rewriteListObject: one pass over the elements, opening a command every 64. It stops at the
      first write that fails. */
  method RewriteList<C>(r: Rio.Stream<Byte, C>, key: seq<Byte>, list: seq<seq<Byte>>) returns (ok: bool)
    requires r.Valid()
    modifies r
    ensures r.Valid()
    ensures ok && AllFit(key, list) ==> r.ptr == old(r.ptr) + Stream(PushCommands(key, list))
    ensures r.lost == (old(r.lost) || !ok)
    ensures !ok ==> r.file && exists f :: f in old(r.faults) && f.Fails?
  {
    var count, items, j := 0, |list|, 0;
    ghost var end := 0; // where the open command ends
    ghost var whole := Stream(PushCommands(key, list));
    ghost var p0, out := r.ptr, [];
    PendingStart(key, list);
    while j < |list|
      invariant 0 <= j <= end <= |list| && items == |list| - j && 0 <= count < ITEMS_PER_CMD
      invariant count == 0 ==> end == j
      invariant count > 0 ==> end - j <= ITEMS_PER_CMD - count && (end == |list| || end - j == ITEMS_PER_CMD - count)
      invariant Completed(whole, out, key, list, j, end)
      invariant AllFit(key, list) ==> r.ptr == p0 + out
      invariant r.Valid()
      invariant r.lost == old(r.lost)
      invariant forall f :: f in r.faults ==> f in old(r.faults)
    {
      if count == 0 {
        var n := CommandItems(items);
        OpenCommand(whole, out, key, list, j, n);
        ok := WriteHead(r, key, n);
        if !ok { return; }
        Associates(p0, out, CommandHead(key, n));
        out, end := out + CommandHead(key, n), j + n;
      }
      ItemPrinted(whole, out, key, list, j, end);
      ok := WriteBulkString(r, list[j]);
      if !ok { return; }
      Associates(p0, out, EncodeArg(list[j]));
      out := out + EncodeArg(list[j]);
      count := count + 1;
      if count == ITEMS_PER_CMD { count := 0; }
      j, items := j + 1, items - 1;
    }
    PendingEnd(whole, out, key, list);
    return true;
  }

  lemma PendingStart(key: seq<Byte>, list: seq<seq<Byte>>)
    ensures Completed(Stream(PushCommands(key, list)), [], key, list, 0, 0)
  {
    assert list[0..0] == [] && list[0..] == list;
  }

  lemma PendingEnd(whole: seq<Byte>, out: seq<Byte>, key: seq<Byte>, list: seq<seq<Byte>>)
    requires Completed(whole, out, key, list, |list|, |list|)
    ensures out == whole
  {
    assert list[|list|..|list|] == [] && list[|list|..] == [];
  }

  /** The header of a command declares exactly the items that will follow it. */
  lemma OpenCommand(whole: seq<Byte>, out: seq<Byte>, key: seq<Byte>, list: seq<seq<Byte>>, j: nat, n: nat)
    requires j < |list| && n == CommandItems(|list| - j) && Completed(whole, out, key, list, j, j)
    ensures Completed(whole, out + CommandHead(key, n), key, list, j, j + n)
  {
    var items := list[j..];
    assert items[..n] == list[j..j + n] && items[n..] == list[j + n..] && list[j..j] == [];
    var c := [RPUSH, key] + items[..n];
    var cs := PushCommands(key, items);
    assert cs[0] == c && cs[1..] == PushCommands(key, items[n..]);
    EncodeCommand(key, items[..n]);
    Associates(CommandHead(key, n), EncodeArgs(items[..n]), Stream(cs[1..]));
    assert Pending(key, list, j, j) == Stream(cs);
    Associates(out, CommandHead(key, n), Pending(key, list, j, j + n));
  }

  lemma EncodeCommand(key: seq<Byte>, items: seq<seq<Byte>>)
    ensures EncodeRequest([RPUSH, key] + items) == CommandHead(key, |items|) + EncodeArgs(items)
  {
    var name := RPUSH;
    var keyed := [key] + items;
    assert [RPUSH, key] + items == [name] + keyed;
    EncodeArgsFront(name, keyed);
    EncodeArgsFront(key, items);
    AppendFour(Header(STAR, 2 + |items|), EncodeArg(name), EncodeArg(key), EncodeArgs(items));
  }

  lemma EncodeArgsFront(a: seq<Byte>, args: Request)
    ensures EncodeArgs([a] + args) == EncodeArg(a) + EncodeArgs(args)
  {
    assert ([a] + args)[0] == a && ([a] + args)[1..] == args;
  }

  lemma AppendFour(a: seq<Byte>, b: seq<Byte>, c: seq<Byte>, d: seq<Byte>)
    ensures a + (b + (c + d)) == a + b + c + d
  {
  }

  lemma ItemPrinted(whole: seq<Byte>, out: seq<Byte>, key: seq<Byte>, list: seq<seq<Byte>>, j: nat, end: nat)
    requires j < end && Completed(whole, out, key, list, j, end)
    ensures Completed(whole, out + EncodeArg(list[j]), key, list, j + 1, end)
  {
    assert list[j..end][0] == list[j] && list[j..end][1..] == list[j + 1..end];
    Associates(EncodeArg(list[j]), EncodeArgs(list[j + 1..end]), Stream(PushCommands(key, list[end..])));
    Associates(out, EncodeArg(list[j]), Pending(key, list, j + 1, end));
  }
}
