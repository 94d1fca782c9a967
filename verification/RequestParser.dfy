/**
  The resumable request parser of networking.c: `processMultibulkBuffer`, the loop of
  `processInputBuffer`, and the read sizes of `readQueryFromClient`.

  The methods accept any bytes. What they promise about a well-formed stream is stated with
  two ghost arguments: the requests still owed by the client and the bytes not yet received.
*/
module RequestParser {
  import opened Bytes
  import opened Decimal
  import opened Multibulk
  import opened Sequences

  const REDIS_INLINE_MAX_SIZE := 1024 * 64
  const REDIS_IOBUF_LEN := 1024 * 16
  const REDIS_MBULK_BIG_ARG := 1024 * 32

  datatype RequestType = Unknown | Inline | Multi

  datatype ProtocolError =
    | TooBigInline
    | TooBigCount
    | InvalidCount
    | TooBigBulkCount
    | ExpectedDollar
    | InvalidBulkLength

  /** Result of looking for a length line at the start of a buffer. */
  datatype LengthScan = NoLine | HalfLine | NoDollar | BadNumber | Length(n: nat, size: nat)

  /** What each result says about the buffer. */
  ghost predicate ScanResult(buf: seq<Byte>, line: LengthScan) {
    && (line.NoLine? <==> FindCR(buf) == -1)
    && (line.HalfLine? <==> FindCR(buf) == |buf| - 1 && |buf| > 0)
    && (line.Length? ==>
      && buf[0] == DOLLAR && line.size == FindCR(buf) + 2 <= |buf| && line.size > 2
      && line.n <= MAX_BULK && buf[1..FindCR(buf)] == Print(line.n))
    && (line.NoDollar? ==> |buf| > 0 && buf[0] != DOLLAR)
    && (line.BadNumber? ==>
      && |buf| > 0 && buf[0] == DOLLAR && 0 < FindCR(buf)
      && forall n: nat :: n <= MAX_BULK ==> buf[1..FindCR(buf)] != Print(n))
  }

  /** Result of reading one header line. */
  datatype Line = Incomplete | Bad | Done

  /** A header line is not complete, and what has arrived of it is short. */
  ghost predicate NoLineYet(buf: seq<Byte>) {
    |buf| <= 12 && (FindCR(buf) == -1 || FindCR(buf) == |buf| - 1)
  }

  /** A whole count line that is no canonical number up to 1024 * 1024. */
  ghost predicate BadCount(buf: seq<Byte>) {
    && 0 < FindCR(buf) <= |buf| - 2
    && forall v :: IsLongLong(v) && v <= MAX_ARGS ==> buf[1..FindCR(buf)] != Print(v)
  }

  /** A whole length line without '$', or whose length is no canonical number from 0 to 512 MB. */
  ghost predicate BadLength(buf: seq<Byte>) {
    && 0 <= FindCR(buf) <= |buf| - 2
    && (buf[0] != DOLLAR || forall n: nat :: n <= MAX_BULK ==> buf[1..FindCR(buf)] != Print(n))
  }

  lemma CountAccepted(s: seq<Byte>, ll: Option<int>)
    requires ll.Some? ==> IsLongLong(ll.value) && s == Print(ll.value)
    requires ll == None ==> forall v :: IsLongLong(v) ==> s != Print(v)
    ensures ll.Some? && ll.value <= MAX_ARGS <==> exists v :: IsLongLong(v) && v <= MAX_ARGS && s == Print(v)
  {
    forall v | IsLongLong(v) && v <= MAX_ARGS && s == Print(v) ensures ll.Some? && ll.value <= MAX_ARGS {
      PrintInjective(v, ll.value);
    }
  }

  class Client {
    var querybuf: seq<Byte>
    var reqtype: RequestType
    var multibulklen: nat
    var bulklen: int
    var argv: Request
    var closeAfterReply: bool
    var error: Option<ProtocolError>
    var executed: seq<Request>

    constructor ()
      ensures Valid()
      ensures Untroubled() && argv == [] && executed == []
      ensures querybuf == [] && multibulklen == 0 && reqtype == Unknown
    {
      querybuf, reqtype, multibulklen, bulklen, argv := [], Unknown, 0, -1, [];
      closeAfterReply, error, executed := false, None, [];
    }

    ghost predicate Valid()
      reads this
    {
      && bulklen >= -1
      && (multibulklen == 0 ==> bulklen == -1)
      && (multibulklen > 0 ==> reqtype == Multi)
    }

    /** The fields between two calls, unless an error has been replied. */
    ghost predicate Resumable()
      reads this
    {
      && Valid()
      && (!closeAfterReply && multibulklen == 0 ==>
        argv == [] && (reqtype == Multi ==> |querybuf| > 0 && querybuf[0] == STAR))
    }

    ghost predicate Untroubled()
      reads `closeAfterReply, `error
    {
      !closeAfterReply && error == None
    }

    /** The client is owed exactly `rest`, of which `unread` has not been received. */
    ghost predicate Owes(rest: seq<Request>, unread: seq<Byte>)
      reads this
    {
      && Untroubled() && AllAcceptable(rest) && reqtype != Inline
      && Expecting(rest, multibulklen, bulklen, argv, querybuf + unread)
    }

    /** The buffer is within the inline limit, or holds at most one big argument and its CRLF. */
    ghost predicate Fits()
      reads this
    {
      || |querybuf| <= REDIS_INLINE_MAX_SIZE
      || (multibulklen > 0 && bulklen >= REDIS_MBULK_BIG_ARG && |querybuf| <= bulklen + 2)
    }

    /** The parser stopped for want of input: less than one header or one argument is left. */
    ghost predicate Starved()
      reads this
    {
      if multibulklen > 0 && bulklen >= 0 then |querybuf| < bulklen + 2 else NoLineYet(querybuf)
    }

    method SetProtocolError(e: ProtocolError, pos: nat)
      requires pos <= |querybuf|
      modifies `querybuf, `closeAfterReply, `error
      ensures querybuf == old(querybuf)[pos..] && closeAfterReply && error == Some(e)
    {
      error := Some(e);
      closeAfterReply := true;
      querybuf := querybuf[pos..];
    }

    /** The line "*<count>". */
    method ReadCount(ghost rest: seq<Request>, ghost unread: seq<Byte>) returns (st: Line, pos: nat)
      requires Valid() && multibulklen == 0 && argv == [] && reqtype == Multi
      requires |querybuf| > 0 && querybuf[0] == STAR
      modifies `querybuf, `multibulklen, `closeAfterReply, `error
      ensures Valid()
      ensures st.Done? ==>
        0 < pos <= |querybuf| && querybuf == old(querybuf) && error == old(error)
        && closeAfterReply == old(closeAfterReply)
      ensures st.Incomplete? || st.Bad? ==> multibulklen == 0 && (querybuf == old(querybuf) || closeAfterReply)
      ensures st.Bad? <==> BadCount(old(querybuf))
      ensures st.Bad? ==> error == Some(InvalidCount) && closeAfterReply
      ensures old(Owes(rest, unread) && Fits()) && st.Incomplete? ==>
        Owes(rest, unread) && querybuf == old(querybuf) && NoLineYet(querybuf)
      ensures old(Owes(rest, unread) && Fits()) ==>
        && !st.Bad?
        && (st.Done? ==>
          && rest != [] && multibulklen == |rest[0]|
          && querybuf[pos..] + unread == Owed(rest[0], 0, false) + Stream(rest[1..]))
    {
      pos := 0;
      ghost var owes := Owes(rest, unread) && Fits();
      if owes { CountLine(rest, querybuf, unread); }
      var newline := FindCR(querybuf);
      if newline == -1 {
        if |querybuf| > REDIS_INLINE_MAX_SIZE {
          SetProtocolError(TooBigCount, 0);
        }
        return Incomplete, 0;
      }
      if newline > |querybuf| - 2 { return Incomplete, 0; }
      var ll := StringToLongLong(querybuf[1..newline]);
      if owes && ll.Some? { PrintInjective(ll.value, |rest[0]|); }
      CountAccepted(querybuf[1..newline], ll);
      if ll == None || ll.value > MAX_ARGS {
        SetProtocolError(InvalidCount, 0);
        return Bad, 0;
      }
      pos := newline + 2;
      if ll.value > 0 { multibulklen := ll.value; }
      return Done, pos;
    }

    /** The line "$<length>" at `pos0`; the buffer is trimmed before a big argument. */
    method ReadBulkLength(pos0: nat, ghost r: Request, ghost unread: seq<Byte>, ghost more: seq<Byte>)
      returns (st: Line, pos: nat)
      requires Valid() && multibulklen > 0 && bulklen == -1 && pos0 <= |querybuf|
      modifies `querybuf, `bulklen, `closeAfterReply, `error
      ensures pos <= |querybuf| && |querybuf| - pos <= old(|querybuf|) - pos0
      ensures st.Done? ==>
        bulklen >= 0 && |querybuf| <= old(|querybuf|) && error == old(error) && closeAfterReply == old(closeAfterReply)
      ensures !st.Done? ==> bulklen == -1
      ensures st.Bad? <==> BadLength(old(querybuf)[pos0..])
      ensures st.Bad? ==>
        closeAfterReply && error == Some(if old(querybuf)[pos0] != DOLLAR then ExpectedDollar else InvalidBulkLength)
      ensures old(OwesArgs(r, pos0, unread, more)) && |old(querybuf)| <= REDIS_INLINE_MAX_SIZE ==>
        && !st.Bad? && Untroubled()
        && (st.Incomplete? ==> querybuf == old(querybuf) && pos == pos0 && NoLineYet(querybuf[pos..]))
        && (st.Done? ==> OwesArgs(r, pos, unread, more))
    {
      pos := pos0;
      ghost var owes := OwesArgs(r, pos0, unread, more) && |querybuf| <= REDIS_INLINE_MAX_SIZE;
      var line := ScanLength(querybuf[pos..]);
      if owes { ScanOwed(r, |argv|, querybuf[pos..], unread, more, line); }
      match line
      case NoLine =>
        if |querybuf| > REDIS_INLINE_MAX_SIZE {
          SetProtocolError(TooBigBulkCount, 0);
        }
        return Incomplete, pos;
      case HalfLine =>
        return Incomplete, pos;
      case NoDollar =>
        SetProtocolError(ExpectedDollar, pos);
        return Bad, 0;
      case BadNumber =>
        SetProtocolError(InvalidBulkLength, pos);
        return Bad, 0;
      case Length(ll, size) =>
        assert querybuf[pos..][size..] == querybuf[pos + size..];
        pos := AcceptLength(pos + size, ll);
        return Done, pos;
    }

    /** Remember the length; a big argument is made to start at the front of the buffer. */
    method AcceptLength(pos0: nat, ll: nat) returns (pos: nat)
      requires pos0 <= |querybuf|
      modifies `querybuf, `bulklen
      ensures bulklen == ll && pos <= |querybuf| <= old(|querybuf|)
      ensures querybuf[pos..] == old(querybuf)[pos0..]
    {
      pos := pos0;
      if ll >= REDIS_MBULK_BIG_ARG {
        querybuf := querybuf[pos..];
        pos := 0;
      }
      bulklen := ll;
    }

    /** Find and check the length line at the start of `buf`. */
    static method ScanLength(buf: seq<Byte>) returns (line: LengthScan)
      ensures ScanResult(buf, line)
    {
      var newline := FindCR(buf);
      if newline == -1 { return NoLine; }
      if newline > |buf| - 2 { return HalfLine; }
      if buf[0] != DOLLAR { return NoDollar; }
      var ll := StringToLongLong(buf[1..newline]);
      if ll == None { return BadNumber; }
      if ll.value < 0 || ll.value > MAX_BULK {
        forall n: nat | n <= MAX_BULK ensures buf[1..newline] != Print(n) {
          if buf[1..newline] == Print(n) { PrintInjective(n, ll.value); }
        }
        return BadNumber;
      }
      return Length(ll.value, newline + 2);
    }

    /** From `pos` on, the input owes the arguments of `r` not yet in `argv`, then `more`. */
    ghost predicate OwesArgs(r: Request, pos: nat, unread: seq<Byte>, more: seq<Byte>)
      requires pos <= |querybuf|
      reads this
    {
      && Untroubled() && Acceptable(r)
      && |argv| + multibulklen == |r| && argv == r[..|argv|]
      && (bulklen == -1 || (multibulklen > 0 && bulklen == |r[|argv|]|))
      && querybuf[pos..] + unread == Owed(r, |argv|, bulklen != -1) + more
    }

    /** The argument at `pos0`, when it has arrived with its CRLF. A big argument that is
        alone in the buffer is taken over without a copy. */
    method ReadArgument(pos0: nat, ghost r: Request, ghost unread: seq<Byte>, ghost more: seq<Byte>)
      returns (got: bool, pos: nat)
      requires Valid() && multibulklen > 0 && bulklen >= 0 && pos0 <= |querybuf|
      modifies `querybuf, `argv, `bulklen, `multibulklen
      ensures Valid()
      ensures pos <= |querybuf| && got == (old(|querybuf|) - pos0 >= old(bulklen) + 2)
      ensures !got ==>
        querybuf == old(querybuf) && argv == old(argv) && bulklen == old(bulklen) && multibulklen == old(multibulklen)
        && pos == pos0
      ensures got ==> multibulklen == old(multibulklen) - 1 && bulklen == -1
      ensures got ==> |querybuf| - pos == old(|querybuf|) - pos0 - old(bulklen) - 2
      ensures got ==> argv == old(argv) + [old(querybuf)[pos0..pos0 + old(bulklen)]]
      ensures got ==> querybuf == old(querybuf) || (querybuf == [] && old(bulklen) >= REDIS_MBULK_BIG_ARG)
      ensures got && pos0 == 0 && old(bulklen) >= REDIS_MBULK_BIG_ARG && |old(querybuf)| == old(bulklen) + 2 ==>
        querybuf == []
      ensures got && old(OwesArgs(r, pos0, unread, more)) ==> OwesArgs(r, pos, unread, more)
    {
      pos := pos0;
      if |querybuf| - pos < bulklen + 2 { return false, pos; }
      ghost var owes := OwesArgs(r, pos0, unread, more);
      ghost var n, k := |argv|, bulklen;
      if owes {
        ghost var rest := EncodeArgs(r[n + 1..]) + more;
        assert querybuf[pos..] + unread == r[n] + CRLF + rest;
        ArgumentScan(querybuf[pos..], unread, r[n], rest);
        assert querybuf[pos..][..k] == querybuf[pos..pos + k];
        assert querybuf[pos..][k + 2..] == querybuf[pos + k + 2..];
        assert r[..n] + [r[n]] == r[..n + 1];
      }
      if pos == 0 && bulklen >= REDIS_MBULK_BIG_ARG && |querybuf| == bulklen + 2 {
        assert querybuf[k + 2..] == [];
        argv := argv + [querybuf[..bulklen]];
        querybuf := [];
        pos := 0;
      } else {
        argv := argv + [querybuf[pos..pos + bulklen]];
        pos := pos + bulklen + 2;
      }
      bulklen := -1;
      multibulklen := multibulklen - 1;
      return true, pos;
    }

    /** Size of the buffer inside the argument loop. */
    ghost predicate FitsAt(pos: nat)
      reads this
    {
      || |querybuf| <= REDIS_INLINE_MAX_SIZE
      || (pos == 0 && bulklen >= REDIS_MBULK_BIG_ARG && |querybuf| <= bulklen + 2)
    }

    /** The argument loop. */
    method ReadArgs(pos0: nat, ghost r: Request, ghost unread: seq<Byte>, ghost more: seq<Byte>)
      returns (bad: bool, pos: nat)
      requires Valid() && multibulklen > 0 && pos0 <= |querybuf|
      modifies `querybuf, `argv, `bulklen, `multibulklen, `closeAfterReply, `error
      ensures Valid()
      ensures pos <= |querybuf|
      ensures bad ==> multibulklen > 0 && closeAfterReply && error.Some?
      ensures |querybuf| - pos <= old(|querybuf|) - pos0 - 2 * (old(multibulklen) - multibulklen)
      ensures multibulklen <= old(multibulklen)
      ensures old(OwesArgs(r, pos0, unread, more) && FitsAt(pos0)) ==>
        && !bad && OwesArgs(r, pos, unread, more)
        && (multibulklen > 0 ==> if bulklen >= 0 then |querybuf| - pos < bulklen + 2 else NoLineYet(querybuf[pos..]))
        && (multibulklen == 0 ==> |querybuf| <= REDIS_INLINE_MAX_SIZE)
    {
      pos := pos0;
      ghost var owes := OwesArgs(r, pos0, unread, more) && FitsAt(pos0);
      while multibulklen > 0
        invariant Valid()
        invariant pos <= |querybuf| && multibulklen <= old(multibulklen)
        invariant |querybuf| - pos <= old(|querybuf|) - pos0 - 2 * (old(multibulklen) - multibulklen)
        invariant owes ==> OwesArgs(r, pos, unread, more) && FitsAt(pos)
        decreases multibulklen
      {
        if bulklen == -1 {
          var st;
          st, pos := ReadBulkLength(pos, r, unread, more);
          if st.Incomplete? { return false, pos; }
          if st.Bad? { return true, pos; }
        }
        var got;
        got, pos := ReadArgument(pos, r, unread, more);
        if !got { return false, pos; }
      }
      return false, pos;
    }

    /** processMultibulkBuffer: true when a whole request is in `argv`. */
    method ProcessMultibulkBuffer(ghost rest: seq<Request>, ghost unread: seq<Byte>) returns (ok: bool)
      requires Valid() && reqtype == Multi
      requires multibulklen == 0 ==> argv == [] && |querybuf| > 0 && querybuf[0] == STAR
      modifies `querybuf, `argv, `bulklen, `multibulklen, `closeAfterReply, `error
      ensures Valid()
      ensures ok ==> multibulklen == 0 && |querybuf| < old(|querybuf|)
      ensures old(multibulklen) == 0 && BadCount(old(querybuf)) ==>
        !ok && closeAfterReply && error == Some(InvalidCount)
      ensures !ok ==>
        closeAfterReply || multibulklen > 0
        || (old(multibulklen) == 0 && querybuf == old(querybuf) && argv == old(argv))
      ensures old(Owes(rest, unread) && Fits()) && ok ==>
        && Untroubled() && rest != [] && argv == rest[0]
        && querybuf + unread == Stream(rest[1..]) && |querybuf| <= REDIS_INLINE_MAX_SIZE
      ensures old(Owes(rest, unread) && Fits()) && !ok ==>
        Owes(rest, unread) && Starved() && (multibulklen == 0 ==> querybuf == old(querybuf))
    {
      ghost var owes := Owes(rest, unread) && Fits();
      var pos := 0;
      if multibulklen == 0 {
        var st;
        st, pos := ReadCount(rest, unread);
        if st.Incomplete? || st.Bad? { return false; }
        if multibulklen == 0 {
          querybuf := querybuf[pos..];
          return true;
        }
      } else {
        assert querybuf[0..] == querybuf;
      }
      ghost var r, more := if owes then rest[0] else [], if owes then Stream(rest[1..]) else [];
      assert owes ==> OwesArgs(r, pos, unread, more) && FitsAt(pos);
      var bad;
      bad, pos := ReadArgs(pos, r, unread, more);
      if bad { return false; }
      querybuf := querybuf[pos..];
      return multibulklen == 0;
    }

    /** processInlineBuffer: the words of the first line. */
    method ProcessInlineBuffer() returns (ok: bool)
      requires Valid() && multibulklen == 0
      modifies `querybuf, `argv, `closeAfterReply, `error
      ensures Valid()
      ensures ok ==> |querybuf| < old(|querybuf|)
      ensures !ok ==> argv == old(argv)
      ensures ok <==> FindCRLF(old(querybuf)) >= 0
      ensures ok ==>
        var end := FindCRLF(old(querybuf));
        argv == Words(old(querybuf)[..end]) && querybuf == old(querybuf)[end + 2..]
    {
      var newline := FindCRLF(querybuf);
      if newline == -1 {
        if |querybuf| > REDIS_INLINE_MAX_SIZE {
          SetProtocolError(TooBigInline, 0);
        }
        return false;
      }
      argv := Words(querybuf[..newline]);
      querybuf := querybuf[newline + 2..];
      return true;
    }

    /** processCommand, recorded in `executed`, and resetClient. */
    method RunAndReset()
      requires multibulklen == 0
      modifies `argv, `reqtype, `bulklen, `executed
      ensures argv == [] && reqtype == Unknown && bulklen == -1
      ensures executed == old(executed) + Runs([old(argv)])
      ensures executed == old(executed) + if old(argv) == [] then [] else [old(argv)]
    {
      assert Runs([argv]) == if argv == [] then [] else [argv];
      if argv != [] { executed := executed + [argv]; }
      argv, reqtype, bulklen := [], Unknown, -1;
    }

    /** Between two requests. */
    ghost predicate Idle()
      reads this
    {
      !closeAfterReply && multibulklen == 0 && reqtype != Inline && |querybuf| > 0
    }

    /** One turn of the loop of processInputBuffer; false when the loop is left. */
    method ProcessOne(ghost rest: seq<Request>, ghost unread: seq<Byte>) returns (ok: bool, ghost left: seq<Request>)
      requires Resumable() && |querybuf| > 0 && !closeAfterReply
      modifies this
      ensures Resumable()
      ensures ok ==> |querybuf| < old(|querybuf|)
      ensures !ok ==> executed == old(executed)
      ensures old(Idle() && querybuf[0] == STAR && BadCount(querybuf)) ==>
        !ok && closeAfterReply && error == Some(InvalidCount)
      ensures old(Owes(rest, unread) && Fits()) ==>
        && Owes(left, unread) && executed + Runs(left) == old(executed) + Runs(rest)
        && (if ok then |querybuf| <= REDIS_INLINE_MAX_SIZE else Starved())
    {
      ghost var owes := Owes(rest, unread) && Fits();
      left := rest;
      assert owes && multibulklen == 0 ==> querybuf[0] == STAR by {
        if owes && multibulklen == 0 { StartsWithStar(rest, querybuf, unread); }
      }
      if reqtype == Unknown {
        reqtype := if querybuf[0] == STAR then Multi else Inline;
      }
      if reqtype == Inline {
        ok := ProcessInlineBuffer();
        if !ok { return; }
      } else {
        ok := ProcessMultibulkBuffer(rest, unread);
        if !ok { return; }
      }
      RunAndReset();
      if owes {
        left := rest[1..];
        RunsFirst(rest, old(executed));
      }
    }

    /** processInputBuffer: run every complete request in the buffer. */
    method ProcessInputBuffer(ghost rest: seq<Request>, ghost unread: seq<Byte>) returns (ghost left: seq<Request>)
      requires Resumable()
      modifies this
      ensures Resumable()
      ensures old(Owes(rest, unread) && Fits()) ==>
        Owes(left, unread) && executed + Runs(left) == old(executed) + Runs(rest) && Starved()
      ensures old(Idle() && querybuf[0] == STAR && BadCount(querybuf)) ==>
        executed == old(executed) && closeAfterReply && error == Some(InvalidCount)
    {
      left := rest;
      ghost var refuse := Idle() && querybuf[0] == STAR && BadCount(querybuf);
      ghost var owes := Owes(rest, unread) && Fits();
      while |querybuf| > 0
        invariant Resumable()
        invariant owes ==> Owes(left, unread) && Fits() && executed + Runs(left) == old(executed) + Runs(rest)
        invariant refuse ==> Idle() && querybuf[0] == STAR && BadCount(querybuf) && executed == old(executed)
        decreases |querybuf|
      {
        if closeAfterReply { return; }
        var ok;
        ok, left := ProcessOne(left, unread);
        if !ok { return; }
      }
    }

    /** How many bytes the next read asks for: no more than completes a big argument. */
    function ReadLength(): (n: int)
      reads this
    {
      if reqtype == Multi && multibulklen > 0 && bulklen != -1 && bulklen >= REDIS_MBULK_BIG_ARG
         && bulklen + 2 - |querybuf| < REDIS_IOBUF_LEN
      then bulklen + 2 - |querybuf|
      else REDIS_IOBUF_LEN
    }

    /** readQueryFromClient after read(2) has returned `data`; false when the client is freed. */
    method ReadQuery(data: seq<Byte>, maxQuery: nat, ghost rest: seq<Request>, ghost unread: seq<Byte>)
      returns (kept: bool, ghost left: seq<Request>)
      requires Resumable() && 0 < |data| <= ReadLength()
      modifies this
      ensures Resumable()
      ensures maxQuery >= MAX_BULK + 2 && old(Owes(rest, data + unread) && Starved()) ==>
        && kept && Owes(left, unread) && Starved()
        && executed + Runs(left) == old(executed) + Runs(rest)
    {
      assert querybuf + data + unread == querybuf + (data + unread);
      ghost var owes := Owes(rest, data + unread) && Starved();
      querybuf := querybuf + data;
      left := rest;
      if |querybuf| > maxQuery { return false, left; }
      left := ProcessInputBuffer(rest, unread);
      return true, left;
    }
  }

  /** What is known of a buffer that starts with the count line of `rest[0]`. */
  lemma CountLine(rest: seq<Request>, buf: seq<Byte>, unread: seq<Byte>)
    requires |buf| > 0 && AllAcceptable(rest) && buf + unread == Stream(rest)
    ensures rest != []
    ensures |PrintNat(|rest[0]|)| <= 7
    ensures HeaderSeen(buf, unread, STAR, |rest[0]|, Owed(rest[0], 0, false) + Stream(rest[1..]))
  {
    assert rest[0][0..] == rest[0];
    Associates(Header(STAR, |rest[0]|), EncodeArgs(rest[0]), Stream(rest[1..]));
    HeaderScan(buf, unread, STAR, |rest[0]|, Owed(rest[0], 0, false) + Stream(rest[1..]));
    PrintNatShort(|rest[0]|);
  }

  /** What is known of a buffer that starts with the length line of argument `k`. */
  lemma LengthLine(r: Request, k: nat, buf: seq<Byte>, unread: seq<Byte>, more: seq<Byte>)
    requires Acceptable(r) && k < |r| && buf + unread == Owed(r, k, false) + more
    ensures |PrintNat(|r[k]|)| <= 9
    ensures HeaderSeen(buf, unread, DOLLAR, |r[k]|, Owed(r, k, true) + more)
  {
    var n := |r[k]|;
    OwedHeader(r, k);
    var x := Owed(r, k, true) + more;
    Associates(Header(DOLLAR, n), Owed(r, k, true), more);
    HeaderScan(buf, unread, DOLLAR, n, x);
    PrintNatShort(n);
  }

  /** On a well-formed stream a scan never fails, and a complete line gives the length owed. */
  lemma ScanOwed(r: Request, k: nat, buf: seq<Byte>, unread: seq<Byte>, more: seq<Byte>, line: LengthScan)
    requires Acceptable(r) && k < |r| && buf + unread == Owed(r, k, false) + more
    requires ScanResult(buf, line)
    ensures !line.NoDollar? && !line.BadNumber?
    ensures line.NoLine? || line.HalfLine? ==> NoLineYet(buf)
    ensures line.Length? ==>
      line.n == |r[k]| && line.size <= |buf| && buf[line.size..] + unread == Owed(r, k, true) + more
  {
    LengthLine(r, k, buf, unread, more);
    if line.Length? { PrintInjective(line.n, |r[k]|); }
  }

  /** A starved parser that has received the whole stream has executed all of it. */
  lemma NothingLeft(rest: seq<Request>, multibulklen: nat, bulklen: int, argv: Request, buf: seq<Byte>)
    requires AllAcceptable(rest) && Expecting(rest, multibulklen, bulklen, argv, buf) && bulklen >= -1
    requires if multibulklen > 0 && bulklen >= 0 then |buf| < bulklen + 2 else NoLineYet(buf)
    ensures rest == [] && buf == []
  {
    assert buf + [] == buf;
    if multibulklen == 0 {
      if rest != [] { CountLine(rest, buf, []); }
    } else if bulklen == -1 {
      LengthLine(rest[0], |argv|, buf, [], Stream(rest[1..]));
    }
  }

  /** Every well-formed stream, split into reads in any way that respects the read lengths,
      is executed request by request without a protocol error: the non-empty requests, each once and
      in order. `want` is the split. */
  method Serve(requests: seq<Request>, want: nat -> nat, maxQuery: nat) returns (c: Client, kept: bool)
    requires AllAcceptable(requests) && maxQuery >= MAX_BULK + 2
    ensures kept && c.Untroubled() && c.executed == Runs(requests) && c.querybuf == []
    ensures exists places: seq<nat> :: NonEmptyAt(requests, c.executed, places)
    ensures (forall i :: 0 <= i < |requests| ==> requests[i] != []) ==> c.executed == requests
  {
    c, kept := ServeAll(requests, want, maxQuery);
    ghost var places := RunsPlaces(requests);
    if forall i :: 0 <= i < |requests| ==> requests[i] != [] { AllRun(requests); }
  }

  method ServeAll(requests: seq<Request>, want: nat -> nat, maxQuery: nat) returns (c: Client, kept: bool)
    requires AllAcceptable(requests) && maxQuery >= MAX_BULK + 2
    ensures kept && c.Untroubled() && c.executed == Runs(requests) && c.querybuf == []
  {
    c := new Client();
    kept := true;
    var unread, i := Stream(requests), 0;
    ghost var left := requests;
    assert c.querybuf + unread == unread;
    while unread != []
      invariant kept && fresh(c) && c.Resumable() && c.Owes(left, unread) && c.Starved()
      invariant c.executed + Runs(left) == Runs(requests)
      decreases |unread|
    {
      var n := 1 + want(i);
      if n > c.ReadLength() { n := c.ReadLength(); }
      if n > |unread| { n := |unread|; }
      var data := unread[..n];
      assert data + unread[n..] == unread;
      kept, left := c.ReadQuery(data, maxQuery, left, unread[n..]);
      unread, i := unread[n..], i + 1;
    }
    assert c.querybuf + [] == c.querybuf;
    NothingLeft(left, c.multibulklen, c.bulklen, c.argv, c.querybuf);
  }

  lemma StartsWithStar(rest: seq<Request>, buf: seq<Byte>, unread: seq<Byte>)
    requires |buf| > 0 && buf + unread == Stream(rest)
    ensures buf[0] == STAR
  {
    assert Stream(rest)[0] == buf[0];
    assert Stream(rest)[0] == Header(STAR, |rest[0]|)[0];
  }

  /** The requests that run a command. */
  function Runs(rs: seq<Request>): seq<Request> {
    if rs == [] then []
    else if rs[0] == [] then Runs(rs[1..])
    else [rs[0]] + Runs(rs[1..])
  }

  /** Places in increasing order below n. */
  ghost predicate Increasing(places: seq<nat>, n: nat) {
    && (forall i :: 0 <= i < |places| ==> places[i] < n)
    && (forall i, j :: 0 <= i < j < |places| ==> places[i] < places[j])
  }

  /** `ran` are the non-empty requests, each once and in order: those at these places. */
  ghost predicate NonEmptyAt(rs: seq<Request>, ran: seq<Request>, places: seq<nat>) {
    && Increasing(places, |rs|) && |places| == |ran|
    && (forall i :: 0 <= i < |ran| ==> ran[i] == rs[places[i]])
    && (forall k :: 0 <= k < |rs| ==> (rs[k] != [] <==> k in places))
  }

  lemma {:induction false} RunsLast(rs: seq<Request>)
    requires rs != []
    ensures Runs(rs) == Runs(rs[..|rs| - 1]) + if rs[|rs| - 1] == [] then [] else [rs[|rs| - 1]]
  {
    if |rs| > 1 {
      RunsLast(rs[1..]);
      assert rs[1..][..|rs| - 2] == rs[..|rs| - 1][1..];
    }
  }

  lemma {:induction false} RunsPlaces(rs: seq<Request>) returns (places: seq<nat>)
    ensures NonEmptyAt(rs, Runs(rs), places)
  {
    places := [];
    if rs != [] {
      var n := |rs| - 1;
      places := RunsPlaces(rs[..n]);
      RunsLast(rs);
      if rs[n] != [] {
        OneMorePlace(rs, Runs(rs[..n]), places);
        places := places + [n];
      }
    }
  }

  lemma OneMorePlace(rs: seq<Request>, ran: seq<Request>, places: seq<nat>)
    requires rs != [] && rs[|rs| - 1] != [] && NonEmptyAt(rs[..|rs| - 1], ran, places)
    ensures NonEmptyAt(rs, ran + [rs[|rs| - 1]], places + [|rs| - 1])
  {
    var n := |rs| - 1;
    forall k | 0 <= k < |rs| ensures rs[k] != [] <==> k in places + [n] {
      if k < n { assert rs[..n][k] == rs[k]; }
    }
  }

  lemma {:induction false} AllRun(rs: seq<Request>)
    requires forall i :: 0 <= i < |rs| ==> rs[i] != []
    ensures Runs(rs) == rs
  {
    if rs != [] {
      assert forall i :: 0 <= i < |rs| - 1 ==> rs[1..][i] == rs[i + 1];
      AllRun(rs[1..]);
    }
  }

  lemma RunsFirst(rs: seq<Request>, before: seq<Request>)
    requires rs != []
    ensures before + Runs([rs[0]]) + Runs(rs[1..]) == before + Runs(rs)
  {
    if rs[0] == [] {
      assert Runs([rs[0]]) == [];
      assert before + [] == before;
    } else {
      assert Runs([rs[0]]) == [rs[0]];
      Associates(before, [rs[0]], Runs(rs[1..]));
    }
  }

  /** strstr(buf, "\r\n"). */
  function FindCRLF(s: seq<Byte>): (i: int)
    ensures -1 <= i && (i >= 0 ==> i + 2 <= |s|)
  {
    if |s| < 2 || s[0] == 0 then -1
    else if s[0] == CR && s[1] == LF then 0
    else
      var i := FindCRLF(s[1..]);
      if i == -1 then -1 else i + 1
  }

  /** Split on blanks, dropping empty words. */
  function Words(s: seq<Byte>): seq<seq<Byte>> {
    if s == [] then []
    else
      var n := WordLength(s);
      (if n == 0 then [] else [s[..n]]) + if n == |s| then [] else Words(s[n + 1..])
  }

  /** Words with one blank between them. */
  function Joined(words: seq<seq<Byte>>): seq<Byte> {
    if words == [] then []
    else if |words| == 1 then words[0]
    else words[0] + [32] + Joined(words[1..])
  }

  ghost predicate IsWord(w: seq<Byte>) {
    w != [] && 32 !in w
  }

  lemma {:induction false} WordEnds(w: seq<Byte>, rest: seq<Byte>)
    requires 32 !in w && (rest == [] || rest[0] == 32)
    ensures WordLength(w + rest) == |w|
  {
    if w != [] {
      WordEnds(w[1..], rest);
      assert (w + rest)[1..] == w[1..] + rest;
    }
  }

  /** An inline request is its words, joined by blanks. */
  lemma {:induction false} InlineWords(words: seq<seq<Byte>>)
    requires forall i :: 0 <= i < |words| ==> IsWord(words[i])
    ensures Words(Joined(words)) == words
  {
    if |words| == 1 {
      assert IsWord(words[0]) && words[0] + [] == words[0];
      WordEnds(words[0], []);
      assert words[0][..|words[0]|] == words[0];
    } else if words != [] {
      var rest := [32] + Joined(words[1..]);
      assert IsWord(words[0]) && Joined(words) == words[0] + rest;
      InlineWords(words[1..]);
      WordEnds(words[0], rest);
      assert Joined(words)[..|words[0]|] == words[0];
      assert Joined(words)[|words[0]| + 1..] == Joined(words[1..]);
    }
  }

  /** And it ends where its line does. */
  lemma {:induction false} LineEnds(line: seq<Byte>, rest: seq<Byte>)
    requires CR !in line && 0 !in line
    ensures FindCRLF(line + CRLF + rest) == |line|
  {
    if line != [] {
      LineEnds(line[1..], rest);
      assert (line + CRLF + rest)[1..] == line[1..] + CRLF + rest;
    }
  }

  function WordLength(s: seq<Byte>): (n: nat)
    ensures n <= |s|
  {
    if s == [] || s[0] == 32 then 0 else 1 + WordLength(s[1..])
  }
}
