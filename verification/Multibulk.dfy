/** The multibulk request format and what a partly received stream of requests looks like. */
module Multibulk {
  import opened Bytes
  import opened Decimal
  import opened Sequences

  const CR: Byte := 13
  const LF: Byte := 10
  const STAR: Byte := 42
  const DOLLAR: Byte := 36
  const CRLF: seq<Byte> := [CR, LF]

  const MAX_ARGS := 1024 * 1024
  const MAX_BULK := 512 * 1024 * 1024

  /** An argument vector. */
  type Request = seq<seq<Byte>>

  function Header(mark: Byte, n: nat): seq<Byte> {
    [mark] + PrintNat(n) + CRLF
  }

  function EncodeArg(a: seq<Byte>): seq<Byte> {
    Header(DOLLAR, |a|) + a + CRLF
  }

  function EncodeArgs(args: seq<seq<Byte>>): seq<Byte> {
    if args == [] then [] else EncodeArg(args[0]) + EncodeArgs(args[1..])
  }

  function EncodeRequest(r: Request): seq<Byte> {
    Header(STAR, |r|) + EncodeArgs(r)
  }

  function Stream(rs: seq<Request>): seq<Byte> {
    if rs == [] then [] else EncodeRequest(rs[0]) + Stream(rs[1..])
  }

  /** A PING on the wire, and a longer argument: "*1\r\n$4\r\nPING\r\n" and "$10\r\n" at its head. */
  lemma OnTheWire(a: seq<Byte>)
    requires |a| == 10
    ensures EncodeRequest([[80, 73, 78, 71]]) == [42, 49, 13, 10, 36, 52, 13, 10, 80, 73, 78, 71, 13, 10]
    ensures EncodeArg(a) == [36, 49, 48, 13, 10] + a + [13, 10]
  {
    assert PrintNat(1) == [49] && PrintNat(4) == [52] && PrintNat(10) == [49, 48];
    assert [[80, 73, 78, 71]][1..] == [];
    assert EncodeArgs([[80, 73, 78, 71]]) == EncodeArg([80, 73, 78, 71]);
  }

  /** Within the limits of the protocol; an empty vector is allowed and runs nothing. */
  ghost predicate Acceptable(r: Request) {
    |r| <= MAX_ARGS && forall i :: 0 <= i < |r| ==> |r[i]| <= MAX_BULK
  }

  ghost predicate AllAcceptable(rs: seq<Request>) {
    forall i :: 0 <= i < |rs| ==> Acceptable(rs[i])
  }

  // ---------------------------------------------------------------- strchr

  /** Index of the first CR of a C string, or -1: the search ends at a NUL byte. */
  function FindCR(s: seq<Byte>): (i: int)
    ensures -1 <= i < |s| && (i >= 0 ==> s[i] == CR)
  {
    if s == [] || s[0] == 0 then -1
    else if s[0] == CR then 0
    else
      var i := FindCR(s[1..]);
      if i == -1 then -1 else i + 1
  }

  lemma {:induction false} FindCRAt(s: seq<Byte>, k: nat)
    requires forall i :: 0 <= i < k && i < |s| ==> s[i] != CR && s[i] != 0
    requires k < |s| ==> s[k] == CR
    ensures FindCR(s) == if k < |s| then k else -1
  {
    if s != [] && k > 0 {
      FindCRAt(s[1..], k - 1);
    }
  }

  /** How far a known prefix of the input has arrived in the buffer. */
  lemma Prefix(buf: seq<Byte>, unread: seq<Byte>, p: seq<Byte>, more: seq<Byte>)
    requires buf + unread == p + more
    ensures forall i :: 0 <= i < |p| && i < |buf| ==> buf[i] == p[i]
    ensures |buf| >= |p| ==> buf[..|p|] == p && buf[|p|..] + unread == more
  {
    var all := buf + unread;
    forall i | 0 <= i < |p| && i < |buf| ensures buf[i] == p[i] {
      assert all[i] == buf[i] && (p + more)[i] == p[i];
    }
    if |buf| >= |p| {
      assert buf[|p|..] + unread == all[|p|..] == (p + more)[|p|..] == more;
    }
  }

  /** A line of text without CR or NUL: the CR after it is found exactly when it has arrived. */
  lemma LineScan(buf: seq<Byte>, unread: seq<Byte>, line: seq<Byte>, more: seq<Byte>)
    requires forall i :: 0 <= i < |line| ==> line[i] != CR && line[i] != 0
    requires buf + unread == line + CRLF + more
    ensures FindCR(buf) == if |line| < |buf| then |line| else -1
    ensures |line| < |buf| ==> buf[..|line|] == line
    ensures |line| + 1 < |buf| ==> buf[|line| + 2..] + unread == more
  {
    Associates(line, CRLF, more);
    Prefix(buf, unread, line, CRLF + more);
    Prefix(buf, unread, line + CRLF, more);
    assert |line| < |buf| ==> buf[|line|] == (line + CRLF)[|line|] == CR;
    FindCRAt(buf, |line|);
  }

  /** In a buffer that starts a header, the CR is found exactly when the whole of the number
      has arrived, and it delimits the number. */
  ghost predicate HeaderSeen(buf: seq<Byte>, unread: seq<Byte>, mark: Byte, n: nat, more: seq<Byte>) {
    var k := 1 + |PrintNat(n)|;
    && FindCR(buf) == (if k < |buf| then k else -1)
    && (k < |buf| ==> buf[0] == mark && buf[1..k] == Print(n))
    && (k + 1 < |buf| ==> buf[k + 2..] + unread == more)
  }

  lemma HeaderScan(buf: seq<Byte>, unread: seq<Byte>, mark: Byte, n: nat, more: seq<Byte>)
    requires mark != CR && mark != 0
    requires buf + unread == Header(mark, n) + more
    ensures HeaderSeen(buf, unread, mark, n, more)
  {
    PrintNatIsCanonical(n);
    var line := [mark] + PrintNat(n);
    assert forall i :: 1 <= i < |line| ==> line[i] == PrintNat(n)[i - 1];
    LineScan(buf, unread, line, more);
    if |line| < |buf| {
      assert buf[..|line|][0] == mark;
      assert buf[1..|line|] == buf[..|line|][1..] == PrintNat(n);
    }
  }

  /** A buffer that holds a whole argument and its CRLF. */
  lemma ArgumentScan(buf: seq<Byte>, unread: seq<Byte>, a: seq<Byte>, more: seq<Byte>)
    requires buf + unread == a + CRLF + more && |buf| >= |a| + 2
    ensures buf[..|a|] == a && buf[|a| + 2..] + unread == more
  {
    Prefix(buf, unread, a + CRLF, more);
    assert buf[..|a|] == buf[..|a| + 2][..|a|] == a;
  }

  // ---------------------------------------------------------------- partly received requests

  /** The bytes owed of request `r` when `k` arguments have been read, and when the length of
      the next one has been read too. */
  function Owed(r: Request, k: nat, lengthRead: bool): seq<Byte>
    requires k <= |r| && (lengthRead ==> k < |r|)
  {
    if lengthRead then r[k] + CRLF + EncodeArgs(r[k + 1..]) else EncodeArgs(r[k..])
  }

  lemma OwedHeader(r: Request, k: nat)
    requires k < |r|
    ensures Owed(r, k, false) == Header(DOLLAR, |r[k]|) + Owed(r, k, true)
  {
    assert r[k..][0] == r[k] && r[k..][1..] == r[k + 1..];
  }

  /** The parser fields of a client: the rest of the stream, as far as `rest[0]` has been
      read, is the query buffer followed by the bytes not yet received. */
  ghost predicate Expecting(rest: seq<Request>, multibulklen: nat, bulklen: int, argv: Request, input: seq<Byte>) {
    if multibulklen == 0 then
      argv == [] && bulklen == -1 && input == Stream(rest)
    else
      && rest != [] && |argv| + multibulklen == |rest[0]| && argv == rest[0][..|argv|]
      && (bulklen == -1 || bulklen == |rest[0][|argv|]|)
      && input == Owed(rest[0], |argv|, bulklen != -1) + Stream(rest[1..])
  }
}
