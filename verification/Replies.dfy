/** What a client is still owed, as cells: bytes, and places kept for lengths not yet known. */
module ReplyCells {
  import opened Bytes
  import opened Sequences

  /** A node of the reply list: a string, or an object whose pointer is still NULL. */
  datatype Node = Chunk(bytes: seq<Byte>) | Reserved(id: nat)

  datatype Cell = Data(b: Byte) | Hole(id: nat)

  ghost function Cells(bs: seq<Byte>): (cs: seq<Cell>)
    ensures |cs| == |bs|
  {
    if bs == [] then [] else [Data(bs[0])] + Cells(bs[1..])
  }

  ghost function NodeCells(n: Node): seq<Cell> {
    match n
    case Chunk(bytes) => Cells(bytes)
    case Reserved(id) => [Hole(id)]
  }

  ghost function ListCells(l: seq<Node>): seq<Cell> {
    if l == [] then [] else NodeCells(l[0]) + ListCells(l[1..])
  }

  /** cs with the place kept under `id` replaced by x. */
  ghost function Fill(cs: seq<Cell>, id: nat, x: seq<Cell>): seq<Cell> {
    if cs == [] then [] else (if cs[0] == Hole(id) then x else [cs[0]]) + Fill(cs[1..], id, x)
  }

  lemma {:induction false} CellsConcat(a: seq<Byte>, b: seq<Byte>)
    ensures Cells(a + b) == Cells(a) + Cells(b)
  {
    if a == [] {
      assert a + b == b;
    } else {
      assert (a + b)[1..] == a[1..] + b;
      CellsConcat(a[1..], b);
    }
  }

  lemma CellsTail(a: seq<Byte>, n: nat)
    requires n <= |a|
    ensures Cells(a)[n..] == Cells(a[n..]) && Cells(a)[..n] == Cells(a[..n])
  {
    CellsConcat(a[..n], a[n..]);
    assert a[..n] + a[n..] == a;
  }

  lemma {:induction false} ListCellsConcat(l: seq<Node>, m: seq<Node>)
    ensures ListCells(l + m) == ListCells(l) + ListCells(m)
  {
    if l == [] {
      assert l + m == m;
    } else {
      assert (l + m)[1..] == l[1..] + m;
      ListCellsConcat(l[1..], m);
      Associates(NodeCells(l[0]), ListCells(l[1..]), ListCells(m));
    }
  }

  lemma ListCellsOne(n: Node)
    ensures ListCells([n]) == NodeCells(n)
  {
    assert [n][1..] == [];
  }

  lemma {:induction false} FillConcat(a: seq<Cell>, b: seq<Cell>, id: nat, x: seq<Cell>)
    ensures Fill(a + b, id, x) == Fill(a, id, x) + Fill(b, id, x)
  {
    if a == [] {
      assert a + b == b;
    } else {
      assert (a + b)[1..] == a[1..] + b;
      FillConcat(a[1..], b, id, x);
      Associates(if a[0] == Hole(id) then x else [a[0]], Fill(a[1..], id, x), Fill(b, id, x));
    }
  }

  lemma {:induction false} FillAbsent(cs: seq<Cell>, id: nat, x: seq<Cell>)
    requires Hole(id) !in cs
    ensures Fill(cs, id, x) == cs
  {
    if cs != [] {
      assert cs == [cs[0]] + cs[1..];
      FillAbsent(cs[1..], id, x);
    }
  }

  lemma FillOne(id: nat, x: seq<Cell>)
    ensures Fill([Hole(id)], id, x) == x
  {
    assert [Hole(id)][1..] == [];
    assert x + [] == x;
  }

  lemma {:induction false} FillNoHole(cs: seq<Cell>, k: nat, x: seq<Cell>, id: nat)
    requires Hole(id) !in cs && Hole(id) !in x
    ensures Hole(id) !in Fill(cs, k, x)
  {
    if cs != [] { FillNoHole(cs[1..], k, x, id); }
  }

  /** The length goes exactly to the place that was kept for it, and nothing else moves. */
  lemma FillReserved(before: seq<Cell>, after: seq<Cell>, id: nat, x: seq<Cell>)
    requires Hole(id) !in before && Hole(id) !in after
    ensures Fill(before + [Hole(id)] + after, id, x) == before + x + after
  {
    FillConcat(before + [Hole(id)], after, id, x);
    FillConcat(before, [Hole(id)], id, x);
    FillAbsent(before, id, x);
    FillAbsent(after, id, x);
    FillOne(id, x);
  }

  lemma {:induction false} CellsNoHole(bs: seq<Byte>, id: nat)
    ensures Hole(id) !in Cells(bs)
  {
    if bs != [] { CellsNoHole(bs[1..], id); }
  }

  lemma {:induction false} ListNoHole(l: seq<Node>, id: nat)
    requires Reserved(id) !in l
    ensures Hole(id) !in ListCells(l)
  {
    if l != [] {
      ListNoHole(l[1..], id);
      if l[0].Chunk? { CellsNoHole(l[0].bytes, id); }
    }
  }

  // ---------------------------------------------------------------- changes to the list

  lemma AppendNode(l: seq<Node>, s: seq<Byte>)
    ensures ListCells(l + [Chunk(s)]) == ListCells(l) + Cells(s)
  {
    ListCellsConcat(l, [Chunk(s)]);
    ListCellsOne(Chunk(s));
  }

  lemma AppendReserved(l: seq<Node>, id: nat)
    ensures ListCells(l + [Reserved(id)]) == ListCells(l) + [Hole(id)]
  {
    ListCellsConcat(l, [Reserved(id)]);
    ListCellsOne(Reserved(id));
  }

  lemma AppendGlue(l: seq<Node>, t: seq<Byte>, s: seq<Byte>)
    ensures ListCells(l + [Chunk(t + s)]) == ListCells(l + [Chunk(t)]) + Cells(s)
  {
    AppendNode(l, t);
    AppendNode(l, t + s);
    CellsConcat(t, s);
    Associates(ListCells(l), Cells(t), Cells(s));
  }

  /** All places kept in l have different names, below `next`. */
  ghost predicate Distinct(l: seq<Node>, next: nat) {
    && (forall i, j :: 0 <= i < j < |l| && l[i].Reserved? && l[j].Reserved? ==> l[i] != l[j])
    && (forall i :: 0 <= i < |l| && l[i].Reserved? ==> l[i].id < next)
  }

  /** The list with s added: glued to the last string when both fit in one chunk. */
  function Appended(l: seq<Node>, s: seq<Byte>, chunk: nat): seq<Node> {
    if l != [] && l[|l| - 1].Chunk? && |l[|l| - 1].bytes| + |s| <= chunk
    then l[..|l| - 1] + [Chunk(l[|l| - 1].bytes + s)]
    else l + [Chunk(s)]
  }

  lemma AppendedCells(l: seq<Node>, s: seq<Byte>, chunk: nat, next: nat)
    requires Distinct(l, next)
    ensures ListCells(Appended(l, s, chunk)) == ListCells(l) + Cells(s) && Distinct(Appended(l, s, chunk), next)
  {
    if l != [] && l[|l| - 1].Chunk? && |l[|l| - 1].bytes| + |s| <= chunk {
      assert l == l[..|l| - 1] + [Chunk(l[|l| - 1].bytes)];
      AppendGlue(l[..|l| - 1], l[|l| - 1].bytes, s);
    } else {
      AppendNode(l, s);
    }
  }

  // ---------------------------------------------------------------- the unsent part

  /** `sent` counts within the static buffer or, that being empty, within the first node. */
  ghost predicate Within(front: seq<Byte>, l: seq<Node>, sent: nat) {
    if front != [] then sent < |front|
    else sent > 0 ==> l != [] && l[0].Chunk? && sent < |l[0].bytes|
  }

  /** The static buffer followed by the list, without the first `sent` bytes. */
  ghost function Unsent(front: seq<Byte>, l: seq<Node>, sent: nat): seq<Cell>
    requires Within(front, l, sent)
  {
    (Cells(front) + ListCells(l))[sent..]
  }

  /** Cells added at the end of the queue are added at the end of the unsent part. */
  lemma QueueGrows(front: seq<Cell>, list: seq<Cell>, x: seq<Cell>, sent: nat, wire: seq<Cell>)
    requires sent <= |front + list|
    ensures wire + (front + (list + x))[sent..] == wire + (front + list)[sent..] + x
  {
  }

  lemma UnsentAppended(wire: seq<Byte>, front: seq<Byte>, l: seq<Node>, sent: nat, s: seq<Byte>, chunk: nat, next: nat)
    requires Distinct(l, next) && Within(front, l, sent)
    ensures Within(front, Appended(l, s, chunk), sent) && Distinct(Appended(l, s, chunk), next)
    ensures Cells(wire) + Unsent(front, Appended(l, s, chunk), sent) == Cells(wire) + Unsent(front, l, sent) + Cells(s)
  {
    AppendedCells(l, s, chunk, next);
    QueueGrows(Cells(front), ListCells(l), Cells(s), sent, Cells(wire));
  }

  lemma UnsentReserved(wire: seq<Byte>, front: seq<Byte>, l: seq<Node>, sent: nat, next: nat)
    requires Distinct(l, next) && Within(front, l, sent)
    ensures Within(front, l + [Reserved(next)], sent) && Distinct(l + [Reserved(next)], next + 1)
    ensures Cells(wire) + Unsent(front, l + [Reserved(next)], sent)
      == Cells(wire) + Unsent(front, l, sent) + [Hole(next)]
  {
    AppendReserved(l, next);
    QueueGrows(Cells(front), ListCells(l), [Hole(next)], sent, Cells(wire));
  }

  lemma UnsentBuffered(wire: seq<Byte>, front: seq<Byte>, sent: nat, s: seq<Byte>)
    requires Within(front, [], sent)
    ensures Within(front + s, [], sent)
    ensures Cells(wire) + Unsent(front + s, [], sent) == Cells(wire) + Unsent(front, [], sent) + Cells(s)
  {
    CellsConcat(front, s);
    GrowAlone(Cells(wire), Cells(front), Cells(s), sent);
  }

  lemma GrowAlone(wire: seq<Cell>, front: seq<Cell>, x: seq<Cell>, sent: nat)
    requires sent <= |front|
    ensures wire + (front + x + [])[sent..] == wire + (front + [])[sent..] + x
  {
  }

  // ---------------------------------------------------------------- bytes leaving the queue

  /** A write of part of the static buffer. */
  lemma UnsentWrite(wire: seq<Byte>, front: seq<Byte>, l: seq<Node>, sent: nat, n: nat)
    requires Within(front, l, sent) && sent + n < |front|
    ensures Cells(wire + front[sent..sent + n]) + Unsent(front, l, sent + n) == Cells(wire) + Unsent(front, l, sent)
  {
    CellsConcat(wire, front[sent..sent + n]);
    CellsPart(front, sent, sent + n);
    Drain(Cells(wire), Cells(front), ListCells(l), sent, sent + n);
  }

  /** A write of the rest of the static buffer. */
  lemma UnsentDrained(wire: seq<Byte>, front: seq<Byte>, l: seq<Node>, sent: nat)
    requires Within(front, l, sent) && front != []
    ensures Cells(wire + front[sent..]) + Unsent([], l, 0) == Cells(wire) + Unsent(front, l, sent)
  {
    assert front[sent..] == front[sent..|front|];
    CellsConcat(wire, front[sent..|front|]);
    CellsPart(front, sent, |front|);
    Drain(Cells(wire), Cells(front), ListCells(l), sent, |front|);
    assert Unsent([], l, 0) == ListCells(l) == (Cells(front) + ListCells(l))[|front|..];
  }

  lemma NodeWrite(wire: seq<Byte>, l: seq<Node>, sent: nat, n: nat)
    requires Within([], l, sent) && l != [] && l[0].Chunk? && 0 < |l[0].bytes| && sent + n < |l[0].bytes|
    ensures Within([], l, sent + n)
    ensures Cells(wire + l[0].bytes[sent..sent + n]) + Unsent([], l, sent + n) == Cells(wire) + Unsent([], l, sent)
  {
    UnsentFirstNode(l, sent);
    UnsentWrite(wire, l[0].bytes, l[1..], sent, n);
    UnsentFirstNode(l, sent + n);
  }

  lemma NodeDrained(wire: seq<Byte>, l: seq<Node>, sent: nat, n: nat, next: nat)
    requires Within([], l, sent) && l != [] && l[0].Chunk? && 0 < |l[0].bytes| == sent + n && Distinct(l, next)
    ensures Within([], l[1..], 0) && Distinct(l[1..], next)
    ensures Cells(wire + l[0].bytes[sent..sent + n]) + Unsent([], l[1..], 0) == Cells(wire) + Unsent([], l, sent)
  {
    assert l[0].bytes[sent..] == l[0].bytes[sent..sent + n];
    UnsentFirstNode(l, sent);
    UnsentDrained(wire, l[0].bytes, l[1..], sent);
  }

  /** A write from the first node is a write from a static buffer of the same contents. */
  lemma UnsentFirstNode(l: seq<Node>, sent: nat)
    requires Within([], l, sent) && l != [] && l[0].Chunk? && l[0].bytes != []
    ensures Within(l[0].bytes, l[1..], sent) && Unsent([], l, sent) == Unsent(l[0].bytes, l[1..], sent)
  {
    assert Cells([]) + ListCells(l) == Cells(l[0].bytes) + ListCells(l[1..]);
  }

  lemma UnsentEmptyNode(l: seq<Node>)
    requires l != [] && l[0] == Chunk([])
    ensures Unsent([], l[1..], 0) == Unsent([], l, 0)
  {
    assert [] + ListCells(l[1..]) == ListCells(l[1..]);
  }

  lemma CellsPart(a: seq<Byte>, m: nat, n: nat)
    requires m <= n <= |a|
    ensures Cells(a[m..n]) == Cells(a)[m..n]
  {
    CellsTail(a, n);
    CellsTail(a[..n], m);
    assert a[m..n] == a[..n][m..];
  }

  lemma Drain(wire: seq<Cell>, p: seq<Cell>, rest: seq<Cell>, m: nat, n: nat)
    requires m <= n <= |p|
    ensures wire + p[m..n] + (p + rest)[n..] == wire + (p + rest)[m..]
  {
  }

  /** A place kept beyond the sent part is filled alike in the queue and in all that was added. */
  lemma FillUnsent(wire: seq<Cell>, a: seq<Cell>, b: seq<Cell>, id: nat, x: seq<Cell>, sent: nat)
    requires Hole(id) !in wire && Hole(id) !in a && Hole(id) !in b && sent <= |a|
    ensures Fill(wire + (a + [Hole(id)] + b)[sent..], id, x) == wire + (a + x + b)[sent..]
  {
    FillReserved(wire + a[sent..], b, id, x);
    assert wire + (a + [Hole(id)] + b)[sent..] == wire + a[sent..] + [Hole(id)] + b;
    assert wire + (a + x + b)[sent..] == wire + a[sent..] + x + b;
  }

  /** Filling node i, and joining it with the next string. */
  function Filled(l: seq<Node>, i: nat, x: seq<Byte>): seq<Node>
    requires i < |l|
  {
    if i + 1 < |l| && l[i + 1].Chunk? then l[..i] + [Chunk(x + l[i + 1].bytes)] + l[i + 2..]
    else l[i := Chunk(x)]
  }

  lemma FilledNode(l: seq<Node>, i: nat, x: seq<Byte>)
    requires i < |l|
    ensures ListCells(Filled(l, i, x)) == ListCells(l[..i]) + (Cells(x) + ListCells(l[i + 1..]))
  {
    if i + 1 < |l| && l[i + 1].Chunk? {
      var y := l[i + 1].bytes;
      CellsConcat(x, y);
      assert l[i + 1..] == [Chunk(y)] + l[i + 2..];
      ListCellsConcat([Chunk(y)], l[i + 2..]);
      ListCellsOne(Chunk(y));
      Spliced(l[..i], x + y, l[i + 2..]);
      Associates(Cells(x), Cells(y), ListCells(l[i + 2..]));
    } else {
      assert l[i := Chunk(x)] == l[..i] + [Chunk(x)] + l[i + 1..];
      Spliced(l[..i], x, l[i + 1..]);
    }
  }

  lemma Spliced(l: seq<Node>, x: seq<Byte>, m: seq<Node>)
    ensures ListCells(l + [Chunk(x)] + m) == ListCells(l) + (Cells(x) + ListCells(m))
  {
    AppendNode(l, x);
    ListCellsConcat(l + [Chunk(x)], m);
    Associates(ListCells(l), Cells(x), ListCells(m));
  }

  lemma UnsentFilled(wire: seq<Byte>, front: seq<Byte>, l: seq<Node>, sent: nat, i: nat, id: nat, x: seq<Byte>,
      next: nat)
    requires Distinct(l, next) && Within(front, l, sent) && i < |l| && l[i] == Reserved(id)
    ensures Within(front, Filled(l, i, x), sent) && Distinct(Filled(l, i, x), next) && Reserved(id) !in Filled(l, i, x)
    ensures Fill(Cells(wire) + Unsent(front, l, sent), id, Cells(x))
      == Cells(wire) + Unsent(front, Filled(l, i, x), sent)
  {
    if i > 0 { FirstNodeSize(l, i); }
    FilledDistinct(l, i, x, next);
    FilledNode(l, i, x);
    ReservedNode(l, i, id, next);
    CellsNoHole(wire, id);
    CellsNoHole(front, id);
    var before, after := ListCells(l[..i]), ListCells(l[i + 1..]);
    FillUnsent(Cells(wire), Cells(front) + before, after, id, Cells(x), sent);
    Regroup(Cells(front), before, Cells(x), after);
    Regroup(Cells(front), before, [Hole(id)], after);
  }

  lemma ReservedNode(l: seq<Node>, i: nat, id: nat, next: nat)
    requires Distinct(l, next) && i < |l| && l[i] == Reserved(id)
    ensures ListCells(l) == ListCells(l[..i]) + [Hole(id)] + ListCells(l[i + 1..])
    ensures Hole(id) !in ListCells(l[..i]) && Hole(id) !in ListCells(l[i + 1..])
  {
    assert l == l[..i] + [Reserved(id)] + l[i + 1..];
    AppendReserved(l[..i], id);
    ListCellsConcat(l[..i] + [Reserved(id)], l[i + 1..]);
    ListNoHole(l[..i], id);
    ListNoHole(l[i + 1..], id);
  }

  lemma Regroup(a: seq<Cell>, b: seq<Cell>, c: seq<Cell>, d: seq<Cell>)
    ensures a + b + c + d == a + (b + (c + d)) && a + b + c + d == a + (b + c + d)
  {
  }

  /** What is sent of the first node lies before any kept place. */
  lemma FirstNodeSize(l: seq<Node>, i: nat)
    requires 0 < i <= |l|
    ensures |ListCells(l[..i])| >= |NodeCells(l[0])|
  {
    assert l[..i][0] == l[0];
  }

  lemma FilledDistinct(l: seq<Node>, i: nat, x: seq<Byte>, next: nat)
    requires Distinct(l, next) && i < |l| && l[i].Reserved?
    ensures Distinct(Filled(l, i, x), next) && l[i] !in Filled(l, i, x)
  {
  }
}

/** The output side of networking.c: a static buffer, a list of strings and short writes. */
module Replies {
  import opened Bytes
  import opened ReplyCells
  import opened ReplySizes
  import AofFormat
  import Decimal
  import Multibulk

  const REDIS_REPLY_CHUNK_BYTES := 16 * 1024
  const REDIS_MAX_WRITE_PER_EVENT := 1024 * 64

  /** "*<length>\r\n". */
  function LengthLine(length: int): seq<Byte> {
    [42] + Decimal.Print(length) + [13, 10]
  }

  class Client {
    const buf: array<Byte>
    var bufpos: nat
    var sentlen: nat
    var reply: seq<Node>
    var closeAfterReply: bool
    const master: bool
    /** The next list node address. */
    var next: nat
    /** Everything taken from the queue to be sent. */
    var wire: seq<Byte>
    /** Everything added, in order. */
    ghost var added: seq<Cell>

    ghost predicate Sending()
      reads this, buf
    {
      && buf.Length == REDIS_REPLY_CHUNK_BYTES && bufpos <= buf.Length
      && Within(buf[..bufpos], reply, sentlen) && Distinct(reply, next)
    }

    /** Sent bytes, then the unsent buffer and list, are all that was added, in order. */
    ghost predicate Valid()
      reads this, buf
    {
      Sending() && added == Cells(wire) + Unsent(buf[..bufpos], reply, sentlen)
    }

    lemma AddedIsOwed()
      requires Valid()
      ensures added == Cells(wire) + Unsent(buf[..bufpos], reply, sentlen)
    {
    }

    constructor (master: bool)
      ensures Valid()
      ensures added == [] && wire == [] && reply == [] && !closeAfterReply && fresh(buf) && next == 0
      ensures this.master == master
    {
      this.master := master;
      buf := new Byte[REDIS_REPLY_CHUNK_BYTES](_ => 0);
      bufpos, sentlen, reply, closeAfterReply, next, wire, added := 0, 0, [], false, 0, [], [];
    }

    /** memcpy(c->buf+c->bufpos,s,len). */
    method CopyIn(s: seq<Byte>)
      requires bufpos + |s| <= buf.Length
      modifies buf
      ensures buf[..bufpos + |s|] == old(buf[..bufpos]) + s
    {
      for i := 0 to |s|
        invariant buf[..bufpos] == old(buf[..bufpos]) && buf[bufpos..bufpos + i] == s[..i]
      {
        buf[bufpos + i] := s[i];
      }
    }

    /** _addReplyToBuffer. */
    method AddToBuffer(s: seq<Byte>) returns (ok: bool)
      requires Valid()
      modifies `bufpos, `added, buf
      ensures Valid()
      ensures ok <==> closeAfterReply || (reply == [] && |s| <= buf.Length - old(bufpos))
      ensures !ok ==> added == old(added)
      ensures ok ==> added == old(added) + (if closeAfterReply then [] else Cells(s))
    {
      var available := buf.Length - bufpos;
      if closeAfterReply { return true; }
      if |reply| > 0 { return false; }
      if |s| > available { return false; }
      CopyIn(s);
      UnsentBuffered(wire, old(buf[..bufpos]), sentlen, s);
      bufpos := bufpos + |s|;
      added := added + Cells(s);
      return true;
    }

    /** _addReplyObjectToList, _addReplySdsToList and _addReplyStringToList. */
    method AddToList(s: seq<Byte>)
      requires Valid()
      modifies `reply, `added
      ensures Valid()
      ensures added == old(added) + (if closeAfterReply then [] else Cells(s))
    {
      if closeAfterReply { return; }
      ghost var was := reply;
      if |reply| == 0 {
        reply := reply + [Chunk(s)];
      } else {
        var tail := reply[|reply| - 1];
        if tail.Chunk? && |tail.bytes| + |s| <= REDIS_REPLY_CHUNK_BYTES {
          reply := reply[..|reply| - 1] + [Chunk(tail.bytes + s)];
        } else {
          reply := reply + [Chunk(s)];
        }
      }
      UnsentAppended(wire, buf[..bufpos], was, sentlen, s, REDIS_REPLY_CHUNK_BYTES, next);
      added := added + Cells(s);
    }

    /** addReplySds, addReplyString and addReply on a plain string; `ready` is the outcome of
        prepareClientToWrite. */
    method AddReply(s: seq<Byte>, ready: bool)
      requires Valid()
      modifies `bufpos, `added, `reply, buf
      ensures Valid()
      ensures added == old(added) + (if ready && !closeAfterReply then Cells(s) else [])
    {
      if !ready { return; }
      var ok := AddToBuffer(s);
      if !ok { AddToList(s); }
    }

    /** addReply on an integer object. */
    method AddReplyInt(n: int, ready: bool)
      requires Valid() && Decimal.LLONG_MIN <= n <= Decimal.LLONG_MAX
      modifies `bufpos, `added, `reply, buf
      ensures Valid()
      ensures added == old(added) + (if ready && !closeAfterReply then Cells(Decimal.Print(n)) else [])
    {
      if !ready { return; }
      var digits := Decimal.LongLongToString(n);
      if |reply| == 0 && buf.Length - bufpos >= 32 {
        var done := AddToBuffer(digits);
        if done { return; }
      }
      var ok := AddToBuffer(digits);
      if !ok { AddToList(digits); }
    }

    /** addDeferredMultiBulkLength: keep a place at the end of the list. */
    method AddDeferred(ready: bool) returns (node: Option<nat>)
      requires Valid()
      modifies `reply, `next, `added
      ensures Valid()
      ensures next == old(next) + if ready then 1 else 0
      ensures !ready ==> node == None && added == old(added) && reply == old(reply)
      ensures ready ==>
        node == Some(old(next)) && added == old(added) + [Hole(old(next))] && Reserved(old(next)) in reply
    {
      if !ready { return None; }
      UnsentReserved(wire, buf[..bufpos], reply, sentlen, next);
      reply := reply + [Reserved(next)];
      assert reply[|reply| - 1] == Reserved(next);
      node := Some(next);
      added := added + [Hole(next)];
      next := next + 1;
    }

    /** setDeferredMultiBulkLength, on a place kept and not yet filled. */
    method SetDeferred(node: Option<nat>, length: int)
      requires Valid() && (node.Some? ==> Reserved(node.value) in reply)
      modifies `reply, `added
      ensures Valid()
      ensures added == if node.None? then old(added) else Fill(old(added), node.value, Cells(LengthLine(length)))
      ensures node.Some? ==> Reserved(node.value) !in reply
    {
      if node.None? { return; }
      var ln :| 0 <= ln < |reply| && reply[ln] == Reserved(node.value);
      var len := LengthLine(length);
      UnsentFilled(wire, buf[..bufpos], reply, sentlen, ln, node.value, len, next);
      PutLength(ln, len);
      added := Fill(added, node.value, Cells(len));
    }

    /** The length becomes a node of its own or the start of the next. */
    method PutLength(ln: nat, len: seq<Byte>)
      requires ln < |reply| && reply[ln].Reserved?
      modifies `reply
      ensures reply == Filled(old(reply), ln, len)
    {
      if ln + 1 < |reply| && reply[ln + 1].Chunk? {
        reply := reply[..ln] + [Chunk(len + reply[ln + 1].bytes)] + reply[ln + 2..];
      } else {
        reply := reply[ln := Chunk(len)];
      }
    }

    /** Without kept places among the replies, no length is outstanding. */
    lemma NothingDeferred()
      requires Valid() && forall id :: Hole(id) !in added
      ensures Settled()
    {
      forall i | 0 <= i < |reply| ensures reply[i].Chunk? {
        if reply[i].Reserved? { HoleUnsent(buf[..bufpos], reply, sentlen, i); }
      }
    }

    /** What is left to be sent is at most what was ever added. */
    lemma LeftIsOwed()
      requires Valid() && Settled()
      ensures Total(Left()) <= |added|
    {
      PiecesTotal(buf[..bufpos], reply, sentlen);
    }

    lemma NothingKept(id: nat, x: seq<Cell>)
      requires Valid() && Reserved(id) !in reply
      ensures Fill(added, id, x) == added
    {
      CellsNoHole(wire, id);
      CellsNoHole(buf[..bufpos], id);
      ListNoHole(reply, id);
      FillAbsent(added, id, x);
    }

    /** One write from the static buffer: the socket took `n` bytes of what was offered. */
    method SentFromBuffer(n: nat)
      requires Valid() && 0 < bufpos && sentlen + n <= bufpos
      modifies `bufpos, `sentlen, `wire
      ensures Valid()
      ensures wire == old(wire + buf[sentlen..sentlen + n])
      ensures
        if old(sentlen + n == bufpos) then bufpos == 0 && sentlen == 0
        else bufpos == old(bufpos) && sentlen == old(sentlen) + n
    {
      if sentlen + n == bufpos { FinishBuffer(); } else { AdvanceBuffer(n); }
    }

    method FinishBuffer()
      requires Valid() && 0 < bufpos
      modifies `bufpos, `sentlen, `wire
      ensures Valid()
      ensures wire == old(wire + buf[sentlen..bufpos]) && bufpos == 0 && sentlen == 0
    {
      ghost var front := buf[..bufpos];
      assert front[sentlen..] == buf[sentlen..bufpos];
      UnsentDrained(wire, front, reply, sentlen);
      wire := wire + buf[sentlen..bufpos];
      bufpos, sentlen := 0, 0;
      assert buf[..bufpos] == [];
    }

    method AdvanceBuffer(n: nat)
      requires Valid() && sentlen + n < bufpos
      modifies `sentlen, `wire
      ensures Valid()
      ensures wire == old(wire + buf[sentlen..sentlen + n]) && sentlen == old(sentlen) + n
    {
      ghost var front := buf[..bufpos];
      assert front[sentlen..sentlen + n] == buf[sentlen..sentlen + n];
      UnsentWrite(wire, front, reply, sentlen, n);
      wire := wire + buf[sentlen..sentlen + n];
      sentlen := sentlen + n;
    }

    /** One write from the first node. */
    method SentFromList(n: nat)
      requires Valid() && bufpos == 0 && reply != [] && reply[0].Chunk?
      requires 0 < |reply[0].bytes| && sentlen + n <= |reply[0].bytes|
      modifies `reply, `sentlen, `wire
      ensures Valid()
      ensures wire == old(wire + reply[0].bytes[sentlen..sentlen + n])
      ensures reply == if old(sentlen + n == |reply[0].bytes|) then old(reply[1..]) else old(reply)
      ensures sentlen == if old(sentlen + n == |reply[0].bytes|) then 0 else old(sentlen) + n
    {
      if sentlen + n == |reply[0].bytes| { FinishNode(n); } else { AdvanceNode(n); }
    }

    method FinishNode(n: nat)
      requires Valid() && bufpos == 0 && reply != [] && reply[0].Chunk?
      requires 0 < |reply[0].bytes| == sentlen + n
      modifies `reply, `sentlen, `wire
      ensures Valid()
      ensures wire == old(wire + reply[0].bytes[sentlen..sentlen + n]) && reply == old(reply[1..]) && sentlen == 0
    {
      assert buf[..bufpos] == [];
      NodeDrained(wire, reply, sentlen, n, next);
      wire := wire + reply[0].bytes[sentlen..sentlen + n];
      reply, sentlen := reply[1..], 0;
    }

    method AdvanceNode(n: nat)
      requires Valid() && bufpos == 0 && reply != [] && reply[0].Chunk? && sentlen + n < |reply[0].bytes|
      modifies `sentlen, `wire
      ensures Valid()
      ensures wire == old(wire + reply[0].bytes[sentlen..sentlen + n]) && sentlen == old(sentlen) + n
    {
      assert buf[..bufpos] == [];
      NodeWrite(wire, reply, sentlen, n);
      wire := wire + reply[0].bytes[sentlen..sentlen + n];
      sentlen := sentlen + n;
    }

    method DropEmptyNode()
      requires Valid() && bufpos == 0 && reply != [] && reply[0] == Chunk([])
      modifies `reply
      ensures Valid()
      ensures reply == old(reply[1..]) && Left() == old(Left())
    {
      DropEmpty(reply);
      assert buf[..bufpos] == [];
      UnsentEmptyNode(reply);
      reply := reply[1..];
    }

    /** What is still to be sent, by the write. */
    function Left(): seq<nat>
      reads `bufpos, `sentlen, `reply
    {
      Pieces(bufpos, sentlen, reply)
    }

    /** No length is outstanding, as when control returns to the event loop. */
    predicate Settled()
      reads `reply
    {
      forall i :: 0 <= i < |reply| ==> reply[i].Chunk?
    }

    /** One write() of what comes first, taking at most `room` bytes; for a master, taking all of it
        without a write. */
    method SendOnce(room: nat) returns (nwritten: nat)
      requires Valid() && Settled() && (master || room > 0) && (bufpos > 0 || (reply != [] && reply[0].bytes != []))
      modifies `bufpos, `sentlen, `reply, `wire
      ensures Valid()
      ensures Settled() && old(wire) <= wire && |wire| == |old(wire)| + nwritten && nwritten > 0
      ensures master ==> bufpos == 0 && |reply| == |old(reply)| - if old(bufpos) > 0 then 0 else 1
      ensures nwritten == if master then Offer(old(Left())) else Accepted(room, Offer(old(Left())))
      ensures Left() == Take(old(Left()), nwritten)
    {
      if bufpos > 0 {
        nwritten := if !master && room < bufpos - sentlen then room else bufpos - sentlen;
        SendFromBuffer(nwritten);
      } else {
        assert buf[..bufpos] == [];
        nwritten := if !master && room < |reply[0].bytes| - sentlen then room else |reply[0].bytes| - sentlen;
        SendFromList(nwritten);
      }
    }

    /** SentFromBuffer, seen from the queue. */
    method SendFromBuffer(n: nat)
      requires Valid() && 0 < n && sentlen + n <= bufpos
      modifies `bufpos, `sentlen, `wire
      ensures Valid()
      ensures old(wire) <= wire && |wire| == |old(wire)| + n
      ensures Offer(old(Left())) == old(bufpos) - old(sentlen) && Left() == Take(old(Left()), n)
      ensures old(sentlen) + n == old(bufpos) ==> bufpos == 0
    {
      TakeFromBuffer(bufpos, sentlen, reply, n);
      SentFromBuffer(n);
    }

    /** SentFromList, seen from the queue. */
    method SendFromList(n: nat)
      requires Valid() && bufpos == 0 && reply != [] && reply[0].Chunk?
      requires 0 < n && sentlen + n <= |reply[0].bytes|
      modifies `reply, `sentlen, `wire
      ensures Valid()
      ensures old(wire) <= wire && |wire| == |old(wire)| + n
      ensures Offer(old(Left())) == |old(reply[0]).bytes| - old(sentlen) && Left() == Take(old(Left()), n)
      ensures reply == if old(sentlen + n == |reply[0].bytes|) then old(reply[1..]) else old(reply)
    {
      TakeFromList(sentlen, reply, n);
      SentFromList(n);
    }

    /** What the next write() returns, 0 once the results run out. */
    function Result(results: seq<int>, writes: nat): int {
      if writes < |results| then results[writes] else 0
    }

    method Rewind()
      requires Valid() && bufpos == 0 && reply == []
      modifies `sentlen
      ensures Valid()
      ensures Left() == old(Left())
    {
      assert buf[..bufpos] == [];
      sentlen := 0;
    }

    /** Everything is sent, or the limit is passed, or the next write takes nothing. */
    ghost predicate Stopped(result: int, totwritten: nat, relaxed: bool, blocked: bool)
      reads this
    {
      && (blocked ==> !master && result <= 0 && (bufpos > 0 || reply != []) && Total(Left()) > 0)
      && (blocked <==> (bufpos > 0 || reply != []) && !(totwritten > REDIS_MAX_WRITE_PER_EVENT && !relaxed))
    }

    /** Exactly what the writes took has left the queue; a master's queue loses what it loses. */
    ghost predicate Drained(pieces: seq<nat>, results: seq<int>, writes: nat, totwritten: nat)
      reads `bufpos, `sentlen, `reply
    {
      DrainedTo(Left(), pieces, results, writes, totwritten)
    }

    ghost predicate DrainedTo(left: seq<nat>, pieces: seq<nat>, results: seq<int>, writes: nat, totwritten: nat) {
      && totwritten + Total(left) == Total(pieces)
      && (!master ==>
          && writes <= |results| && left == AfterWrites(pieces, results, writes)
          && totwritten == Moved(pieces, results, writes))
    }

    lemma DrainedNext(left: seq<nat>, pieces: seq<nat>, results: seq<int>, writes: nat, totwritten: nat)
      requires DrainedTo(left, pieces, results, writes, totwritten)
      ensures !master && writes < |results| && results[writes] > 0 ==>
        var n := Accepted(results[writes], Offer(left));
        DrainedTo(Take(left, n), pieces, results, writes + 1, totwritten + n)
      ensures master ==> DrainedTo(Take(left, Offer(left)), pieces, results, writes, totwritten + Offer(left))
    {
      TakeTotal(left, Offer(left));
      if !master && writes < |results| && results[writes] > 0 {
        TakeTotal(left, Accepted(results[writes], Offer(left)));
      }
    }

    /** One round of the loop of sendReplyToClient. */
    method SendNext(results: seq<int>, writes0: nat, totwritten0: nat, ghost pieces: seq<nat>)
      returns (writes: nat, totwritten: nat)
      requires Valid() && Settled() && (bufpos > 0 || (reply != [] && reply[0].bytes != []))
      requires Drained(pieces, results, writes0, totwritten0) && (master || Result(results, writes0) > 0)
      modifies `bufpos, `sentlen, `reply, `wire
      ensures Valid()
      ensures Settled() && old(wire) <= wire && |wire| == |old(wire)| + totwritten - totwritten0
      ensures Drained(pieces, results, writes, totwritten)
      ensures totwritten > totwritten0 && writes == writes0 + if master then 0 else 1
      ensures master ==> bufpos == 0 && |reply| == |old(reply)| - if old(bufpos) > 0 then 0 else 1
    {
      DrainedNext(Left(), pieces, results, writes0, totwritten0);
      var nwritten := SendOnce(if master then 0 else Result(results, writes0));
      writes, totwritten := writes0 + if master then 0 else 1, totwritten0 + nwritten;
    }

    lemma SomethingLeft()
      requires Valid() && (bufpos > 0 || (reply != [] && reply[0].Chunk? && reply[0].bytes != []))
      ensures Total(Left()) > 0
    {
      assert |buf[..bufpos]| == bufpos;
    }

    /** The loop of sendReplyToClient. */
    method SendAll(results: seq<int>, relaxed: bool) returns (writes: nat, totwritten: nat, blocked: bool)
      requires Valid() && Settled()
      modifies `bufpos, `sentlen, `reply, `wire
      ensures Valid()
      ensures Settled() && old(wire) <= wire && |wire| == |old(wire)| + totwritten
      ensures writes <= totwritten && if master then writes == 0 else writes <= |results|
      ensures Stopped(Result(results, writes), totwritten, relaxed, blocked)
      ensures Drained(old(Left()), results, writes, totwritten)
    {
      ghost var pieces := Left();
      writes, totwritten, blocked := 0, 0, false;
      while bufpos > 0 || |reply| > 0
        invariant Valid()
        invariant Settled() && old(wire) <= wire && |wire| == |old(wire)| + totwritten
        invariant writes <= totwritten && if master then writes == 0 else writes <= |results|
        invariant Drained(pieces, results, writes, totwritten)
        invariant !blocked && !(totwritten > REDIS_MAX_WRITE_PER_EVENT && !relaxed)
        decreases |results| - writes, |reply|, bufpos
      {
        if bufpos == 0 && |reply[0].bytes| == 0 {
          DropEmptyNode();
          continue;
        }
        var room := Result(results, writes);
        if !master && room <= 0 {
          SomethingLeft();
          blocked := true;
          break;
        }
        writes, totwritten := SendNext(results, writes, totwritten, pieces);
        if totwritten > REDIS_MAX_WRITE_PER_EVENT && !relaxed { break; }
      }
    }

    /** sendReplyToClient. `results` are what write() returns, one for each call; `relaxed` says
        whether memory use lifts the limit on one event's output. It stops early only when a write
        takes nothing or the limit is passed. The client is freed when a write failed for good
        (`fatal`: errno is not EAGAIN), or when it was to be closed and everything is sent. The
        replies to a master are taken from the queue without any write. */
    method Send(results: seq<int>, fatal: bool, relaxed: bool) returns (writes: nat, totwritten: nat, freed: bool)
      requires Valid() && Settled()
      modifies `bufpos, `sentlen, `reply, `wire
      ensures Valid()
      ensures Settled() && old(wire) <= wire && |wire| == |old(wire)| + totwritten
      ensures writes <= totwritten && if master then writes == 0 else writes <= |results|
      ensures (bufpos > 0 || reply != []) ==>
        (!master && Result(results, writes) <= 0) || (totwritten > REDIS_MAX_WRITE_PER_EVENT && !relaxed)
      ensures Drained(old(Left()), results, writes, totwritten)
      ensures !master ==> totwritten <= Returned(results, writes)
      ensures !master && Honest(old(Left()), results, writes) ==> totwritten == Returned(results, writes)
      ensures relaxed && !master && Ample(results, Total(old(Left()))) ==> bufpos == 0 && reply == []
      ensures freed <==>
        if bufpos == 0 && reply == [] then closeAfterReply
        else
          !master && fatal && Result(results, writes) == -1
          && !(totwritten > REDIS_MAX_WRITE_PER_EVENT && !relaxed)
    {
      var blocked;
      ghost var pieces := Left();
      writes, totwritten, blocked := SendAll(results, relaxed);
      if !master { MovedIsReturned(pieces, results, writes); }
      freed := Conclude(blocked && Result(results, writes) == -1 && fatal);
    }

    /** What follows the loop; `failed` says that a write failed for good. */
    method Conclude(failed: bool) returns (freed: bool)
      requires Valid() && (failed ==> bufpos > 0 || reply != [])
      modifies `sentlen
      ensures Valid()
      ensures Left() == old(Left())
      ensures freed <==> if bufpos == 0 && reply == [] then closeAfterReply else failed
    {
      if failed { return true; }
      freed := false;
      if bufpos == 0 && |reply| == 0 {
        Rewind();
        freed := closeAfterReply;
      }
    }
  }

  // ---------------------------------------------------------------- runs

  type LongLong = x: int | Decimal.LLONG_MIN <= x <= Decimal.LLONG_MAX

  /** What commands and the event loop do with one client. */
  datatype Event =
    | Reply(bytes: seq<Byte>)
    | ReplyInt(value: LongLong)
    | Defer
    | SetLength(id: nat, length: int)
    | Writable(results: seq<int>, fatal: bool, relaxed: bool)

  /** A write that fails for good may free the client. */
  ghost predicate Frees(e: Event) {
    e.Writable? && e.fatal && -1 in e.results
  }

  /** How much an event may send at most: what write() reports. */
  ghost function MayMove(e: Event): nat {
    if e.Writable? then Returned(e.results, |e.results|) else 0
  }

  ghost function MayMoveAll(events: seq<Event>): nat {
    if events == [] then 0 else MayMoveAll(events[..|events| - 1]) + MayMove(events[|events| - 1])
  }

  /** A chance to send all that has been added, with no length outstanding. */
  ghost predicate Flushes(e: Event, added: seq<Cell>) {
    e.Writable? && e.relaxed && Ample(e.results, |added|) && forall id :: Hole(id) !in added
  }

  /** What an event adds to the cells: bytes, a kept place, or a length at its kept place. */
  ghost function Effect(cs: seq<Cell>, deferred: nat, e: Event): seq<Cell> {
    match e
    case Reply(bytes) => cs + Cells(bytes)
    case ReplyInt(value) => cs + Cells(Decimal.Print(value))
    case Defer => cs + [Hole(deferred)]
    case SetLength(id, length) => Fill(cs, id, Cells(LengthLine(length)))
    case Writable(_, _, _) => cs
  }

  /** All reply cells in the order added; the lengths are named in the order deferred. */
  ghost function Intended(events: seq<Event>): seq<Cell> {
    if events == [] then []
    else Effect(Intended(events[..|events| - 1]), Deferred(events[..|events| - 1]), events[|events| - 1])
  }

  ghost function Deferred(events: seq<Event>): nat {
    if events == [] then 0 else Deferred(events[..|events| - 1]) + if events[|events| - 1].Defer? then 1 else 0
  }

  /** One event. A length is set only while it is outstanding, and the socket is written to only
      when no length is. */
  method Handle(c: Client, e: Event) returns (freed: bool)
    requires c.Valid()
    requires !c.closeAfterReply
    modifies c, c.buf
    ensures c.Valid()
    ensures !c.closeAfterReply
    ensures old(c.wire) <= c.wire
    ensures c.added == Effect(old(c.added), old(c.next), e)
    ensures c.next == old(c.next) + if e.Defer? then 1 else 0
    ensures freed ==> Frees(e) && !c.master
    ensures !c.master ==> |c.wire| <= |old(c.wire)| + MayMove(e)
    ensures Flushes(e, old(c.added)) && !c.master ==> c.bufpos == 0 && c.reply == [] && !freed
  {
    freed := false;
    ghost var added := c.added;
    match e
    case Reply(bytes) => c.AddReply(bytes, true);
    case ReplyInt(value) => c.AddReplyInt(value, true);
    case Defer => var _ := c.AddDeferred(true);
    case SetLength(id, length) =>
      if Reserved(id) in c.reply {
        c.SetDeferred(Some(id), length);
      } else {
        c.NothingKept(id, Cells(LengthLine(length)));
      }
    case Writable(results, fatal, relaxed) =>
      if forall id :: Hole(id) !in added { c.NothingDeferred(); }
      if c.Settled() { freed := HandleWritable(c, e); }
  }

  method HandleWritable(c: Client, e: Event) returns (freed: bool)
    requires c.Valid() && c.Settled() && !c.closeAfterReply && e.Writable?
    modifies c`bufpos, c`sentlen, c`reply, c`wire
    ensures c.Valid()
    ensures old(c.wire) <= c.wire
    ensures freed ==> Frees(e) && !c.master
    ensures !c.master ==> |c.wire| <= |old(c.wire)| + MayMove(e)
    ensures Flushes(e, c.added) && !c.master ==> c.bufpos == 0 && c.reply == [] && !freed
  {
    c.LeftIsOwed();
    var writes, totwritten;
    writes, totwritten, freed := c.Send(e.results, e.fatal, e.relaxed);
    if !c.master { ReturnedGrows(e.results, writes, |e.results|); }
  }

  /** Over every run from a new client, the bytes sent followed by the unsent static buffer and
      list are exactly the replies in order, with each length at its reserved place. A master's
      replies leave the queue the same way, though nothing is written. The run covers all events, or
      ends where a failing write frees the client. No more is sent than write() reports. */
  method Run(events: seq<Event>, master: bool) returns (c: Client, n: nat)
    ensures n <= |events|
    ensures n < |events| ==> n > 0 && Frees(events[n - 1]) && !master
    ensures c.Valid()
    ensures Intended(events[..n]) == Cells(c.wire) + Unsent(c.buf[..c.bufpos], c.reply, c.sentlen)
    ensures !master ==> |c.wire| <= MayMoveAll(events[..n])
  {
    var freed;
    c, n, freed := HandleAll(events, master);
    c.AddedIsOwed();
  }

  /** After any run that has not freed the client, and with no length outstanding, one event with
      room for everything sends everything: what the socket has then are the replies in order. */
  method RunAndFlush(events: seq<Event>, e: Event) returns (c: Client, freed: bool)
    requires Flushes(e, Intended(events))
    ensures freed ==> exists i :: 0 <= i < |events| && Frees(events[i])
    ensures !freed ==> Cells(c.wire) == Intended(events)
  {
    var n;
    c, n, freed := HandleAll(events, false);
    if !freed {
      assert events[..n] == events;
      freed := Handle(c, e);
      c.AddedIsOwed();
      assert c.buf[..c.bufpos] == [];
    }
  }

  /** The client has taken in these events. */
  ghost predicate Owed(c: Client, events: seq<Event>)
    reads c
  {
    c.added == Intended(events) && c.next == Deferred(events)
  }

  /** It has sent no more than it may. */
  ghost predicate Sent(c: Client, events: seq<Event>)
    reads c
  {
    !c.master ==> |c.wire| <= MayMoveAll(events)
  }

  method HandleAll(events: seq<Event>, master: bool) returns (c: Client, n: nat, freed: bool)
    ensures n <= |events| && (!freed ==> n == |events|)
    ensures freed ==> n > 0 && Frees(events[n - 1]) && !master
    ensures fresh(c) && fresh(c.buf)
    ensures c.Valid()
    ensures !c.closeAfterReply && c.master == master
    ensures Owed(c, events[..n])
    ensures Sent(c, events[..n])
    decreases |events|
  {
    if events == [] {
      c := new Client(master);
      n, freed := 0, false;
    } else {
      var before, last := events[..|events| - 1], events[|events| - 1];
      c, n, freed := HandleAll(before, master);
      assert events[..n] == before[..n] && before + [last] == events;
      if !freed {
        assert before[..n] == before && events[..n + 1] == events;
        freed := HandleNext(c, before, last);
        n := n + 1;
      }
    }
  }

  method HandleNext(c: Client, ghost taken: seq<Event>, e: Event) returns (freed: bool)
    requires c.Valid()
    requires !c.closeAfterReply
    requires Owed(c, taken)
    requires Sent(c, taken)
    modifies c, c.buf
    ensures c.Valid()
    ensures !c.closeAfterReply
    ensures Owed(c, taken + [e])
    ensures Sent(c, taken + [e])
    ensures freed ==> Frees(e) && !c.master
  {
    IntendedStep(taken, e);
    assert (taken + [e])[..|taken|] == taken;
    freed := Handle(c, e);
  }

  lemma IntendedStep(events: seq<Event>, e: Event)
    ensures Intended(events + [e]) == Effect(Intended(events), Deferred(events), e)
    ensures Deferred(events + [e]) == Deferred(events) + if e.Defer? then 1 else 0
  {
    assert (events + [e])[..|events|] == events;
  }

  /** Kept places are named below the number of lengths deferred. */
  lemma {:induction false} HolesNamed(events: seq<Event>, id: nat)
    requires id >= Deferred(events)
    ensures Hole(id) !in Intended(events)
  {
    if events != [] {
      var before, e := events[..|events| - 1], events[|events| - 1];
      HolesNamed(before, id);
      match e
      case Reply(bytes) => CellsNoHole(bytes, id);
      case ReplyInt(value) => CellsNoHole(Decimal.Print(value), id);
      case SetLength(k, length) =>
        CellsNoHole(LengthLine(length), id);
        FillNoHole(Intended(before), k, Cells(LengthLine(length)), id);
      case _ =>
    }
  }

  /** A deferred length followed by its items comes out as the length line and then the items,
      after everything added before. */
  lemma DeferredInPlace(events: seq<Event>, body: seq<Byte>, length: int)
    ensures var id := Deferred(events);
      Intended(events + [Defer] + [Reply(body)] + [SetLength(id, length)])
        == Intended(events) + Cells(LengthLine(length)) + Cells(body)
  {
    var id := Deferred(events);
    IntendedStep(events, Defer);
    IntendedStep(events + [Defer], Reply(body));
    IntendedStep(events + [Defer] + [Reply(body)], SetLength(id, length));
    HolesNamed(events, id);
    CellsNoHole(body, id);
    FillReserved(Intended(events), Cells(body), id, Cells(LengthLine(length)));
  }

  /** A deferred length and as many bulks are an argument vector, as the append only file has them. */
  lemma LengthThenItems(items: Multibulk.Request, rest: seq<Byte>)
    requires AofFormat.Storable(items)
    ensures AofFormat.ParseRequest(LengthLine(|items|) + Multibulk.EncodeArgs(items) + rest)
      == AofFormat.Ok(items, rest)
  {
    assert LengthLine(|items|) == Multibulk.Header(Multibulk.STAR, |items|);
    AofFormat.RequestParsed(items, rest);
  }
}
