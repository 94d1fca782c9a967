/** How much of a reply queue a series of writes takes. */
module ReplySizes {
  import opened Bytes
  import opened ReplyCells

  /** The sizes of what is still to be sent of a list, without the first `sent` bytes; nothing is
      offered of an empty string. */
  function ListSizes(l: seq<Node>, sent: nat): seq<nat> {
    if l == [] then []
    else
      (if l[0].Chunk? && |l[0].bytes| > sent then [|l[0].bytes| - sent] else []) + ListSizes(l[1..], 0)
  }

  /** The same for the static buffer and then the list: each number is what one write is offered. */
  function Pieces(bufpos: nat, sent: nat, l: seq<Node>): seq<nat> {
    if bufpos > 0 then (if bufpos > sent then [bufpos - sent] else []) + ListSizes(l, 0) else ListSizes(l, sent)
  }

  function Offer(pieces: seq<nat>): nat {
    if pieces == [] then 0 else pieces[0]
  }

  /** What one write takes: what the socket has room for, at most what it is offered. */
  function Accepted(result: int, offer: nat): nat {
    if result <= 0 then 0 else if result < offer then result else offer
  }

  function Take(pieces: seq<nat>, n: nat): seq<nat> {
    if pieces == [] then []
    else if n < pieces[0] then [pieces[0] - n] + pieces[1..]
    else pieces[1..]
  }

  /** What is left after the first k writes. */
  function AfterWrites(pieces: seq<nat>, results: seq<int>, k: nat): seq<nat>
    requires k <= |results|
  {
    if k == 0 then pieces
    else
      var left := AfterWrites(pieces, results, k - 1);
      if results[k - 1] <= 0 then left else Take(left, Accepted(results[k - 1], Offer(left)))
  }

  /** How much they took. */
  function Moved(pieces: seq<nat>, results: seq<int>, k: nat): nat
    requires k <= |results|
  {
    if k == 0 then 0
    else Moved(pieces, results, k - 1) + Accepted(results[k - 1], Offer(AfterWrites(pieces, results, k - 1)))
  }

  function Positive(result: int): nat {
    if result > 0 then result else 0
  }

  function Total(pieces: seq<nat>): nat {
    if pieces == [] then 0 else pieces[0] + Total(pieces[1..])
  }

  /** What the first k writes return, failures apart. */
  function Returned(results: seq<int>, k: nat): nat
    requires k <= |results|
  {
    if k == 0 then 0 else Returned(results, k - 1) + Positive(results[k - 1])
  }

  // ---------------------------------------------------------------- laws

  lemma TakeTotal(pieces: seq<nat>, n: nat)
    requires n <= Offer(pieces)
    ensures n + Total(Take(pieces, n)) == Total(pieces)
  {
    if pieces != [] { assert ([pieces[0] - n] + pieces[1..])[1..] == pieces[1..]; }
  }

  /** What is taken is no longer there to be taken. */
  lemma {:induction false} MovedIsGone(pieces: seq<nat>, results: seq<int>, k: nat)
    requires k <= |results|
    ensures Moved(pieces, results, k) + Total(AfterWrites(pieces, results, k)) == Total(pieces)
  {
    if k > 0 {
      MovedIsGone(pieces, results, k - 1);
      var left := AfterWrites(pieces, results, k - 1);
      TakeTotal(left, Accepted(results[k - 1], Offer(left)));
    }
  }

  /** None of the first k writes reports more than it was offered. */
  ghost predicate Honest(pieces: seq<nat>, results: seq<int>, k: nat)
    requires k <= |results|
  {
    k == 0 || (Honest(pieces, results, k - 1) && results[k - 1] <= Offer(AfterWrites(pieces, results, k - 1)))
  }

  lemma AcceptedReturned(result: int, offer: nat)
    ensures Accepted(result, offer) <= Positive(result)
    ensures Accepted(result, offer) == Positive(result) <==> result <= offer
  {
  }

  /** No more moves than write() reports, and exactly that when it never reports more than it was
      offered. */
  lemma {:induction false} MovedIsReturned(pieces: seq<nat>, results: seq<int>, k: nat)
    requires k <= |results|
    ensures Moved(pieces, results, k) <= Returned(results, k)
    ensures Moved(pieces, results, k) == Returned(results, k) <==> Honest(pieces, results, k)
  {
    if k > 0 {
      MovedIsReturned(pieces, results, k - 1);
      AcceptedReturned(results[k - 1], Offer(AfterWrites(pieces, results, k - 1)));
    }
  }

  lemma {:induction false} ReturnedGrows(results: seq<int>, i: nat, k: nat)
    requires i <= k <= |results|
    ensures Returned(results, i) <= Returned(results, k)
    decreases k
  {
    if i < k { ReturnedGrows(results, i, k - 1); }
  }

  // ---------------------------------------------------------------- single steps

  lemma TakeFromBuffer(bufpos: nat, sent: nat, l: seq<Node>, n: nat)
    requires sent < bufpos && 0 < n && sent + n <= bufpos
    ensures Offer(Pieces(bufpos, sent, l)) == bufpos - sent && Pieces(bufpos, sent, l) != []
    ensures Take(Pieces(bufpos, sent, l), n)
      == if sent + n == bufpos then Pieces(0, 0, l) else Pieces(bufpos, sent + n, l)
  {
  }

  lemma TakeFromList(sent: nat, l: seq<Node>, n: nat)
    requires l != [] && l[0].Chunk? && sent < |l[0].bytes| && 0 < n && sent + n <= |l[0].bytes|
    ensures Offer(Pieces(0, sent, l)) == |l[0].bytes| - sent && Pieces(0, sent, l) != []
    ensures Take(Pieces(0, sent, l), n)
      == if sent + n == |l[0].bytes| then Pieces(0, 0, l[1..]) else Pieces(0, sent + n, l)
  {
  }

  lemma DropEmpty(l: seq<Node>)
    requires l != [] && l[0] == Chunk([])
    ensures Pieces(0, 0, l) == Pieces(0, 0, l[1..])
  {
  }

  // ---------------------------------------------------------------- the queue as a whole

  ghost predicate AllChunks(l: seq<Node>) {
    forall i :: 0 <= i < |l| ==> l[i].Chunk?
  }

  lemma {:induction false} ListTotal(l: seq<Node>)
    requires AllChunks(l)
    ensures Total(ListSizes(l, 0)) == |ListCells(l)|
  {
    if l != [] {
      ListTotal(l[1..]);
      var rest := ListSizes(l[1..], 0);
      assert ListSizes(l, 0) == if |l[0].bytes| > 0 then [|l[0].bytes|] + rest else rest;
      if |l[0].bytes| > 0 { assert ListSizes(l, 0)[1..] == rest; }
    }
  }

  /** Without lengths outstanding, the pieces hold all that is unsent. */
  lemma PiecesTotal(front: seq<Byte>, l: seq<Node>, sent: nat)
    requires Within(front, l, sent) && AllChunks(l)
    ensures Total(Pieces(|front|, sent, l)) == |Unsent(front, l, sent)|
  {
    ListTotal(l);
    var p := Pieces(|front|, sent, l);
    if front != [] {
      assert p[1..] == ListSizes(l, 0);
    } else if l != [] {
      ListTotal(l[1..]);
      if |l[0].bytes| > sent { assert p[1..] == ListSizes(l[1..], 0); }
    }
  }

  /** A place that is kept shows among the unsent cells. */
  lemma HoleUnsent(front: seq<Byte>, l: seq<Node>, sent: nat, i: nat)
    requires Within(front, l, sent) && i < |l| && l[i].Reserved?
    ensures Hole(l[i].id) in Unsent(front, l, sent)
  {
    var all := Cells(front) + ListCells(l);
    var at := HolePlace(l, i);
    if front == [] && sent > 0 { assert i > 0; }
    assert all[|front| + at] == Hole(l[i].id);
    assert all[sent..][|front| + at - sent] == all[|front| + at];
  }

  lemma {:induction false} HolePlace(l: seq<Node>, i: nat) returns (at: nat)
    requires i < |l| && l[i].Reserved?
    ensures at < |ListCells(l)| && ListCells(l)[at] == Hole(l[i].id)
    ensures i > 0 && l[0].Chunk? ==> at >= |l[0].bytes|
  {
    if i == 0 {
      at := 0;
    } else {
      var later := HolePlace(l[1..], i - 1);
      at := |NodeCells(l[0])| + later;
    }
  }

  /** The socket has room for everything, if need be byte by byte. */
  ghost predicate Ample(results: seq<int>, size: nat) {
    |results| >= size && forall i :: 0 <= i < |results| ==> results[i] > 0
  }
}
