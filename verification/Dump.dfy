/** Streams whose checksum is the CRC, rio.h and rio.c. */
module ChecksummedStream {
  import opened Bytes
  import opened Rio
  import opened Crc64
  import opened Sequences

  type Bits = Stream<bv8, bv64>

  function Concat(chunks: seq<seq<bv8>>): seq<bv8> {
    if chunks == [] then [] else chunks[0] + Concat(chunks[1..])
  }

  /** However the bytes are split between writes to memory or to a file, the checksum is that of all
      of them, and so is what was written when no write has failed. */
  method WriteAll(r: Bits, chunks: seq<seq<bv8>>)
    requires r.Valid() && r.update == Some(Crc)
    modifies r
    ensures r.Valid()
    ensures r.cksum == Crc(old(r.cksum), Concat(chunks))
    ensures !r.lost ==> !old(r.lost) && r.ptr == old(r.ptr) + Concat(chunks)
    ensures !r.file ==> r.lost == old(r.lost)
    ensures r.lost ==> old(r.lost) || (r.file && ([] in chunks || (exists f :: f in old(r.faults) && f.Fails?)))
  {
    var i := 0;
    ghost var was, c := r.ptr, r.cksum;
    assert chunks[0..] == chunks;
    while i < |chunks|
      invariant 0 <= i <= |chunks| && r.Valid()
      invariant !r.lost ==> !old(r.lost) && r.ptr + Concat(chunks[i..]) == was + Concat(chunks)
      invariant !r.file ==> r.lost == old(r.lost)
      invariant forall f :: f in r.faults ==> f in old(r.faults)
      invariant r.lost ==> old(r.lost) || (r.file && ([] in chunks || (exists f :: f in old(r.faults) && f.Fails?)))
      invariant Crc(r.cksum, Concat(chunks[i..])) == Crc(c, Concat(chunks))
    {
      assert chunks[i..][1..] == chunks[i + 1..];
      CrcConcat(r.cksum, chunks[i], Concat(chunks[i + 1..]));
      ghost var before := r.ptr;
      assert r.faults != [] ==> r.faults[0] in r.faults;
      var ok := r.Write(chunks[i]);
      Associates(before, chunks[i], Concat(chunks[i + 1..]));
      i := i + 1;
    }
  }

  /** The number of bytes that reads of these lengths deliver from `available`: a read that
      cannot be served in full delivers nothing. */
  ghost function Served(lengths: seq<nat>, available: nat): (n: nat)
    ensures n <= available
  {
    if lengths == [] then 0
    else if lengths[0] <= available then lengths[0] + Served(lengths[1..], available - lengths[0])
    else Served(lengths[1..], available)
  }

  lemma ServedFirst(lengths: seq<nat>, i: nat, n: nat)
    requires i < |lengths|
    ensures Served(lengths[i..], n) ==
      if lengths[i] <= n then lengths[i] + Served(lengths[i + 1..], n - lengths[i]) else Served(lengths[i + 1..], n)
  {
    assert lengths[i..][1..] == lengths[i + 1..];
  }

  /** Of the bytes of `all`, those of `got` have been delivered and counted in. */
  ghost predicate Delivered(r: Bits, all: seq<bv8>, c: bv64, got: seq<bv8>)
    reads r
  {
    && r.Valid() && r.update == Some(Crc) && r.cksum == Crc(c, got)
    && |got| <= |all| && got == all[..|got|] && r.Rest() == all[|got|..]
  }

  /** However a stream is split between reads, the checksum is that of all bytes delivered. */
  method ReadAll(r: Bits, lengths: seq<nat>) returns (got: seq<bv8>)
    requires r.Valid() && r.update == Some(Crc)
    modifies r`pos, r`cksum
    ensures r.Valid()
    ensures got == old(r.Rest())[..Served(lengths, |old(r.Rest())|)] && r.Rest() == old(r.Rest())[|got|..]
    ensures r.cksum == Crc(old(r.cksum), got)
  {
    got := [];
    ghost var all, c := r.Rest(), r.cksum;
    assert lengths[0..] == lengths;
    for i := 0 to |lengths|
      invariant Delivered(r, all, c, got)
      invariant |got| + Served(lengths[i..], |all| - |got|) == Served(lengths, |all|)
    {
      ServedFirst(lengths, i, |all| - |got|);
      got := ReadNext(r, lengths[i], got, all, c);
    }
  }

  method ReadNext(r: Bits, length: nat, got0: seq<bv8>, ghost all: seq<bv8>, ghost c: bv64) returns (got: seq<bv8>)
    requires Delivered(r, all, c, got0)
    modifies r`pos, r`cksum
    ensures Delivered(r, all, c, got)
    ensures |got| == |got0| + if length <= |all| - |got0| then length else 0
  {
    got := got0;
    var data := r.Read(length);
    if data.Some? {
      CrcConcat(c, got, data.value);
      TakeMore(all, |got|, length);
      got := got + data.value;
    }
  }

  lemma TakeMore(all: seq<bv8>, m: nat, n: nat)
    requires m + n <= |all|
    ensures all[..m] + all[m..][..n] == all[..m + n] && all[m..][n..] == all[m + n..]
  {
  }
}

/** The footer of DUMP payloads, migrate.c. */
module Dump {
  import opened Crc64

  /** REDIS_RDB_VERSION, low byte first. */
  const VERSION: seq<bv8> := [6, 0]

  /** createDumpPayload: the serialized object, the version and the checksum of both. */
  method CreatePayload(body: seq<bv8>) returns (p: seq<bv8>)
    ensures body <= p && |p| == |body| + 10 && Accepted(p)
  {
    p := body + VERSION;
    ghost var m := p;
    var crc := Update(0, p);
    p := p + WordBytes(crc);
    assert p[..|p| - 8] == m && p[|p| - 8..] == WordBytes(crc);
    assert p[|p| - 10..|p| - 8] == m[|m| - 2..] == VERSION;
    Footer(p, m, crc);
  }

  /** The version is right and dividing the whole payload, checksum included, leaves nothing. */
  ghost predicate Accepted(p: seq<bv8>) {
    |p| >= 10 && p[|p| - 10..|p| - 8] == VERSION && Crc(0, p) == 0
  }

  /** The checksum in the footer is right exactly when division by it closes to zero. */
  lemma Footer(p: seq<bv8>, m: seq<bv8>, x: bv64)
    requires p == m + WordBytes(x)
    ensures Crc(0, p) == 0 <==> x == Crc(0, m)
  {
    CrcConcat(0, m, WordBytes(x));
    ChecksumCloses(Crc(0, m), x);
  }

  /** verifyDumpPayload. */
  method VerifyPayload(p: seq<bv8>) returns (ok: bool)
    ensures ok <==> Accepted(p)
  {
    if |p| < 10 { return false; }
    var footer := p[|p| - 10..];
    var rdbver := ((footer[1] as bv16) << 8) | (footer[0] as bv16);
    VersionBytes(footer[0], footer[1]);
    assert p[|p| - 10..|p| - 8] == [footer[0], footer[1]];
    if rdbver != 6 { return false; }
    var m := p[..|p| - 8];
    var crc := Update(0, m);
    ok := WordBytes(crc) == footer[2..];
    CompareChecksum(p, m, footer[2..], crc);
  }

  lemma VersionBytes(low: bv8, high: bv8)
    ensures ((high as bv16) << 8) | (low as bv16) == 6 <==> low == 6 && high == 0
  {
  }

  lemma CompareChecksum(p: seq<bv8>, m: seq<bv8>, stored: seq<bv8>, crc: bv64)
    requires |stored| == 8 && p == m + stored && crc == Crc(0, m)
    ensures WordBytes(crc) == stored <==> Crc(0, p) == 0
  {
    BytesOfWord(stored);
    Footer(p, m, Word(stored));
    WordOfBytes(crc);
  }

  /** No change confined to eight consecutive bytes of an accepted payload, be it in the object,
      the version, the checksum or across them, gives another accepted payload. */
  lemma CorruptionDetected(before: seq<bv8>, s: seq<bv8>, t: seq<bv8>, after: seq<bv8>)
    requires Accepted(before + s + after) && |s| == |t| <= 8 && s != t
    ensures !Accepted(before + t + after)
  {
    BurstDetected(0, before, s, t, after);
  }

  /** In particular, any single byte. */
  lemma ByteCorruptionDetected(p: seq<bv8>, i: nat, b: bv8)
    requires Accepted(p) && i < |p| && b != p[i]
    ensures !Accepted(p[i := b])
  {
    assert p == p[..i] + [p[i]] + p[i + 1..] && p[i := b] == p[..i] + [b] + p[i + 1..];
    CorruptionDetected(p[..i], [p[i]], [b], p[i + 1..]);
  }
}
