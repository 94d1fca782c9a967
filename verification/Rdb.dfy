/** The stored forms of a string, and what reading them gives. */
module RdbForm {
  import opened Bytes
  import opened CTypes
  import Decimal
  import Lzf

  const REDIS_RDB_LENERR := 0xFFFF_FFFF
  const ENC_INT8 := 0
  const ENC_INT16 := 1
  const ENC_INT32 := 2
  const ENC_LZF := 3

  // ---------------------------------------------------------------- lengths

  /** A length in 6, 14 or 32 bits; the top two bits of the first byte say which. */
  function EncodeLen(len: nat): seq<Byte>
    requires len < U32
  {
    if len < 0x40 then [len]
    else if len < 0x4000 then [0x40 + len / 256, len % 256]
    else [0x80] + BigEndian(len)
  }

  function BigEndian(len: nat): seq<Byte>
    requires len < U32
  {
    [len / 0x100_0000, len / 0x1_0000 % 256, len / 256 % 256, len % 256]
  }

  /** A length, an encoding (top bits 11), or the end of the input. */
  datatype LenParsed = Len(len: nat, used: nat) | Enc(enctype: nat) | LenEnd

  function ParseLen(bs: seq<Byte>): (r: LenParsed)
    ensures r.Len? ==> r.used <= |bs| && r.len < U32
    ensures r.Enc? ==> |bs| >= 1
  {
    if bs == [] then LenEnd
    else if bs[0] >= 0xC0 then Enc(bs[0] - 0xC0)
    else if bs[0] < 0x40 then Len(bs[0], 1)
    else if bs[0] < 0x80 then if |bs| < 2 then LenEnd else Len(FromTwo(bs[0] - 0x40, bs[1]), 2)
    else if |bs| < 5 then LenEnd else Len(FromBigEndian(bs[1..5]), 5)
  }

  function FromTwo(high: nat, low: nat): nat {
    256 * high + low
  }

  function FromBigEndian(bs: seq<Byte>): (n: nat)
    requires |bs| == 4
    ensures n < U32
  {
    0x1_0000 * FromTwo(bs[0], bs[1]) + FromTwo(bs[2], bs[3])
  }

  lemma LenRoundTrip(len: nat, more: seq<Byte>)
    requires len < U32
    ensures ParseLen(EncodeLen(len) + more) == Len(len, |EncodeLen(len)|)
  {
    var bs := EncodeLen(len) + more;
    if len < 0x40 {
      assert bs[0] == len;
    } else if len < 0x4000 {
      assert bs[0] == 0x40 + len / 256 && bs[1] == len % 256;
    } else {
      assert bs[0] == 0x80 && bs[1..5] == BigEndian(len);
      BigEndianRoundTrip(len);
    }
  }

  lemma BigEndianRoundTrip(len: nat)
    requires len < U32
    ensures FromBigEndian(BigEndian(len)) == len
  {
    assert len / 0x100_0000 == len / 256 / 256 / 256 && len / 0x1_0000 == len / 256 / 256;
  }

  // ---------------------------------------------------------------- integers

  /** The low k bytes of a two's complement integer, least significant first. */
  function LittleEndian(v: int, k: nat): (bs: seq<Byte>)
    ensures |bs| == k
    decreases k
  {
    if k == 0 then [] else [v % 256] + LittleEndian(v / 256, k - 1)
  }

  function Unsigned(bs: seq<Byte>): nat {
    if bs == [] then 0 else bs[0] + 256 * Unsigned(bs[1..])
  }

  function Pow256(k: nat): (p: nat)
    ensures p > 0
  {
    if k == 0 then 1 else 256 * Pow256(k - 1)
  }

  /** The integer whose low bytes these are: a conversion to the signed type of that width. */
  function Signed(bs: seq<Byte>): int {
    var v := Unsigned(bs);
    if 2 * v >= Pow256(|bs|) then v - Pow256(|bs|) else v
  }

  lemma {:induction false} UnsignedOfLittleEndian(v: int, k: nat, p: int)
    requires p == Pow256(k) && -p <= v < p
    ensures Unsigned(LittleEndian(v, k)) == if v < 0 then v + p else v
    decreases k
  {
    if k > 0 {
      assert LittleEndian(v, k)[1..] == LittleEndian(v / 256, k - 1);
      UnsignedOfLittleEndian(v / 256, k - 1, Pow256(k - 1));
    }
  }

  lemma SignedRoundTrip(v: int, k: nat, p: int)
    requires p == Pow256(k) && -p <= 2 * v < p
    ensures Signed(LittleEndian(v, k)) == v
  {
    UnsignedOfLittleEndian(v, k, p);
  }

  /** The width of the encoding that holds v, 0 for none. */
  function Width(v: int): (k: nat)
    ensures k == 1 || k == 2 || k == 4 ==> var p: int := Pow256(k); -p <= 2 * v < p
    ensures k == 0 || k == 1 || k == 2 || k == 4
    ensures k == 0 <==> !(-0x8000_0000 <= v <= 0x7FFF_FFFF)
  {
    assert Pow256(1) == 256 && Pow256(2) == 0x1_0000 && Pow256(3) == 0x100_0000 && Pow256(4) == U32;
    if -0x80 <= v <= 0x7F then 1
    else if -0x8000 <= v <= 0x7FFF then 2
    else if -0x8000_0000 <= v <= 0x7FFF_FFFF then 4
    else 0
  }

  function EncodeInteger(v: int): seq<Byte>
    requires Width(v) > 0
  {
    var k := Width(v);
    [0xC0 + (if k == 1 then ENC_INT8 else if k == 2 then ENC_INT16 else ENC_INT32)] + LittleEndian(v, k)
  }

  lemma LittleEndianBytes(v: int)
    ensures LittleEndian(v, 1) == [v % 256] && LittleEndian(v, 2) == [v % 256, v / 256 % 256]
    ensures LittleEndian(v, 4) == [v % 256, v / 256 % 256, v / 256 / 256 % 256, v / 256 / 256 / 256 % 256]
  {
    assert LittleEndian(v / 256, 1) == [v / 256 % 256];
    assert LittleEndian(v / 256 / 256, 2) == [v / 256 / 256 % 256] + LittleEndian(v / 256 / 256 / 256, 1);
    assert LittleEndian(v / 256, 3) == [v / 256 % 256] + LittleEndian(v / 256 / 256, 2);
  }

  /** What some numbers and lengths are stored as. */
  lemma StoredExamples()
    ensures EncodeInteger(12) == [0xC0, 0x0C] && EncodeInteger(-1) == [0xC0, 0xFF]
    ensures EncodeInteger(1000) == [0xC1, 0xE8, 0x03] && EncodeInteger(-129) == [0xC1, 0x7F, 0xFF]
    ensures EncodeInteger(100_000) == [0xC2, 0xA0, 0x86, 0x01, 0x00]
    ensures EncodeLen(63) == [0x3F] && EncodeLen(700) == [0x42, 0xBC]
    ensures EncodeLen(100_000) == [0x80, 0x00, 0x01, 0x86, 0xA0]
  {
    LittleEndianBytes(12);
    LittleEndianBytes(-1);
    LittleEndianBytes(1000);
    LittleEndianBytes(-129);
    LittleEndianBytes(100_000);
  }

  // ---------------------------------------------------------------- strings

  function Verbatim(s: seq<Byte>): seq<Byte> {
    EncodeLen(|s| % U32) + s
  }

  function Packed(c: seq<Byte>, len: nat): seq<Byte>
    requires |c| < U32 && len < U32
  {
    [0xC0 + ENC_LZF] + EncodeLen(|c|) + EncodeLen(len) + c
  }

  /** e is one of the stored forms of s. */
  ghost predicate StringForm(e: seq<Byte>, s: seq<Byte>) {
    || e == Verbatim(s)
    || (exists v :: Width(v) > 0 && e == EncodeInteger(v) && s == Decimal.Print(v))
    || (exists c :: 0 < |c| && PacksTo(e, c, s))
  }

  ghost predicate PacksTo(e: seq<Byte>, c: seq<Byte>, s: seq<Byte>) {
    |c| < U32 - 1 && |s| < U32 && e == Packed(c, |s|) && Lzf.Unpack(c, [], |s|) == Lzf.Ok(s)
  }

  /** What reading a string gives: the string and the bytes it took; a compressed string shorter
      than announced; no object; an encoding the reader stops at; or an empty compressed block,
      past which the decompressor would read. */
  datatype Parsed =
    | Text(s: seq<Byte>, used: nat)
    | Short(prefix: seq<Byte>, len: nat, used: nat)
    | Null
    | Panic
    | Overread

  function ParseInteger(bs: seq<Byte>, k: nat): Parsed {
    if |bs| < k then Null else Text(Decimal.Print(Signed(bs[..k])), 1 + k)
  }

  /** rdbLoadLen without the encoding flag: an encoding is taken as a length. */
  function PlainLen(p: LenParsed): (r: Option<(nat, nat)>) {
    match p
    case Len(len, used) => if len == REDIS_RDB_LENERR then None else Some((len, used))
    case Enc(t) => Some((t, 1))
    case LenEnd => None
  }

  datatype Header = Header(clen: nat, len: nat, used: nat)

  /** The compressed and the full length, and how many bytes they took. */
  function ParseHeader(bs: seq<Byte>): (r: Option<Header>)
    ensures r.Some? ==> r.value.used <= |bs|
  {
    var c := PlainLen(ParseLen(bs));
    if c.None? then None else
    var l := PlainLen(ParseLen(bs[c.value.1..]));
    if l.None? then None else
    Some(Header(c.value.0, l.value.0, c.value.1 + l.value.1))
  }

  function ParsePacked(bs: seq<Byte>, file: bool): Parsed {
    match ParseHeader(bs)
    case None => Null
    case Some(h) => ParseBlock(bs[h.used..], h.clen, h.len, 1 + h.used, file)
  }

  function ParseBlock(rest: seq<Byte>, clen: nat, len: nat, used: nat, file: bool): Parsed {
    if |rest| < clen || (file && clen == 0) then Null
    else if clen == 0 then Overread
    else match Lzf.Unpack(rest[..clen], [], len)
      case Ok(d) => if |d| == len then Text(d, used + clen) else Short(d, len, used + clen)
      case Err(_) => Null
  }

  function ParseString(bs: seq<Byte>, file: bool): Parsed {
    match ParseLen(bs)
    case LenEnd => Null
    case Enc(t) =>
      if t == ENC_INT8 then ParseInteger(bs[1..], 1)
      else if t == ENC_INT16 then ParseInteger(bs[1..], 2)
      else if t == ENC_INT32 then ParseInteger(bs[1..], 4)
      else if t == ENC_LZF then ParsePacked(bs[1..], file)
      else Panic
    case Len(len, used) =>
      if len == REDIS_RDB_LENERR || |bs| - used < len then Null
      else Text(bs[used..used + len], used + len)
  }

  /** An empty compressed block in memory, whatever the header says otherwise, and nothing else makes
      the decompressor read past what was loaded. */
  lemma OverreadExactly(bs: seq<Byte>, file: bool)
    ensures ParseString(bs, file) == Overread <==>
      !file && bs != [] && bs[0] == 0xC0 + ENC_LZF && ParseHeader(bs[1..]).Some? && ParseHeader(bs[1..]).value.clen == 0
  {
  }

  /** The shortest such input. */
  lemma OverreadExample()
    ensures ParseString([0xC3, 0, 0], false) == Overread
  {
    assert [0xC3, 0, 0][1..] == [0, 0] && [0, 0][1..] == [0];
    assert ParseHeader([0, 0]) == Some(Header(0, 0, 2));
    OverreadExactly([0xC3, 0, 0], false);
  }

  // ---------------------------------------------------------------- reading undoes writing

  /** A verbatim string is read back exactly when its length is below 2^32 - 1. */
  lemma VerbatimRoundTrip(s: seq<Byte>, more: seq<Byte>, file: bool)
    ensures ParseString(Verbatim(s) + more, file) == Text(s, |Verbatim(s)|) <==> |s| < REDIS_RDB_LENERR
  {
    var e := EncodeLen(|s| % U32);
    assert Verbatim(s) + more == e + (s + more);
    LenRoundTrip(|s| % U32, s + more);
    assert (e + (s + more))[|e|..] == s + more;
    if |s| < REDIS_RDB_LENERR {
      assert (e + (s + more))[|e|..|e| + |s|] == s;
    }
  }

  lemma DigitsRoundTrip(v: int, k: nat, more: seq<Byte>)
    requires var p: int := Pow256(k); -p <= 2 * v < p
    ensures ParseInteger(LittleEndian(v, k) + more, k) == Text(Decimal.Print(v), 1 + k)
  {
    assert (LittleEndian(v, k) + more)[..k] == LittleEndian(v, k);
    SignedRoundTrip(v, k, Pow256(k));
  }

  lemma IntegerRoundTrip(v: int, more: seq<Byte>, file: bool)
    requires Width(v) > 0
    ensures ParseString(EncodeInteger(v) + more, file) == Text(Decimal.Print(v), |EncodeInteger(v)|)
  {
    var le := LittleEndian(v, Width(v));
    FirstByte(EncodeInteger(v)[0], le, more);
    assert EncodeInteger(v) == [EncodeInteger(v)[0]] + le;
    DigitsRoundTrip(v, Width(v), more);
  }

  lemma LensRoundTrip(n: nat, m: nat, rest: seq<Byte>)
    requires n < REDIS_RDB_LENERR && m < REDIS_RDB_LENERR
    ensures ParseHeader(EncodeLen(n) + (EncodeLen(m) + rest)) == Some(Header(n, m, |EncodeLen(n)| + |EncodeLen(m)|))
  {
    var l1, l2 := EncodeLen(n), EncodeLen(m);
    LenRoundTrip(n, l2 + rest);
    LenRoundTrip(m, rest);
    DropTwo(l1, l2, rest);
  }

  lemma FirstByte(b: Byte, rest: seq<Byte>, more: seq<Byte>)
    ensures ([b] + rest + more)[0] == b && ([b] + rest + more)[1..] == rest + more
  {
  }

  lemma Nested(a: seq<Byte>, b: seq<Byte>, c: seq<Byte>, d: seq<Byte>)
    ensures a + b + c + d == a + (b + (c + d))
  {
  }

  lemma DropTwo(a: seq<Byte>, b: seq<Byte>, rest: seq<Byte>)
    ensures (a + (b + rest))[|a|..] == b + rest && (a + (b + rest))[|a| + |b|..] == rest
  {
  }

  lemma PackedRoundTrip(e: seq<Byte>, c: seq<Byte>, s: seq<Byte>, more: seq<Byte>, file: bool)
    requires PacksTo(e, c, s) && 0 < |c| && 0 < |s| < REDIS_RDB_LENERR
    ensures ParseString(e + more, file) == Text(s, |e|)
  {
    var l1, l2 := EncodeLen(|c|), EncodeLen(|s|);
    FirstByte(0xC0 + ENC_LZF, l1 + l2 + c, more);
    assert e == [0xC0 + ENC_LZF] + (l1 + l2 + c);
    Nested(l1, l2, c, more);
    BlockRoundTrip(l1, l2, c, s, more, file);
  }

  lemma BlockRoundTrip(l1: seq<Byte>, l2: seq<Byte>, c: seq<Byte>, s: seq<Byte>, more: seq<Byte>, file: bool)
    requires 0 < |c| < REDIS_RDB_LENERR && |s| < REDIS_RDB_LENERR && Lzf.Unpack(c, [], |s|) == Lzf.Ok(s)
    requires l1 == EncodeLen(|c|) && l2 == EncodeLen(|s|)
    ensures ParsePacked(l1 + (l2 + (c + more)), file) == Text(s, 1 + |l1| + |l2| + |c|)
  {
    LensRoundTrip(|c|, |s|, c + more);
    DropTwo(l1, l2, c + more);
    BlockParsed(c, s, more, 1 + |l1| + |l2|, file);
  }

  lemma BlockParsed(c: seq<Byte>, s: seq<Byte>, more: seq<Byte>, used: nat, file: bool)
    requires 0 < |c| && Lzf.Unpack(c, [], |s|) == Lzf.Ok(s)
    ensures ParseBlock(c + more, |c|, |s|, used, file) == Text(s, used + |c|)
  {
    assert (c + more)[..|c|] == c;
  }

  /** Every stored form is read back as its string, taking exactly its own bytes. */
  lemma StringRoundTrip(e: seq<Byte>, s: seq<Byte>, more: seq<Byte>, file: bool)
    requires StringForm(e, s) && |s| < REDIS_RDB_LENERR
    ensures ParseString(e + more, file) == Text(s, |e|)
  {
    if e == Verbatim(s) {
      VerbatimRoundTrip(s, more, file);
    } else if v :| Width(v) > 0 && e == EncodeInteger(v) && s == Decimal.Print(v) {
      IntegerRoundTrip(v, more, file);
    } else {
      var c :| 0 < |c| && PacksTo(e, c, s);
      Lzf.UnpackNonEmpty(c, s);
      PackedRoundTrip(e, c, s, more, file);
    }
  }

  /** The forms are never confused, not even as prefixes of each other. */
  lemma FormsDistinct(e: seq<Byte>, s: seq<Byte>, e': seq<Byte>, s': seq<Byte>, more: seq<Byte>, more': seq<Byte>)
    requires StringForm(e, s) && StringForm(e', s') && |s| < REDIS_RDB_LENERR && |s'| < REDIS_RDB_LENERR
    requires e + more == e' + more'
    ensures s == s' && e == e' && more == more'
  {
    StringRoundTrip(e, s, more, false);
    StringRoundTrip(e', s', more', false);
    assert e == (e + more)[..|e|] && e' == (e' + more')[..|e|];
    assert more == (e + more)[|e|..] && more' == (e' + more')[|e|..];
  }
}

/** Saving and loading strings, rdb.c. */
module Rdb {
  import opened Bytes
  import opened CTypes
  import opened RdbForm
  import opened Rio
  import opened Sequences
  import Decimal
  import Lzf

  /** rdbWriteRaw: the length as an int, or -1. */
  method WriteRaw<C>(rdb: Stream<Byte, C>, data: seq<Byte>) returns (n: int)
    requires rdb.Valid() && |data| < U32
    modifies rdb
    ensures rdb.Valid()
    ensures !rdb.lost ==> rdb.ptr == old(rdb.ptr) + data && n == Int32(|data|)
    ensures n == -1 || (n == Int32(|data|) && rdb.lost == old(rdb.lost))
    ensures n == -1 && !rdb.lost ==> |data| == U32 - 1
    ensures old(rdb.lost) ==> rdb.lost
    ensures !rdb.file ==> rdb.lost == old(rdb.lost)
    ensures data != [] && (old(rdb.faults) == [] || old(rdb.faults[0]) == Succeeds) ==>
      rdb.ptr == old(rdb.ptr) + data && n == Int32(|data|)
    ensures rdb.file && old(rdb.faults) != [] ==> rdb.faults == old(rdb.faults)[1..]
  {
    var ok := rdb.Write(data);
    return if ok then Int32(|data|) else -1;
  }

  // ---------------------------------------------------------------- lengths

  /** How many writes a length takes. */
  function Writes(len: nat): nat {
    if len < 0x4000 then 1 else 2
  }

  ghost predicate WritesFine(faults: seq<Fault>, k: nat) {
    k <= |faults| && forall i :: 0 <= i < k ==> faults[i] == Succeeds
  }

  /** The next k writes succeed, and after them the faults are `rest`. */
  ghost predicate ThenFaults(faults: seq<Fault>, k: nat, rest: seq<Fault>) {
    WritesFine(faults, k) && faults[k..] == rest
  }

  method SaveLen<C>(rdb: Stream<Byte, C>, len: nat) returns (n: int)
    requires rdb.Valid() && len < U32
    modifies rdb
    ensures rdb.Valid()
    ensures !rdb.lost ==> n == |EncodeLen(len)| && rdb.ptr == old(rdb.ptr) + EncodeLen(len)
    ensures n == -1 ==> rdb.lost
    ensures !rdb.file ==> rdb.lost == old(rdb.lost)
    ensures n == -1 || n == |EncodeLen(len)|
    ensures rdb.lost && !old(rdb.lost) && n != -1 ==> len >= 0x4000
    ensures old(rdb.lost) ==> rdb.lost
    ensures rdb.file && old(rdb.faults) == [Succeeds, Fails(0)] && len >= 0x4000 ==>
      n == 5 && rdb.ptr == old(rdb.ptr) + [0x80] && rdb.faults == []
    ensures rdb.file && WritesFine(old(rdb.faults), Writes(len)) ==>
      && n == |EncodeLen(len)| && rdb.ptr == old(rdb.ptr) + EncodeLen(len)
      && rdb.faults == old(rdb.faults)[Writes(len)..]
  {
    var ok;
    if len < 0x40 {
      ok := rdb.Write([len]);
      if !ok { return -1; }
      return 1;
    } else if len < 0x4000 {
      ok := rdb.Write([0x40 + len / 256, len % 256]);
      if !ok { return -1; }
      return 2;
    } else {
      ok := rdb.Write([0x80]);
      if !ok { return -1; }
      ok := rdb.Write(BigEndian(len)); // the result is compared with -4, which it never is
      return 5;
    }
  }

  /** Every length of 2^14 or more can be reported as written when its four bytes were not. */
  method UnreportedFailure(len: nat) returns (n: int, written: seq<Byte>)
    requires 0x4000 <= len < U32
    ensures n == |EncodeLen(len)| && written == [0x80]
  {
    var rdb := new Stream<Byte, int>(true, [], None, 0, [Succeeds, Fails(0)]);
    n := SaveLen(rdb, len);
    written := rdb.ptr;
  }

  /** rdbLoadLen: the length or encoding; None is REDIS_RDB_LENERR. */
  method LoadLen<C>(rdb: Stream<Byte, C>) returns (len: Option<nat>, isencoded: bool)
    requires rdb.Valid()
    modifies rdb`pos, rdb`cksum
    ensures rdb.Valid()
    ensures match ParseLen(old(rdb.Rest())) {
      case LenEnd => len == None && !isencoded
      case Enc(t) => len == Some(t) && isencoded && rdb.Rest() == old(rdb.Rest())[1..] && rdb.pos == old(rdb.pos) + 1
      case Len(n, used) =>
        && len == (if n == REDIS_RDB_LENERR then None else Some(n)) && !isencoded
        && rdb.Rest() == old(rdb.Rest())[used..] && rdb.pos == old(rdb.pos) + used
    }
  {
    ghost var bs := rdb.Rest();
    isencoded := false;
    var buf := rdb.Read(1);
    if buf == None { return None, false; }
    var b := buf.value[0];
    assert b == bs[0];
    if b / 64 == 3 { return Some(b % 64), true; }
    if b / 64 == 0 { return Some(b % 64), false; }
    if b / 64 == 1 {
      var buf1 := rdb.Read(1);
      if buf1 == None { return None, false; }
      assert buf1.value[0] == bs[1] && bs[1..][1..] == bs[2..];
      return Some(FromTwo(b % 64, buf1.value[0])), false;
    }
    var word := rdb.Read(4);
    if word == None { return None, false; }
    assert word.value == bs[1..5] && bs[1..][4..] == bs[5..];
    var n := FromBigEndian(word.value);
    return if n == REDIS_RDB_LENERR then None else Some(n), false;
  }

  // ---------------------------------------------------------------- integers

  lemma OneDigit(mem: seq<Byte>, from: nat, end: nat, value: nat)
    requires from <= end < |mem| && Decimal.IsDigit(mem[end])
    requires Decimal.AllDigits(mem[from..end]) && value == Decimal.Val(mem[from..end])
    ensures Decimal.AllDigits(mem[from..end + 1])
    ensures Decimal.Val(mem[from..end + 1]) == value * 10 + Decimal.DigitValue(mem[end])
    ensures Decimal.LeadingDigits(mem[end..], value)
      == Decimal.LeadingDigits(mem[end + 1..], value * 10 + Decimal.DigitValue(mem[end]))
  {
    var longer := mem[from..end + 1];
    assert longer == mem[from..end] + [mem[end]];
    assert longer[..|longer| - 1] == mem[from..end];
    assert mem[end..][1..] == mem[end + 1..];
  }

  /** The digits at `from`, and the number they denote. */
  method ReadDigits(mem: seq<Byte>, from: nat) returns (end: nat, value: nat)
    requires from < |mem| && mem[|mem| - 1] == 0
    ensures from <= end < |mem| && Decimal.AllDigits(mem[from..end]) && !Decimal.IsDigit(mem[end])
    ensures value == Decimal.Val(mem[from..end]) == Decimal.LeadingDigits(mem[from..], 0)
  {
    end, value := from, 0;
    while Decimal.IsDigit(mem[end])
      invariant from <= end < |mem| && Decimal.AllDigits(mem[from..end])
      invariant value == Decimal.Val(mem[from..end])
      invariant Decimal.LeadingDigits(mem[from..], 0) == Decimal.LeadingDigits(mem[end..], value)
      decreases |mem| - end
    {
      OneDigit(mem, from, end, value);
      value := value * 10 + Decimal.DigitValue(mem[end]);
      end := end + 1;
    }
  }

  /** strtoll in base 10 on zero-terminated memory: blanks, a sign, digits; out of range values
      become the nearest limit, and without digits the result is 0 at the start. */
  method StringToLongLong(mem: seq<Byte>) returns (value: int, endptr: nat)
    requires mem != [] && mem[|mem| - 1] == 0
    ensures endptr < |mem| && value == Decimal.Strtol(mem)
    ensures forall v :: Decimal.IsLongLong(v) && Decimal.Print(v) + [0] <= mem ==>
      value == v && endptr == |Decimal.Print(v)|
  {
    var i := 0;
    assert mem[i..] == mem;
    while Decimal.IsSpace(mem[i])
      invariant 0 <= i < |mem| && (i > 0 ==> Decimal.IsSpace(mem[0]))
      invariant Decimal.Number(mem) == Decimal.Number(mem[i..])
      decreases |mem| - i
    {
      i := i + 1;
    }
    var negative := mem[i] == Decimal.MINUS;
    var from := if mem[i] == Decimal.MINUS || mem[i] == 43 then i + 1 else i;
    var end, n := ReadDigits(mem, from);
    forall v | Decimal.Print(v) + [0] <= mem
      ensures i == 0 && negative == (v < 0) && from < end == |Decimal.Print(v)| && (if v < 0 then -v else v) == n
    {
      PrintedNumber(mem, v, i, from, end);
    }
    if end == from { return 0, 0; }
    var magnitude: int := n;
    value := if negative then -magnitude else magnitude;
    value := if value > Decimal.LLONG_MAX then Decimal.LLONG_MAX
      else if value < Decimal.LLONG_MIN then Decimal.LLONG_MIN else value;
    endptr := end;
  }

  lemma PrintedNumber(mem: seq<Byte>, v: int, i: nat, from: nat, end: nat)
    requires Decimal.Print(v) + [0] <= mem && i < |mem| && (i > 0 ==> Decimal.IsSpace(mem[0]))
    requires from == if mem[i] == Decimal.MINUS || mem[i] == 43 then i + 1 else i
    requires from <= end < |mem| && Decimal.AllDigits(mem[from..end]) && !Decimal.IsDigit(mem[end])
    ensures i == 0 && (mem[i] == Decimal.MINUS <==> v < 0)
    ensures from < end == |Decimal.Print(v)| && Decimal.Val(mem[from..end]) == if v < 0 then -v else v
  {
    var p, u := Decimal.Print(v), if v < 0 then -v else v;
    var digits := Decimal.PrintNat(u);
    Decimal.PrintNatIsCanonical(u);
    assert mem[0] == p[0];
    var start := if v < 0 then 1 else 0;
    assert start == from && mem[|p|] == 0;
    assert p[start..] == digits;
    assert mem[from..|p|] == digits;
    DigitsEnd(mem, digits, from, end);
  }

  /** Digits end where the printed digits do. */
  lemma DigitsEnd(mem: seq<Byte>, digits: seq<Byte>, from: nat, end: nat)
    requires from + |digits| < |mem| && mem[from..from + |digits|] == digits && Decimal.AllDigits(digits)
      && mem[from + |digits|] == 0
    requires from <= end < |mem| && Decimal.AllDigits(mem[from..end]) && !Decimal.IsDigit(mem[end])
    ensures end == from + |digits|
  {
    assert forall k :: from <= k < from + |digits| ==> mem[k] == digits[k - from];
    assert forall k :: from <= k < end ==> mem[k] == mem[from..end][k - from];
  }

  /** rdbTryIntegerEncoding: the encoding of s when it is the canonical decimal of a 32-bit
      integer. `after` is the memory behind s; behind a string object it starts with 0. */
  method TryIntegerEncoding(s: seq<Byte>, after: seq<Byte>) returns (enc: Option<seq<Byte>>)
    requires after != [] && after[|after| - 1] == 0
    ensures enc.Some? ==> exists v :: Width(v) > 0 && enc.value == EncodeInteger(v) && s == Decimal.Print(v)
    ensures after[0] == 0 ==> forall v :: Width(v) > 0 && s == Decimal.Print(v) ==> enc == Some(EncodeInteger(v))
  {
    var mem := s + after;
    var value, endptr := StringToLongLong(mem);
    if after[0] == 0 {
      forall v | Width(v) > 0 && s == Decimal.Print(v) ensures value == v && endptr == |s| {
        assert mem[..|s| + 1] == s + [0];
      }
    }
    if mem[endptr] != 0 { return None; }
    var buf := Decimal.LongLongToString(value);
    if buf != s { return None; }
    if Width(value) == 0 { return None; }
    return Some(EncodeInteger(value));
  }

  function IntegerBytes(enctype: nat): nat {
    if enctype == ENC_INT8 then 1 else if enctype == ENC_INT16 then 2 else 4
  }

  method LoadInteger<C>(rdb: Stream<Byte, C>, enctype: nat) returns (s: Option<seq<Byte>>)
    requires rdb.Valid() && (enctype == ENC_INT8 || enctype == ENC_INT16 || enctype == ENC_INT32)
    modifies rdb`pos, rdb`cksum
    ensures rdb.Valid()
    ensures match ParseInteger(old(rdb.Rest()), IntegerBytes(enctype)) {
      case Text(text, used) => s == Some(text) && rdb.pos == old(rdb.pos) + used - 1
      case _ => s == None
    }
  {
    var k := IntegerBytes(enctype);
    var enc := rdb.Read(k);
    if enc == None { return None; }
    var text := Decimal.LongLongToString(Signed(enc.value));
    return Some(text);
  }

  // ---------------------------------------------------------------- strings

  /** What was written at p0 starts with the stored form e of s. Unless its length is too big for an
      int, nothing more was written and n is that length. */
  ghost predicate SavedAs(p0: seq<Byte>, p1: seq<Byte>, n: int, s: seq<Byte>, e: seq<Byte>) {
    StringForm(e, s) && p0 + e <= p1 && (|e| <= INT_MAX ==> p1 == p0 + e && n == |e|)
  }

  ghost predicate Saved(p0: seq<Byte>, p1: seq<Byte>, n: int, s: seq<Byte>) {
    exists e :: SavedAs(p0, p1, n, s, e)
  }

  /** c is a compressed form of s that is used instead of s. */
  ghost predicate Packs(c: seq<Byte>, s: seq<Byte>) {
    0 < |c| <= |s| - 4 && Lzf.Unpack(c, [], |s|) == Lzf.Ok(s)
  }

  /** What is reported when all writes are taken to succeed, and what is written without the bytes of
      the length. */
  ghost function Reported(packed: Option<seq<Byte>>, s: seq<Byte>): nat
    requires |s| < U32 && (packed.Some? ==> |packed.value| <= |s|)
  {
    if packed == None then |Verbatim(s)| else |Packed(packed.value, |s|)|
  }

  ghost function Truncated(packed: Option<seq<Byte>>, s: seq<Byte>): (t: seq<Byte>)
    requires 0x4000 <= |s| < U32 && (packed.Some? ==> |packed.value| <= |s|)
    ensures |t| == Reported(packed, s) - 4
  {
    match packed
    case None => [0x80] + s
    case Some(c) => [0xC0 + ENC_LZF] + EncodeLen(|c|) + [0x80] + c
  }

  /** The writes of a string that is compressed, or is not, fail only with the bytes of its length. */
  ghost predicate Hides(faults: seq<Fault>, packed: Option<seq<Byte>>, s: seq<Byte>)
    requires |s| < U32 && (packed.Some? ==> |packed.value| <= |s|)
  {
    && 0x4000 <= |s| && Reported(packed, s) <= INT_MAX
    && ThenFaults(faults, if packed == None then 0 else Writes(|packed.value|) + 1, [Succeeds, Fails(0)])
  }

  /** With such faults the count is reported in full over a shorter stream. */
  ghost predicate Unreported(
      faults: seq<Fault>, p0: seq<Byte>, p1: seq<Byte>, n: int, packed: Option<seq<Byte>>, s: seq<Byte>)
    requires |s| < U32 && (packed.Some? ==> |packed.value| <= |s|)
  {
    Hides(faults, packed, s) ==> n == Reported(packed, s) && p1 == p0 + Truncated(packed, s)
  }

  /** rdbSaveLzfStringObject: 0 when the string does not shrink enough. A compressed form too long
      for an int is written, but not reported as it should be. */
  method SaveLzf<C>(rdb: Stream<Byte, C>, s: seq<Byte>, base: nat, htab: array<nat>)
    returns (n: int, ghost packed: Option<seq<Byte>>)
    requires rdb.Valid() && |s| < U32
    requires Lzf.MAX_OFF <= base && base + |s| < Lzf.WORD
    requires htab.Length == Lzf.HSIZE && forall i :: 0 <= i < Lzf.HSIZE ==> htab[i] < Lzf.WORD
    modifies rdb, htab
    ensures rdb.Valid()
    ensures n <= INT_MAX
    ensures !rdb.lost ==> (n == 0 && rdb.ptr == old(rdb.ptr)) || Saved(old(rdb.ptr), rdb.ptr, n, s)
    ensures packed == None ==> n == 0 && rdb.ptr == old(rdb.ptr) && rdb.faults == old(rdb.faults)
    ensures packed.Some? ==> Packs(packed.value, s)
    ensures |s| > 20 && Lzf.Constant(s) ==> packed.Some? && |packed.value| == Lzf.ConstantSize(|s|)
    ensures packed.Some? && rdb.file ==> Unreported(old(rdb.faults), old(rdb.ptr), rdb.ptr, n, packed, s)
    ensures n == -1 && !rdb.lost ==> |s| > INT_MAX - 12
    ensures !rdb.file ==> rdb.lost == old(rdb.lost)
    ensures rdb.lost && !old(rdb.lost) && n != -1 ==> |s| >= 0x4000
    ensures old(rdb.lost) ==> rdb.lost
  {
    packed := None;
    if |s| <= 4 { return 0, None; }
    var outlen := |s| - 4;
    var out := new Byte[outlen + 1](_ => 0);
    if Lzf.Constant(s) { Lzf.ConstantShrinks(|s|); }
    var comprlen := Lzf.Compress(s, base, htab, out);
    if comprlen == 0 { return 0, None; }
    packed := Some(out[..comprlen]);
    n := SavePacked(rdb, s, out[..comprlen]);
  }

  method SavePacked<C>(rdb: Stream<Byte, C>, s: seq<Byte>, c: seq<Byte>) returns (n: int)
    requires rdb.Valid() && Packs(c, s) && |s| < U32
    modifies rdb
    ensures rdb.Valid()
    ensures n <= INT_MAX
    ensures !rdb.lost ==> Saved(old(rdb.ptr), rdb.ptr, n, s)
    ensures !rdb.lost && n <= 0 ==> |s| > INT_MAX - 12
    ensures rdb.file ==> Unreported(old(rdb.faults), old(rdb.ptr), rdb.ptr, n, Some(c), s)
    ensures !rdb.file ==> rdb.lost == old(rdb.lost)
    ensures rdb.lost && !old(rdb.lost) && n != -1 ==> |s| >= 0x4000
    ensures old(rdb.lost) ==> rdb.lost
  {
    ghost var p0 := rdb.ptr;
    n := SavePackedHeader(rdb, |c|, |s|);
    if n == -1 { return -1; }
    var m := WriteRaw(rdb, c);
    if m == -1 { return -1; }
    PackedUnreported(old(rdb.faults), p0, c, s, n);
    if !rdb.lost {
      Associates(p0, [0xC0 + ENC_LZF] + EncodeLen(|c|) + EncodeLen(|s|), c);
      PackedSaved(p0, c, s, n);
    }
    n := Int32(n + m);
  }

  lemma PackedUnreported(faults: seq<Fault>, p0: seq<Byte>, c: seq<Byte>, s: seq<Byte>, n: int)
    requires Packs(c, s) && |s| < U32 && n == 1 + |EncodeLen(|c|)| + |EncodeLen(|s|)|
    ensures Unreported(
      faults, p0, p0 + ([0xC0 + ENC_LZF] + EncodeLen(|c|) + [0x80]) + c, Int32(n + Int32(|c|)), Some(c), s)
  {
    if Hides(faults, Some(c), s) {
      CountAsInt(n, |c|);
      Associates(p0, [0xC0 + ENC_LZF] + EncodeLen(|c|) + [0x80], c);
    }
  }

  method SavePackedHeader<C>(rdb: Stream<Byte, C>, clen: nat, len: nat) returns (n: int)
    requires rdb.Valid() && clen <= len < U32
    modifies rdb
    ensures rdb.Valid()
    ensures !rdb.lost ==> n != -1 && rdb.ptr == old(rdb.ptr) + ([0xC0 + ENC_LZF] + EncodeLen(clen) + EncodeLen(len))
    ensures n == -1 || n == 1 + |EncodeLen(clen)| + |EncodeLen(len)|
    ensures rdb.file && ThenFaults(old(rdb.faults), Writes(clen) + 1, [Succeeds, Fails(0)]) && len >= 0x4000 ==>
      n != -1 && rdb.faults == [] && rdb.ptr == old(rdb.ptr) + ([0xC0 + ENC_LZF] + EncodeLen(clen) + [0x80])
    ensures !rdb.file ==> rdb.lost == old(rdb.lost)
    ensures rdb.lost && !old(rdb.lost) && n != -1 ==> len >= 0x4000
    ensures old(rdb.lost) ==> rdb.lost
  {
    ghost var p0 := rdb.ptr;
    n := SaveTypeAndLen(rdb, clen);
    if n == -1 { return -1; }
    var n2 := SaveLen(rdb, len);
    if n2 == -1 { return -1; }
    Associates(p0, [0xC0 + ENC_LZF] + EncodeLen(clen), EncodeLen(len));
    Associates(p0, [0xC0 + ENC_LZF] + EncodeLen(clen), [0x80]);
    n := n + n2;
  }

  method SaveTypeAndLen<C>(rdb: Stream<Byte, C>, clen: nat) returns (n: int)
    requires rdb.Valid() && clen < U32
    modifies rdb
    ensures rdb.Valid()
    ensures !rdb.lost ==> n != -1 && rdb.ptr == old(rdb.ptr) + ([0xC0 + ENC_LZF] + EncodeLen(clen))
    ensures n == -1 || n == 1 + |EncodeLen(clen)|
    ensures rdb.file && ThenFaults(old(rdb.faults), Writes(clen) + 1, [Succeeds, Fails(0)]) ==>
      && n != -1 && rdb.faults == [Succeeds, Fails(0)]
      && rdb.ptr == old(rdb.ptr) + ([0xC0 + ENC_LZF] + EncodeLen(clen))
    ensures !rdb.file ==> rdb.lost == old(rdb.lost)
    ensures rdb.lost && !old(rdb.lost) && n != -1 ==> clen >= 0x4000
    ensures old(rdb.lost) ==> rdb.lost
  {
    ghost var p0 := rdb.ptr;
    n := WriteRaw(rdb, [0xC0 + ENC_LZF]);
    if n == -1 { return -1; }
    var n1 := SaveLen(rdb, clen);
    if n1 == -1 { return -1; }
    Associates(p0, [0xC0 + ENC_LZF], EncodeLen(clen));
    n := n + n1;
  }

  /** A count added up as ints is right when an int holds it, and not positive otherwise at first. */
  lemma CountAsInt(k: nat, n: nat)
    requires k <= 11 && n <= U32 - 5
    ensures k + n <= INT_MAX ==> Int32(k + Int32(n)) == k + n
    ensures Int32(k + Int32(n)) <= 0 ==> k + n > INT_MAX || k + n == 0
  {
  }

  lemma PackedSaved(p0: seq<Byte>, c: seq<Byte>, s: seq<Byte>, n: int)
    requires 0 < |c| <= |s| - 4 && |s| < U32 && Lzf.Unpack(c, [], |s|) == Lzf.Ok(s)
    requires n == 1 + |EncodeLen(|c|)| + |EncodeLen(|s|)|
    ensures Saved(p0, p0 + Packed(c, |s|), Int32(n + Int32(|c|)), s)
    ensures Int32(n + Int32(|c|)) <= 0 ==> |s| > INT_MAX - 12
  {
    CountAsInt(n, |c|);
    PackedForm(p0, c, s, Int32(n + Int32(|c|)));
  }

  lemma PackedForm(p0: seq<Byte>, c: seq<Byte>, s: seq<Byte>, n: int)
    requires 0 < |c| <= |s| - 4 && |s| < U32 && Lzf.Unpack(c, [], |s|) == Lzf.Ok(s)
    requires |Packed(c, |s|)| <= INT_MAX ==> n == |Packed(c, |s|)|
    ensures Saved(p0, p0 + Packed(c, |s|), n, s)
  {
    var e := Packed(c, |s|);
    assert PacksTo(e, c, s);
    assert SavedAs(p0, p0 + e, n, s, e);
  }

  /** rdbSaveRawString. A failed write is reported, unless it is that of a 32-bit length. */
  method SaveRawString<C>(rdb: Stream<Byte, C>, s: seq<Byte>, after: seq<Byte>, compression: bool, base: nat,
      htab: array<nat>)
    returns (n: int, ghost packed: Option<seq<Byte>>)
    requires rdb.Valid() && |s| < U32 && after != [] && after[|after| - 1] == 0
    requires Lzf.MAX_OFF <= base && base + |s| < Lzf.WORD
    requires htab.Length == Lzf.HSIZE && forall i :: 0 <= i < Lzf.HSIZE ==> htab[i] < Lzf.WORD
    modifies rdb, htab
    ensures rdb.Valid()
    ensures n <= INT_MAX
    ensures !rdb.lost ==> Saved(old(rdb.ptr), rdb.ptr, n, s)
    ensures !rdb.lost && after[0] == 0 ==>
      forall v :: Width(v) > 0 && s == Decimal.Print(v) ==> rdb.ptr == old(rdb.ptr) + EncodeInteger(v)
    ensures !rdb.lost && !compression && |s| > 11 ==> rdb.ptr == old(rdb.ptr) + Verbatim(s)
    ensures n == -1 && !rdb.lost ==> |s| > INT_MAX - 12
    ensures !rdb.file ==> rdb.lost == old(rdb.lost)
    ensures rdb.lost && !old(rdb.lost) && n != -1 ==> |s| >= 0x4000
    ensures packed.Some? ==> compression && Packs(packed.value, s)
    ensures compression && |s| > 20 && Lzf.Constant(s) ==>
      packed.Some? && |packed.value| == Lzf.ConstantSize(|s|)
    ensures rdb.file ==> Unreported(old(rdb.faults), old(rdb.ptr), rdb.ptr, n, packed, s)
  {
    packed := None;
    forall v | Width(v) > 0 && s == Decimal.Print(v) ensures |s| <= 11 { Decimal.PrintLength32(v); }
    if |s| <= 11 {
      var enc := TryIntegerEncoding(s, after);
      if enc.Some? {
        n := SaveInteger(rdb, s, enc.value);
        return;
      }
    }
    n, packed := SaveText(rdb, s, compression, base, htab);
  }

  method SaveInteger<C>(rdb: Stream<Byte, C>, s: seq<Byte>, enc: seq<Byte>) returns (n: int)
    requires rdb.Valid() && enc != [] && |enc| <= 5 && StringForm(enc, s)
    modifies rdb
    ensures rdb.Valid()
    ensures n <= INT_MAX
    ensures !rdb.lost ==> Saved(old(rdb.ptr), rdb.ptr, n, s) && rdb.ptr == old(rdb.ptr) + enc && n != -1
    ensures !rdb.file ==> rdb.lost == old(rdb.lost)
    ensures rdb.lost && !old(rdb.lost) ==> n == -1
  {
    n := WriteRaw(rdb, enc);
    assert !rdb.lost ==> SavedAs(old(rdb.ptr), rdb.ptr, n, s, enc);
  }

  /** A string that is no integer: compressed if that is wanted and worth it. */
  method SaveText<C>(rdb: Stream<Byte, C>, s: seq<Byte>, compression: bool, base: nat, htab: array<nat>)
    returns (n: int, ghost packed: Option<seq<Byte>>)
    requires rdb.Valid() && |s| < U32
    requires Lzf.MAX_OFF <= base && base + |s| < Lzf.WORD
    requires htab.Length == Lzf.HSIZE && forall i :: 0 <= i < Lzf.HSIZE ==> htab[i] < Lzf.WORD
    modifies rdb, htab
    ensures rdb.Valid()
    ensures n <= INT_MAX
    ensures !rdb.lost ==> Saved(old(rdb.ptr), rdb.ptr, n, s)
    ensures !rdb.lost && (!compression || |s| <= 20) ==> rdb.ptr == old(rdb.ptr) + Verbatim(s)
    ensures n == -1 && !rdb.lost ==> |s| > INT_MAX - 12
    ensures !rdb.file ==> rdb.lost == old(rdb.lost)
    ensures rdb.lost && !old(rdb.lost) && n != -1 ==> |s| >= 0x4000
    ensures packed.Some? ==> compression && Packs(packed.value, s)
    ensures compression && |s| > 20 && Lzf.Constant(s) ==>
      packed.Some? && |packed.value| == Lzf.ConstantSize(|s|)
    ensures rdb.file ==> Unreported(old(rdb.faults), old(rdb.ptr), rdb.ptr, n, packed, s)
  {
    packed := None;
    if compression && |s| > 20 {
      n, packed := SaveLzf(rdb, s, base, htab);
      if n == -1 { return; }
      if n > 0 { return; }
    }
    ghost var p := rdb.ptr;
    n := SaveVerbatim(rdb, s);
    if !rdb.lost && p != old(rdb.ptr) { SavedLonger(old(rdb.ptr), p, rdb.ptr, s); }
  }

  /** More may follow a form that is too long for an int. */
  lemma SavedLonger(p0: seq<Byte>, p1: seq<Byte>, p2: seq<Byte>, s: seq<Byte>)
    requires (exists n :: n <= 0 && Saved(p0, p1, n, s)) && p1 <= p2
    ensures forall n :: Saved(p0, p2, n, s)
  {
    var n :| n <= 0 && Saved(p0, p1, n, s);
    var e :| SavedAs(p0, p1, n, s, e);
    FormNonEmpty(e, s);
    forall n' ensures Saved(p0, p2, n', s) { assert SavedAs(p0, p2, n', s, e); }
  }

  lemma FormNonEmpty(e: seq<Byte>, s: seq<Byte>)
    requires StringForm(e, s)
    ensures e != []
  {
  }

  method SaveVerbatim<C>(rdb: Stream<Byte, C>, s: seq<Byte>) returns (n: int)
    requires rdb.Valid() && |s| < U32
    modifies rdb
    ensures rdb.Valid()
    ensures n <= INT_MAX
    ensures !rdb.lost ==> rdb.ptr == old(rdb.ptr) + Verbatim(s) && Saved(old(rdb.ptr), rdb.ptr, n, s)
    ensures n == -1 && !rdb.lost ==> |s| > INT_MAX - 12
    ensures !rdb.file ==> rdb.lost == old(rdb.lost)
    ensures rdb.lost && !old(rdb.lost) && n != -1 ==> |s| >= 0x4000
    ensures old(rdb.lost) ==> rdb.lost
    ensures rdb.file ==> Unreported(old(rdb.faults), old(rdb.ptr), rdb.ptr, n, None, s)
  {
    ghost var p0 := rdb.ptr;
    n := SaveLen(rdb, |s|);
    if n == -1 { return -1; }
    VerbatimSaved(p0, s, n);
    Associates(p0, [0x80], s);
    if |s| > 0 {
      var m := WriteRaw(rdb, s);
      if m == -1 { return -1; }
      n := Int32(n + |s|);
    }
  }

  /** The bytes of a verbatim form, in the order they are written. */
  lemma VerbatimBytes(p0: seq<Byte>, s: seq<Byte>)
    requires |s| < U32
    ensures p0 + Verbatim(s) == p0 + EncodeLen(|s|) + s
    ensures s == [] ==> p0 + Verbatim(s) == p0 + EncodeLen(|s|)
  {
    assert |s| % U32 == |s|;
    Associates(p0, EncodeLen(|s|), s);
  }

  lemma VerbatimSaved(p0: seq<Byte>, s: seq<Byte>, n: int)
    requires |s| < U32 && n == |EncodeLen(|s|)|
    ensures p0 + Verbatim(s) == p0 + EncodeLen(|s|) + s
    ensures s == [] ==> p0 + Verbatim(s) == p0 + EncodeLen(|s|)
    ensures Saved(p0, p0 + Verbatim(s), Int32(n + |s|), s)
    ensures Int32(n + |s|) == -1 ==> |s| > INT_MAX
    ensures forall m :: |s| > INT_MAX ==> Saved(p0, p0 + Verbatim(s), m, s)
  {
    VerbatimBytes(p0, s);
    assert SavedAs(p0, p0 + Verbatim(s), Int32(n + |s|), s, Verbatim(s));
    forall m | |s| > INT_MAX ensures Saved(p0, p0 + Verbatim(s), m, s) {
      assert SavedAs(p0, p0 + Verbatim(s), m, s, Verbatim(s));
    }
  }

  /** Every longer string can be reported as saved when the stream holds less of it. */
  method UnreportedString(s: seq<Byte>, htab: array<nat>) returns (n: int, written: seq<Byte>)
    requires 0x4000 <= |s| <= INT_MAX - 5
    requires htab.Length == Lzf.HSIZE && forall i :: 0 <= i < Lzf.HSIZE ==> htab[i] < Lzf.WORD
    modifies htab
    ensures n == |Verbatim(s)| && written == [0x80] + s && |written| < n
  {
    var rdb := new Stream<Byte, int>(true, [], None, 0, [Succeeds, Fails(0)]);
    ghost var packed;
    n, packed := SaveRawString(rdb, s, [0], false, Lzf.MAX_OFF, htab);
    written := rdb.ptr;
  }

  /** So can every one that is compressed, to whatever the compressor makes of it. */
  method UnreportedPacked(s: seq<Byte>, c: seq<Byte>) returns (n: int, written: seq<Byte>)
    requires 0x4000 <= |s| < U32 && Packs(c, s) && |Packed(c, |s|)| <= INT_MAX
    ensures n == |Packed(c, |s|)| && written == Truncated(Some(c), s) && |written| < n
  {
    var faults := seq(Writes(|c|) + 1, _ => Succeeds) + [Succeeds, Fails(0)];
    var rdb := new Stream<Byte, int>(true, [], None, 0, faults);
    n := SavePacked(rdb, s, c);
    written := rdb.ptr;
  }

  /** rdbSaveLongLongAsStringObject. */
  method SaveLongLong<C>(rdb: Stream<Byte, C>, value: int) returns (n: int)
    requires rdb.Valid() && Decimal.IsLongLong(value)
    modifies rdb
    ensures rdb.Valid()
    ensures !rdb.lost ==> Saved(old(rdb.ptr), rdb.ptr, n, Decimal.Print(value))
    ensures !rdb.lost ==>
      rdb.ptr == old(rdb.ptr) + if Width(value) > 0 then EncodeInteger(value) else Verbatim(Decimal.Print(value))
    ensures !old(rdb.lost) ==> (n == -1 <==> rdb.lost)
  {
    if Width(value) > 0 {
      n := WriteRaw(rdb, EncodeInteger(value));
      assert !rdb.lost ==> SavedAs(old(rdb.ptr), rdb.ptr, n, Decimal.Print(value), EncodeInteger(value));
      return;
    }
    var text := Decimal.LongLongToString(value);
    Decimal.PrintLength(value);
    n := SaveVerbatim(rdb, text);
  }

  datatype Loaded = Value(s: seq<Byte>) | NullObject | Panicked | PastEnd

  /** `o` is what the specification says of reading the stream, which has moved from p0 to p1. */
  ghost predicate Matches(o: Loaded, p: Parsed, p0: int, p1: int) {
    match p
    case Text(s, used) => o == Value(s) && p1 == p0 + used
    case Short(prefix, len, used) => o.Value? && |o.s| == len && prefix <= o.s && p1 == p0 + used
    case Null => o == NullObject
    case Panic => o == Panicked
    case Overread => o == PastEnd
  }

  /** rdbLoadLen(rdb,NULL). */
  method LoadPlainLen<C>(rdb: Stream<Byte, C>) returns (len: Option<nat>, ghost used: nat)
    requires rdb.Valid()
    modifies rdb`pos, rdb`cksum
    ensures rdb.Valid()
    ensures PlainLen(ParseLen(old(rdb.Rest()))) == if len == None then None else Some((len.value, used))
    ensures len.Some? ==>
      used <= |old(rdb.Rest())| && rdb.Rest() == old(rdb.Rest())[used..] && rdb.pos == old(rdb.pos) + used
  {
    var isencoded;
    used := rdb.pos;
    len, isencoded := LoadLen(rdb);
    used := if len == None then 0 else rdb.pos - used;
  }

  method LoadHeader<C>(rdb: Stream<Byte, C>) returns (clen: nat, len: nat, ok: bool, ghost h: Option<Header>)
    requires rdb.Valid()
    modifies rdb`pos, rdb`cksum
    ensures rdb.Valid()
    ensures h == ParseHeader(old(rdb.Rest())) && ok == h.Some?
    ensures ok ==>
      && clen == h.value.clen && len == h.value.len
      && rdb.Rest() == old(rdb.Rest())[h.value.used..] && rdb.pos == old(rdb.pos) + h.value.used
  {
    ghost var bs := rdb.Rest();
    var c, used := LoadPlainLen(rdb);
    if c == None { return 0, 0, false, None; }
    var l, used' := LoadPlainLen(rdb);
    if l == None { return 0, 0, false, None; }
    DropDrop(bs, used, used');
    return c.value, l.value, true, Some(Header(c.value, l.value, used + used'));
  }

  lemma DropDrop(bs: seq<Byte>, a: nat, b: nat)
    requires a + b <= |bs|
    ensures bs[a..][b..] == bs[a + b..]
  {
  }

  method LoadLzf<C>(rdb: Stream<Byte, C>) returns (o: Loaded)
    requires rdb.Valid()
    modifies rdb`pos, rdb`cksum
    ensures rdb.Valid()
    ensures Matches(o, ParsePacked(old(rdb.Rest()), rdb.file), old(rdb.pos) - 1, rdb.pos)
  {
    var clen, len, ok, h := LoadHeader(rdb);
    if !ok { return NullObject; }
    o := LoadBlock(rdb, clen, len, 1 + h.value.used);
  }

  method LoadBlock<C>(rdb: Stream<Byte, C>, clen: nat, len: nat, ghost used: nat) returns (o: Loaded)
    requires rdb.Valid()
    modifies rdb`pos, rdb`cksum
    ensures rdb.Valid()
    ensures Matches(o, ParseBlock(old(rdb.Rest()), clen, len, used, rdb.file), old(rdb.pos) - used, rdb.pos)
  {
    var val := new Byte[len](_ => 0);
    var c := rdb.Read(clen);
    if c == None { return NullObject; }
    if clen == 0 { return PastEnd; }
    var n, errno := Lzf.Decompress(c.value, val);
    if errno == None { Lzf.UnpackGrows(c.value, [], len); }
    if n == 0 { return NullObject; }
    assert val[..n] <= val[..];
    return Value(val[..]);
  }

  /** rdbGenericLoadStringObject. */
  method LoadString<C>(rdb: Stream<Byte, C>) returns (o: Loaded)
    requires rdb.Valid()
    modifies rdb`pos, rdb`cksum
    ensures rdb.Valid()
    ensures Matches(o, ParseString(old(rdb.Rest()), rdb.file), old(rdb.pos), rdb.pos)
    ensures o == PastEnd <==>
      var bs := old(rdb.Rest());
      !rdb.file && bs != [] && bs[0] == 0xC0 + ENC_LZF && ParseHeader(bs[1..]).Some?
        && ParseHeader(bs[1..]).value.clen == 0
  {
    OverreadExactly(rdb.Rest(), rdb.file);
    o := LoadStringForm(rdb);
  }

  method LoadStringForm<C>(rdb: Stream<Byte, C>) returns (o: Loaded)
    requires rdb.Valid()
    modifies rdb`pos, rdb`cksum
    ensures rdb.Valid()
    ensures Matches(o, ParseString(old(rdb.Rest()), rdb.file), old(rdb.pos), rdb.pos)
  {
    ghost var bs := rdb.Rest();
    var len, isencoded := LoadLen(rdb);
    if isencoded {
      var enctype := len.value;
      assert ParseLen(bs) == Enc(enctype) && rdb.Rest() == bs[1..];
      if enctype == ENC_INT8 || enctype == ENC_INT16 || enctype == ENC_INT32 {
        assert ParseString(bs, rdb.file) == ParseInteger(bs[1..], IntegerBytes(enctype));
        o := LoadIntegerForm(rdb, enctype);
      } else if enctype == ENC_LZF {
        assert ParseString(bs, rdb.file) == ParsePacked(bs[1..], rdb.file);
        o := LoadLzf(rdb);
      } else {
        o := Panicked;
      }
      return;
    }
    if len == None { return NullObject; }
    o := LoadVerbatim(rdb, len.value);
  }

  method LoadIntegerForm<C>(rdb: Stream<Byte, C>, enctype: nat) returns (o: Loaded)
    requires rdb.Valid() && (enctype == ENC_INT8 || enctype == ENC_INT16 || enctype == ENC_INT32)
    modifies rdb`pos, rdb`cksum
    ensures rdb.Valid()
    ensures Matches(o, ParseInteger(old(rdb.Rest()), IntegerBytes(enctype)), old(rdb.pos) - 1, rdb.pos)
  {
    var text := LoadInteger(rdb, enctype);
    return if text.Some? then Value(text.value) else NullObject;
  }

  method LoadVerbatim<C>(rdb: Stream<Byte, C>, len: nat) returns (o: Loaded)
    requires rdb.Valid()
    modifies rdb`pos, rdb`cksum
    ensures rdb.Valid()
    ensures if |old(rdb.Rest())| < len then o == NullObject
      else o == Value(old(rdb.Rest())[..len]) && rdb.pos == old(rdb.pos) + len
  {
    if len == 0 { return Value([]); }
    var val := rdb.Read(len);
    return if val == None then NullObject else Value(val.value);
  }

  /** For every string, saved with compression on or off and followed by anything, loading gives
      it back; it moves the stream by the count that saving returned exactly when an int holds it. */
  method SaveThenLoad(s: seq<Byte>, after: seq<Byte>, more: seq<Byte>, compression: bool, base: nat, htab: array<nat>,
      file: bool)
    returns (n: int, o: Loaded, pos: nat)
    requires |s| < REDIS_RDB_LENERR && after != [] && after[|after| - 1] == 0
    requires Lzf.MAX_OFF <= base && base + |s| < Lzf.WORD
    requires htab.Length == Lzf.HSIZE && forall i :: 0 <= i < Lzf.HSIZE ==> htab[i] < Lzf.WORD
    modifies htab
    ensures o == Value(s) && (pos == n <==> pos <= INT_MAX)
  {
    var w := new Stream<Byte, int>(false, [], None, 0, []);
    ghost var packed;
    n, packed := SaveRawString(w, s, after, compression, base, htab);
    o, pos := LoadFrom(w.ptr, more, file, n, s);
  }

  lemma EmptyFirst(e: seq<Byte>)
    ensures [] + e == e
  {
  }

  lemma SavedPrefix(written: seq<Byte>, n: int, s: seq<Byte>) returns (e: seq<Byte>, rest: seq<Byte>)
    requires Saved([], written, n, s)
    ensures StringForm(e, s) && written == e + rest && (|e| <= INT_MAX ==> n == |e|)
  {
    e :| SavedAs([], written, n, s, e);
    EmptyFirst(e);
    rest := written[|e|..];
  }

  lemma SavedParses(written: seq<Byte>, more: seq<Byte>, file: bool, n: int, s: seq<Byte>) returns (used: nat)
    requires Saved([], written, n, s) && n <= INT_MAX && |s| < REDIS_RDB_LENERR
    ensures ParseString(written + more, file) == Text(s, used) && (used == n <==> used <= INT_MAX)
  {
    var e, rest := SavedPrefix(written, n, s);
    Associates(e, rest, more);
    StringRoundTrip(e, s, rest + more, file);
    used := |e|;
  }

  method LoadFrom(written: seq<Byte>, more: seq<Byte>, file: bool, ghost n: int, ghost s: seq<Byte>)
      returns (o: Loaded, pos: nat)
    requires Saved([], written, n, s) && n <= INT_MAX && |s| < REDIS_RDB_LENERR
    ensures o == Value(s) && (pos == n <==> pos <= INT_MAX)
  {
    ghost var used := SavedParses(written, more, file, n, s);
    var r := new Stream<Byte, int>(file, written + more, None, 0, []);
    o := LoadString(r);
    pos := r.pos;
  }
}
