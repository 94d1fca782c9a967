/**
  The LZF codec: `lzf_compress` in its VERY_FAST configuration and `lzf_decompress`.

  `Unpack` is the meaning of a compressed stream, written without reference to either
  C function. `Decompress` is proved equal to it on every input, errors included, and
  `Compress` is proved to emit a stream whose meaning is its input, whatever the
  uninitialised hash table holds.
*/
module Lzf {
  import opened Bytes

  const MAX_LIT := 32
  const MAX_OFF := 8192
  const MAX_REF := 264
  const HSIZE := 65536
  const WORD := 0x1_0000_0000_0000_0000 // size of the 64-bit address space

  datatype Errno = E2BIG | EINVAL

  datatype Unpacked = Ok(data: seq<Byte>) | Err(errno: Errno)

  // ---------------------------------------------------------------- meaning of a stream

  /** `acc` followed by `len` bytes, each equal to the one `dist` places before it.
      The copied region may overlap the bytes being produced. */
  function CopyBack(acc: seq<Byte>, dist: nat, len: nat): (r: seq<Byte>)
    requires 1 <= dist <= |acc|
    ensures |r| == |acc| + len
  {
    if len == 0 then acc
    else
      var p := CopyBack(acc, dist, len - 1);
      p + [p[|p| - dist]]
  }

  /** Number of header bytes of the back reference that starts with `ctrl`. */
  function HeaderSize(ctrl: Byte): nat {
    if ctrl / 32 == 7 then 3 else 2
  }

  function ReferenceLength(s: seq<Byte>): nat
    requires |s| > 0 && |s| >= HeaderSize(s[0])
  {
    var ctrl: int, extra: int := s[0], if HeaderSize(s[0]) == 3 then s[1] else 0;
    ctrl / 32 + 2 + extra
  }

  function ReferenceDistance(s: seq<Byte>): nat
    requires |s| > 0 && |s| >= HeaderSize(s[0])
  {
    var ctrl: int, low: int := s[0], s[HeaderSize(s[0]) - 1];
    (ctrl % 32) * 256 + low + 1
  }

  /** What the rest `s` of a stream appends to `acc` when `cap` bytes of output are allowed. */
  function Unpack(s: seq<Byte>, acc: seq<Byte>, cap: nat): Unpacked
    decreases |s|
  {
    if s == [] then Ok(acc)
    else if s[0] < 32 then
      var run: nat := s[0] + 1;
      if |acc| + run > cap then Err(E2BIG)
      else if 1 + run > |s| then Err(EINVAL)
      else Unpack(s[1 + run..], acc + s[1..1 + run], cap)
    else
      if |s| < HeaderSize(s[0]) then Err(EINVAL)
      else if |acc| + ReferenceLength(s) > cap then Err(E2BIG)
      else if ReferenceDistance(s) > |acc| then Err(EINVAL)
      else Unpack(s[HeaderSize(s[0])..], CopyBack(acc, ReferenceDistance(s), ReferenceLength(s)), cap)
  }

  /** A non-empty stream unpacks to something. */
  lemma {:induction false} UnpackGrows(s: seq<Byte>, acc: seq<Byte>, cap: nat)
    requires Unpack(s, acc, cap).Ok?
    ensures |Unpack(s, acc, cap).data| >= |acc| + if s == [] then 0 else 1
    decreases |s|
  {
    if s == [] {
    } else if s[0] < 32 {
      var run: nat := s[0] + 1;
      UnpackGrows(s[1 + run..], acc + s[1..1 + run], cap);
    } else {
      UnpackGrows(s[HeaderSize(s[0])..], CopyBack(acc, ReferenceDistance(s), ReferenceLength(s)), cap);
    }
  }

  lemma UnpackNonEmpty(s: seq<Byte>, text: seq<Byte>)
    requires s != [] && Unpack(s, [], |text|) == Ok(text)
    ensures text != []
  {
    UnpackGrows(s, [], |text|);
  }

  // ---------------------------------------------------------------- lzf_decompress

  method Decompress(input: seq<Byte>, out: array<Byte>) returns (n: nat, errno: Option<Errno>)
    requires |input| > 0
    modifies out
    ensures match Unpack(input, [], out.Length)
            case Ok(d) => errno == None && n == |d| <= out.Length && out[..n] == d
            case Err(e) => errno == Some(e) && n == 0
  {
    var ip, op := 0, 0;
    ghost var meaning := Unpack(input, [], out.Length);
    assert input[0..] == input && out[..0] == [];
    while true // do ... while (ip < in_end), entered with ip < in_end
      invariant 0 <= ip < |input| && 0 <= op <= out.Length
      invariant meaning == Unpack(input[ip..], out[..op], out.Length)
      decreases |input| - ip
    {
      ip, op, errno := DecompressStep(input, ip, out, op);
      if errno.Some? { return 0, errno; }
      if ip >= |input| { break; }
    }
    assert input[ip..] == [];
    return op, None;
  }

  /** One iteration: decode the item at `ip0`, whose meaning is the first step of `Unpack`. */
  method DecompressStep(input: seq<Byte>, ip0: nat, out: array<Byte>, op0: nat)
    returns (ip: nat, op: nat, errno: Option<Errno>)
    requires ip0 < |input| && op0 <= out.Length
    modifies out
    ensures errno == None ==>
      && ip0 < ip <= |input| && op <= out.Length
      && Unpack(input[ip0..], old(out[..op0]), out.Length) == Unpack(input[ip..], out[..op], out.Length)
    ensures errno.Some? ==> Unpack(input[ip0..], old(out[..op0]), out.Length) == Err(errno.value)
  {
    if input[ip0] < 32 {
      ip, op, errno := StepLiteral(input, ip0, out, op0);
    } else {
      ip, op, errno := StepReference(input, ip0, out, op0);
    }
  }

  method StepLiteral(input: seq<Byte>, ip0: nat, out: array<Byte>, op0: nat)
    returns (ip: nat, op: nat, errno: Option<Errno>)
    requires ip0 < |input| && op0 <= out.Length && input[ip0] < 32
    modifies out
    ensures errno == None ==>
      && ip0 < ip <= |input| && op <= out.Length
      && Unpack(input[ip0..], old(out[..op0]), out.Length) == Unpack(input[ip..], out[..op], out.Length)
    ensures errno.Some? ==> Unpack(input[ip0..], old(out[..op0]), out.Length) == Err(errno.value)
  {
    ghost var s := input[ip0..];
    ip, op, errno := ip0, op0, None;
    var ctrl: nat := input[ip];
    ip := ip + 1;
    ctrl := ctrl + 1;
    if op + ctrl > out.Length { return ip, op, Some(E2BIG); }
    if ip + ctrl > |input| { return ip, op, Some(EINVAL); }
    Slices(input, ip0, ctrl);
    ip, op := CopyLiteral(input, ip, out, op, ctrl);
  }

  /** The run at ip0 and what follows it, seen from ip0 and from the start. */
  lemma Slices(input: seq<Byte>, ip0: nat, run: nat)
    requires ip0 + 1 + run <= |input|
    ensures input[ip0..][1..1 + run] == input[ip0 + 1..ip0 + 1 + run]
    ensures input[ip0..][1 + run..] == input[ip0 + 1 + run..]
  {
  }

  method StepReference(input: seq<Byte>, ip0: nat, out: array<Byte>, op0: nat)
    returns (ip: nat, op: nat, errno: Option<Errno>)
    requires ip0 < |input| && op0 <= out.Length && input[ip0] >= 32
    modifies out
    ensures errno == None ==>
      && ip0 < ip <= |input| && op <= out.Length
      && Unpack(input[ip0..], old(out[..op0]), out.Length) == Unpack(input[ip..], out[..op], out.Length)
    ensures errno.Some? ==> Unpack(input[ip0..], old(out[..op0]), out.Length) == Err(errno.value)
  {
    ghost var s := input[ip0..];
    ip, op, errno := ip0, op0, None;
    var ctrl: nat := input[ip];
    ip := ip + 1;
    var len: nat := ctrl / 32;
    var ref: int := op - (ctrl % 32) * 256 - 1;
    if ip >= |input| { return ip, op, Some(EINVAL); }
    if len == 7 {
      len := len + input[ip];
      ip := ip + 1;
      if ip >= |input| { return ip, op, Some(EINVAL); }
    }
    ref := ref - input[ip];
    ip := ip + 1;
    assert len + 2 == ReferenceLength(s) && op - ref == ReferenceDistance(s);
    if op + len + 2 > out.Length { return ip, op, Some(E2BIG); }
    if ref < 0 { return ip, op, Some(EINVAL); }
    assert s[HeaderSize(s[0])..] == input[ip..];
    op := CopyReference(out, op, ref, len + 2);
  }

  method CopyLiteral(input: seq<Byte>, ip0: nat, out: array<Byte>, op0: nat, count: nat)
    returns (ip: nat, op: nat)
    requires count > 0
    requires ip0 + count <= |input| && op0 + count <= out.Length
    modifies out
    ensures ip == ip0 + count && op == op0 + count
    ensures out[..op] == old(out[..op0]) + input[ip0..ip]
  {
    ip, op := ip0, op0;
    var ctrl := count;
    while ctrl > 0
      invariant 0 <= ctrl <= count && ip == ip0 + count - ctrl && op == op0 + count - ctrl
      invariant out[..op] == old(out[..op0]) + input[ip0..ip]
    {
      out[op] := input[ip];
      assert out[..op + 1] == out[..op] + [input[ip]];
      assert input[ip0..ip + 1] == input[ip0..ip] + [input[ip]];
      ip, op, ctrl := ip + 1, op + 1, ctrl - 1;
    }
  }

  method CopyReference(out: array<Byte>, op0: nat, ref0: nat, count: nat) returns (op: nat)
    requires ref0 < op0 && op0 + count <= out.Length && count >= 3
    modifies out
    ensures op == op0 + count
    ensures out[..op] == CopyBack(old(out[..op0]), op0 - ref0, count)
  {
    op := op0;
    var ref := ref0;
    var len := count;
    ghost var acc := out[..op0];
    while len > 0
      invariant 0 <= len <= count && op == op0 + count - len && ref == op - (op0 - ref0)
      invariant out[..op] == CopyBack(acc, op0 - ref0, count - len)
    {
      ghost var p := out[..op];
      assert out[ref] == p[|p| - (op0 - ref0)];
      out[op] := out[ref];
      assert out[..op + 1] == p + [p[|p| - (op0 - ref0)]];
      op, ref, len := op + 1, ref + 1, len - 1;
    }
  }

  // ---------------------------------------------------------------- lzf_compress

  /** The macros FRST, NEXT and IDX on 32-bit unsigned arithmetic, with HLOG = 16. */
  function First(p: seq<Byte>): nat
    requires |p| >= 2
  {
    var hi: int, lo: int := p[0], p[1];
    hi * 256 + lo
  }

  function Next(v: nat, b: Byte): nat { (v * 256 + b) % 0x1_0000_0000 }

  function Idx(h: nat): (i: nat)
    ensures i < HSIZE
  {
    (h / 256 - h * 5) % HSIZE
  }

  /** The first two of the three bytes at ip, which the next hash starts from. */
  function Pair(text: seq<Byte>, ip: nat): nat
    requires ip + 1 < |text|
  {
    var hi: int, lo: int := text[ip], text[ip + 1];
    hi * 256 + lo
  }

  /** The slot of a position, which only its three bytes decide. */
  function Slot(text: seq<Byte>, ip: nat): nat
    requires ip + 2 < |text|
  {
    Idx(Pair(text, ip) * 256 + text[ip + 2])
  }

  lemma RollingHash(text: seq<Byte>, ip: nat, v: nat)
    requires ip + 2 < |text| && v % 0x1_0000 == Pair(text, ip)
    ensures Idx(Next(v, text[ip + 2])) == Slot(text, ip)
    ensures Next(v, text[ip + 2]) % 0x1_0000 == Pair(text, ip + 1)
  {
    var three := Pair(text, ip) * 256 + text[ip + 2];
    LowThree(v, text[ip + 2]);
    IdxOfLowThree(Next(v, text[ip + 2]));
    assert three % 0x1_0000 == Pair(text, ip + 1);
  }

  lemma LowThree(v: nat, b: Byte)
    ensures Next(v, b) % 0x100_0000 == v % 0x1_0000 * 256 + b
  {
  }

  lemma IdxOfLowThree(h: nat)
    ensures Idx(h) == Idx(h % 0x100_0000)
    ensures h % 0x1_0000 == h % 0x100_0000 % 0x1_0000
  {
    var j: int, t: int := h / 0x100_0000, h % 0x100_0000;
    Upper(j, t);
    SameModulo(t / 256 - t * 5, j - 1280 * j);
  }

  lemma Upper(j: int, t: int)
    ensures (j * 0x100_0000 + t) / 256 == j * 0x1_0000 + t / 256
    ensures (j * 0x100_0000 + t) % 0x1_0000 == t % 0x1_0000
  {
    var a := j * 0x1_0000;
    assert (a * 256 + t) / 256 == a + t / 256;
    SameModulo(t, j * 256);
  }

  lemma SameModulo(a: int, q: int)
    ensures (a + 0x1_0000 * q) % 0x1_0000 == a % 0x1_0000
  {
  }

  /** `s` is a whole number of items whose meaning, with `cap` bytes allowed, is `d`. */
  ghost predicate Unpacks(s: seq<Byte>, d: seq<Byte>, cap: nat) {
    forall rest: seq<Byte> :: Unpack(s + rest, [], cap) == Unpack(rest, d, cap)
  }

  lemma UnpacksWhole(s: seq<Byte>, d: seq<Byte>, cap: nat)
    requires Unpacks(s, d, cap)
    ensures Unpack(s, [], cap) == Ok(d)
  {
    assert s + [] == s;
    assert Unpack([], d, cap) == Ok(d);
  }

  /** A closed literal run extends the meaning by its bytes. */
  lemma UnpacksRun(s: seq<Byte>, d: seq<Byte>, cap: nat, lit: seq<Byte>)
    requires Unpacks(s, d, cap)
    requires 1 <= |lit| <= MAX_LIT && |d| + |lit| <= cap
    ensures Unpacks(s + [|lit| - 1] + lit, d + lit, cap)
  {
    var run: seq<Byte> := [|lit| - 1] + lit;
    forall rest: seq<Byte>
      ensures Unpack(s + [|lit| - 1] + lit + rest, [], cap) == Unpack(rest, d + lit, cap)
    {
      assert s + [|lit| - 1] + lit + rest == s + (run + rest);
      assert (run + rest)[1..1 + |lit|] == lit && (run + rest)[1 + |lit|..] == rest;
    }
  }

  /** The header of a reference of `len` octets to `off + 1` bytes back. */
  function ReferenceHeader(off: nat, len: nat): seq<Byte>
    requires off < MAX_OFF && 3 <= len <= MAX_REF
  {
    if len - 2 < 7 then [off / 256 + (len - 2) * 32, off % 256]
    else [off / 256 + 224, len - 9, off % 256]
  }

  /** The `len` octets at `ref` are those at `ip`. */
  ghost predicate Same(text: seq<Byte>, ref: nat, ip: nat, len: nat)
    requires ref <= ip && ip + len <= |text|
  {
    forall i :: ip <= i < ip + len ==> text[i] == text[i - (ip - ref)]
  }

  /** A reference to an earlier occurrence of `text` at `ref` extends the meaning by `len` octets. */
  lemma UnpacksReference(s: seq<Byte>, text: seq<Byte>, ref: nat, ip: nat, len: nat)
    requires ref < ip && ip - ref <= MAX_OFF && 3 <= len <= MAX_REF && ip + len <= |text|
    requires Unpacks(s, text[..ip], |text|)
    requires Same(text, ref, ip, len)
    ensures Unpacks(s + ReferenceHeader(ip - ref - 1, len), text[..ip + len], |text|)
  {
    var head := ReferenceHeader(ip - ref - 1, len);
    CopyBackMatches(text, ref, ip, len);
    forall rest: seq<Byte>
      ensures Unpack(s + head + rest, [], |text|) == Unpack(rest, text[..ip + len], |text|)
    {
      assert s + head + rest == s + (head + rest);
      assert HeaderSize((head + rest)[0]) == |head|;
      assert ReferenceLength(head + rest) == len && ReferenceDistance(head + rest) == ip - ref;
      assert (head + rest)[|head|..] == rest;
    }
  }

  lemma {:induction false} CopyBackMatches(text: seq<Byte>, ref: nat, ip: nat, len: nat)
    requires ref < ip && ip + len <= |text|
    requires Same(text, ref, ip, len)
    ensures CopyBack(text[..ip], ip - ref, len) == text[..ip + len]
  {
    if len > 0 {
      CopyBackMatches(text, ref, ip, len - 1);
    }
  }

  /** The longest match that is looked for with `left` bytes to go: two less, and at most MAX_REF;
      the unrolled comparisons go a little further. */
  function MatchLimit(left: nat): (m: nat)
    requires left >= 5
    ensures 3 <= m <= left && m <= MAX_REF
  {
    var m := if left - 2 > MAX_REF then MAX_REF else left - 2;
    if 16 < m < 19 then 19 else m
  }

  /** The match ends at the limit, or where the bytes differ. */
  ghost predicate Longest(text: seq<Byte>, ref: nat, ip: nat, len: nat)
    requires ref < ip && ip + 4 < |text|
  {
    && 3 <= len <= MatchLimit(|text| - ip) && Same(text, ref, ip, len)
    && (len < MatchLimit(|text| - ip) ==> text[ref + len] != text[ip + len])
  }

  /** The unrolled comparison loop and the do-while loop after it. */
  method MatchLength(text: seq<Byte>, ref: nat, ip: nat) returns (len: nat)
    requires ref < ip && ip + 4 < |text|
    requires Same(text, ref, ip, 3)
    ensures 3 <= len <= MAX_REF && ip + len <= |text|
    ensures Longest(text, ref, ip, len)
  {
    len := 2;
    var maxlen := |text| - ip - len;
    maxlen := if maxlen > MAX_REF then MAX_REF else maxlen;
    if maxlen > 16 {
      var unrolled := 0; // sixteen copies of the same statement
      while unrolled < 16
        invariant 0 <= unrolled <= 16 && len == 2 + unrolled
        invariant Same(text, ref, ip, len + 1)
      {
        len := len + 1;
        if text[ref + len] != text[ip + len] { return; }
        unrolled := unrolled + 1;
      }
    }
    len := len + 1;
    while len < maxlen && text[ref + len] == text[ip + len]
      invariant 3 <= len && (if maxlen > 16 then 19 <= len && (len <= maxlen || len == 19) else len <= maxlen)
      invariant Same(text, ref, ip, len)
    {
      len := len + 1;
    }
  }

  /** State of the compressor between items: everything before the open literal run is a
      finished stream for the bytes before the run, and the run holds the bytes since. */
  ghost predicate Emitting(text: seq<Byte>, ip: nat, written: seq<Byte>, op: nat, lit: nat) {
    && lit < MAX_LIT && lit <= ip <= |text| && lit + 1 <= op <= |written|
    && (op == |written| ==> lit == 0)
    && op - lit - 1 <= Worst(ip - lit)
    && Unpacks(written[..op - lit - 1], text[..ip - lit], |text|)
    && written[op - lit..op] == text[ip - lit..ip]
  }

  /** Bytes of output for `c` bytes of input when nothing matches: one header per full run. */
  function Worst(c: nat): nat { c + c / MAX_LIT }

  /** The number of literal runs that hold c bytes. */
  function Runs(c: nat): nat { (c + MAX_LIT - 1) / MAX_LIT }

  /** No byte occurs twice, so nothing can match. */
  ghost predicate Fresh(text: seq<Byte>) {
    forall i, j :: 0 <= i < j < |text| ==> text[i] != text[j]
  }

  /** How far the output is when only literals were copied. */
  ghost predicate OnlyLiterals(ip: nat, op: nat, lit: nat) {
    op == Worst(ip) + 1 && lit == ip % MAX_LIT
  }

  lemma NextLiteral(ip: nat, op: nat, lit: nat)
    requires OnlyLiterals(ip, op, lit)
    ensures
      if lit + 1 == MAX_LIT then OnlyLiterals(ip + 1, op + 2, 0) else OnlyLiterals(ip + 1, op + 1, lit + 1)
  {
  }

  // ---------------------------------------------------------------- one byte, repeated

  ghost predicate Constant(text: seq<Byte>) {
    forall i :: 0 <= i < |text| ==> text[i] == text[0]
  }

  function HeaderLength(len: nat): nat { if len < 9 then 2 else 3 }

  /** What `left` more equal bytes take: matches as long as they may be, then a last run. */
  function TailSize(left: nat): nat {
    if left == 0 then 0
    else if left < 5 then left + 1
    else HeaderLength(MatchLimit(left)) + TailSize(left - MatchLimit(left))
  }

  /** What len equal bytes become. */
  function ConstantSize(len: nat): nat
    requires len >= 2
  {
    if len < 7 then len + 1 else 3 + TailSize(len - 2)
  }

  /** Three bytes for 264 bytes, and a little for the two ends. */
  lemma {:induction false} TailSmall(left: nat)
    ensures TailSize(left) <= 3 * (left / MAX_REF) + 6
    decreases left
  {
    if left >= 5 {
      var m := MatchLimit(left);
      TailSmall(left - m);
      if left - 2 < MAX_REF { assert left - m <= 2; } else { assert m == MAX_REF; }
    }
  }

  lemma ConstantShrinks(len: nat)
    requires len >= 2
    ensures ConstantSize(len) <= 3 * (len / MAX_REF) + 9
    ensures ConstantSize(100) == 9
  {
    if len >= 7 { TailSmall(len - 2); }
  }

  function Copies(b: Byte, n: nat): (s: seq<Byte>)
    ensures |s| == n && forall i :: 0 <= i < n ==> s[i] == b
  {
    seq(n, _ => b)
  }

  lemma {:induction false} CopyBackCopies(b: Byte, n: nat, len: nat)
    requires n > 0
    ensures CopyBack(Copies(b, n), 1, len) == Copies(b, n + len)
  {
    if len > 0 { CopyBackCopies(b, n, len - 1); }
  }

  /** A short reference: one literal and three more copies of it. The others are refused: a reference
      before the start, a run or a reference cut short, and more output than allowed. */
  lemma StreamExamples()
    ensures Unpack([0x00, 0x61, 0x20, 0x00], [], 4) == Ok([0x61, 0x61, 0x61, 0x61])
    ensures Unpack([0x20, 0x00], [], 4) == Err(EINVAL) && Unpack([0x01, 0x61], [], 4) == Err(EINVAL)
    ensures Unpack([0x20], [], 4) == Err(EINVAL) && Unpack([0x01, 0x61, 0x61], [], 1) == Err(E2BIG)
  {
    var s: seq<Byte> := [0x00, 0x61, 0x20, 0x00];
    assert s[1..2] == [0x61] && s[2..] == [0x20, 0x00] && [] + [0x61] == [0x61];
    CopyBackCopies(0x61, 1, 3);
    assert Copies(0x61, 1) == [0x61] && Copies(0x61, 4) == [0x61, 0x61, 0x61, 0x61];
    assert s[2..][2..] == [];
  }

  lemma TwoAs(rest: seq<Byte>, n: nat)
    requires n + 2 <= 100
    ensures Unpack([0x01, 0x61, 0x61] + rest, Copies(0x61, n), 100) == Unpack(rest, Copies(0x61, n + 2), 100)
  {
    var s := [0x01, 0x61, 0x61] + rest;
    assert s[1..3] == [0x61, 0x61] && s[3..] == rest;
    assert Copies(0x61, n) + [0x61, 0x61] == Copies(0x61, n + 2);
  }

  lemma NinetySixAs(rest: seq<Byte>)
    ensures Unpack([0xE0, 0x57, 0x00] + rest, Copies(0x61, 2), 100) == Unpack(rest, Copies(0x61, 98), 100)
  {
    var s := [0xE0, 0x57, 0x00] + rest;
    CopyBackCopies(0x61, 2, 96);
    assert ReferenceLength(s) == 96 && ReferenceDistance(s) == 1 && s[3..] == rest;
  }

  /** Two literals, a match of 96 bytes at distance 1 and two literals: a hundred times 'a'. */
  lemma HundredAs()
    ensures Unpack([0x01, 0x61, 0x61, 0xE0, 0x57, 0x00, 0x01, 0x61, 0x61], [], 100) == Ok(Copies(0x61, 100))
  {
    var tail: seq<Byte> := [0x01, 0x61, 0x61];
    var mid := [0xE0, 0x57, 0x00] + tail;
    assert [0x01, 0x61, 0x61, 0xE0, 0x57, 0x00, 0x01, 0x61, 0x61] == tail + mid;
    assert [] == Copies(0x61, 0);
    TwoAs(mid, 0);
    NinetySixAs(tail);
    TwoAs([], 98);
    assert tail + [] == tail;
  }

  /** How far the output is for len equal bytes. */
  ghost predicate Repeating(len: nat, ip: nat, op: nat, lit: nat)
    requires len >= 2
  {
    ip <= len &&
    if ip <= 2 || len < 7 then op == ip + 1 && lit == ip
    else if lit == 0 then op - 1 + TailSize(len - ip) == ConstantSize(len)
    else lit + (len - ip) < 5 && op + (len - ip) == ConstantSize(len)
  }

  lemma RepeatingRoom(len: nat, ip: nat, op: nat, lit: nat)
    requires len >= 2 && Repeating(len, ip, op, lit) && op > 0
    ensures op <= ConstantSize(len) + 1 && Stopped(op, lit) <= ConstantSize(len)
  {
  }

  lemma RepeatingLiteral(len: nat, ip: nat, op: nat, lit: nat)
    requires len >= 2 && Repeating(len, ip, op, lit) && ip < len && (ip < 2 || ip + 4 >= len)
    ensures lit + 1 < MAX_LIT && Repeating(len, ip + 1, op + 1, lit + 1)
  {
  }

  lemma LastLiteral(len: nat, ip: nat, op: nat, lit: nat)
    requires len - 2 <= ip < len && lit < MAX_LIT
    ensures OnlyLiterals(ip, op, lit) ==>
      if lit + 1 == MAX_LIT then OnlyLiterals(ip + 1, op + 2, 0) else OnlyLiterals(ip + 1, op + 1, lit + 1)
    ensures len >= 2 && Repeating(len, ip, op, lit) ==> lit + 1 < MAX_LIT && Repeating(len, ip + 1, op + 1, lit + 1)
  {
    if OnlyLiterals(ip, op, lit) { NextLiteral(ip, op, lit); }
    if len >= 2 && Repeating(len, ip, op, lit) { RepeatingLiteral(len, ip, op, lit); }
  }

  lemma RepeatingMatch(text: seq<Byte>, ref: nat, ip: nat, op: nat, lit: nat, len: nat, op': nat)
    requires Constant(text) && ref < ip && 2 <= ip && ip + 4 < |text| && Longest(text, ref, ip, len)
    requires op > 0 && Repeating(|text|, ip, op, lit) && op' == Stopped(op, lit) + HeaderLength(len) + 1
    ensures Repeating(|text|, ip + len, op', 0)
  {
    assert len == MatchLimit(|text| - ip);
  }

  /** Equal bytes match the byte before them from the third on, as long as four more follow. */
  lemma NoMatchYet(text: seq<Byte>, ip: nat, ref: int)
    requires Constant(text) && ip + 2 < |text|
    requires !(0 < ref < ip && ip - ref <= MAX_OFF && ip + 4 < |text| && Same(text, ref, ip, 3))
    requires ip > 0 ==> ref == ip - 1
    ensures ip < 2 || ip + 4 >= |text|
  {
  }

  /** The end of the output once the open run is stopped. */
  function Stopped(op: nat, lit: nat): nat
    requires op > 0
  {
    if lit == 0 then op - 1 else op
  }

  /** op[-lit-1] = lit - 1: the header of the open run, 255 when the run is empty. */
  method StopRun(out: array<Byte>, op: nat, lit: nat, ghost text: seq<Byte>, ghost ip: nat)
    returns (end: nat)
    requires lit <= ip <= |text| && lit <= MAX_LIT && lit + 1 <= op <= out.Length
    requires Unpacks(out[..op - lit - 1], text[..ip - lit], |text|)
    requires out[op - lit..op] == text[ip - lit..ip]
    requires op - lit - 1 <= Worst(ip - lit)
    modifies out
    ensures end == Stopped(op, lit)
    ensures end <= Worst(ip) + (if 0 < lit < MAX_LIT then 1 else 0) && end <= ip + Runs(ip)
    ensures Unpacks(out[..end], text[..ip], |text|)
  {
    ghost var head := out[..op - lit - 1];
    out[op - lit - 1] := (lit - 1) % 256;
    assert out[..op - lit - 1] == head;
    end := if lit == 0 then op - 1 else op;
    RunSize(op, lit, ip);
    if lit > 0 {
      assert out[..op] == head + [lit - 1] + text[ip - lit..ip];
      ClosedRun(head, text, ip, lit);
    }
  }

  lemma ClosedRun(head: seq<Byte>, text: seq<Byte>, ip: nat, lit: nat)
    requires 0 < lit <= ip <= |text| && lit <= MAX_LIT && Unpacks(head, text[..ip - lit], |text|)
    ensures Unpacks(head + [lit - 1] + text[ip - lit..ip], text[..ip], |text|)
  {
    var run := text[ip - lit..ip];
    assert text[..ip - lit] + run == text[..ip];
    UnpacksRun(head, text[..ip - lit], |text|, run);
  }

  lemma RunSize(op: nat, lit: nat, ip: nat)
    requires lit <= ip && lit <= MAX_LIT && lit + 1 <= op && op - lit - 1 <= Worst(ip - lit)
    ensures
      var end := if lit == 0 then op - 1 else op;
      end <= Worst(ip) + (if 0 < lit < MAX_LIT then 1 else 0) && end <= ip + Runs(ip)
  {
  }

  /** Copy one literal byte, closing the run when it reaches MAX_LIT. */
  method PutLiteral(text: seq<Byte>, ip0: nat, out: array<Byte>, op0: nat, lit0: nat)
    returns (ip: nat, op: nat, lit: nat)
    requires ip0 < |text| && op0 < out.Length - 1
    requires Emitting(text, ip0, out[..], op0, lit0)
    modifies out
    ensures ip == ip0 + 1
    ensures if lit0 + 1 == MAX_LIT then op == op0 + 2 && lit == 0 else op == op0 + 1 && lit == lit0 + 1
    ensures Emitting(text, ip, out[..], op, lit)
  {
    ghost var before := out[..];
    lit := lit0 + 1;
    out[op0] := text[ip0];
    op, ip := op0 + 1, ip0 + 1;
    assert out[..op - lit - 1] == before[..op0 - lit0 - 1];
    assert out[op - lit..op] == before[op0 - lit0..op0] + [text[ip0]];
    assert text[ip - lit..ip] == text[ip0 - lit0..ip0] + [text[ip0]];
    assert ip - lit == ip0 - lit0 && op - lit == op0 - lit0;
    if lit == MAX_LIT {
      op := StopRun(out, op, lit, text, ip);
      lit, op := 0, op + 1;
      assert out[..][..op - 1] == out[..op - 1];
      assert out[..][op..op] == [] && text[ip..ip] == [];
    } else {
      assert out[..][..op - lit - 1] == out[..op - lit - 1];
      assert out[..][op - lit..op] == out[op - lit..op];
    }
  }

  /** A garbage address cannot pass the unsigned offset test, because nothing is allocated
      in the first MAX_OFF bytes of the address space. */
  lemma NoWrap(base: nat, ip: nat, ref: nat)
    requires MAX_OFF <= base && base + ip < WORD && ref < WORD
    requires (base + ip - ref - 1) % WORD < MAX_OFF
    ensures ref < base + ip
  {
  }

  /** Is there a usable match: the slot's address `ref` lies after the first input byte, at
      most MAX_OFF before `ip`, and three bytes agree? The offset is unsigned and wraps. */
  method TestMatch(text: seq<Byte>, base: nat, ip: nat, ref: nat) returns (found: bool)
    requires MAX_OFF <= base && base + |text| < WORD && ref < WORD && ip + 2 < |text|
    ensures found <==>
      && base < ref < base + ip && base + ip - ref <= MAX_OFF && ip + 4 < |text|
      && Same(text, ref - base, ip, 3)
  {
    var off := (base + ip - ref - 1) % WORD;
    assert base < ref < base + ip ==> off == base + ip - ref - 1;
    if !(off < MAX_OFF && ip + 4 < |text| && ref > base) { return false; }
    NoWrap(base, ip, ref);
    found := text[ref - base] == text[ip]
      && text[ref - base + 1] == text[ip + 1]
      && text[ref - base + 2] == text[ip + 2];
  }

  /** hval = NEXT(hval, ip); hslot = htab + IDX(hval); ref = *hslot; *hslot = ip */
  method Exchange(text: seq<Byte>, ip: nat, hval0: nat, base: nat, htab: array<nat>) returns (hval: nat, ref: nat)
    requires ip + 2 < |text| && base + |text| < WORD && hval0 % 0x1_0000 == Pair(text, ip)
    requires htab.Length == HSIZE && forall i :: 0 <= i < HSIZE ==> htab[i] < WORD
    modifies htab
    ensures ref < WORD && forall i :: 0 <= i < HSIZE ==> htab[i] < WORD
    ensures hval % 0x1_0000 == Pair(text, ip + 1)
    ensures ref == old(htab[Slot(text, ip)]) && htab[..] == old(htab[..])[Slot(text, ip) := base + ip]
  {
    RollingHash(text, ip, hval0);
    hval := Next(hval0, text[ip + 2]);
    var hslot := Idx(hval);
    ref := htab[hslot];
    htab[hslot] := base + ip;
  }

  /** The size of the output between two items when no byte occurs twice, and when there is only one. */
  ghost predicate Sizes(text: seq<Byte>, ip: nat, op: nat, lit: nat)
    requires |text| >= 2
  {
    && (Fresh(text) ==> OnlyLiterals(ip, op, lit))
    && (Constant(text) ==> Repeating(|text|, ip, op, lit))
  }

  /** With that, the slot of the position before. */
  ghost predicate Progress(text: seq<Byte>, base: nat, ip: nat, op: nat, lit: nat, table: seq<nat>)
    requires |text| >= 2 && |table| == HSIZE
  {
    Sizes(text, ip, op, lit) && (Constant(text) && 0 < ip < |text| - 2 ==> table[Slot(text, ip)] == base + ip - 1)
  }

  /** Too little room, which a text does not meet that has room for the worst case or, when it is
      one byte repeated, for what that becomes. */
  ghost predicate TooSmall(text: seq<Byte>, room: int)
    requires |text| >= 2
  {
    room < Worst(|text|) + 4 && (Constant(text) ==> room < ConstantSize(|text|) + 5)
  }

  /** The output is bounded by `out.Length - 1`, the caller's `out_len`; the array is the
      out_len + 1 bytes the caller allocates. `htab` is an uninitialised stack array. */
  method Compress(text: seq<Byte>, base: nat, htab: array<nat>, out: array<Byte>) returns (n: nat)
    requires |text| != 1
    requires MAX_OFF <= base && base + |text| < WORD
    requires htab.Length == HSIZE && forall i :: 0 <= i < HSIZE ==> htab[i] < WORD
    requires out.Length >= 1
    modifies htab, out
    ensures n <= out.Length - 1
    ensures n <= |text| + Runs(|text|)
    ensures n > 0 && Fresh(text) ==> n == |text| + Runs(|text|)
    ensures |text| > 0 && out.Length - 1 >= Worst(|text|) + 4 ==> n > 0
    ensures |text| > 0 && Constant(text) && out.Length - 1 > ConstantSize(|text|) + 4 ==> n == ConstantSize(|text|)
    ensures n > 0 ==> Unpack(out[..n], [], |text|) == Ok(text)
  {
    if |text| == 0 || out.Length == 1 { return 0; }
    var ip: nat, op: nat, lit: nat := 0, 1, 0;
    var hval := First(text);
    EmittingNothing(text, out[..]);
    while ip < |text| - 2
      invariant Emitting(text, ip, out[..], op, lit)
      invariant Progress(text, base, ip, op, lit, htab[..])
      invariant ip < |text| - 2 ==> hval % 0x1_0000 == Pair(text, ip)
      invariant forall i :: 0 <= i < HSIZE ==> htab[i] < WORD
      decreases |text| - ip
    {
      var fits;
      fits, hval, ip, op, lit := PutItem(text, base, htab, out, hval, ip, op, lit);
      if !fits { return 0; }
    }
    if Constant(text) { RepeatingRoom(|text|, ip, op, lit); }
    if op + 3 > out.Length - 1 { return 0; }
    n := Finish(text, ip, out, op, lit);
  }

  /** One round of the main loop. */
  method PutItem(
      text: seq<Byte>, base: nat, htab: array<nat>, out: array<Byte>, hval0: nat, ip0: nat, op0: nat, lit0: nat)
    returns (fits: bool, hval: nat, ip: nat, op: nat, lit: nat)
    requires MAX_OFF <= base && base + |text| < WORD && ip0 + 2 < |text|
    requires htab.Length == HSIZE && forall i :: 0 <= i < HSIZE ==> htab[i] < WORD
    requires Emitting(text, ip0, out[..], op0, lit0)
    requires Progress(text, base, ip0, op0, lit0, htab[..])
    requires hval0 % 0x1_0000 == Pair(text, ip0)
    modifies htab, out
    ensures forall i :: 0 <= i < HSIZE ==> htab[i] < WORD
    ensures fits ==> ip0 < ip && Emitting(text, ip, out[..], op, lit)
    ensures fits ==> Progress(text, base, ip, op, lit, htab[..])
    ensures fits && ip < |text| - 2 ==> hval % 0x1_0000 == Pair(text, ip)
    ensures !fits ==> TooSmall(text, out.Length - 1)
  {
    var ref;
    hval, ref := Exchange(text, ip0, hval0, base, htab);
    var found := TestMatch(text, base, ip0, ref);
    if found {
      fits, hval, ip, op := TakeMatch(text, base, htab, out, ref - base, ip0, op0, lit0);
      lit := 0;
    } else {
      if Constant(text) { NoMatchYet(text, ip0, ref - base); }
      fits, ip, op, lit := TakeLiteral(text, base, htab[..], out, ip0, op0, lit0);
    }
  }

  method TakeMatch(text: seq<Byte>, base: nat, htab: array<nat>, out: array<Byte>, ref: nat, ip0: nat, op0: nat,
      lit0: nat)
    returns (fits: bool, hval: nat, ip: nat, op: nat)
    requires base + |text| < WORD
    requires 0 < ref < ip0 && ip0 - ref <= MAX_OFF && ip0 + 4 < |text| && Same(text, ref, ip0, 3)
    requires htab.Length == HSIZE && forall i :: 0 <= i < HSIZE ==> htab[i] < WORD
    requires Emitting(text, ip0, out[..], op0, lit0)
    requires Sizes(text, ip0, op0, lit0)
    modifies htab, out
    ensures forall i :: 0 <= i < HSIZE ==> htab[i] < WORD
    ensures fits ==> ip0 < ip && Emitting(text, ip, out[..], op, 0)
    ensures fits ==> Progress(text, base, ip, op, 0, htab[..])
    ensures fits && ip < |text| - 2 ==> hval % 0x1_0000 == Pair(text, ip)
    ensures !fits ==> TooSmall(text, out.Length - 1)
  {
    NotFresh(text, ref, ip0);
    hval := 0;
    fits, ip, op := PutMatch(text, ref, ip0, out, op0, lit0);
    if Constant(text) { RepeatingRoom(|text|, ip0, op0, lit0); }
    if !fits { return; }
    if Constant(text) { RepeatingMatch(text, ref, ip0, op0, lit0, ip - ip0, op); }
    if ip < |text| - 2 {
      hval := Reinsert(text, ip, base, htab);
      if Constant(text) { OneSlot(text, ip, ip - 1); }
    }
  }

  method TakeLiteral(text: seq<Byte>, base: nat, ghost table: seq<nat>, out: array<Byte>, ip0: nat, op0: nat, lit0: nat)
    returns (fits: bool, ip: nat, op: nat, lit: nat)
    requires ip0 + 2 < |text| && |table| == HSIZE && Emitting(text, ip0, out[..], op0, lit0)
    requires Sizes(text, ip0, op0, lit0)
    requires Constant(text) ==> ip0 < 2 || ip0 + 4 >= |text|
    requires table[Slot(text, ip0)] == base + ip0
    modifies out
    ensures fits ==> ip == ip0 + 1 && Emitting(text, ip, out[..], op, lit)
    ensures fits ==> Progress(text, base, ip, op, lit, table)
    ensures !fits ==> TooSmall(text, out.Length - 1)
  {
    ip, op, lit := ip0, op0, lit0;
    if Constant(text) { RepeatingRoom(|text|, ip, op, lit); }
    if op >= out.Length - 1 { return false, ip, op, lit; }
    if OnlyLiterals(ip, op, lit) { NextLiteral(ip, op, lit); }
    if Constant(text) {
      RepeatingLiteral(|text|, ip, op, lit);
      if ip + 3 < |text| { OneSlot(text, ip, ip + 1); }
    }
    fits := true;
    ip, op, lit := PutLiteral(text, ip, out, op, lit);
  }

  lemma OneSlot(text: seq<Byte>, i: nat, j: nat)
    requires Constant(text) && i + 2 < |text| && j + 2 < |text|
    ensures Slot(text, i) == Slot(text, j)
  {
  }

  lemma NotFresh(text: seq<Byte>, ref: nat, ip: nat)
    requires ref < ip && ip + 3 <= |text| && Same(text, ref, ip, 3)
    ensures !Fresh(text)
  {
    assert text[ip] == text[ip - (ip - ref)];
  }

  lemma EmittingNothing(text: seq<Byte>, written: seq<Byte>)
    requires |written| > 1
    ensures Emitting(text, 0, written, 1, 0)
  {
    forall rest: seq<Byte> ensures Unpack([] + rest, [], |text|) == Unpack(rest, [], |text|) {
      assert [] + rest == rest;
    }
    assert written[..0] == [] && text[..0] == [];
  }

  /** VERY_FAST: record the two positions before `ip` in the table. */
  method Reinsert(text: seq<Byte>, ip0: nat, base: nat, htab: array<nat>) returns (hval: nat)
    requires 2 <= ip0 < |text| - 2 && base + |text| < WORD
    requires htab.Length == HSIZE && forall i :: 0 <= i < HSIZE ==> htab[i] < WORD
    modifies htab
    ensures forall i :: 0 <= i < HSIZE ==> htab[i] < WORD
    ensures hval % 0x1_0000 == Pair(text, ip0)
    ensures htab[..] == old(htab[..])[Slot(text, ip0 - 2) := base + ip0 - 2][Slot(text, ip0 - 1) := base + ip0 - 1]
  {
    var ip := ip0 - 2;
    hval := First(text[ip..]);
    RollingHash(text, ip, hval);
    RollingHash(text, ip + 1, Next(hval, text[ip + 2]));
    hval := Next(hval, text[ip + 2]);
    htab[Idx(hval)] := base + ip;
    ip := ip + 1;
    hval := Next(hval, text[ip + 2]);
    htab[Idx(hval)] := base + ip;
  }

  /** A match at `ref`: close the open run, emit the reference and start a new run. */
  method PutMatch(text: seq<Byte>, ref: nat, ip0: nat, out: array<Byte>, op0: nat, lit: nat)
    returns (fits: bool, ip: nat, op: nat)
    requires ref < ip0 && ip0 - ref <= MAX_OFF && ip0 + 4 < |text| && Same(text, ref, ip0, 3)
    requires Emitting(text, ip0, out[..], op0, lit)
    modifies out
    ensures fits ==> ip0 + 3 <= ip && Emitting(text, ip, out[..], op, 0)
    ensures fits ==> Longest(text, ref, ip0, ip - ip0) && op == Stopped(op0, lit) + HeaderLength(ip - ip0) + 1
    ensures !fits ==> out.Length - 1 <= Worst(ip0) + 5
    ensures !fits <==> Stopped(op0, lit) + 4 >= out.Length - 1
  {
    ip := ip0;
    assert out[..][..op0 - lit - 1] == out[..op0 - lit - 1];
    op := StopRun(out, op0, lit, text, ip);
    if op + 3 + 1 >= out.Length - 1 { return false, ip, op; }
    var len := MatchLength(text, ref, ip);
    op := PutReference(text, ref, ip, len, out, op);
    op, ip := op + 1, ip + len;
    assert out[..][..op - 1] == out[..op - 1];
    fits := true;
  }

  /** Emit the header of a back reference; the run that was open at `op` has been closed. */
  method PutReference(text: seq<Byte>, ref: nat, ip: nat, len: nat, out: array<Byte>, op0: nat)
    returns (op: nat)
    requires ref < ip && ip - ref <= MAX_OFF && 3 <= len <= MAX_REF && ip + len <= |text|
    requires Same(text, ref, ip, len)
    requires op0 + 3 <= out.Length && Unpacks(out[..op0], text[..ip], |text|)
    modifies out
    ensures op == op0 + HeaderLength(len)
    ensures Unpacks(out[..op], text[..ip + len], |text|)
  {
    UnpacksReference(out[..op0], text, ref, ip, len);
    op := WriteHeader(out, op0, ip - ref - 1, len);
  }

  method WriteHeader(out: array<Byte>, op0: nat, off: nat, len: nat) returns (op: nat)
    requires off < MAX_OFF && 3 <= len <= MAX_REF && op0 + 3 <= out.Length
    modifies out
    ensures op == op0 + |ReferenceHeader(off, len)|
    ensures out[..op] == old(out[..op0]) + ReferenceHeader(off, len)
  {
    var count := len - 2;
    op := op0;
    if count < 7 {
      out[op] := off / 256 + count * 32;
      op := op + 1;
    } else {
      out[op] := off / 256 + 7 * 32;
      op := op + 1;
      out[op] := count - 7;
      op := op + 1;
    }
    out[op] := off % 256;
    op := op + 1;
  }

  /** The at most two bytes after the main loop, and the end of the last run. */
  method Finish(text: seq<Byte>, ip0: nat, out: array<Byte>, op0: nat, lit0: nat) returns (n: nat)
    requires Emitting(text, ip0, out[..], op0, lit0)
    requires |text| - 2 <= ip0 && op0 + 3 <= out.Length - 1 && |text| > 0
    modifies out
    ensures 0 < n <= out.Length - 1 && n <= |text| + Runs(|text|)
    ensures OnlyLiterals(ip0, op0, lit0) ==> n == |text| + Runs(|text|)
    ensures |text| >= 2 && Repeating(|text|, ip0, op0, lit0) ==> n == ConstantSize(|text|)
    ensures Unpack(out[..n], [], |text|) == Ok(text)
  {
    var ip: nat, op: nat, lit: nat := ip0, op0, lit0;
    while ip < |text|
      invariant Emitting(text, ip, out[..], op, lit)
      invariant ip0 <= ip
      invariant op == op0 + (ip - ip0) || (op == op0 + (ip - ip0) + 1 && lit < ip - ip0)
      invariant OnlyLiterals(ip0, op0, lit0) ==> OnlyLiterals(ip, op, lit)
      invariant |text| >= 2 && Repeating(|text|, ip0, op0, lit0) ==> Repeating(|text|, ip, op, lit)
    {
      LastLiteral(|text|, ip, op, lit);
      ip, op, lit := PutLiteral(text, ip, out, op, lit);
    }
    assert out[..][..op - lit - 1] == out[..op - lit - 1];
    n := StopRun(out, op, lit, text, ip);
    UnpacksWhole(out[..n], text[..ip], |text|);
    assert text[..ip] == text;
  }

  // ---------------------------------------------------------------- the size that lzf.h promises

  /** Less than 104 % of the input is all that can come out, whatever the input, exactly for the
      lengths that satisfy this. */
  predicate Below104(len: nat) {
    25 * Runs(len) < len
  }

  lemma BoundMeans104(len: nat)
    ensures Below104(len) <==> 100 * (len + Runs(len)) < 104 * len
  {
  }

  /** The promise can fail for lengths up to 100 only: 2 to 25, 33 to 50, 65 to 75 and 97 to 100. */
  lemma WhereItFails(len: nat)
    requires len >= 2
    ensures Below104(len) <==> 26 <= len <= 32 || 51 <= len <= 64 || 76 <= len <= 96 || len > 100
  {
    if len > 128 {
      assert Runs(len) <= len / 32 + 1;
      assert 25 * (len / 32) + 25 < 32 * (len / 32);
    }
  }

  function Ascending(len: nat): (text: seq<Byte>)
    requires len <= 256
    ensures |text| == len && Fresh(text)
  {
    seq(len, i requires 0 <= i < len => i)
  }

  /** At every other length there is an input that breaks it, the two bytes 0 and 1 for one: they
      become three. */
  method BreaksPromise(len: nat, base: nat, htab: array<nat>) returns (text: seq<Byte>, n: nat)
    requires 2 <= len && !Below104(len)
    requires MAX_OFF <= base && base + len < WORD
    requires htab.Length == HSIZE && forall i :: 0 <= i < HSIZE ==> htab[i] < WORD
    modifies htab
    ensures |text| == len && n == len + Runs(len) && 100 * n >= 104 * len
    ensures len == 2 ==> text == [0, 1] && n == 3
  {
    WhereItFails(len);
    BoundMeans104(len);
    text := Ascending(len);
    var out := new Byte[2 * len + 8](_ => 0);
    n := Compress(text, base, htab, out);
  }

  /** At these lengths the promise is kept for every input and every content of the hash table. */
  method KeepsPromise(text: seq<Byte>, base: nat, htab: array<nat>, out: array<Byte>) returns (n: nat)
    requires |text| != 1 && Below104(|text|)
    requires MAX_OFF <= base && base + |text| < WORD
    requires htab.Length == HSIZE && forall i :: 0 <= i < HSIZE ==> htab[i] < WORD
    requires out.Length >= 1
    modifies htab, out
    ensures 100 * n < 104 * |text|
  {
    BoundMeans104(|text|);
    n := Compress(text, base, htab, out);
  }
}
