/** Arrays of integers laid out in memory, as intset.c does. */
module IntsetLayout {
  import opened Bytes
  import opened RdbForm
  import opened Sequences
  import Decimal

  /** Widths in bytes: INTSET_ENC_INT16, INTSET_ENC_INT32 and INTSET_ENC_INT64. */
  predicate IsEncoding(enc: nat) { enc == 2 || enc == 4 || enc == 8 }

  ghost predicate InRange(v: int, enc: nat) {
    var p: int := Pow256(enc);
    -p <= 2 * v < p
  }

  ghost predicate AllInRange(vals: seq<int>, enc: nat) {
    forall i :: 0 <= i < |vals| ==> InRange(vals[i], enc)
  }

  /** _intsetValueEncoding: the narrowest width that holds v. */
  function ValueEncoding(v: int): (enc: nat)
    requires Decimal.IsLongLong(v)
    ensures IsEncoding(enc) && InRange(v, enc)
    ensures forall e: nat :: IsEncoding(e) && e < enc ==> !InRange(v, e)
  {
    Widths();
    if v < -0x8000_0000 || v > 0x7FFF_FFFF then 8
    else if v < -0x8000 || v > 0x7FFF then 4
    else 2
  }

  lemma Widths()
    ensures Pow256(2) == 0x1_0000 && Pow256(4) == 0x1_0000_0000 && Pow256(8) == 0x1_0000_0000_0000_0000
  {
    assert Pow256(1) == 256 && Pow256(3) == 0x100_0000 && Pow256(6) == 0x1_0000_0000_0000;
  }

  lemma WiderRange(v: int, enc: nat, enc': nat)
    requires IsEncoding(enc) && IsEncoding(enc') && enc <= enc' && InRange(v, enc)
    ensures InRange(v, enc')
  {
    Widths();
  }

  /** A value that needs a wider encoding lies outside all the narrower ones: below them all
      exactly when it is negative, above them all otherwise. */
  lemma UpgradingValue(value: int, enc: nat, v: int)
    requires IsEncoding(enc) && !InRange(value, enc) && InRange(v, enc)
    ensures if value < 0 then value < v else value > v
  {
    Widths();
  }

  // ---------------------------------------------------------------- bytes

  /** Where element n begins: pointer arithmetic on elements of enc bytes. */
  function Off(n: nat, enc: nat): nat {
    if n == 0 then 0 else Off(n - 1, enc) + enc
  }

  ghost function Encode(vals: seq<int>, enc: nat): (bytes: seq<Byte>) {
    if vals == [] then [] else LittleEndian(vals[0], enc) + Encode(vals[1..], enc)
  }

  lemma {:induction false} EncodeLength(vals: seq<int>, enc: nat)
    ensures |Encode(vals, enc)| == Off(|vals|, enc)
  {
    if vals != [] {
      EncodeLength(vals[1..], enc);
    }
  }

  lemma {:induction false} EncodeConcat(a: seq<int>, b: seq<int>, enc: nat)
    ensures Encode(a + b, enc) == Encode(a, enc) + Encode(b, enc)
  {
    if a == [] {
      assert a + b == b;
    } else {
      assert (a + b)[1..] == a[1..] + b;
      EncodeConcat(a[1..], b, enc);
      Associates(LittleEndian(a[0], enc), Encode(a[1..], enc), Encode(b, enc));
    }
  }

  lemma EncodeOne(v: int, enc: nat)
    ensures Encode([v], enc) == LittleEndian(v, enc)
  {
    assert [v][1..] == [];
    assert Encode([v][1..], enc) == [];
  }

  lemma EncodeFirst(vals: seq<int>, l: nat, enc: nat)
    requires l < |vals|
    ensures Encode(vals[l..], enc) == LittleEndian(vals[l], enc) + Encode(vals[l + 1..], enc)
  {
    assert vals[l..][1..] == vals[l + 1..];
  }

  /** The layout around position pos. */
  lemma EncodeAround(vals: seq<int>, enc: nat, pos: nat)
    requires pos < |vals|
    ensures Encode(vals, enc) == Encode(vals[..pos], enc) + LittleEndian(vals[pos], enc) + Encode(vals[pos + 1..], enc)
    ensures |Encode(vals[..pos], enc)| == Off(pos, enc)
  {
    assert vals == vals[..pos] + [vals[pos]] + vals[pos + 1..];
    EncodeConcat(vals[..pos] + [vals[pos]], vals[pos + 1..], enc);
    EncodeConcat(vals[..pos], [vals[pos]], enc);
    EncodeOne(vals[pos], enc);
    EncodeLength(vals[..pos], enc);
  }

  lemma EncodeSplit(vals: seq<int>, enc: nat, pos: nat)
    requires pos <= |vals|
    ensures Encode(vals, enc) == Encode(vals[..pos], enc) + Encode(vals[pos..], enc)
    ensures |Encode(vals[..pos], enc)| == Off(pos, enc) && |Encode(vals[pos..], enc)| == Off(|vals| - pos, enc)
  {
    assert vals == vals[..pos] + vals[pos..];
    EncodeConcat(vals[..pos], vals[pos..], enc);
    EncodeLength(vals[..pos], enc);
    EncodeLength(vals[pos..], enc);
  }

  // ---------------------------------------------------------------- memory

  /** Memory with the bytes at `at` overwritten. */
  function Put(mem: seq<Byte>, at: nat, bytes: seq<Byte>): (r: seq<Byte>)
    requires at + |bytes| <= |mem|
    ensures |r| == |mem|
  {
    mem[..at] + bytes + mem[at + |bytes|..]
  }

  /** memmove of n bytes within memory. */
  function Move(mem: seq<Byte>, from: nat, to: nat, n: nat): (r: seq<Byte>)
    requires from + n <= |mem| && to + n <= |mem|
    ensures |r| == |mem|
  {
    Put(mem, to, mem[from..from + n])
  }

  /** Reading an element that lies whole in memory. */
  lemma ReadElement(before: seq<Byte>, v: int, enc: nat, after: seq<Byte>)
    requires InRange(v, enc)
    ensures Signed((before + LittleEndian(v, enc) + after)[|before|..|before| + enc]) == v
  {
    assert (before + LittleEndian(v, enc) + after)[|before|..|before| + enc] == LittleEndian(v, enc);
    SignedRoundTrip(v, enc, Pow256(enc));
  }

  /** What the widening loop needs of offsets: elements yet to be read lie below the place written. */
  lemma Offsets(l: nat, length: nat, cur: nat, enc: nat, prepend: nat)
    requires l <= length && cur <= enc && prepend <= 1
    ensures Off(l, cur) <= Off(l + prepend, enc) <= Off(length + prepend, enc) <= Off(length + 1, enc)
    ensures l < length ==> Off(l + prepend, enc) + enc <= Off(length + prepend, enc)
    ensures Off(length, cur) <= Off(length + 1, enc)
  {
    OffMonotone(l, l + prepend, cur, enc);
    OffMonotone(l + prepend, length + prepend, enc, enc);
    OffMonotone(length + prepend, length + 1, enc, enc);
    OffMonotone(length, length + 1, cur, enc);
    if l < length { OffMonotone(l + 1 + prepend, length + prepend, enc, enc); }
  }

  lemma {:induction false} OffMonotone(a: nat, b: nat, c: nat, d: nat)
    requires a <= b && c <= d
    ensures Off(a, c) <= Off(b, d)
    decreases b
  {
    if a < b {
      OffMonotone(a, b - 1, c, d);
    } else if a > 0 {
      OffMonotone(a - 1, b - 1, c, d);
    }
  }

  /** Element l of those still stored with the narrow encoding. */
  lemma NarrowElement(mem: seq<Byte>, vals: seq<int>, l: nat, enc: nat)
    requires l < |vals| && AllInRange(vals, enc) && Encode(vals[..l + 1], enc) <= mem
    ensures Off(l, enc) + enc <= |mem| && Signed(mem[Off(l, enc)..Off(l, enc) + enc]) == vals[l]
    ensures Encode(vals[..l], enc) <= mem && |Encode(vals[..l], enc)| == Off(l, enc)
  {
    var some := vals[..l + 1];
    assert some[..l] == vals[..l] && some[l] == vals[l] && some[l + 1..] == [];
    EncodeAround(some, enc, l);
    var narrow := Encode(some, enc);
    assert mem == narrow + mem[|narrow|..];
    assert narrow == Encode(vals[..l], enc) + LittleEndian(vals[l], enc);
    ReadElement(Encode(vals[..l], enc), vals[l], enc, mem[|narrow|..]);
  }

  /** Writing x just below `wide` and not below the end of `narrow`. */
  lemma WriteBelow(mem: seq<Byte>, narrow: seq<Byte>, x: seq<Byte>, wide: seq<Byte>, at: nat, end: nat)
    requires narrow <= mem && |narrow| <= at && at + |x| <= end <= |mem| && mem[at + |x|..end] == wide
    ensures narrow <= Put(mem, at, x) && Put(mem, at, x)[at..end] == x + wide
  {
  }

  /** While widening: the first l elements are still narrow, the others already wide. */
  ghost predicate Widening(mem: seq<Byte>, vals: seq<int>, l: nat, cur: nat, enc: nat, prepend: nat) {
    && l <= |vals| && |mem| == Off(|vals| + 1, enc)
    && Off(l + prepend, enc) <= Off(|vals| + prepend, enc) <= |mem|
    && Encode(vals[..l], cur) <= mem
    && mem[Off(l + prepend, enc)..Off(|vals| + prepend, enc)] == Encode(vals[l..], enc)
  }

  lemma WideningStart(mem: seq<Byte>, vals: seq<int>, cur: nat, enc: nat, prepend: nat)
    requires |mem| == Off(|vals| + 1, enc) && Encode(vals, cur) <= mem && cur <= enc && prepend <= 1
    ensures Widening(mem, vals, |vals|, cur, enc, prepend)
  {
    Offsets(|vals|, |vals|, cur, enc, prepend);
    assert vals[..|vals|] == vals && vals[|vals|..] == [];
  }

  lemma WideningStep(mem: seq<Byte>, vals: seq<int>, l: nat, cur: nat, enc: nat, prepend: nat)
    requires l < |vals| && AllInRange(vals, cur) && cur <= enc && prepend <= 1
    requires Widening(mem, vals, l + 1, cur, enc, prepend)
    ensures Off(l + prepend, enc) + enc <= |mem|
    ensures Widening(Put(mem, Off(l + prepend, enc), LittleEndian(vals[l], enc)), vals, l, cur, enc, prepend)
  {
    NarrowElement(mem, vals, l, cur);
    Offsets(l, |vals|, cur, enc, prepend);
    assert Off(l + 1 + prepend, enc) == Off(l + prepend, enc) + enc;
    WriteBelow(mem, Encode(vals[..l], cur), LittleEndian(vals[l], enc), Encode(vals[l + 1..], enc),
      Off(l + prepend, enc), Off(|vals| + prepend, enc));
    EncodeFirst(vals, l, enc);
  }

  ghost predicate Sorted(s: seq<int>) {
    forall i, j :: 0 <= i < j < |s| ==> s[i] < s[j]
  }

  /** The free place is at the front for a negative value and at the end for another. */
  lemma PlaceNew(mem: seq<Byte>, wide: seq<Byte>, x: seq<Byte>, front: bool)
    requires |mem| == |wide| + |x| && (if front then mem[|x|..] else mem[..|wide|]) == wide
    ensures front ==> Put(mem, 0, x) == x + wide
    ensures !front ==> Put(mem, |wide|, x) == wide + x
  {
  }

  lemma EncodeEnds(vals: seq<int>, value: int, enc: nat)
    ensures Encode([value] + vals, enc) == LittleEndian(value, enc) + Encode(vals, enc)
    ensures Encode(vals + [value], enc) == Encode(vals, enc) + LittleEndian(value, enc)
  {
    EncodeConcat([value], vals, enc);
    EncodeConcat(vals, [value], enc);
    EncodeOne(value, enc);
  }

  /** After the loop, the new value completes the wide array. */
  lemma WidenedAll(mem: seq<Byte>, vals: seq<int>, value: int, cur: nat, enc: nat)
    requires Widening(mem, vals, 0, cur, enc, if value < 0 then 1 else 0)
    ensures enc <= |mem| == Off(|vals|, enc) + enc
    ensures value < 0 ==> Put(mem, 0, LittleEndian(value, enc)) == Encode([value] + vals, enc)
    ensures value >= 0 ==> Put(mem, Off(|vals|, enc), LittleEndian(value, enc)) == Encode(vals + [value], enc)
  {
    assert vals[0..] == vals;
    EncodeLength(vals, enc);
    EncodeEnds(vals, value, enc);
    PlaceNew(mem, Encode(vals, enc), LittleEndian(value, enc), value < 0);
  }

  lemma UpgradedOrder(vals: seq<int>, value: int, cur: nat, enc: nat)
    requires IsEncoding(cur) && IsEncoding(enc) && cur < enc && AllInRange(vals, cur) && Sorted(vals)
    requires InRange(value, enc) && !InRange(value, cur)
    ensures var all := if value < 0 then [value] + vals else vals + [value]; AllInRange(all, enc) && Sorted(all)
  {
    forall i | 0 <= i < |vals| ensures InRange(vals[i], enc) && if value < 0 then value < vals[i] else value > vals[i] {
      WiderRange(vals[i], cur, enc);
      UpgradingValue(value, cur, vals[i]);
    }
  }

  /** Opening a gap of |x| bytes after a, by moving b, and filling it with x. */
  lemma OpenGap(a: seq<Byte>, b: seq<Byte>, junk: seq<Byte>, x: seq<Byte>)
    requires |x| == |junk|
    ensures Put(Put(a + b + junk, |a| + |x|, b), |a|, x) == a + x + b
  {
    var moved := Put(a + b + junk, |a| + |x|, b);
    assert moved[..|a|] == a && moved[|a| + |x|..] == b;
  }

  lemma EncodeInserted(vals: seq<int>, enc: nat, pos: nat, value: int)
    requires pos <= |vals|
    ensures Encode(vals[..pos] + [value] + vals[pos..], enc)
      == Encode(vals[..pos], enc) + LittleEndian(value, enc) + Encode(vals[pos..], enc)
  {
    EncodeConcat(vals[..pos] + [value], vals[pos..], enc);
    EncodeConcat(vals[..pos], [value], enc);
    EncodeOne(value, enc);
  }

  /** The same by memmove; nothing is to be moved when b is empty. */
  lemma GapFilled(a: seq<Byte>, b: seq<Byte>, junk: seq<Byte>, x: seq<Byte>)
    requires |x| == |junk|
    ensures Put(Move(a + b + junk, |a|, |a| + |x|, |b|), |a|, x) == a + x + b
    ensures b == [] ==> Put(a + b + junk, |a|, x) == a + x + b
  {
    assert (a + b + junk)[|a|..|a| + |b|] == b;
    OpenGap(a, b, junk, x);
  }

  lemma GapFilledAt(mem: seq<Byte>, a: seq<Byte>, b: seq<Byte>, junk: seq<Byte>, x: seq<Byte>, p: nat, q: nat, n: nat)
    requires mem == a + b + junk && |x| == |junk| && p == |a| && q == p + |x| && n == |b|
    ensures Put(Move(mem, p, q, n), p, x) == a + x + b
    ensures n == 0 ==> Put(mem, p, x) == a + x + b
  {
    GapFilled(a, b, junk, x);
  }

  lemma InsertedSizes(vals: seq<int>, enc: nat, pos: nat, mem: seq<Byte>)
      returns (a: seq<Byte>, b: seq<Byte>, junk: seq<Byte>)
    requires pos <= |vals| && Encode(vals, enc) <= mem && |mem| == Off(|vals| + 1, enc)
    ensures a == Encode(vals[..pos], enc) && b == Encode(vals[pos..], enc) && mem == a + b + junk && |junk| == enc
    ensures |a| == Off(pos, enc) && |b| == Off(|vals| - pos, enc) && Off(pos + 1, enc) == |a| + enc
    ensures Off(pos, enc) + Off(|vals| - pos, enc) + enc == |mem|
  {
    EncodeSplit(vals, enc, pos);
    EncodeLength(vals, enc);
    a, b := Encode(vals[..pos], enc), Encode(vals[pos..], enc);
    junk := mem[|a + b|..];
  }

  ghost predicate GapFits(mem: seq<Byte>, pos: nat, len: nat, enc: nat)
    requires pos <= len
  {
    Off(pos, enc) + Off(len - pos, enc) + enc <= |mem| && Off(pos + 1, enc) == Off(pos, enc) + enc
  }

  /** Memory after the tail has made room at pos. */
  ghost function Gap(mem: seq<Byte>, pos: nat, len: nat, enc: nat): (r: seq<Byte>)
    requires pos <= len && GapFits(mem, pos, len, enc)
    ensures |r| == |mem|
  {
    if pos < len then Move(mem, Off(pos, enc), Off(pos + 1, enc), Off(len - pos, enc)) else mem
  }

  /** Moving the tail up by one place and writing the value inserts it. */
  lemma InsertedBytes(vals: seq<int>, enc: nat, pos: nat, value: int, mem: seq<Byte>)
    requires pos <= |vals| && Encode(vals, enc) <= mem && |mem| == Off(|vals| + 1, enc)
    ensures GapFits(mem, pos, |vals|, enc)
    ensures Put(Gap(mem, pos, |vals|, enc), Off(pos, enc), LittleEndian(value, enc))
      == Encode(vals[..pos] + [value] + vals[pos..], enc)
  {
    var a, b, junk := InsertedSizes(vals, enc, pos, mem);
    EncodeInserted(vals, enc, pos, value);
    GapFilledAt(mem, a, b, junk, LittleEndian(value, enc), Off(pos, enc), Off(pos + 1, enc), Off(|vals| - pos, enc));
  }

  /** Moving the tail down by one place and dropping the last removes the element. */
  lemma RemovedBytes(vals: seq<int>, enc: nat, pos: nat)
    requires pos < |vals|
    ensures var mem, rest := Encode(vals, enc), Off(|vals| - (pos + 1), enc);
      && |mem| == Off(|vals|, enc) == Off(pos + 1, enc) + rest && Off(pos + 1, enc) == Off(pos, enc) + enc
      && Move(mem, Off(pos + 1, enc), Off(pos, enc), rest)[..Off(|vals| - 1, enc)]
        == Encode(vals[..pos] + vals[pos + 1..], enc)
      && (pos == |vals| - 1 ==> mem[..Off(|vals| - 1, enc)] == Encode(vals[..pos] + vals[pos + 1..], enc))
  {
    EncodeAround(vals, enc, pos);
    var a, x, b := Encode(vals[..pos], enc), LittleEndian(vals[pos], enc), Encode(vals[pos + 1..], enc);
    RemovedSizes(vals, enc, pos);
    EncodeConcat(vals[..pos], vals[pos + 1..], enc);
    MovedOver(Encode(vals, enc), a, x, b, Off(pos + 1, enc), Off(pos, enc), Off(|vals| - (pos + 1), enc),
      Off(|vals| - 1, enc));
  }

  lemma MovedOver(mem: seq<Byte>, a: seq<Byte>, x: seq<Byte>, b: seq<Byte>, from: nat, to: nat, n: nat, end: nat)
    requires mem == a + x + b && from == |a| + |x| && to == |a| && n == |b| && end == |a| + |b|
    ensures Move(mem, from, to, n)[..end] == a + b
    ensures n == 0 ==> mem[..end] == a + b
  {
    MoveOver(a, x, b);
  }

  lemma RemovedSizes(vals: seq<int>, enc: nat, pos: nat)
    requires pos < |vals|
    ensures |Encode(vals, enc)| == Off(|vals|, enc) && |Encode(vals[pos + 1..], enc)| == Off(|vals| - (pos + 1), enc)
    ensures |Encode(vals[..pos] + vals[pos + 1..], enc)| == Off(|vals| - 1, enc)
  {
    EncodeLength(vals, enc);
    EncodeLength(vals[pos + 1..], enc);
    EncodeLength(vals[..pos] + vals[pos + 1..], enc);
  }

  lemma MoveOver(a: seq<Byte>, x: seq<Byte>, b: seq<Byte>)
    ensures Move(a + x + b, |a| + |x|, |a|, |b|)[..|a| + |b|] == a + b
    ensures b == [] ==> (a + x + b)[..|a| + |b|] == a + b
  {
    assert (a + x + b)[|a| + |x|..|a| + |x| + |b|] == b;
    CloseGap(a, x, b);
  }

  lemma InsertedOrder(vals: seq<int>, value: int, pos: nat, enc: nat)
    requires Sorted(vals) && AllInRange(vals, enc) && InRange(value, enc) && pos <= |vals|
    requires (forall i :: 0 <= i < pos ==> vals[i] < value) && (forall i :: pos <= i < |vals| ==> value < vals[i])
    ensures Sorted(vals[..pos] + [value] + vals[pos..]) && AllInRange(vals[..pos] + [value] + vals[pos..], enc)
    ensures (set v | v in vals[..pos] + [value] + vals[pos..]) == (set v | v in vals) + {value}
  {
    InsertedSorted(vals, value, pos);
    InsertedRange(vals, value, pos, enc);
    InsertedSet(vals, value, pos);
  }

  lemma InsertedSorted(vals: seq<int>, value: int, pos: nat)
    requires Sorted(vals) && pos <= |vals|
    requires (forall i :: 0 <= i < pos ==> vals[i] < value) && (forall i :: pos <= i < |vals| ==> value < vals[i])
    ensures Sorted(vals[..pos] + [value] + vals[pos..])
  {
  }

  lemma InsertedRange(vals: seq<int>, value: int, pos: nat, enc: nat)
    requires AllInRange(vals, enc) && InRange(value, enc) && pos <= |vals|
    ensures AllInRange(vals[..pos] + [value] + vals[pos..], enc)
  {
  }

  lemma InsertedSet(vals: seq<int>, value: int, pos: nat)
    requires pos <= |vals|
    ensures (set v | v in vals[..pos] + [value] + vals[pos..]) == (set v | v in vals) + {value}
  {
    assert vals == vals[..pos] + vals[pos..];
  }

  lemma RemovedOrder(vals: seq<int>, pos: nat, enc: nat)
    requires Sorted(vals) && AllInRange(vals, enc) && pos < |vals|
    ensures var all := vals[..pos] + vals[pos + 1..];
      Sorted(all) && AllInRange(all, enc) && (set v | v in all) == (set v | v in vals) - {vals[pos]}
  {
    assert vals == vals[..pos] + [vals[pos]] + vals[pos + 1..];
  }

  /** Closing the gap that x leaves. */
  lemma CloseGap(a: seq<Byte>, x: seq<Byte>, b: seq<Byte>)
    ensures Put(a + x + b, |a|, b)[..|a| + |b|] == a + b
  {
  }
}

/** Sorted sets of integers in one block of bytes, intset.c. */
module Intset {
  import opened Bytes
  import opened RdbForm
  import opened IntsetLayout
  import Decimal

  class IntSet {
    var encoding: nat
    var length: nat
    var contents: seq<Byte>
    /** The members, in order. */
    ghost var vals: seq<int>

    ghost predicate Layout(enc: nat, mem: seq<Byte>, vals: seq<int>) {
      IsEncoding(enc) && mem == Encode(vals, enc) && AllInRange(vals, enc)
    }

    ghost predicate Valid()
      reads this
    {
      length == |vals| && Sorted(vals) && Layout(encoding, contents, vals)
    }

    ghost function Members(): set<int>
      reads this
    {
      set v | v in vals
    }

    /** intsetNew. */
    constructor ()
      ensures Valid()
      ensures vals == []
    {
      encoding, length, contents, vals := 2, 0, [], [];
    }

    /** _intsetGetEncoded. */
    function GetEncoded(pos: nat, enc: nat): int
      reads this
      requires Off(pos, enc) + enc <= |contents|
    {
      Signed(contents[Off(pos, enc)..Off(pos, enc) + enc])
    }

    lemma ElementAt(pos: nat)
      requires Valid() && pos < length
      ensures Off(pos, encoding) + encoding <= |contents| && GetEncoded(pos, encoding) == vals[pos]
    {
      EncodeAround(vals, encoding, pos);
      ReadElement(Encode(vals[..pos], encoding), vals[pos], encoding, Encode(vals[pos + 1..], encoding));
    }

    /** _intsetGet. */
    method Get(pos: nat) returns (v: int)
      requires Valid() && pos < length
      ensures v == vals[pos]
    {
      ElementAt(pos);
      v := GetEncoded(pos, encoding);
    }

    /** _intsetSet. */
    method Set(pos: nat, value: int)
      requires Off(pos, encoding) + encoding <= |contents|
      modifies `contents
      ensures contents == Put(old(contents), Off(pos, encoding), LittleEndian(value, encoding))
    {
      contents := Put(contents, Off(pos, encoding), LittleEndian(value, encoding));
    }

    /** intsetResize: new memory is not initialised. */
    method Resize(len: nat, junk: nat -> Byte)
      modifies `contents
      ensures |contents| == Off(len, encoding)
      ensures if Off(len, encoding) <= |old(contents)| then contents == old(contents)[..Off(len, encoding)]
        else old(contents) <= contents
    {
      var size := Off(len, encoding);
      if size <= |contents| {
        contents := contents[..size];
      } else {
        var more := seq<Byte>(size - |contents|, i requires 0 <= i => junk(i));
        contents := contents + more;
      }
    }

    /** intsetSearch: the position of the value, or else where it belongs. */
    method Search(value: int) returns (found: bool, pos: nat)
      requires Valid()
      ensures found <==> value in vals
      ensures found ==> pos < length && vals[pos] == value
      ensures !found ==>
        pos <= length && (forall i :: 0 <= i < pos ==> vals[i] < value)
        && (forall i :: pos <= i < length ==> value < vals[i])
    {
      if length == 0 { return false, 0; }
      var last := Get(length - 1);
      if value > last { return false, length; }
      var first := Get(0);
      if value < first { return false, 0; }
      var min, max, mid, cur := 0, length - 1, -1, -1;
      while max >= min
        invariant 0 <= min <= max + 1 <= length
        invariant forall i :: 0 <= i < min ==> vals[i] < value
        invariant forall i :: max < i < length ==> value < vals[i]
        invariant mid == -1 ==> min == 0 && max == length - 1
        invariant mid != -1 ==> 0 <= mid < length && cur == vals[mid] != value
        decreases max - min
      {
        mid := (min + max) / 2;
        cur := Get(mid);
        if value > cur {
          min := mid + 1;
        } else if value < cur {
          max := mid - 1;
        } else {
          break;
        }
      }
      if value == cur {
        return true, mid;
      } else {
        return false, min;
      }
    }

    /** intsetFind. */
    method Find(value: int) returns (found: bool)
      requires Valid() && Decimal.IsLongLong(value)
      ensures found <==> value in Members()
    {
      if ValueEncoding(value) > encoding { return false; }
      var pos;
      found, pos := Search(value);
    }

    // -------------------------------------------------------------- widening

    /** The loop of intsetUpgradeAndAdd, from back to front: what is still to be read lies below
        what is written. */
    method Widen(curenc: nat, prepend: nat)
      requires IsEncoding(curenc) && IsEncoding(encoding) && curenc < encoding && prepend <= 1
      requires length == |vals| && |contents| == Off(length + 1, encoding)
      requires Encode(vals, curenc) <= contents && AllInRange(vals, curenc)
      modifies `contents
      ensures Widening(contents, vals, 0, curenc, encoding, prepend)
    {
      var l := length;
      WideningStart(contents, vals, curenc, encoding, prepend);
      while l > 0
        invariant 0 <= l <= length && Widening(contents, vals, l, curenc, encoding, prepend)
      {
        l := l - 1;
        WidenOne(l, curenc, prepend);
      }
    }

    method WidenOne(l: nat, curenc: nat, prepend: nat)
      requires l < length == |vals| && AllInRange(vals, curenc) && curenc <= encoding && prepend <= 1
      requires Widening(contents, vals, l + 1, curenc, encoding, prepend)
      modifies `contents
      ensures Widening(contents, vals, l, curenc, encoding, prepend)
    {
      NarrowElement(contents, vals, l, curenc);
      var v := GetEncoded(l, curenc);
      WideningStep(contents, vals, l, curenc, encoding, prepend);
      Set(l + prepend, v);
    }

    /** intsetUpgradeAndAdd. */
    method UpgradeAndAdd(value: int, junk: nat -> Byte)
      requires Valid() && Decimal.IsLongLong(value) && ValueEncoding(value) > encoding
      modifies this
      ensures Valid()
      ensures encoding == ValueEncoding(value)
      ensures vals == if value < 0 then [value] + old(vals) else old(vals) + [value]
    {
      var curenc, newenc := encoding, ValueEncoding(value);
      var prepend := if value < 0 then 1 else 0;
      encoding := newenc;
      EncodeLength(vals, curenc);
      Offsets(length, length, curenc, newenc, prepend);
      Resize(length + 1, junk);
      assert Encode(vals, curenc) <= contents;
      Widen(curenc, prepend);
      WidenedAll(contents, vals, value, curenc, newenc);
      if prepend == 1 { Set(0, value); } else { Set(length, value); }
      length := length + 1;
      UpgradedOrder(vals, value, curenc, newenc);
      vals := if value < 0 then [value] + vals else vals + [value];
    }

    // -------------------------------------------------------------- adding and removing

    /** intsetMoveTail: a memmove of the elements from `from` on. */
    method MoveTail(from: nat, to: nat)
      requires from <= length && Off(to, encoding) + Off(length - from, encoding) <= |contents|
      requires Off(from, encoding) + Off(length - from, encoding) <= |contents|
      modifies `contents
      ensures contents == Move(old(contents), Off(from, encoding), Off(to, encoding), Off(length - from, encoding))
    {
      var bytes := Off(length - from, encoding);
      contents := Move(contents, Off(from, encoding), Off(to, encoding), bytes);
    }

    /** Make room at position pos and write the value there. */
    method InsertAt(pos: nat, value: int)
      requires length == |vals| && Encode(vals, encoding) <= contents && |contents| == Off(length + 1, encoding)
        && pos <= length
      modifies `contents
      ensures contents == Encode(vals[..pos] + [value] + vals[pos..], encoding)
    {
      InsertedBytes(vals, encoding, pos, value, contents);
      MakeGap(pos);
      Set(pos, value);
    }

    method MakeGap(pos: nat)
      requires pos <= length && GapFits(contents, pos, length, encoding)
      modifies `contents
      ensures contents == Gap(old(contents), pos, length, encoding)
    {
      if pos < length { MoveTail(pos, pos + 1); }
    }

    method Grow(junk: nat -> Byte)
      requires length == |vals| && contents == Encode(vals, encoding)
      modifies `contents
      ensures Encode(vals, encoding) <= contents && |contents| == Off(length + 1, encoding)
    {
      EncodeLength(vals, encoding);
      Resize(length + 1, junk);
    }

    /** intsetAdd. */
    method Add(value: int, junk: nat -> Byte) returns (success: bool)
      requires Valid() && Decimal.IsLongLong(value)
      modifies this
      ensures Valid()
      ensures Members() == old(Members()) + {value} && (success <==> value !in old(Members()))
      ensures encoding == if ValueEncoding(value) > old(encoding) then ValueEncoding(value) else old(encoding)
    {
      if ValueEncoding(value) > encoding {
        UpgradeAndAdd(value, junk);
        return true;
      }
      var found, pos := Search(value);
      if found { return false; }
      Grow(junk);
      InsertAt(pos, value);
      length := length + 1;
      InsertedOrder(vals, value, pos, encoding);
      vals := vals[..pos] + [value] + vals[pos..];
      return true;
    }

    /** intsetRemove. */
    method Remove(value: int, junk: nat -> Byte) returns (success: bool)
      requires Valid() && Decimal.IsLongLong(value)
      modifies this
      ensures Valid()
      ensures Members() == old(Members()) - {value} && (success <==> value in old(Members()))
      ensures encoding == old(encoding)
    {
      success := false;
      if ValueEncoding(value) <= encoding {
        var pos;
        success, pos := Search(value);
        if success {
          RemoveAt(pos, junk);
          length := length - 1;
          RemovedOrder(vals, pos, encoding);
          vals := vals[..pos] + vals[pos + 1..];
        }
      }
    }

    /** Overwrite the element with those behind it and give back the last place. */
    method RemoveAt(pos: nat, junk: nat -> Byte)
      requires length == |vals| && contents == Encode(vals, encoding) && pos < length
      modifies `contents
      ensures contents == Encode(vals[..pos] + vals[pos + 1..], encoding)
    {
      RemovedBytes(vals, encoding, pos);
      if pos < length - 1 { MoveTail(pos + 1, pos); }
      Resize(length - 1, junk);
    }
  }
}
