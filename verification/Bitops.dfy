/** Counting bits, bitops.c. */
module Popcount {
  /** The number of ones in a byte, bit by bit. */
  function Ones(b: bv8): nat {
    (if b & 1 != 0 then 1 else 0) + (if b & 2 != 0 then 1 else 0)
    + (if b & 4 != 0 then 1 else 0) + (if b & 8 != 0 then 1 else 0)
    + (if b & 16 != 0 then 1 else 0) + (if b & 32 != 0 then 1 else 0)
    + (if b & 64 != 0 then 1 else 0) + (if b & 128 != 0 then 1 else 0)
  }

  /** The number of ones in a string. */
  ghost function Count(s: seq<bv8>): nat {
    if s == [] then 0 else Ones(s[0]) + Count(s[1..])
  }

  predicate SingleBit(m: bv8) {
    m & (m - 1) == 0 && m != 0
  }

  /** A zero byte has none, and clearing a bit that is set leaves one less. */
  lemma OnesCount(b: bv8, m: bv8)
    requires SingleBit(m)
    ensures Ones(0) == 0
    ensures b & m != 0 ==> Ones(b) == Ones(b & !m) + 1
  {
    assert m == 1 || m == 2 || m == 4 || m == 8 || m == 16 || m == 32 || m == 64 || m == 128;
  }

  /** bitsinbyte, sixteen entries to a row. */
  const BitsInByte: seq<seq<nat>> := [
    [0, 1, 1, 2, 1, 2, 2, 3, 1, 2, 2, 3, 2, 3, 3, 4],
    [1, 2, 2, 3, 2, 3, 3, 4, 2, 3, 3, 4, 3, 4, 4, 5],
    [1, 2, 2, 3, 2, 3, 3, 4, 2, 3, 3, 4, 3, 4, 4, 5],
    [2, 3, 3, 4, 3, 4, 4, 5, 3, 4, 4, 5, 4, 5, 5, 6],
    [1, 2, 2, 3, 2, 3, 3, 4, 2, 3, 3, 4, 3, 4, 4, 5],
    [2, 3, 3, 4, 3, 4, 4, 5, 3, 4, 4, 5, 4, 5, 5, 6],
    [2, 3, 3, 4, 3, 4, 4, 5, 3, 4, 4, 5, 4, 5, 5, 6],
    [3, 4, 4, 5, 4, 5, 5, 6, 4, 5, 5, 6, 5, 6, 6, 7],
    [1, 2, 2, 3, 2, 3, 3, 4, 2, 3, 3, 4, 3, 4, 4, 5],
    [2, 3, 3, 4, 3, 4, 4, 5, 3, 4, 4, 5, 4, 5, 5, 6],
    [2, 3, 3, 4, 3, 4, 4, 5, 3, 4, 4, 5, 4, 5, 5, 6],
    [3, 4, 4, 5, 4, 5, 5, 6, 4, 5, 5, 6, 5, 6, 6, 7],
    [2, 3, 3, 4, 3, 4, 4, 5, 3, 4, 4, 5, 4, 5, 5, 6],
    [3, 4, 4, 5, 4, 5, 5, 6, 4, 5, 5, 6, 5, 6, 6, 7],
    [3, 4, 4, 5, 4, 5, 5, 6, 4, 5, 5, 6, 5, 6, 6, 7],
    [4, 5, 5, 6, 5, 6, 6, 7, 5, 6, 6, 7, 6, 7, 7, 8]
  ]

  function LookUp(b: bv8): nat {
    BitsInByte[b >> 4][b & 15]
  }

  lemma LookUpCounts(b: bv8)
    ensures LookUp(b) == Ones(b)
  {
  }

  // ---------------------------------------------------------------- four bytes at a time

  function Load(b0: bv8, b1: bv8, b2: bv8, b3: bv8): bv32 {
    (b0 as bv32) | ((b1 as bv32) << 8) | ((b2 as bv32) << 16) | ((b3 as bv32) << 24)
  }

  /** Sums of two, four and eight neighbouring bits, each in its own lane. */
  function Lanes(x: bv32): bv32 {
    var a := x - ((x >> 1) & 0x55555555);
    var b := (a & 0x33333333) + ((a >> 2) & 0x33333333);
    (b + (b >> 4)) & 0x0F0F0F0F
  }

  /** The sum of the four lanes. */
  function Top(y: bv32): bv32 {
    (y * 0x01010101) >> 24
  }

  lemma Lane0(b0: bv8, b1: bv8, b2: bv8, b3: bv8)
    ensures (Lanes(Load(b0, b1, b2, b3)) & 0xff) as nat == Ones(b0)
  {
  }

  lemma Lane1(b0: bv8, b1: bv8, b2: bv8, b3: bv8)
    ensures ((Lanes(Load(b0, b1, b2, b3)) >> 8) & 0xff) as nat == Ones(b1)
  {
  }

  lemma Lane2(b0: bv8, b1: bv8, b2: bv8, b3: bv8)
    ensures ((Lanes(Load(b0, b1, b2, b3)) >> 16) & 0xff) as nat == Ones(b2)
  {
  }

  lemma Lane3(b0: bv8, b1: bv8, b2: bv8, b3: bv8)
    ensures (Lanes(Load(b0, b1, b2, b3)) >> 24) as nat == Ones(b3)
  {
  }

  lemma LanesSmall(x: bv32)
    ensures Lanes(x) & 0xF0F0F0F0 == 0
  {
  }

  /** The multiplication adds the four lanes up in the highest. */
  lemma LanesSum(y: bv32)
    requires y & 0xF0F0F0F0 == 0
    ensures Top(y) == ((y & 0xff) + ((y >> 8) & 0xff)) + (((y >> 16) & 0xff) + (y >> 24))
  {
  }

  lemma AddSmall(a: bv32, b: bv32)
    requires a <= 31 && b <= 31
    ensures (a + b) as nat == (a as nat) + (b as nat)
  {
  }

  lemma SumSmall(a: bv32, b: bv32)
    requires a <= 15 && b <= 15
    ensures a + b <= 31
  {
  }

  lemma AddPairs(u: bv32, v: bv32, a: nat, b: nat, c: nat, d: nat)
    requires u <= 31 && v <= 31 && u as nat == a + b && v as nat == c + d
    ensures (u + v) as nat == a + b + c + d
  {
    AddSmall(u, v);
  }

  lemma AddLanes(a: bv32, b: bv32, c: bv32, d: bv32)
    requires a <= 15 && b <= 15 && c <= 15 && d <= 15
    ensures ((a + b) + (c + d)) as nat == (a as nat) + (b as nat) + (c as nat) + (d as nat)
  {
    SumSmall(a, b);
    SumSmall(c, d);
    AddSmall(a, b);
    AddSmall(c, d);
    AddPairs(a + b, c + d, a as nat, b as nat, c as nat, d as nat);
  }

  lemma LaneSizes(y: bv32)
    requires y & 0xF0F0F0F0 == 0
    ensures y & 0xff <= 15 && (y >> 8) & 0xff <= 15 && (y >> 16) & 0xff <= 15 && y >> 24 <= 15
  {
  }

  lemma LanesNat(y: bv32)
    requires y & 0xF0F0F0F0 == 0
    ensures (((y & 0xff) + ((y >> 8) & 0xff)) + (((y >> 16) & 0xff) + (y >> 24))) as nat
      == ((y & 0xff) as nat) + (((y >> 8) & 0xff) as nat) + (((y >> 16) & 0xff) as nat) + ((y >> 24) as nat)
  {
    LaneSizes(y);
    AddLanes(y & 0xff, (y >> 8) & 0xff, (y >> 16) & 0xff, y >> 24);
  }

  lemma TopNat(y: bv32, sum: bv32)
    requires Top(y) == sum
    ensures Top(y) as nat == sum as nat
  {
  }

  lemma TopSum(y: bv32)
    requires y & 0xF0F0F0F0 == 0
    ensures Top(y) as nat
      == ((y & 0xff) as nat) + (((y >> 8) & 0xff) as nat) + (((y >> 16) & 0xff) as nat) + ((y >> 24) as nat)
  {
    LanesSum(y);
    TopNat(y, ((y & 0xff) + ((y >> 8) & 0xff)) + (((y >> 16) & 0xff) + (y >> 24)));
    LanesNat(y);
  }

  lemma Total(w: nat, l0: nat, l1: nat, l2: nat, l3: nat, n0: nat, n1: nat, n2: nat, n3: nat)
    requires w == l0 + l1 + l2 + l3 && l0 == n0 && l1 == n1 && l2 == n2 && l3 == n3
    ensures w == n0 + n1 + n2 + n3
  {
  }

  /** A word counts the ones of its four bytes. */
  lemma WordCounts(b0: bv8, b1: bv8, b2: bv8, b3: bv8)
    ensures Top(Lanes(Load(b0, b1, b2, b3))) as nat == Ones(b0) + Ones(b1) + Ones(b2) + Ones(b3)
  {
    LanesSmall(Load(b0, b1, b2, b3));
    TopSum(Lanes(Load(b0, b1, b2, b3)));
    Lane0(b0, b1, b2, b3);
    Lane1(b0, b1, b2, b3);
    Lane2(b0, b1, b2, b3);
    Lane3(b0, b1, b2, b3);
    Total(Top(Lanes(Load(b0, b1, b2, b3))) as nat, (Lanes(Load(b0, b1, b2, b3)) & 0xff) as nat,
      ((Lanes(Load(b0, b1, b2, b3)) >> 8) & 0xff) as nat, ((Lanes(Load(b0, b1, b2, b3)) >> 16) & 0xff) as nat,
      (Lanes(Load(b0, b1, b2, b3)) >> 24) as nat, Ones(b0), Ones(b1), Ones(b2), Ones(b3));
  }

  // ---------------------------------------------------------------- popcount

  lemma CountFour(s: seq<bv8>)
    requires |s| >= 4
    ensures Count(s) == Ones(s[0]) + Ones(s[1]) + Ones(s[2]) + Ones(s[3]) + Count(s[4..])
  {
    assert s[1..][1..] == s[2..] && s[2..][1..] == s[3..] && s[3..][1..] == s[4..];
    assert Count(s[2..]) == Ones(s[2]) + (Ones(s[3]) + Count(s[4..]));
  }

  method CountWord(s: seq<bv8>, p: nat) returns (n: nat)
    requires p + 4 <= |s|
    ensures Count(s[p..]) == n + Count(s[p + 4..])
  {
    WordCounts(s[p], s[p + 1], s[p + 2], s[p + 3]);
    n := Top(Lanes(Load(s[p], s[p + 1], s[p + 2], s[p + 3]))) as nat;
    CountFour(s[p..]);
    assert s[p..][4..] == s[p + 4..];
  }

  /** Sixteen bytes at a time by words, the rest by table. */
  method CountBits(s: seq<bv8>) returns (bits: nat)
    ensures bits == Count(s)
  {
    bits := 0;
    var p := 0;
    assert s[0..] == s;
    while |s| - p >= 16
      invariant 0 <= p <= |s| && bits + Count(s[p..]) == Count(s)
    {
      var aux1 := CountWord(s, p);
      var aux2 := CountWord(s, p + 4);
      var aux3 := CountWord(s, p + 8);
      var aux4 := CountWord(s, p + 12);
      bits := bits + (aux1 + aux2 + aux3 + aux4);
      p := p + 16;
    }
    while p < |s|
      invariant 0 <= p <= |s| && bits + Count(s[p..]) == Count(s)
    {
      LookUpCounts(s[p]);
      assert s[p..][1..] == s[p + 1..];
      bits := bits + LookUp(s[p]);
      p := p + 1;
    }
  }
}

/** BITOP, the computing part of bitopCommand in bitops.c. */
module Bitop {
  import opened Bytes

  datatype Op = And | Or | Xor | Not

  function Apply(op: Op, a: bv8, b: bv8): bv8 {
    match op
    case And => a & b
    case Or => a | b
    case Xor => a ^ b
    case Not => a
  }

  /** The byte at j of a string padded with zeros. */
  function ByteAt(s: seq<bv8>, j: nat): bv8 {
    if j < |s| then s[j] else 0
  }

  /** The operation on the bytes at j of the first n strings. */
  function Out(op: Op, srcs: seq<seq<bv8>>, j: nat, n: nat): bv8
    requires 1 <= n <= |srcs|
  {
    if n == 1 then
      if op == Not then !ByteAt(srcs[0], j) else ByteAt(srcs[0], j)
    else
      Apply(op, Out(op, srcs, j, n - 1), ByteAt(srcs[n - 1], j))
  }

  // ---------------------------------------------------------------- words

  /** The eight bytes of an unsigned long in memory, the lowest first. */
  datatype Octets = Octets(b0: bv8, b1: bv8, b2: bv8, b3: bv8, b4: bv8, b5: bv8, b6: bv8, b7: bv8)

  function LoadWord(o: Octets): bv64 {
    (o.b0 as bv64) | ((o.b1 as bv64) << 8) | ((o.b2 as bv64) << 16) | ((o.b3 as bv64) << 24)
    | ((o.b4 as bv64) << 32) | ((o.b5 as bv64) << 40) | ((o.b6 as bv64) << 48) | ((o.b7 as bv64) << 56)
  }

  function Byte0(x: bv64): bv8 { (x & 0xFF) as bv8 }

  function Byte1(x: bv64): bv8 { ((x >> 8) & 0xFF) as bv8 }

  function Byte2(x: bv64): bv8 { ((x >> 16) & 0xFF) as bv8 }

  function Byte3(x: bv64): bv8 { ((x >> 24) & 0xFF) as bv8 }

  function Byte4(x: bv64): bv8 { ((x >> 32) & 0xFF) as bv8 }

  function Byte5(x: bv64): bv8 { ((x >> 40) & 0xFF) as bv8 }

  function Byte6(x: bv64): bv8 { ((x >> 48) & 0xFF) as bv8 }

  function Byte7(x: bv64): bv8 { ((x >> 56) & 0xFF) as bv8 }

  function StoreWord(x: bv64): Octets {
    Octets(Byte0(x), Byte1(x), Byte2(x), Byte3(x), Byte4(x), Byte5(x), Byte6(x), Byte7(x))
  }

  /** The operation on single bytes. */
  function ApplyByte(op: Op, a: bv8, b: bv8): bv8 {
    if op == Not then !a else Apply(op, a, b)
  }

  lemma LoadedByte0(o: Octets)
    ensures Byte0(LoadWord(o)) == o.b0
  {
  }

  lemma LoadedByte1(o: Octets)
    ensures Byte1(LoadWord(o)) == o.b1
  {
  }

  lemma LoadedByte2(o: Octets)
    ensures Byte2(LoadWord(o)) == o.b2
  {
  }

  lemma LoadedByte3(o: Octets)
    ensures Byte3(LoadWord(o)) == o.b3
  {
  }

  lemma LoadedByte4(o: Octets)
    ensures Byte4(LoadWord(o)) == o.b4
  {
  }

  lemma LoadedByte5(o: Octets)
    ensures Byte5(LoadWord(o)) == o.b5
  {
  }

  lemma LoadedByte6(o: Octets)
    ensures Byte6(LoadWord(o)) == o.b6
  {
  }

  lemma LoadedByte7(o: Octets)
    ensures Byte7(LoadWord(o)) == o.b7
  {
  }

  lemma LoadedBytes(o: Octets)
    ensures StoreWord(LoadWord(o)) == o
  {
    LoadedByte0(o);
    LoadedByte1(o);
    LoadedByte2(o);
    LoadedByte3(o);
    LoadedByte4(o);
    LoadedByte5(o);
    LoadedByte6(o);
    LoadedByte7(o);
  }

  /** The operation on each of eight bytes. */
  ghost function ApplyOctets(op: Op, a: Octets, b: Octets): Octets {
    Octets(ApplyByte(op, a.b0, b.b0), ApplyByte(op, a.b1, b.b1), ApplyByte(op, a.b2, b.b2), ApplyByte(op, a.b3, b.b3),
      ApplyByte(op, a.b4, b.b4), ApplyByte(op, a.b5, b.b5), ApplyByte(op, a.b6, b.b6), ApplyByte(op, a.b7, b.b7))
  }

  lemma AndBytes(x: bv64, y: bv64)
    ensures Byte0(x & y) == Byte0(x) & Byte0(y) && Byte1(x & y) == Byte1(x) & Byte1(y)
    ensures Byte2(x & y) == Byte2(x) & Byte2(y) && Byte3(x & y) == Byte3(x) & Byte3(y)
    ensures Byte4(x & y) == Byte4(x) & Byte4(y) && Byte5(x & y) == Byte5(x) & Byte5(y)
    ensures Byte6(x & y) == Byte6(x) & Byte6(y) && Byte7(x & y) == Byte7(x) & Byte7(y)
  {
  }

  lemma OrBytes(x: bv64, y: bv64)
    ensures Byte0(x | y) == Byte0(x) | Byte0(y) && Byte1(x | y) == Byte1(x) | Byte1(y)
    ensures Byte2(x | y) == Byte2(x) | Byte2(y) && Byte3(x | y) == Byte3(x) | Byte3(y)
    ensures Byte4(x | y) == Byte4(x) | Byte4(y) && Byte5(x | y) == Byte5(x) | Byte5(y)
    ensures Byte6(x | y) == Byte6(x) | Byte6(y) && Byte7(x | y) == Byte7(x) | Byte7(y)
  {
  }

  lemma XorBytes(x: bv64, y: bv64)
    ensures Byte0(x ^ y) == Byte0(x) ^ Byte0(y) && Byte1(x ^ y) == Byte1(x) ^ Byte1(y)
    ensures Byte2(x ^ y) == Byte2(x) ^ Byte2(y) && Byte3(x ^ y) == Byte3(x) ^ Byte3(y)
    ensures Byte4(x ^ y) == Byte4(x) ^ Byte4(y) && Byte5(x ^ y) == Byte5(x) ^ Byte5(y)
    ensures Byte6(x ^ y) == Byte6(x) ^ Byte6(y) && Byte7(x ^ y) == Byte7(x) ^ Byte7(y)
  {
  }

  lemma NotBytes(x: bv64)
    ensures Byte0(!x) == !Byte0(x) && Byte1(!x) == !Byte1(x)
    ensures Byte2(!x) == !Byte2(x) && Byte3(!x) == !Byte3(x)
    ensures Byte4(!x) == !Byte4(x) && Byte5(!x) == !Byte5(x)
    ensures Byte6(!x) == !Byte6(x) && Byte7(!x) == !Byte7(x)
  {
  }

  lemma AndOctets(x: bv64, y: bv64)
    ensures StoreWord(x & y)
      == Octets(Byte0(x) & Byte0(y), Byte1(x) & Byte1(y), Byte2(x) & Byte2(y), Byte3(x) & Byte3(y),
      Byte4(x) & Byte4(y), Byte5(x) & Byte5(y), Byte6(x) & Byte6(y), Byte7(x) & Byte7(y))
  {
    AndBytes(x, y);
  }

  lemma AndMemory(a: Octets, b: Octets)
    ensures StoreWord(LoadWord(a) & LoadWord(b)) == Octets(a.b0 & b.b0, a.b1 & b.b1, a.b2 & b.b2, a.b3 & b.b3,
      a.b4 & b.b4, a.b5 & b.b5, a.b6 & b.b6, a.b7 & b.b7)
  {
    AndOctets(LoadWord(a), LoadWord(b));
    LoadedBytes(a);
    LoadedBytes(b);
  }

  lemma AndApplied(a: Octets, b: Octets)
    ensures Octets(a.b0 & b.b0, a.b1 & b.b1, a.b2 & b.b2, a.b3 & b.b3,
      a.b4 & b.b4, a.b5 & b.b5, a.b6 & b.b6, a.b7 & b.b7) == ApplyOctets(And, a, b)
  {
  }

  lemma OrOctets(x: bv64, y: bv64)
    ensures StoreWord(x | y)
      == Octets(Byte0(x) | Byte0(y), Byte1(x) | Byte1(y), Byte2(x) | Byte2(y), Byte3(x) | Byte3(y),
      Byte4(x) | Byte4(y), Byte5(x) | Byte5(y), Byte6(x) | Byte6(y), Byte7(x) | Byte7(y))
  {
    OrBytes(x, y);
  }

  lemma OrMemory(a: Octets, b: Octets)
    ensures StoreWord(LoadWord(a) | LoadWord(b)) == Octets(a.b0 | b.b0, a.b1 | b.b1, a.b2 | b.b2, a.b3 | b.b3,
      a.b4 | b.b4, a.b5 | b.b5, a.b6 | b.b6, a.b7 | b.b7)
  {
    OrOctets(LoadWord(a), LoadWord(b));
    LoadedBytes(a);
    LoadedBytes(b);
  }

  lemma OrApplied(a: Octets, b: Octets)
    ensures Octets(a.b0 | b.b0, a.b1 | b.b1, a.b2 | b.b2, a.b3 | b.b3,
      a.b4 | b.b4, a.b5 | b.b5, a.b6 | b.b6, a.b7 | b.b7) == ApplyOctets(Or, a, b)
  {
  }

  lemma XorOctets(x: bv64, y: bv64)
    ensures StoreWord(x ^ y)
      == Octets(Byte0(x) ^ Byte0(y), Byte1(x) ^ Byte1(y), Byte2(x) ^ Byte2(y), Byte3(x) ^ Byte3(y),
      Byte4(x) ^ Byte4(y), Byte5(x) ^ Byte5(y), Byte6(x) ^ Byte6(y), Byte7(x) ^ Byte7(y))
  {
    XorBytes(x, y);
  }

  lemma XorMemory(a: Octets, b: Octets)
    ensures StoreWord(LoadWord(a) ^ LoadWord(b)) == Octets(a.b0 ^ b.b0, a.b1 ^ b.b1, a.b2 ^ b.b2, a.b3 ^ b.b3,
      a.b4 ^ b.b4, a.b5 ^ b.b5, a.b6 ^ b.b6, a.b7 ^ b.b7)
  {
    XorOctets(LoadWord(a), LoadWord(b));
    LoadedBytes(a);
    LoadedBytes(b);
  }

  lemma XorApplied(a: Octets, b: Octets)
    ensures Octets(a.b0 ^ b.b0, a.b1 ^ b.b1, a.b2 ^ b.b2, a.b3 ^ b.b3,
      a.b4 ^ b.b4, a.b5 ^ b.b5, a.b6 ^ b.b6, a.b7 ^ b.b7) == ApplyOctets(Xor, a, b)
  {
  }

  lemma NotOctets(x: bv64)
    ensures StoreWord(!x)
      == Octets(!Byte0(x), !Byte1(x), !Byte2(x), !Byte3(x), !Byte4(x), !Byte5(x), !Byte6(x), !Byte7(x))
  {
    NotBytes(x);
  }

  lemma NotMemory(a: Octets)
    ensures StoreWord(!LoadWord(a)) == Octets(!a.b0, !a.b1, !a.b2, !a.b3, !a.b4, !a.b5, !a.b6, !a.b7)
  {
    NotOctets(LoadWord(a));
    LoadedBytes(a);
  }

  lemma NotApplied(a: Octets, b: Octets)
    ensures Octets(!a.b0, !a.b1, !a.b2, !a.b3, !a.b4, !a.b5, !a.b6, !a.b7) == ApplyOctets(Not, a, b)
  {
  }

  // Loading two words from memory, operating on them as words and storing the result is the
  // operation on each byte.

  method AndWord(a: Octets, b: Octets) returns (r: Octets)
    ensures r == ApplyOctets(And, a, b)
  {
    AndMemory(a, b);
    AndApplied(a, b);
    r := StoreWord(LoadWord(a) & LoadWord(b));
  }

  method OrWord(a: Octets, b: Octets) returns (r: Octets)
    ensures r == ApplyOctets(Or, a, b)
  {
    OrMemory(a, b);
    OrApplied(a, b);
    r := StoreWord(LoadWord(a) | LoadWord(b));
  }

  method XorWord(a: Octets, b: Octets) returns (r: Octets)
    ensures r == ApplyOctets(Xor, a, b)
  {
    XorMemory(a, b);
    XorApplied(a, b);
    r := StoreWord(LoadWord(a) ^ LoadWord(b));
  }

  method NotWord(a: Octets, ghost b: Octets) returns (r: Octets)
    ensures r == ApplyOctets(Not, a, b)
  {
    NotMemory(a);
    NotApplied(a, b);
    r := StoreWord(!LoadWord(a));
  }

  method WordOp(op: Op, a: Octets, b: Octets) returns (r: Octets)
    ensures r == ApplyOctets(op, a, b)
  {
    match op
    case And => r := AndWord(a, b);
    case Or => r := OrWord(a, b);
    case Xor => r := XorWord(a, b);
    case Not => r := NotWord(a, b);
  }

  function Nth(o: Octets, i: nat): bv8
    requires i < 8
  {
    if i == 0 then o.b0 else if i == 1 then o.b1 else if i == 2 then o.b2 else if i == 3 then o.b3
    else if i == 4 then o.b4 else if i == 5 then o.b5 else if i == 6 then o.b6 else o.b7
  }

  function EightAt(s: seq<bv8>, at: nat): Octets
    requires at + 8 <= |s|
  {
    Octets(s[at], s[at + 1], s[at + 2], s[at + 3], s[at + 4], s[at + 5], s[at + 6], s[at + 7])
  }

  lemma NthOfEight(s: seq<bv8>, at: nat, i: nat)
    requires at + 8 <= |s| && i < 8
    ensures Nth(EightAt(s, at), i) == s[at + i]
  {
  }

  lemma NthApplied(op: Op, a: Octets, b: Octets, i: nat)
    requires i < 8
    ensures Nth(ApplyOctets(op, a, b), i) == ApplyByte(op, Nth(a, i), Nth(b, i))
  {
  }

  lemma SameApplied(op: Op, r: bv8, a: bv8, b: bv8, a': bv8, b': bv8)
    requires r == ApplyByte(op, a, b) && a == a' && b == b'
    ensures r == ApplyByte(op, a', b')
  {
  }

  lemma BytesApplied(op: Op, s: seq<bv8>, src: seq<bv8>, at: nat, k: nat)
    requires at + 8 <= |s| && at + 8 <= |src| && at <= k < at + 8
    ensures Nth(ApplyOctets(op, EightAt(s, at), EightAt(src, at)), k - at) == ApplyByte(op, s[k], src[k])
  {
    NthApplied(op, EightAt(s, at), EightAt(src, at), k - at);
    NthOfEight(s, at, k - at);
    NthOfEight(src, at, k - at);
    SameApplied(op, Nth(ApplyOctets(op, EightAt(s, at), EightAt(src, at)), k - at), Nth(EightAt(s, at), k - at),
      Nth(EightAt(src, at), k - at), s[k], src[k]);
  }

  /** lres[0] op= lp[i][0], at byte offset `at`: the words are loaded, combined and stored. */
  method OneWord(op: Op, res: array<bv8>, at: nat, src: seq<bv8>)
    requires at + 8 <= res.Length && at + 8 <= |src|
    modifies res
    ensures forall k :: 0 <= k < res.Length ==>
      res[k] == if at <= k < at + 8 then ApplyByte(op, old(res[k]), src[k]) else old(res[k])
  {
    ghost var was := res[..];
    var z := WordOp(op, EightAt(res[..], at), EightAt(src, at));
    PutWord(res, at, z);
    forall k | at <= k < at + 8 ensures res[k] == ApplyByte(op, was[k], src[k]) {
      BytesApplied(op, was, src, at, k);
    }
  }

  method PutWord(res: array<bv8>, at: nat, o: Octets)
    requires at + 8 <= res.Length
    modifies res
    ensures forall k :: 0 <= k < res.Length ==> res[k] == if at <= k < at + 8 then Nth(o, k - at) else old(res[k])
  {
    for i := 0 to 8
      invariant forall k :: 0 <= k < res.Length ==> res[k] == if at <= k < at + i then Nth(o, k - at) else old(res[k])
    {
      res[at + i] := Nth(o, i);
    }
  }

  /** Four words: 32 bytes. */
  method FourWords(op: Op, res: array<bv8>, at: nat, src: seq<bv8>)
    requires at + 32 <= res.Length && at + 32 <= |src|
    modifies res
    ensures forall k :: 0 <= k < res.Length ==>
      res[k] == if at <= k < at + 32 then ApplyByte(op, old(res[k]), src[k]) else old(res[k])
  {
    OneWord(op, res, at, src);
    OneWord(op, res, at + 8, src);
    OneWord(op, res, at + 16, src);
    OneWord(op, res, at + 24, src);
  }

  // ---------------------------------------------------------------- the command

  /** Bytes before j are final; from j up to n they are those of the first string. */
  ghost predicate Progress(op: Op, srcs: seq<seq<bv8>>, res: seq<bv8>, j: nat, n: nat)
    requires |srcs| >= 1
  {
    && j <= n <= |res| && n <= |srcs[0]|
    && (forall k :: 0 <= k < j ==> res[k] == Out(op, srcs, k, |srcs|))
    && (forall k :: j <= k < n ==> res[k] == srcs[0][k])
  }

  /** One round of the fast path: 32 bytes of every string. */
  method Block(op: Op, srcs: seq<seq<bv8>>, res: array<bv8>, j: nat, ghost n: nat)
    requires |srcs| >= 1 && (op == Not ==> |srcs| == 1) && j + 32 <= n
    requires forall i :: 0 <= i < |srcs| ==> n <= |srcs[i]|
    requires Progress(op, srcs, res[..], j, n)
    modifies res
    ensures Progress(op, srcs, res[..], j + 32, n)
  {
    if op == Not {
      FourWords(op, res, j, srcs[0]);
      return;
    }
    for i := 1 to |srcs|
      invariant forall k :: 0 <= k < res.Length && !(j <= k < j + 32) ==> res[k] == old(res[k])
      invariant forall k :: j <= k < j + 32 ==> res[k] == Out(op, srcs, k, i)
    {
      FourWords(op, res, j, srcs[i]);
    }
  }

  /** The fast path: copy the first string as far as all strings go, then combine blocks. */
  method FastPath(op: Op, srcs: seq<seq<bv8>>, res: array<bv8>, minlen: nat) returns (j: nat)
    requires |srcs| >= 1 && (op == Not ==> |srcs| == 1) && minlen <= res.Length
    requires forall i :: 0 <= i < |srcs| ==> minlen <= |srcs[i]|
    modifies res
    ensures j <= res.Length && forall k :: 0 <= k < j ==> res[k] == Out(op, srcs, k, |srcs|)
  {
    for i := 0 to minlen
      invariant forall k :: 0 <= k < i ==> res[k] == srcs[0][k]
    {
      res[i] := srcs[0][i];
    }
    j := 0;
    while minlen - j >= 32
      invariant Progress(op, srcs, res[..], j, minlen)
    {
      Block(op, srcs, res, j, minlen);
      j := j + 32;
    }
  }

  /** The byte the tail loop computes. */
  // ---------------------------------------------------------------- bit by bit

  /** s with zeros up to len bytes. */
  function Padded(s: seq<bv8>, len: nat): (p: seq<bv8>)
    requires |s| <= len
    ensures |p| == len
  {
    s + seq(len - |s|, _ => 0)
  }

  predicate IsBit(m: bv8) {
    m == 1 || m == 2 || m == 4 || m == 8 || m == 16 || m == 32 || m == 64 || m == 128
  }

  predicate Set(b: bv8, m: bv8) {
    b & m != 0
  }

  /** In how many of the first n padded strings the bit is set. */
  function Ones(srcs: seq<seq<bv8>>, n: nat, len: nat, k: nat, m: bv8): nat
    requires n <= |srcs| && k < len && forall i :: 0 <= i < |srcs| ==> |srcs[i]| <= len
  {
    if n == 0 then 0
    else Ones(srcs, n - 1, len, k, m) + if Set(Padded(srcs[n - 1], len)[k], m) then 1 else 0
  }

  /** AND: set in all; OR: in one at least; XOR: in an odd number; NOT: not set in the only one. */
  predicate ResultBit(op: Op, n: nat, ones: nat) {
    match op
    case And => ones == n
    case Or => ones > 0
    case Xor => ones % 2 == 1
    case Not => ones == 0
  }

  /** Every bit of the result is the operation on that bit of the strings, padded with zeros. */
  ghost predicate Bitwise(op: Op, srcs: seq<seq<bv8>>, res: seq<bv8>) {
    && (forall i :: 0 <= i < |srcs| ==> |srcs[i]| <= |res|)
    && forall k, m :: 0 <= k < |res| && IsBit(m) ==>
         (Set(res[k], m) <==> ResultBit(op, |srcs|, Ones(srcs, |srcs|, |res|, k, m)))
  }

  lemma BitOfApply(op: Op, a: bv8, b: bv8, m: bv8)
    requires IsBit(m)
    ensures op == And ==> (Set(Apply(op, a, b), m) <==> Set(a, m) && Set(b, m))
    ensures op == Or ==> (Set(Apply(op, a, b), m) <==> Set(a, m) || Set(b, m))
    ensures op == Xor ==> (Set(Apply(op, a, b), m) <==> Set(a, m) != Set(b, m))
    ensures Set(!a, m) <==> !Set(a, m)
  {
  }

  lemma {:induction false} OutBit(op: Op, srcs: seq<seq<bv8>>, n: nat, len: nat, k: nat, m: bv8)
    requires 1 <= n <= |srcs| && k < len && IsBit(m) && (op == Not ==> n == 1)
    requires forall i :: 0 <= i < |srcs| ==> |srcs[i]| <= len
    ensures Ones(srcs, n, len, k, m) <= n
    ensures Set(Out(op, srcs, k, n), m) <==> ResultBit(op, n, Ones(srcs, n, len, k, m))
  {
    assert Padded(srcs[n - 1], len)[k] == ByteAt(srcs[n - 1], k);
    if n == 1 {
      assert Ones(srcs, 0, len, k, m) == 0;
      BitOfApply(op, ByteAt(srcs[0], k), 0, m);
    } else {
      OutBit(op, srcs, n - 1, len, k, m);
      BitOfApply(op, Out(op, srcs, k, n - 1), ByteAt(srcs[n - 1], k), m);
    }
  }

  lemma AlwaysBitwise(op: Op, srcs: seq<seq<bv8>>, res: seq<bv8>)
    requires |srcs| >= 1 && (op == Not ==> |srcs| == 1)
    requires forall i :: 0 <= i < |srcs| ==> |srcs[i]| <= |res|
    requires forall k :: 0 <= k < |res| ==> res[k] == Out(op, srcs, k, |srcs|)
    ensures Bitwise(op, srcs, res)
  {
    forall k, m | 0 <= k < |res| && IsBit(m)
      ensures Set(res[k], m) <==> ResultBit(op, |srcs|, Ones(srcs, |srcs|, |res|, k, m))
    {
      OutBit(op, srcs, |srcs|, |res|, k, m);
    }
  }

  /** "ab" and "abc": the third byte of AND is 0, that of OR is c. */
  lemma PaddingExample()
    ensures Out(And, [[97, 98], [97, 98, 99]], 2, 2) == 0 && Out(Or, [[97, 98], [97, 98, 99]], 2, 2) == 99
  {
    var srcs: seq<seq<bv8>> := [[97, 98], [97, 98, 99]];
    assert Out(And, srcs, 2, 1) == 0 && Out(Or, srcs, 2, 1) == 0;
  }

  method TailByte(op: Op, srcs: seq<seq<bv8>>, j: nat) returns (output: bv8)
    requires |srcs| >= 1 && (op == Not ==> |srcs| == 1)
    ensures output == Out(op, srcs, j, |srcs|)
  {
    output := if |srcs[0]| <= j then 0 else srcs[0][j];
    if op == Not { output := !output; }
    for i := 1 to |srcs|
      invariant output == Out(op, srcs, j, i)
    {
      var byte := if |srcs[i]| <= j then 0 else srcs[i][j];
      output := Apply(op, output, byte);
    }
  }

  function Contents(keys: seq<Option<seq<bv8>>>): (srcs: seq<seq<bv8>>)
    ensures |srcs| == |keys|
  {
    seq(|keys|, i requires 0 <= i < |keys| => if keys[i].Some? then keys[i].value else [])
  }

  ghost predicate Longest(srcs: seq<seq<bv8>>, n: nat) {
    (forall i :: 0 <= i < |srcs| ==> |srcs[i]| <= n) && exists i :: 0 <= i < |srcs| && |srcs[i]| == n
  }

  ghost predicate Shortest(srcs: seq<seq<bv8>>, n: nat) {
    (forall i :: 0 <= i < |srcs| ==> n <= |srcs[i]|) && exists i :: 0 <= i < |srcs| && |srcs[i]| == n
  }

  /** The loop over the keys: a missing key is an empty string. */
  method Lengths(keys: seq<Option<seq<bv8>>>) returns (srcs: seq<seq<bv8>>, minlen: nat, maxlen: nat)
    ensures srcs == Contents(keys)
    ensures |srcs| > 0 ==> Shortest(srcs, minlen) && Longest(srcs, maxlen)
  {
    srcs, minlen, maxlen := [], 0, 0;
    ghost var longest, shortest := 0, 0;
    for j := 0 to |keys|
      invariant |srcs| == j && forall i :: 0 <= i < j ==> srcs[i] == if keys[i].Some? then keys[i].value else []
      invariant forall i :: 0 <= i < j ==> minlen <= |srcs[i]| <= maxlen
      invariant if j == 0 then maxlen == 0 == longest else 0 <= longest < j && |srcs[longest]| == maxlen
      invariant j > 0 ==> 0 <= shortest < j && |srcs[shortest]| == minlen
    {
      if keys[j] == None {
        srcs, minlen, shortest := srcs + [[]], 0, j;
      } else {
        var s := keys[j].value;
        srcs := srcs + [s];
        if |s| > maxlen || j == 0 { longest := j; }
        if |s| > maxlen { maxlen := |s|; }
        if j == 0 || |s| < minlen { minlen, shortest := |s|, j; }
      }
    }
  }

  /** What BITOP stores: None when the operation is refused. The result is as long as the longest
      string, and each byte is the operation on the strings padded with zeros. */
  method BitOp(op: Op, keys: seq<Option<seq<bv8>>>) returns (r: Option<seq<bv8>>)
    requires |keys| >= 1
    ensures r == None <==> op == Not && |keys| != 1
    ensures r.Some? ==> Longest(Contents(keys), |r.value|)
    ensures r.Some? ==> forall k :: 0 <= k < |r.value| ==> r.value[k] == Out(op, Contents(keys), k, |keys|)
    ensures r.Some? ==> Bitwise(op, Contents(keys), r.value)
  {
    if op == Not && |keys| != 1 { return None; }
    var srcs, minlen, maxlen := Lengths(keys);
    var res := new bv8[maxlen](_ => 0);
    var j := 0;
    if maxlen > 0 {
      if minlen > 0 && |keys| <= 16 {
        j := FastPath(op, srcs, res, minlen);
      }
      while j < maxlen
        invariant 0 <= j <= maxlen && forall k :: 0 <= k < j ==> res[k] == Out(op, srcs, k, |srcs|)
      {
        var output := TailByte(op, srcs, j);
        res[j] := output;
        j := j + 1;
      }
    }
    AlwaysBitwise(op, srcs, res[..]);
    return Some(res[..]);
  }
}
