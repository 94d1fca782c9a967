/** Folds and iterations over any type, with the algebra that the checksum needs. */
module Folding {
  function Iterate<T>(f: T -> T, c: T, n: nat): T
    decreases n
  {
    if n == 0 then c else Iterate(f, f(c), n - 1)
  }

  function Fold<T, B>(step: (T, B) -> T, c: T, s: seq<B>): T {
    if s == [] then c else Fold(step, step(c, s[0]), s[1..])
  }

  lemma {:induction false} FoldConcat<T, B>(step: (T, B) -> T, c: T, s: seq<B>, t: seq<B>)
    ensures Fold(step, c, s + t) == Fold(step, Fold(step, c, s), t)
  {
    if s == [] {
      assert s + t == t;
    } else {
      assert (s + t)[1..] == s[1..] + t;
      FoldConcat(step, step(c, s[0]), s[1..], t);
    }
  }

  function FoldRight<T, B>(put: (B, T) -> T, c: T, s: seq<B>): T {
    if s == [] then c else put(s[0], FoldRight(put, c, s[1..]))
  }

  ghost predicate FitsAt<T, B>(put: (B, T) -> T, fits: (T, nat) -> bool, b: B, w: T, k: nat) {
    fits(w, k) ==> fits(put(b, w), k + 1)
  }

  lemma FitsFrom<T, B>(put: (B, T) -> T, fits: (T, nat) -> bool, b: B, w: T, k: nat, r: T)
    requires put(b, w) == r && (fits(w, k) ==> fits(r, k + 1))
    ensures FitsAt(put, fits, b, w, k)
  {
  }

  lemma FoldRight4<T, B>(put: (B, T) -> T, c: T, s: seq<B>)
    requires |s| >= 4
    ensures FoldRight(put, c, s) == put(s[0], put(s[1], put(s[2], put(s[3], FoldRight(put, c, s[4..])))))
  {
    assert s[1..][1..] == s[2..] && s[2..][1..] == s[3..] && s[3..][1..] == s[4..];
    assert FoldRight(put, c, s[2..]) == put(s[2], put(s[3], FoldRight(put, c, s[4..])));
  }

  lemma {:induction false} FoldRightFits<T(!new), B(!new)>(put: (B, T) -> T, fits: (T, nat) -> bool, c: T, s: seq<B>)
    requires fits(c, 0) && forall b, w, k: nat :: FitsAt(put, fits, b, w, k)
    ensures fits(FoldRight(put, c, s), |s|)
  {
    if s != [] {
      FoldRightFits(put, fits, c, s[1..]);
      assert FitsAt(put, fits, s[0], FoldRight(put, c, s[1..]), |s| - 1);
    }
  }

  lemma FoldFirst<T, B>(step: (T, B) -> T, c: T, s: seq<B>, j: nat)
    requires j < |s|
    ensures Fold(step, c, s[j..]) == Fold(step, step(c, s[j]), s[j + 1..])
  {
    assert s[j..][1..] == s[j + 1..];
  }

  // ---------------------------------------------------------------- injective steps

  ghost predicate SameResult<T, B>(step: (T, B) -> T, c: T, d: T, b: B) {
    step(c, b) == step(d, b) ==> c == d
  }

  ghost predicate InjectiveStep<T(!new), B(!new)>(step: (T, B) -> T) {
    forall c, d, b :: SameResult(step, c, d, b)
  }

  /** Reading the same bytes from different states leads to different states. */
  lemma {:induction false} FoldInjective<T(!new), B(!new)>(step: (T, B) -> T, c: T, d: T, s: seq<B>)
    requires InjectiveStep(step) && c != d
    ensures Fold(step, c, s) != Fold(step, d, s)
  {
    if s != [] {
      assert SameResult(step, c, d, s[0]);
      FoldInjective(step, step(c, s[0]), step(d, s[0]), s[1..]);
    }
  }

  ghost predicate SameImage<T>(f: T -> T, c: T, d: T) {
    f(c) == f(d) ==> c == d
  }

  lemma {:induction false} IterateInjective<T(!new)>(f: T -> T, c: T, d: T, n: nat)
    requires (forall c, d :: SameImage(f, c, d)) && c != d
    ensures Iterate(f, c, n) != Iterate(f, d, n)
    decreases n
  {
    if n > 0 {
      assert SameImage(f, c, d);
      IterateInjective(f, f(c), f(d), n - 1);
    }
  }

  lemma {:induction false} IterateTwice<T>(f: T -> T, c: T, m: nat, n: nat)
    ensures Iterate(f, c, m + n) == Iterate(f, Iterate(f, c, m), n)
    decreases m
  {
    if m > 0 { IterateTwice(f, f(c), m - 1, n); }
  }

  // ---------------------------------------------------------------- what is not yet shifted out passes through

  ghost predicate Keeps<T>(even: T -> bool, down: T -> T, y: T, n: nat)
    decreases n
  {
    n == 0 || (even(y) && Keeps(even, down, down(y), n - 1))
  }

  ghost predicate PassesAt<T>(f: T -> T, xor: (T, T) -> T, down: T -> T, even: T -> bool, x: T, y: T) {
    even(y) ==> f(xor(x, y)) == xor(f(x), down(y))
  }

  lemma PassesFrom<T>(f: T -> T, xor: (T, T) -> T, down: T -> T, even: T -> bool, x: T, y: T, s: T, sx: T, d: T)
    requires xor(x, y) == s && f(x) == sx && down(y) == d
    requires even(y) ==> f(s) == xor(sx, d)
    ensures PassesAt(f, xor, down, even, x, y)
  {
  }

  lemma {:induction false} IterateXor<T(!new)>(f: T -> T, xor: (T, T) -> T, down: T -> T, even: T -> bool, x: T, y: T,
      n: nat)
    requires (forall x, y :: PassesAt(f, xor, down, even, x, y)) && Keeps(even, down, y, n)
    ensures Iterate(f, xor(x, y), n) == xor(Iterate(f, x, n), Iterate(down, y, n))
    decreases n
  {
    if n > 0 {
      assert PassesAt(f, xor, down, even, x, y);
      IterateXor(f, xor, down, even, f(x), down(y), n - 1);
    }
  }

  // ---------------------------------------------------------------- feeding a value bit by bit

  /** Enter the n low bits of y, lowest first, one before each step. */
  ghost function Feed<T>(f: T -> T, xor: (T, T) -> T, down: T -> T, low: T -> T, x: T, y: T, n: nat): T
    decreases n
  {
    if n == 0 then x else Feed(f, xor, down, low, f(xor(x, low(y))), down(y), n - 1)
  }

  ghost predicate FeedsAt<T>(f: T -> T, xor: (T, T) -> T, down: T -> T, low: T -> T, x: T, y: T) {
    f(xor(x, y)) == xor(f(xor(x, low(y))), down(y))
  }

  lemma FeedsFrom<T>(f: T -> T, xor: (T, T) -> T, down: T -> T, low: T -> T, x: T, y: T, s: T, l: T, sl: T, d: T)
    requires xor(x, y) == s && xor(x, low(y)) == l && f(l) == sl && down(y) == d && f(s) == xor(sl, d)
    ensures FeedsAt(f, xor, down, low, x, y)
  {
  }

  lemma {:induction false} IterateFeeds<T(!new)>(f: T -> T, xor: (T, T) -> T, down: T -> T, low: T -> T, x: T, y: T,
      n: nat)
    requires forall x, y :: FeedsAt(f, xor, down, low, x, y)
    ensures Iterate(f, xor(x, y), n) == xor(Feed(f, xor, down, low, x, y, n), Iterate(down, y, n))
    decreases n
  {
    if n > 0 {
      assert FeedsAt(f, xor, down, low, x, y);
      IterateFeeds(f, xor, down, low, f(xor(x, low(y))), down(y), n - 1);
    }
  }

  /** The same bits entered into a division that takes them one at a time. */
  ghost function FeedBits<T>(divide: (T, bool) -> T, odd: T -> bool, down: T -> T, r: T, y: T, n: nat): T
    decreases n
  {
    if n == 0 then r else FeedBits(divide, odd, down, divide(r, odd(y)), down(y), n - 1)
  }

  ghost predicate MirrorsAt<T>(f: T -> T, xor: (T, T) -> T, low: T -> T, divide: (T, bool) -> T, odd: T -> bool,
      rev: T -> T, x: T, y: T)
  {
    rev(f(xor(x, low(y)))) == divide(rev(x), odd(y))
  }

  lemma MirrorsFrom<T>(f: T -> T, xor: (T, T) -> T, low: T -> T, divide: (T, bool) -> T, odd: T -> bool, rev: T -> T,
      x: T, y: T, l: T, sl: T, r: T, q: T)
    requires xor(x, low(y)) == l && f(l) == sl && rev(x) == r && rev(sl) == q && divide(r, odd(y)) == q
    ensures MirrorsAt(f, xor, low, divide, odd, rev, x, y)
  {
  }

  lemma {:induction false} FeedMirrors<T(!new)>(f: T -> T, xor: (T, T) -> T, down: T -> T, low: T -> T,
      divide: (T, bool) -> T, odd: T -> bool, rev: T -> T, x: T, y: T, n: nat)
    requires forall x, y :: MirrorsAt(f, xor, low, divide, odd, rev, x, y)
    ensures rev(Feed(f, xor, down, low, x, y, n)) == FeedBits(divide, odd, down, rev(x), y, n)
    decreases n
  {
    if n > 0 {
      assert MirrorsAt(f, xor, low, divide, odd, rev, x, y);
      FeedMirrors(f, xor, down, low, divide, odd, rev, f(xor(x, low(y))), down(y), n - 1);
    }
  }

  lemma SameVia<T>(a: T, b: T, u: T, v: T)
    requires a == u && b == v && u == v
    ensures a == b
  {
  }

  lemma SameChoice<T>(a: T, b: T, p: bool, u: T, v: T)
    requires (a == if p then u else v) && (b == if p then u else v)
    ensures a == b
  {
  }

  ghost predicate CommutesAt<T, B>(step: (T, B) -> T, step': (T, B) -> T, rev: T -> T, c: T, b: B) {
    rev(step(c, b)) == step'(rev(c), b)
  }

  lemma {:induction false} FoldMirrors<T(!new), B(!new)>(step: (T, B) -> T, step': (T, B) -> T, rev: T -> T, c: T,
      s: seq<B>)
    requires forall c, b :: CommutesAt(step, step', rev, c, b)
    ensures rev(Fold(step, c, s)) == Fold(step', rev(c), s)
  {
    if s != [] {
      assert CommutesAt(step, step', rev, c, s[0]);
      FoldMirrors(step, step', rev, step(c, s[0]), s[1..]);
    }
  }
}

/** The table of crc64.c and the division it tabulates. */
module Crc64Table {
  import opened Folding

  /** The polynomial of the header, and the same with its bits in reverse order. */
  const POLY: bv64 := 0xad93d23594c935a9
  const REFLECTED: bv64 := 0x95ac9329ac4bc9b5

  /** One step of reflected division: shift right, and subtract the polynomial when the bit
      shifted out is one. */
  function Shift(c: bv64): bv64 {
    if c & 1 == 1 then (c >> 1) ^ REFLECTED else c >> 1
  }

  ghost function Eight(c: bv64): bv64 {
    Shift(Shift(Shift(Shift(Shift(Shift(Shift(Shift(c))))))))
  }

  const Row0: seq<bv64> := [
    0x0000000000000000, 0x7ad870c830358979, 0xf5b0e190606b12f2, 0x8f689158505e9b8b,
    0xc038e5739841b68f, 0xbae095bba8743ff6, 0x358804e3f82aa47d, 0x4f50742bc81f2d04,
    0xab28ecb46814fe75, 0xd1f09c7c5821770c, 0x5e980d24087fec87, 0x24407dec384a65fe,
    0x6b1009c7f05548fa, 0x11c8790fc060c183, 0x9ea0e857903e5a08, 0xe478989fa00bd371
  ]

  const Row1: seq<bv64> := [
    0x7d08ff3b88be6f81, 0x07d08ff3b88be6f8, 0x88b81eabe8d57d73, 0xf2606e63d8e0f40a,
    0xbd301a4810ffd90e, 0xc7e86a8020ca5077, 0x4880fbd87094cbfc, 0x32588b1040a14285,
    0xd620138fe0aa91f4, 0xacf86347d09f188d, 0x2390f21f80c18306, 0x594882d7b0f40a7f,
    0x1618f6fc78eb277b, 0x6cc0863448deae02, 0xe3a8176c18803589, 0x997067a428b5bcf0
  ]

  const Row2: seq<bv64> := [
    0xfa11fe77117cdf02, 0x80c98ebf2149567b, 0x0fa11fe77117cdf0, 0x75796f2f41224489,
    0x3a291b04893d698d, 0x40f16bccb908e0f4, 0xcf99fa94e9567b7f, 0xb5418a5cd963f206,
    0x513912c379682177, 0x2be1620b495da80e, 0xa489f35319033385, 0xde51839b2936bafc,
    0x9101f7b0e12997f8, 0xebd98778d11c1e81, 0x64b116208142850a, 0x1e6966e8b1770c73
  ]

  const Row3: seq<bv64> := [
    0x8719014c99c2b083, 0xfdc17184a9f739fa, 0x72a9e0dcf9a9a271, 0x08719014c99c2b08,
    0x4721e43f0183060c, 0x3df994f731b68f75, 0xb29105af61e814fe, 0xc849756751dd9d87,
    0x2c31edf8f1d64ef6, 0x56e99d30c1e3c78f, 0xd9810c6891bd5c04, 0xa3597ca0a188d57d,
    0xec09088b6997f879, 0x96d1784359a27100, 0x19b9e91b09fcea8b, 0x636199d339c963f2
  ]

  const Row4: seq<bv64> := [
    0xdf7adabd7a6e2d6f, 0xa5a2aa754a5ba416, 0x2aca3b2d1a053f9d, 0x50124be52a30b6e4,
    0x1f423fcee22f9be0, 0x659a4f06d21a1299, 0xeaf2de5e82448912, 0x902aae96b271006b,
    0x74523609127ad31a, 0x0e8a46c1224f5a63, 0x81e2d7997211c1e8, 0xfb3aa75142244891,
    0xb46ad37a8a3b6595, 0xceb2a3b2ba0eecec, 0x41da32eaea507767, 0x3b024222da65fe1e
  ]

  const Row5: seq<bv64> := [
    0xa2722586f2d042ee, 0xd8aa554ec2e5cb97, 0x57c2c41692bb501c, 0x2d1ab4dea28ed965,
    0x624ac0f56a91f461, 0x1892b03d5aa47d18, 0x97fa21650afae693, 0xed2251ad3acf6fea,
    0x095ac9329ac4bc9b, 0x7382b9faaaf135e2, 0xfcea28a2faafae69, 0x8632586aca9a2710,
    0xc9622c4102850a14, 0xb3ba5c8932b0836d, 0x3cd2cdd162ee18e6, 0x460abd1952db919f
  ]

  const Row6: seq<bv64> := [
    0x256b24ca6b12f26d, 0x5fb354025b277b14, 0xd0dbc55a0b79e09f, 0xaa03b5923b4c69e6,
    0xe553c1b9f35344e2, 0x9f8bb171c366cd9b, 0x10e3202993385610, 0x6a3b50e1a30ddf69,
    0x8e43c87e03060c18, 0xf49bb8b633338561, 0x7bf329ee636d1eea, 0x012b592653589793,
    0x4e7b2d0d9b47ba97, 0x34a35dc5ab7233ee, 0xbbcbcc9dfb2ca865, 0xc113bc55cb19211c
  ]

  const Row7: seq<bv64> := [
    0x5863dbf1e3ac9dec, 0x22bbab39d3991495, 0xadd33a6183c78f1e, 0xd70b4aa9b3f20667,
    0x985b3e827bed2b63, 0xe2834e4a4bd8a21a, 0x6debdf121b863991, 0x1733afda2bb3b0e8,
    0xf34b37458bb86399, 0x8993478dbb8deae0, 0x06fbd6d5ebd3716b, 0x7c23a61ddbe6f812,
    0x3373d23613f9d516, 0x49aba2fe23cc5c6f, 0xc6c333a67392c7e4, 0xbc1b436e43a74e9d
  ]

  const Row8: seq<bv64> := [
    0x95ac9329ac4bc9b5, 0xef74e3e19c7e40cc, 0x601c72b9cc20db47, 0x1ac40271fc15523e,
    0x5594765a340a7f3a, 0x2f4c0692043ff643, 0xa02497ca54616dc8, 0xdafce7026454e4b1,
    0x3e847f9dc45f37c0, 0x445c0f55f46abeb9, 0xcb349e0da4342532, 0xb1eceec59401ac4b,
    0xfebc9aee5c1e814f, 0x8464ea266c2b0836, 0x0b0c7b7e3c7593bd, 0x71d40bb60c401ac4
  ]

  const Row9: seq<bv64> := [
    0xe8a46c1224f5a634, 0x927c1cda14c02f4d, 0x1d148d82449eb4c6, 0x67ccfd4a74ab3dbf,
    0x289c8961bcb410bb, 0x5244f9a98c8199c2, 0xdd2c68f1dcdf0249, 0xa7f41839ecea8b30,
    0x438c80a64ce15841, 0x3954f06e7cd4d138, 0xb63c61362c8a4ab3, 0xcce411fe1cbfc3ca,
    0x83b465d5d4a0eece, 0xf96c151de49567b7, 0x76048445b4cbfc3c, 0x0cdcf48d84fe7545
  ]

  const Row10: seq<bv64> := [
    0x6fbd6d5ebd3716b7, 0x15651d968d029fce, 0x9a0d8ccedd5c0445, 0xe0d5fc06ed698d3c,
    0xaf85882d2576a038, 0xd55df8e515432941, 0x5a3569bd451db2ca, 0x20ed197575283bb3,
    0xc49581ead523e8c2, 0xbe4df122e51661bb, 0x3125607ab548fa30, 0x4bfd10b2857d7349,
    0x04ad64994d625e4d, 0x7e7514517d57d734, 0xf11d85092d094cbf, 0x8bc5f5c11d3cc5c6
  ]

  const Row11: seq<bv64> := [
    0x12b5926535897936, 0x686de2ad05bcf04f, 0xe70573f555e26bc4, 0x9ddd033d65d7e2bd,
    0xd28d7716adc8cfb9, 0xa85507de9dfd46c0, 0x273d9686cda3dd4b, 0x5de5e64efd965432,
    0xb99d7ed15d9d8743, 0xc3450e196da80e3a, 0x4c2d9f413df695b1, 0x36f5ef890dc31cc8,
    0x79a59ba2c5dc31cc, 0x037deb6af5e9b8b5, 0x8c157a32a5b7233e, 0xf6cd0afa9582aa47
  ]

  const Row12: seq<bv64> := [
    0x4ad64994d625e4da, 0x300e395ce6106da3, 0xbf66a804b64ef628, 0xc5bed8cc867b7f51,
    0x8aeeace74e645255, 0xf036dc2f7e51db2c, 0x7f5e4d772e0f40a7, 0x05863dbf1e3ac9de,
    0xe1fea520be311aaf, 0x9b26d5e88e0493d6, 0x144e44b0de5a085d, 0x6e963478ee6f8124,
    0x21c640532670ac20, 0x5b1e309b16452559, 0xd476a1c3461bbed2, 0xaeaed10b762e37ab
  ]

  const Row13: seq<bv64> := [
    0x37deb6af5e9b8b5b, 0x4d06c6676eae0222, 0xc26e573f3ef099a9, 0xb8b627f70ec510d0,
    0xf7e653dcc6da3dd4, 0x8d3e2314f6efb4ad, 0x0256b24ca6b12f26, 0x788ec2849684a65f,
    0x9cf65a1b368f752e, 0xe62e2ad306bafc57, 0x6946bb8b56e467dc, 0x139ecb4366d1eea5,
    0x5ccebf68aecec3a1, 0x2616cfa09efb4ad8, 0xa97e5ef8cea5d153, 0xd3a62e30fe90582a
  ]

  const Row14: seq<bv64> := [
    0xb0c7b7e3c7593bd8, 0xca1fc72bf76cb2a1, 0x45775673a732292a, 0x3faf26bb9707a053,
    0x70ff52905f188d57, 0x0a2722586f2d042e, 0x854fb3003f739fa5, 0xff97c3c80f4616dc,
    0x1bef5b57af4dc5ad, 0x61372b9f9f784cd4, 0xee5fbac7cf26d75f, 0x9487ca0fff135e26,
    0xdbd7be24370c7322, 0xa10fceec0739fa5b, 0x2e675fb4576761d0, 0x54bf2f7c6752e8a9
  ]

  const Row15: seq<bv64> := [
    0xcdcf48d84fe75459, 0xb71738107fd2dd20, 0x387fa9482f8c46ab, 0x42a7d9801fb9cfd2,
    0x0df7adabd7a6e2d6, 0x772fdd63e7936baf, 0xf8474c3bb7cdf024, 0x829f3cf387f8795d,
    0x66e7a46c27f3aa2c, 0x1c3fd4a417c62355, 0x935745fc4798b8de, 0xe98f353477ad31a7,
    0xa6df411fbfb21ca3, 0xdc0731d78f8795da, 0x536fa08fdfd90e51, 0x29b7d047efec8728
  ]

  lemma Row0IsRight(i: bv64)
    requires i < 16
    ensures Row0[i] == Eight(0x00 + i)
  {
    if i < 8 { Row0Low(i); } else { Row0High(i); }
  }

  lemma Row0Low(i: bv64)
    requires i < 8
    ensures Row0[i] == Eight(0x00 + i)
  {
  }

  lemma Row0High(i: bv64)
    requires 8 <= i < 16
    ensures Row0[i] == Eight(0x00 + i)
  {
  }

  lemma Row1IsRight(i: bv64)
    requires i < 16
    ensures Row1[i] == Eight(0x10 + i)
  {
  }

  lemma Row2IsRight(i: bv64)
    requires i < 16
    ensures Row2[i] == Eight(0x20 + i)
  {
  }

  lemma Row3IsRight(i: bv64)
    requires i < 16
    ensures Row3[i] == Eight(0x30 + i)
  {
  }

  lemma Row4IsRight(i: bv64)
    requires i < 16
    ensures Row4[i] == Eight(0x40 + i)
  {
  }

  lemma Row5IsRight(i: bv64)
    requires i < 16
    ensures Row5[i] == Eight(0x50 + i)
  {
  }

  lemma Row6IsRight(i: bv64)
    requires i < 16
    ensures Row6[i] == Eight(0x60 + i)
  {
  }

  lemma Row7IsRight(i: bv64)
    requires i < 16
    ensures Row7[i] == Eight(0x70 + i)
  {
  }

  lemma Row8IsRight(i: bv64)
    requires i < 16
    ensures Row8[i] == Eight(0x80 + i)
  {
  }

  lemma Row9IsRight(i: bv64)
    requires i < 16
    ensures Row9[i] == Eight(0x90 + i)
  {
  }

  lemma Row10IsRight(i: bv64)
    requires i < 16
    ensures Row10[i] == Eight(0xa0 + i)
  {
  }

  lemma Row11IsRight(i: bv64)
    requires i < 16
    ensures Row11[i] == Eight(0xb0 + i)
  {
  }

  lemma Row12IsRight(i: bv64)
    requires i < 16
    ensures Row12[i] == Eight(0xc0 + i)
  {
  }

  lemma Row13IsRight(i: bv64)
    requires i < 16
    ensures Row13[i] == Eight(0xd0 + i)
  {
  }

  lemma Row14IsRight(i: bv64)
    requires i < 16
    ensures Row14[i] == Eight(0xe0 + i)
  {
  }

  lemma Row15IsRight(i: bv64)
    requires i < 16
    ensures Row15[i] == Eight(0xf0 + i)
  {
  }

  const Rows: seq<seq<bv64>> := [
    Row0, Row1, Row2, Row3, Row4, Row5, Row6, Row7,
    Row8, Row9, Row10, Row11, Row12, Row13, Row14, Row15
  ]

  /** crc64_tab, sixteen entries to a row. */
  function Table(i: bv8): bv64 {
    Rows[i >> 4][i & 15]
  }

  lemma Quarter0(i: bv8)
    requires i >> 6 == 0
    ensures Table(i) == Eight(i as bv64)
  {
    var k, low := i >> 4, (i & 15) as bv64;
    if k == 0 { Row0IsRight(low); }
    if k == 1 { Row1IsRight(low); }
    if k == 2 { Row2IsRight(low); }
    if k == 3 { Row3IsRight(low); }
  }

  lemma Quarter1(i: bv8)
    requires i >> 6 == 1
    ensures Table(i) == Eight(i as bv64)
  {
    var k, low := i >> 4, (i & 15) as bv64;
    if k == 4 { Row4IsRight(low); }
    if k == 5 { Row5IsRight(low); }
    if k == 6 { Row6IsRight(low); }
    if k == 7 { Row7IsRight(low); }
  }

  lemma Quarter2(i: bv8)
    requires i >> 6 == 2
    ensures Table(i) == Eight(i as bv64)
  {
    var k, low := i >> 4, (i & 15) as bv64;
    if k == 8 { Row8IsRight(low); }
    if k == 9 { Row9IsRight(low); }
    if k == 10 { Row10IsRight(low); }
    if k == 11 { Row11IsRight(low); }
  }

  lemma Quarter3(i: bv8)
    requires i >> 6 == 3
    ensures Table(i) == Eight(i as bv64)
  {
    var k, low := i >> 4, (i & 15) as bv64;
    if k == 12 { Row12IsRight(low); }
    if k == 13 { Row13IsRight(low); }
    if k == 14 { Row14IsRight(low); }
    if k == 15 { Row15IsRight(low); }
  }

  lemma EightIsIterate(c: bv64)
    ensures Eight(c) == Iterate(Shift, c, 8)
  {
  }

  /** Entry i of the table is i carried through eight steps of the division. */
  lemma TableIsRight(i: bv8)
    ensures Table(i) == Iterate(Shift, i as bv64, 8)
  {
    if i >> 6 == 0 {
      Quarter0(i);
    } else if i >> 6 == 1 {
      Quarter1(i);
    } else if i >> 6 == 2 {
      Quarter2(i);
    } else {
      Quarter3(i);
    }
    EightIsIterate(i as bv64);
  }
}

/** crc64.c: the checksum by table look-up is division by the polynomial. */
module Crc64 {
  import opened Folding
  import opened Crc64Table

  function Xor(x: bv64, y: bv64): bv64 { x ^ y }

  function Down(x: bv64): bv64 { x >> 1 }

  predicate Even(x: bv64) { x & 1 == 0 }

  predicate Odd(x: bv64) { x & 1 == 1 }

  function Low(x: bv64): bv64 { x & 1 }

  function BITS(): nat { 8 }

  /** Enter a byte into the low end of the register and divide eight times. */
  function ByteStep(c: bv64, b: bv8): bv64 {
    Iterate(Shift, Xor(c, b as bv64), BITS())
  }

  /** The checksum of s from initial value c. */
  function Crc(c: bv64, s: seq<bv8>): bv64 {
    Fold(ByteStep, c, s)
  }

  // ---------------------------------------------------------------- one step

  lemma XorIs(x: bv64, y: bv64)
    ensures Xor(x, y) == x ^ y
  {
  }

  lemma XorSwap(a: bv64, b: bv64, r: bv64)
    ensures (a ^ b) ^ r == (a ^ r) ^ b
  {
  }

  lemma XorDown(x: bv64, y: bv64)
    ensures (x ^ y) >> 1 == (x >> 1) ^ (y >> 1)
  {
  }

  lemma XorEven(x: bv64, y: bv64)
    requires y & 1 == 0
    ensures (x ^ y) & 1 == x & 1
  {
  }

  /** A bit that stays in the register passes through a step unchanged. */
  lemma ShiftXor(x: bv64, y: bv64)
    requires y & 1 == 0
    ensures Shift(x ^ y) == Shift(x) ^ (y >> 1)
  {
    XorDown(x, y);
    XorEven(x, y);
    if x & 1 == 1 { XorSwap(x >> 1, y >> 1, REFLECTED); }
  }

  lemma ShiftPasses(x: bv64, y: bv64)
    ensures PassesAt(Shift, Xor, Down, Even, x, y)
  {
    if y & 1 == 0 {
      ShiftXor(x, y);
      XorIs(Shift(x), y >> 1);
    }
    PassesFrom(Shift, Xor, Down, Even, x, y, x ^ y, Shift(x), y >> 1);
  }

  lemma ShiftsXor(x: bv64, y: bv64, n: nat)
    requires Keeps(Even, Down, y, n)
    ensures Iterate(Shift, Xor(x, y), n) == Xor(Iterate(Shift, x, n), Iterate(Down, y, n))
  {
    forall x, y ensures PassesAt(Shift, Xor, Down, Even, x, y) { ShiftPasses(x, y); }
    IterateXor(Shift, Xor, Down, Even, x, y, n);
  }

  // ---------------------------------------------------------------- the table form

  lemma HighByte(c: bv64)
    ensures Keeps(Even, Down, (c >> 8) << 8, 8) && Iterate(Down, (c >> 8) << 8, 8) == c >> 8
  {
  }

  lemma Recombine(c: bv64, b: bv8)
    ensures Xor((((c & 0xFF) as bv8) ^ b) as bv64, (c >> 8) << 8) == Xor(c, b as bv64)
  {
  }

  function LookUp(c: bv64, b: bv8): bv64 {
    Table(((c & 0xFF) as bv8) ^ b) ^ (c >> 8)
  }

  lemma LookUpIs(c: bv64, b: bv8, t: bv64)
    requires t == Table(((c & 0xFF) as bv8) ^ b)
    ensures LookUp(c, b) == Xor(t, c >> 8)
  {
  }

  lemma Joined(c: bv64, b: bv8, i: bv64, high: bv64, n: nat)
    requires Xor(i, high) == Xor(c, b as bv64) && Keeps(Even, Down, high, n)
    ensures Iterate(Shift, Xor(c, b as bv64), n) == Xor(Iterate(Shift, i, n), Iterate(Down, high, n))
  {
    ShiftsXor(i, high, n);
  }

  /** The table look-up of the loop in crc64 is eight steps of division. */
  lemma TableSteps(c: bv64, b: bv8, n: nat)
    requires n == BITS()
    ensures LookUp(c, b) == Iterate(Shift, Xor(c, b as bv64), n)
  {
    var i := ((c & 0xFF) as bv8) ^ b;
    HighByte(c);
    Recombine(c, b);
    Joined(c, b, i as bv64, (c >> 8) << 8, n);
    TableIsRight(i);
    LookUpIs(c, b, Iterate(Shift, i as bv64, n));
  }

  lemma TableStep(c: bv64, b: bv8)
    ensures LookUp(c, b) == ByteStep(c, b)
  {
    TableSteps(c, b, BITS());
  }

  method Update(crc0: bv64, s: seq<bv8>) returns (crc: bv64)
    ensures crc == Crc(crc0, s)
  {
    crc := crc0;
    for j := 0 to |s|
      invariant Fold(ByteStep, crc, s[j..]) == Fold(ByteStep, crc0, s)
    {
      FoldFirst(ByteStep, crc, s, j);
      TableStep(crc, s[j]);
      crc := LookUp(crc, s[j]);
    }
  }

  /** The checksum does not depend on how the bytes are split. */
  lemma CrcConcat(c: bv64, s: seq<bv8>, t: seq<bv8>)
    ensures Crc(c, s + t) == Crc(Crc(c, s), t)
  {
    FoldConcat(ByteStep, c, s, t);
  }

  // ---------------------------------------------------------------- division, most significant bit first

  /** The register with its bits in reverse order. */
  function Reverse(x: bv64): bv64 {
    var a := ((x >> 1) & 0x5555555555555555) | ((x & 0x5555555555555555) << 1);
    var b := ((a >> 2) & 0x3333333333333333) | ((a & 0x3333333333333333) << 2);
    var c := ((b >> 4) & 0x0f0f0f0f0f0f0f0f) | ((b & 0x0f0f0f0f0f0f0f0f) << 4);
    var d := ((c >> 8) & 0x00ff00ff00ff00ff) | ((c & 0x00ff00ff00ff00ff) << 8);
    var e := ((d >> 16) & 0x0000ffff0000ffff) | ((d & 0x0000ffff0000ffff) << 16);
    (e >> 32) | (e << 32)
  }

  lemma ReversedPolynomial()
    ensures Reverse(POLY) == REFLECTED && Reverse(REFLECTED) == POLY
  {
  }

  /** Long division by POLY, whose leading term is left out: bring down one bit and, when the
      coefficient leaving the register is one, subtract. */
  function Divide(r: bv64, bit: bool): bv64 {
    if ((r >> 63) == 1) != bit then (r << 1) ^ POLY else r << 1
  }

  lemma ReverseDown(c: bv64, y: bv64)
    ensures Reverse((c ^ (y & 1)) >> 1) == Reverse(c) << 1
  {
  }

  lemma ReverseXor(c: bv64)
    ensures Reverse(c ^ REFLECTED) == Reverse(c) ^ POLY
  {
  }

  lemma ReverseLow(c: bv64, y: bv64)
    ensures ((Reverse(c) >> 63) == 1) != (y & 1 == 1) <==> (c ^ (y & 1)) & 1 == 1
  {
  }

  lemma ReverseShift(d: bv64)
    ensures Reverse(Shift(d)) == if d & 1 == 1 then Reverse(d >> 1) ^ POLY else Reverse(d >> 1)
  {
    if d & 1 == 1 { ReverseShiftOdd(d); } else { ReverseSame(Shift(d), d >> 1); }
  }

  lemma ReverseShiftOdd(d: bv64)
    requires d & 1 == 1
    ensures Reverse(Shift(d)) == Reverse(d >> 1) ^ POLY
  {
    ReverseSame(Shift(d), (d >> 1) ^ REFLECTED);
    ReverseXor(d >> 1);
  }

  lemma ReverseSame(x: bv64, y: bv64)
    requires x == y
    ensures Reverse(x) == Reverse(y)
  {
  }

  lemma ReverseDownXor(c: bv64, y: bv64)
    ensures Reverse((c ^ (y & 1)) >> 1) ^ POLY == (Reverse(c) << 1) ^ POLY
  {
    ReverseDown(c, y);
  }

  lemma DivideIs(r: bv64, bit: bool, odd: bool)
    requires ((r >> 63) == 1) != bit <==> odd
    ensures Divide(r, bit) == if odd then (r << 1) ^ POLY else r << 1
  {
  }

  lemma ReflectedSide(c: bv64, y: bv64)
    ensures Reverse(Shift(c ^ (y & 1))) == if (c ^ (y & 1)) & 1 == 1 then (Reverse(c) << 1) ^ POLY else Reverse(c) << 1
  {
    ReverseShift(c ^ (y & 1));
    SidesOf(c, y, Reverse(Shift(c ^ (y & 1))));
  }

  lemma SidesOf(c: bv64, y: bv64, r: bv64)
    requires r == if (c ^ (y & 1)) & 1 == 1 then Reverse((c ^ (y & 1)) >> 1) ^ POLY else Reverse((c ^ (y & 1)) >> 1)
    ensures r == if (c ^ (y & 1)) & 1 == 1 then (Reverse(c) << 1) ^ POLY else Reverse(c) << 1
  {
    if (c ^ (y & 1)) & 1 == 1 { ReverseDownXor(c, y); } else { ReverseDown(c, y); }
  }

  lemma DivisionSide(c: bv64, y: bv64)
    ensures Divide(Reverse(c), y & 1 == 1)
      == if (c ^ (y & 1)) & 1 == 1 then (Reverse(c) << 1) ^ POLY else Reverse(c) << 1
  {
    ReverseLow(c, y);
    DivideIs(Reverse(c), y & 1 == 1, (c ^ (y & 1)) & 1 == 1);
  }

  /** A reflected step is a step of long division on the reversed register. */
  lemma ReverseStep(c: bv64, y: bv64)
    ensures Reverse(Shift(c ^ (y & 1))) == Divide(Reverse(c), y & 1 == 1)
  {
    ReflectedSide(c, y);
    DivisionSide(c, y);
    SameChoice(Reverse(Shift(c ^ (y & 1))), Divide(Reverse(c), y & 1 == 1),
      (c ^ (y & 1)) & 1 == 1, (Reverse(c) << 1) ^ POLY, Reverse(c) << 1);
  }

  lemma ReverseMirrors(x: bv64, y: bv64)
    ensures MirrorsAt(Shift, Xor, Low, Divide, Odd, Reverse, x, y)
  {
    ReverseStep(x, y);
    MirrorsFrom(Shift, Xor, Low, Divide, Odd, Reverse, x, y,
      x ^ (y & 1), Shift(x ^ (y & 1)), Reverse(x), Reverse(Shift(x ^ (y & 1))));
  }

  lemma ShiftSplit(x: bv64, y: bv64, x': bv64, y': bv64)
    requires x' ^ y' == x ^ y && y' & 1 == 0 && y' >> 1 == y >> 1
    ensures Shift(x ^ y) == Shift(x') ^ (y >> 1)
  {
    ShiftXor(x', y');
  }

  lemma ShiftLow(x: bv64, y: bv64)
    ensures Shift(x ^ y) == Shift(x ^ (y & 1)) ^ (y >> 1)
  {
    ShiftSplit(x, y, x ^ (y & 1), y & 0xFFFF_FFFF_FFFF_FFFE);
  }

  lemma XorLowIs(x: bv64, y: bv64)
    ensures Xor(x, Low(y)) == x ^ (y & 1)
  {
  }

  lemma ShiftLowXor(x: bv64, y: bv64)
    ensures Shift(x ^ y) == Xor(Shift(x ^ (y & 1)), y >> 1)
  {
    ShiftLow(x, y);
    XorIs(Shift(x ^ (y & 1)), y >> 1);
  }

  lemma ShiftFeeds(x: bv64, y: bv64)
    ensures FeedsAt(Shift, Xor, Down, Low, x, y)
  {
    XorLowIs(x, y);
    XorIs(x, y);
    ShiftLowXor(x, y);
    FeedsFrom(Shift, Xor, Down, Low, x, y, x ^ y, x ^ (y & 1), Shift(x ^ (y & 1)), y >> 1);
  }

  /** Long division by the eight bits of a byte, lowest first. */
  ghost function DivideByte(r: bv64, b: bv8): bv64 {
    FeedBits(Divide, Odd, Down, r, b as bv64, BITS())
  }

  lemma ByteGone(b: bv8)
    ensures Iterate(Down, b as bv64, 8) == 0
  {
  }

  lemma XorNothing(x: bv64, z: bv64)
    requires z == 0
    ensures Xor(x, z) == x
  {
  }

  lemma FedByte(c: bv64, y: bv64, n: nat)
    requires Iterate(Down, y, n) == 0
    ensures Iterate(Shift, Xor(c, y), n) == Feed(Shift, Xor, Down, Low, c, y, n)
  {
    forall x, y ensures FeedsAt(Shift, Xor, Down, Low, x, y) { ShiftFeeds(x, y); }
    IterateFeeds(Shift, Xor, Down, Low, c, y, n);
    XorNothing(Feed(Shift, Xor, Down, Low, c, y, n), Iterate(Down, y, n));
  }

  lemma MirroredByte(c: bv64, y: bv64, n: nat)
    requires Iterate(Down, y, n) == 0
    ensures Reverse(Iterate(Shift, Xor(c, y), n)) == FeedBits(Divide, Odd, Down, Reverse(c), y, n)
  {
    FedByte(c, y, n);
    forall x, y ensures MirrorsAt(Shift, Xor, Low, Divide, Odd, Reverse, x, y) { ReverseMirrors(x, y); }
    FeedMirrors(Shift, Xor, Down, Low, Divide, Odd, Reverse, c, y, n);
  }

  lemma ByteStepMirrors(c: bv64, b: bv8)
    ensures CommutesAt(ByteStep, DivideByte, Reverse, c, b)
  {
    ByteGone(b);
    MirroredByte(c, b as bv64, BITS());
  }

  /** With the register read backwards, the checksum is the remainder that long division by the
      polynomial of the header leaves, taking the bits of each byte lowest first. */
  lemma CrcIsDivision(c: bv64, s: seq<bv8>)
    ensures Reverse(Crc(c, s)) == Fold(DivideByte, Reverse(c), s)
  {
    forall c, b ensures CommutesAt(ByteStep, DivideByte, Reverse, c, b) { ByteStepMirrors(c, b); }
    FoldMirrors(ByteStep, DivideByte, Reverse, c, s);
  }

  // ---------------------------------------------------------------- what the checksum detects

  lemma ShiftInjective(x: bv64, y: bv64)
    ensures SameImage(Shift, x, y)
  {
  }

  lemma ShiftsInjective(x: bv64, y: bv64, n: nat)
    requires x != y
    ensures Iterate(Shift, x, n) != Iterate(Shift, y, n)
  {
    forall c, d ensures SameImage(Shift, c, d) { ShiftInjective(c, d); }
    IterateInjective(Shift, x, y, n);
  }

  lemma XorCancels(c: bv64, d: bv64, b: bv64)
    requires c != d
    ensures Xor(c, b) != Xor(d, b) && Xor(b, c) != Xor(b, d)
  {
  }

  lemma ByteStepInjective(c: bv64, d: bv64, b: bv8)
    ensures SameResult(ByteStep, c, d, b)
  {
    if c != d {
      XorCancels(c, d, b as bv64);
      ShiftsInjective(Xor(c, b as bv64), Xor(d, b as bv64), BITS());
    }
  }

  lemma CrcInjective(c: bv64, d: bv64, s: seq<bv8>)
    requires c != d
    ensures Crc(c, s) != Crc(d, s)
  {
    forall c, d, b ensures SameResult(ByteStep, c, d, b) { ByteStepInjective(c, d, b); }
    FoldInjective(ByteStep, c, d, s);
  }

  /** Up to eight bytes as a number, the first byte lowest. */
  function Word(s: seq<bv8>): bv64 {
    FoldRight(Put, 0, s)
  }

  function Put(b: bv8, w: bv64): bv64 {
    Xor(b as bv64, Raise(w))
  }

  function Raise(x: bv64): bv64 { x << 8 }

  predicate Fits(w: bv64, k: nat) { w <= Limit(k) }

  function Limit(k: nat): bv64 {
    if k == 0 then 0 else if k == 1 then 0xFF else if k == 2 then 0xFFFF else if k == 3 then 0xFFFFFF
    else if k == 4 then 0xFFFFFFFF else if k == 5 then 0xFFFFFFFFFF else if k == 6 then 0xFFFFFFFFFFFF
    else if k == 7 then 0xFFFFFFFFFFFFFF else 0xFFFFFFFFFFFFFFFF
  }

  lemma LimitStep(b: bv8, w: bv64, k: nat)
    requires Fits(w, k)
    ensures Fits(Put(b, w), k + 1)
  {
  }

  lemma PutFits(b: bv8, w: bv64, k: nat)
    ensures FitsAt(Put, Fits, b, w, k)
  {
    if Fits(w, k) { LimitStep(b, w, k); }
    FitsFrom(Put, Fits, b, w, k, Put(b, w));
  }

  lemma WordFits(s: seq<bv8>)
    ensures Fits(Word(s), |s|)
  {
    forall b, w, k: nat ensures FitsAt(Put, Fits, b, w, k) { PutFits(b, w, k); }
    FoldRightFits(Put, Fits, 0, s);
  }

  lemma Raised(w: bv64, k: nat)
    requires Fits(w, k) && k <= 7
    ensures Keeps(Even, Down, Raise(w), 8) && Iterate(Down, Raise(w), 8) == w
  {
  }

  lemma XorAssociates(c: bv64, b: bv64, w: bv64)
    ensures Xor(c, Xor(b, w)) == Xor(Xor(c, b), w)
  {
    XorRight(c, b, w);
    XorLeft(c, b, w);
    SameVia(Xor(c, Xor(b, w)), Xor(Xor(c, b), w), c ^ (b ^ w), (c ^ b) ^ w);
  }

  lemma XorRight(c: bv64, b: bv64, w: bv64)
    ensures Xor(c, Xor(b, w)) == c ^ (b ^ w)
  {
  }

  lemma XorLeft(c: bv64, b: bv64, w: bv64)
    ensures Xor(Xor(c, b), w) == (c ^ b) ^ w
  {
  }

  lemma FirstByteOut(c: bv64, b: bv64, w: bv64, n: nat)
    requires Keeps(Even, Down, Raise(w), n) && Iterate(Down, Raise(w), n) == w
    ensures Iterate(Shift, Xor(c, Xor(b, Raise(w))), n) == Xor(Iterate(Shift, Xor(c, b), n), w)
  {
    XorAssociates(c, b, Raise(w));
    ShiftsXor(Xor(c, b), Raise(w), n);
  }

  lemma WordStep(c: bv64, s: seq<bv8>)
    requires 0 < |s| <= 8
    ensures Iterate(Shift, Xor(c, Word(s)), BITS()) == Xor(ByteStep(c, s[0]), Word(s[1..]))
  {
    WordFits(s[1..]);
    Raised(Word(s[1..]), |s| - 1);
    FirstByteOut(c, s[0] as bv64, Word(s[1..]), BITS());
  }

  /** Reading up to eight bytes is entering them all at once and then dividing. */
  lemma {:induction false} CrcWord(c: bv64, s: seq<bv8>)
    requires |s| <= 8
    ensures Crc(c, s) == Iterate(Shift, Xor(c, Word(s)), BITS() * |s|)
    decreases |s|
  {
    if s == [] {
      XorNothing(c, Word(s));
    } else {
      WordStep(c, s);
      CrcWord(ByteStep(c, s[0]), s[1..]);
      IterateTwice(Shift, Xor(c, Word(s)), BITS(), BITS() * (|s| - 1));
    }
  }

  /** A word of eight bytes, lowest first. */
  function WordBytes(x: bv64): (s: seq<bv8>)
    ensures |s| == 8
  {
    [(x & 0xFF) as bv8, ((x >> 8) & 0xFF) as bv8, ((x >> 16) & 0xFF) as bv8, ((x >> 24) & 0xFF) as bv8,
     ((x >> 32) & 0xFF) as bv8, ((x >> 40) & 0xFF) as bv8, ((x >> 48) & 0xFF) as bv8, ((x >> 56) & 0xFF) as bv8]
  }

  lemma PutInjective(b: bv8, w: bv64, b': bv8, w': bv64, k: nat)
    requires k <= 7 && Fits(w, k) && Fits(w', k) && Put(b, w) == Put(b', w')
    ensures b == b' && w == w'
  {
  }

  /** Strings of one length up to eight bytes are told apart by their words. */
  lemma {:induction false} WordInjective(s: seq<bv8>, t: seq<bv8>)
    requires |s| == |t| <= 8 && Word(s) == Word(t)
    ensures s == t
  {
    if s != [] {
      WordFits(s[1..]);
      WordFits(t[1..]);
      PutInjective(s[0], Word(s[1..]), t[0], Word(t[1..]), |s| - 1);
      WordInjective(s[1..], t[1..]);
      assert s == [s[0]] + s[1..] && t == [t[0]] + t[1..];
    }
  }

  /** Any change confined to eight consecutive bytes changes the checksum. */
  lemma BurstDetected(c: bv64, before: seq<bv8>, s: seq<bv8>, t: seq<bv8>, after: seq<bv8>)
    requires |s| == |t| <= 8 && s != t
    ensures Crc(c, before + s + after) != Crc(c, before + t + after)
  {
    var d := Crc(c, before);
    if Word(s) == Word(t) { WordInjective(s, t); }
    XorCancels(Word(s), Word(t), d);
    ShiftsInjective(Xor(d, Word(s)), Xor(d, Word(t)), BITS() * |s|);
    CrcWord(d, s);
    CrcWord(d, t);
    CrcInjective(Crc(d, s), Crc(d, t), after);
    CrcSplit(c, before, s, after);
    CrcSplit(c, before, t, after);
  }

  lemma CrcSplit(c: bv64, before: seq<bv8>, s: seq<bv8>, after: seq<bv8>)
    ensures Crc(c, before + s + after) == Crc(Crc(Crc(c, before), s), after)
  {
    CrcConcat(c, before + s, after);
    CrcConcat(c, before, s);
  }

  // ---------------------------------------------------------------- data followed by its own checksum

  lemma {:induction false} ShiftsZero(n: nat)
    ensures Iterate(Shift, 0, n) == 0
  {
    if n > 0 { ShiftsZero(n - 1); }
  }

  lemma HighHalf(x: bv64)
    ensures Put(((x >> 32) & 0xFF) as bv8,
      Put(((x >> 40) & 0xFF) as bv8, Put(((x >> 48) & 0xFF) as bv8, Put(((x >> 56) & 0xFF) as bv8, 0))))
      == x >> 32
  {
  }

  lemma LowHalf(x: bv64, h: bv64)
    requires h == x >> 32
    ensures Put((x & 0xFF) as bv8,
      Put(((x >> 8) & 0xFF) as bv8, Put(((x >> 16) & 0xFF) as bv8, Put(((x >> 24) & 0xFF) as bv8, h)))) == x
  {
  }

  lemma WordOfBytes(x: bv64)
    ensures Word(WordBytes(x)) == x
  {
    var s := WordBytes(x);
    FoldRight4(Put, 0, s);
    FoldRight4(Put, 0, s[4..]);
    assert s[4..][4..] == [];
    HighHalf(x);
    LowHalf(x, Word(s[4..]));
  }

  lemma BytesOfWord(s: seq<bv8>)
    requires |s| == 8
    ensures WordBytes(Word(s)) == s
  {
    WordOfBytes(Word(s));
    WordInjective(WordBytes(Word(s)), s);
  }

  /** A word read from register c leaves zero exactly when it is c itself. */
  lemma ChecksumCloses(c: bv64, x: bv64)
    ensures Crc(c, WordBytes(x)) == 0 <==> x == c
  {
    CrcWord(c, WordBytes(x));
    WordOfBytes(x);
    ShiftsZero(BITS() * 8);
    if x != c {
      XorDistinct(c, x);
      ShiftsInjective(Xor(c, x), 0, BITS() * 8);
    } else {
      XorSelf(c);
    }
  }

  lemma XorDistinct(c: bv64, x: bv64)
    requires x != c
    ensures Xor(c, x) != 0
  {
  }

  lemma XorSelf(c: bv64)
    ensures Xor(c, c) == 0
  {
  }

  // ---------------------------------------------------------------- the check value of the header

  /** "123456789" and its checksum, as the header of crc64.c gives them. */
  const CHECK_TEXT: seq<bv8> := [0x31, 0x32, 0x33, 0x34, 0x35, 0x36, 0x37, 0x38, 0x39]
  const CHECK: bv64 := 0xe9c6d914c4b8d9ca

  /** The register before each digit and after the last. */
  const CHECK_STEPS: seq<bv64> := [
    0x0000000000000000, 0xfdc17184a9f739fa, 0xe10364513a98ed96,
    0xd5bcfb814479b1ac, 0x43593c5dcda521f0, 0xf0758513239c7e0d,
    0xa3a90925b2ab4903, 0x47824d362431ad45, 0x49ec20b315e86dc2,
    0xe9c6d914c4b8d9ca
  ]

  /** Each register follows from the one before by entering one byte. */
  ghost predicate StepAt(s: seq<bv8>, c: seq<bv64>, i: nat)
    requires i < |s| && |c| == |s| + 1
  {
    LookUp(c[i], s[i]) == c[i + 1]
  }

  lemma {:induction false} CrcAlong(s: seq<bv8>, c: seq<bv64>, j: nat)
    requires j <= |s| && |c| == |s| + 1 && forall i :: j <= i < |s| ==> StepAt(s, c, i)
    ensures Crc(c[j], s[j..]) == c[|s|]
    decreases |s| - j
  {
    if j < |s| {
      assert StepAt(s, c, j);
      TableStep(c[j], s[j]);
      FoldFirst(ByteStep, c[j], s, j);
      CrcAlong(s, c, j + 1);
    }
  }

  lemma Digit1()
    ensures StepAt(CHECK_TEXT, CHECK_STEPS, 0)
  {
  }

  lemma Digit2()
    ensures StepAt(CHECK_TEXT, CHECK_STEPS, 1)
  {
  }

  lemma Digit3()
    ensures StepAt(CHECK_TEXT, CHECK_STEPS, 2)
  {
  }

  lemma Digit4()
    ensures StepAt(CHECK_TEXT, CHECK_STEPS, 3)
  {
  }

  lemma Digit5()
    ensures StepAt(CHECK_TEXT, CHECK_STEPS, 4)
  {
  }

  lemma Digit6()
    ensures StepAt(CHECK_TEXT, CHECK_STEPS, 5)
  {
  }

  lemma Digit7()
    ensures StepAt(CHECK_TEXT, CHECK_STEPS, 6)
  {
  }

  lemma Digit8()
    ensures StepAt(CHECK_TEXT, CHECK_STEPS, 7)
  {
  }

  lemma Digit9()
    ensures StepAt(CHECK_TEXT, CHECK_STEPS, 8)
  {
  }

  lemma CheckFromZero()
    ensures Crc(0, CHECK_TEXT) == CHECK
  {
    Digit1(); Digit2(); Digit3(); Digit4(); Digit5(); Digit6(); Digit7(); Digit8(); Digit9();
    CrcAlong(CHECK_TEXT, CHECK_STEPS, 0);
    assert CHECK_TEXT[0..] == CHECK_TEXT;
  }

  /** The check value is that of initial value 0, and of no other: not of the all ones that the
      header's Xor_In names. */
  lemma CheckNeedsZero(init: bv64)
    ensures Crc(init, CHECK_TEXT) == CHECK <==> init == 0
  {
    CheckFromZero();
    if init != 0 { CrcInjective(init, 0, CHECK_TEXT); }
  }
}
