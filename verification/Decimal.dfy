/** Decimal numbers as `ll2string`, `string2ll` and `strtol` write and read them. */
module Decimal {
  import opened Bytes

  const LLONG_MAX := 0x7FFF_FFFF_FFFF_FFFF
  const LLONG_MIN := -0x8000_0000_0000_0000
  const ULLONG_MAX := 0xFFFF_FFFF_FFFF_FFFF

  const MINUS: Byte := 45
  const ZERO: Byte := 48

  predicate IsDigit(b: Byte) { 48 <= b <= 57 }

  function DigitValue(b: Byte): nat
    requires IsDigit(b)
  {
    b - 48
  }

  function Digit(d: nat): Byte
    requires d < 10
  {
    48 + d
  }

  // ---------------------------------------------------------------- canonical form

  /** The digits of `n`, without leading zeros. */
  function PrintNat(n: nat): seq<Byte> {
    if n < 10 then [Digit(n)] else PrintNat(n / 10) + [Digit(n % 10)]
  }

  function Print(n: int): seq<Byte> {
    if n < 0 then [MINUS] + PrintNat(-n) else PrintNat(n)
  }

  ghost predicate AllDigits(s: seq<Byte>) {
    forall i :: 0 <= i < |s| ==> IsDigit(s[i])
  }

  /** The number a string of digits denotes. */
  function Val(s: seq<Byte>): nat
    requires AllDigits(s)
  {
    if s == [] then 0 else Val(s[..|s| - 1]) * 10 + DigitValue(s[|s| - 1])
  }

  ghost predicate NoLeadingZero(s: seq<Byte>) {
    |s| > 0 && (|s| > 1 ==> s[0] != ZERO)
  }

  lemma {:induction false} PrintNatIsCanonical(n: nat)
    ensures AllDigits(PrintNat(n)) && NoLeadingZero(PrintNat(n)) && Val(PrintNat(n)) == n
    ensures PrintNat(n)[0] == ZERO <==> n == 0
  {
    if n >= 10 {
      PrintNatIsCanonical(n / 10);
      var s := PrintNat(n);
      assert s[..|s| - 1] == PrintNat(n / 10);
    } else {
      assert PrintNat(n)[..0] == [];
    }
  }

  lemma {:induction false} CanonicalIsPrinted(s: seq<Byte>)
    requires AllDigits(s) && NoLeadingZero(s)
    ensures PrintNat(Val(s)) == s
    ensures |s| > 1 ==> Val(s) >= 10
  {
    var p := s[..|s| - 1];
    if |s| == 1 {
      assert p == [];
    } else {
      CanonicalIsPrinted(p);
      if |p| == 1 {
        assert p[..0] == [] && p[0] == s[0];
      }
      assert s == p + [s[|s| - 1]];
    }
  }

  lemma PrintInjective(a: int, b: int)
    requires Print(a) == Print(b)
    ensures a == b
  {
    PrintNatIsCanonical(if a < 0 then -a else a);
    PrintNatIsCanonical(if b < 0 then -b else b);
    if a < 0 && b < 0 {
      assert Print(a)[1..] == PrintNat(-a) && Print(b)[1..] == PrintNat(-b);
    }
  }

  function Pow10(k: nat): (p: nat)
    ensures p > 0
  {
    if k == 0 then 1 else 10 * Pow10(k - 1)
  }

  lemma {:induction false} PrintNatLength(n: nat, k: nat)
    requires k > 0 && n < Pow10(k)
    ensures 1 <= |PrintNat(n)| <= k
  {
    if n >= 10 {
      PrintNatLength(n / 10, k - 1);
    }
  }

  lemma PrintNatShort(n: nat)
    ensures n < 10_000_000 ==> |PrintNat(n)| <= 7
    ensures n < 1_000_000_000 ==> |PrintNat(n)| <= 9
  {
    assert Pow10(4) == 10_000 && Pow10(7) == 10_000_000 && Pow10(9) == 1_000_000_000;
    if n < 10_000_000 { PrintNatLength(n, 7); }
    if n < 1_000_000_000 { PrintNatLength(n, 9); }
  }

  /** At most 19 digits and a sign. */
  lemma PrintLength(v: int)
    requires IsLongLong(v)
    ensures 1 <= |Print(v)| <= 20
  {
    assert Pow10(4) == 10_000 && Pow10(8) == 1_0000_0000;
    assert Pow10(12) == 1_0000_0000_0000 && Pow10(16) == 1_0000_0000_0000_0000;
    assert Pow10(19) == 1000_0000_0000_0000_0000;
    PrintNatLength(if v < 0 then -v else v, 19);
  }

  lemma PrintLength32(v: int)
    requires -0x8000_0000 <= v <= 0x7FFF_FFFF
    ensures 1 <= |Print(v)| <= 11
  {
    assert Pow10(4) == 10_000 && Pow10(8) == 1_0000_0000 && Pow10(10) == 100_0000_0000;
    PrintNatLength(if v < 0 then -v else v, 10);
  }

  // ---------------------------------------------------------------- ll2string

  /** One more digit in front of those already written. */
  lemma PrintNatStep(v: nat, s: seq<Byte>)
    requires v > 0
    ensures PrintNat(v) + s == (if v / 10 > 0 then PrintNat(v / 10) else []) + ([Digit(v % 10)] + s)
  {
  }

  /** The do-while loop that fills the buffer from its end. */
  method NatToString(n: nat) returns (s: seq<Byte>)
    ensures s == PrintNat(n)
  {
    var v := n;
    s := [Digit(v % 10)];
    v := v / 10;
    while v > 0
      invariant PrintNat(n) == (if v > 0 then PrintNat(v) else []) + s
    {
      PrintNatStep(v, s);
      s := [Digit(v % 10)] + s;
      v := v / 10;
    }
  }

  /** `ll2string` with a buffer that is large enough. */
  method LongLongToString(value: int) returns (s: seq<Byte>)
    ensures s == Print(value)
  {
    s := NatToString(if value < 0 then -value else value);
    if value < 0 { s := [MINUS] + s; }
  }

  // ---------------------------------------------------------------- string2ll

  /** The unsigned part: a non-zero first digit, further digits, no overflow of 64 bits. */
  method DigitsToNat(digits: seq<Byte>) returns (r: Option<nat>)
    ensures r.Some? ==> 0 < r.value <= ULLONG_MAX && digits == PrintNat(r.value)
    ensures r == None ==> NotPrinted(digits)
  {
    if |digits| == 0 { BadStart(digits); return None; }
    if !IsDigit(digits[0]) || digits[0] == ZERO { BadStart(digits); return None; }
    var v: nat := digits[0] - ZERO;
    var n := 1;
    assert digits[..1][..0] == [];
    while n < |digits| && IsDigit(digits[n])
      invariant 1 <= n <= |digits| && AllDigits(digits[..n]) && v == Val(digits[..n])
      invariant 0 < v <= ULLONG_MAX
    {
      if v > ULLONG_MAX / 10 || v * 10 > ULLONG_MAX - DigitValue(digits[n]) {
        TooBig(digits, n);
        return None;
      }
      v := v * 10 + DigitValue(digits[n]);
      assert digits[..n + 1][..n] == digits[..n];
      n := n + 1;
    }
    if n < |digits| { NotAllDigits(digits, n); return None; }
    assert digits[..n] == digits;
    CanonicalIsPrinted(digits);
    return Some(v);
  }

  ghost predicate IsLongLong(v: int) { LLONG_MIN <= v <= LLONG_MAX }

  /** Accepts exactly the canonical decimals of the 64-bit signed integers. */
  method StringToLongLong(s: seq<Byte>) returns (r: Option<int>)
    ensures r.Some? ==> IsLongLong(r.value) && s == Print(r.value)
    ensures r == None ==> forall v :: IsLongLong(v) ==> s != Print(v)
  {
    if |s| == 1 && s[0] == ZERO { return Some(0); }
    var negative := |s| > 0 && s[0] == MINUS;
    var u := DigitsToNat(if negative then s[1..] else s);
    if u == None {
      Rejected(s, negative);
      return None;
    }
    var magnitude: int := u.value;
    var w := if negative then -magnitude else magnitude;
    assert s == Print(w);
    if w < LLONG_MIN || w > LLONG_MAX {
      forall v | s == Print(v) ensures v == w { PrintInjective(v, w); }
      return None;
    }
    return Some(w);
  }

  lemma Rejected(s: seq<Byte>, negative: bool)
    requires s != [ZERO] && negative == (|s| > 0 && s[0] == MINUS)
    requires NotPrinted(if negative then s[1..] else s)
    ensures forall v :: IsLongLong(v) ==> s != Print(v)
  {
    forall v | s == Print(v) ensures !IsLongLong(v) {
      PrintNatIsCanonical(if v < 0 then -v else v);
      assert negative <==> v < 0;
      assert v == 0 ==> s == [ZERO];
    }
  }

  /** Not the digits of any positive 64-bit number. */
  ghost predicate NotPrinted(digits: seq<Byte>) {
    forall v: nat :: 0 < v <= ULLONG_MAX ==> digits != PrintNat(v)
  }

  lemma BadStart(digits: seq<Byte>)
    requires |digits| == 0 || !IsDigit(digits[0]) || digits[0] == ZERO
    ensures NotPrinted(digits)
  {
    forall v: nat | v > 0 ensures digits != PrintNat(v) { PrintNatIsCanonical(v); }
  }

  lemma NotAllDigits(digits: seq<Byte>, n: nat)
    requires n < |digits| && !IsDigit(digits[n])
    ensures NotPrinted(digits)
  {
    forall v: nat ensures digits != PrintNat(v) { PrintNatIsCanonical(v); }
  }

  /** The value of a longer string of digits is at least that of its prefix. */
  lemma {:induction false} ValPrefix(s: seq<Byte>, n: nat)
    requires AllDigits(s) && n <= |s|
    ensures Val(s[..n]) <= Val(s)
  {
    if n < |s| {
      var p := s[..|s| - 1];
      ValPrefix(p, n);
      assert p[..n] == s[..n];
    } else {
      assert s[..n] == s;
    }
  }

  lemma TooBig(digits: seq<Byte>, n: nat)
    requires 0 < n < |digits| && AllDigits(digits[..n]) && IsDigit(digits[n])
    requires Val(digits[..n]) * 10 + DigitValue(digits[n]) > ULLONG_MAX
    ensures NotPrinted(digits)
  {
    forall v: nat | digits == PrintNat(v) ensures v > ULLONG_MAX {
      PrintNatIsCanonical(v);
      ValPrefix(digits, n + 1);
      assert digits[..n + 1][..n] == digits[..n];
    }
  }

  // ---------------------------------------------------------------- strtol

  /** strtol in base 10: blanks, a sign, digits; anything after them is ignored, and what does not
      fit becomes the nearest limit. */
  function Strtol(s: seq<Byte>): (r: int)
    ensures LLONG_MIN <= r <= LLONG_MAX
  {
    var n := Number(s);
    if n > LLONG_MAX then LLONG_MAX else if n < LLONG_MIN then LLONG_MIN else n
  }

  /** isspace. */
  predicate IsSpace(b: Byte) {
    b == 32 || 9 <= b <= 13
  }

  function Number(s: seq<Byte>): int {
    if s == [] then 0
    else if IsSpace(s[0]) then Number(s[1..])
    else if s[0] == MINUS then -(LeadingDigits(s[1..], 0) as int)
    else if s[0] == 43 then LeadingDigits(s[1..], 0)
    else LeadingDigits(s, 0)
  }

  function LeadingDigits(s: seq<Byte>, acc: nat): nat {
    if s == [] || !IsDigit(s[0]) then acc else LeadingDigits(s[1..], acc * 10 + DigitValue(s[0]))
  }

  lemma {:induction false} LeadingDigitsOf(s: seq<Byte>, t: seq<Byte>, acc: nat)
    requires AllDigits(s) && (t == [] || !IsDigit(t[0]))
    ensures LeadingDigits(s + t, acc) == acc * Pow10(|s|) + Val(s)
  {
    if s == [] {
      assert s + t == t;
    } else {
      var u := s[1..];
      assert (s + t)[1..] == u + t;
      LeadingDigitsOf(u, t, acc * 10 + DigitValue(s[0]));
      ValFront(s);
      var d := DigitValue(s[0]);
      TenMore(acc, d, Pow10(|u|));
    }
  }

  lemma TenMore(acc: nat, d: nat, p: nat)
    ensures (acc * 10 + d) * p == acc * (10 * p) + d * p
  {
  }

  lemma {:induction false} ValFront(s: seq<Byte>)
    requires AllDigits(s) && |s| > 0
    ensures Val(s) == DigitValue(s[0]) * Pow10(|s| - 1) + Val(s[1..])
  {
    if |s| == 1 {
      assert s[..0] == [] && s[1..] == [];
    } else {
      var p, t := s[..|s| - 1], s[1..];
      ValFront(p);
      assert t[..|t| - 1] == p[1..];
      TimesTen(DigitValue(s[0]), Pow10(|p| - 1));
    }
  }

  lemma TimesTen(d: nat, w: nat)
    ensures (d * w) * 10 == d * (10 * w)
  {
  }

  /** strtol reads what was printed. */
  lemma NumberOfPrint(v: int)
    ensures Number(Print(v)) == v
  {
    var digits := PrintNat(if v < 0 then -v else v);
    PrintNatIsCanonical(if v < 0 then -v else v);
    LeadingDigitsOf(digits, [], 0);
    assert digits + [] == digits;
    if v < 0 { assert Print(v)[1..] == digits; }
  }
}
