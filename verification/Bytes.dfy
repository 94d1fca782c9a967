/** Octets, as the C code's `unsigned char`. */
module Bytes {
  type Byte = x: int | 0 <= x < 256

  datatype Option<+T> = None | Some(value: T)
}

/** Conversions between the integer types of C, where a value may not fit. */
module CTypes {
  const INT_MAX := 0x7FFF_FFFF
  const U32 := 0x1_0000_0000
  const U64 := 0x1_0000_0000_0000_0000

  /** What an int holds of an integer: its low 32 bits, signed. */
  function Int32(n: int): (r: int)
    ensures -INT_MAX - 1 <= r <= INT_MAX
    ensures -INT_MAX - 1 <= n <= INT_MAX ==> r == n
    ensures 0 <= n < U32 ==> r == if n <= INT_MAX then n else n - U32
    ensures n > INT_MAX ==> r < n
  {
    var m := n % U32;
    if m > INT_MAX then m - U32 else m
  }

  /** A long taken as an unsigned long: a negative number becomes a huge one. */
  function Unsigned64(n: int): (r: nat)
    ensures 0 <= n < U64 ==> r == n
    ensures -U64 <= n < 0 ==> r == n + U64
  {
    n % U64
  }
}

module Sequences {
  lemma Associates<T>(a: seq<T>, b: seq<T>, c: seq<T>)
    ensures a + b + c == a + (b + c)
  {
  }
}
