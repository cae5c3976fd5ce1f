/** Unsigned 64-bit integers and their decimal text, as Rust's
    `u64::to_string` writes it. */
module Decimal {
  import opened Wrappers

  const U64Limit: int := 0x1_0000_0000_0000_0000

  type u64 = x: int | 0 <= x < U64Limit

  /** Addition on `u64` as an optimised Rust build performs it: the sum
      wraps around modulo 2^64. */
  function WrappingAdd(a: u64, b: u64): (r: u64)
    ensures a + b < U64Limit ==> r == a + b
    ensures a + b >= U64Limit ==> r == a + b - U64Limit
  {
    (a + b) % U64Limit
  }

  function DigitChar(d: nat): (c: char)
    requires d < 10
    ensures '0' <= c <= '9'
  {
    ('0' as int + d) as char
  }

  /** `to_string` on an unsigned integer: its decimal digits, most
      significant first, with no leading zero. */
  function ToString(n: nat): (s: string)
    ensures s != []
    ensures forall i :: 0 <= i < |s| ==> '0' <= s[i] <= '9'
    ensures s[0] == '0' ==> s == "0"
  {
    if n < 10 then [DigitChar(n)] else ToString(n / 10) + [DigitChar(n % 10)]
  }

  /** Reads a non-empty run of decimal digits as a number: the reference
      inverse of ToString, as a consumer of the claims would parse them. */
  function Parse(s: string): Option<nat>
  {
    if s == [] then None
    else
      var last := s[|s| - 1];
      if !('0' <= last <= '9') then None
      else if |s| == 1 then Some(last as int - '0' as int)
      else
        match Parse(s[..|s| - 1])
        case None => None
        case Some(p) => Some(p * 10 + (last as int - '0' as int))
  }

  /** Round trip: the decimal text of `n` reads back as `n`. */
  lemma {:induction false} ParseToString(n: nat)
    ensures Parse(ToString(n)) == Some(n)
  {
    if n >= 10 {
      var s := ToString(n);
      ParseToString(n / 10);
      assert s[..|s| - 1] == ToString(n / 10);
    }
  }

  /** Different numbers are written differently. */
  lemma ToStringInjective(a: nat, b: nat)
    requires ToString(a) == ToString(b)
    ensures a == b
  {
    ParseToString(a);
    ParseToString(b);
  }
}
