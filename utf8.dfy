/** UTF-8 as Rust's `str::as_bytes` produces it and `std::str::from_utf8`
    accepts it: the shortest-form encoding of Unicode scalar values
    (RFC 3629, section 3), and a decoder that admits exactly the
    well-formed byte sequences of RFC 3629, section 4. */
module Utf8 {
  import opened Wrappers

  type byte = x: int | 0 <= x < 0x100

  /** A continuation byte, 10xxxxxx. */
  predicate IsContinuation(b: byte) {
    0x80 <= b < 0xC0
  }

  /** The shortest encoding of one scalar value. */
  function EncodeChar(c: char): (b: seq<byte>)
    ensures 1 <= |b| <= 4
    ensures (|b| == 1) == (c as int < 0x80)
  {
    var n := c as int;
    if n < 0x80 then [n]
    else if n < 0x800 then [0xC0 + n / 0x40, 0x80 + n % 0x40]
    else if n < 0x1_0000 then [0xE0 + n / 0x1000, 0x80 + n / 0x40 % 0x40, 0x80 + n % 0x40]
    else [0xF0 + n / 0x4_0000, 0x80 + n / 0x1000 % 0x40, 0x80 + n / 0x40 % 0x40, 0x80 + n % 0x40]
  }

  /** `str::as_bytes`: the encoding of a string, character by character. */
  function Encode(s: string): (b: seq<byte>)
    ensures |s| <= |b| <= 4 * |s|
  {
    if s == [] then [] else EncodeChar(s[0]) + Encode(s[1..])
  }

  /** Which second bytes may follow the lead byte of a three-byte
      sequence: E0 excludes overlong forms, ED excludes surrogates. */
  predicate SecondOfThree(b0: byte, b1: byte) {
    if b0 == 0xE0 then 0xA0 <= b1 < 0xC0
    else if b0 == 0xED then 0x80 <= b1 < 0xA0
    else IsContinuation(b1)
  }

  /** Which second bytes may follow the lead byte of a four-byte
      sequence: F0 excludes overlong forms, F4 values above U+10FFFF. */
  predicate SecondOfFour(b0: byte, b1: byte) {
    if b0 == 0xF0 then 0x90 <= b1 < 0xC0
    else if b0 == 0xF4 then 0x80 <= b1 < 0x90
    else IsContinuation(b1)
  }

  /** Decodes the well-formed sequence at the head of `bs`, giving the
      scalar value and the number of bytes it takes; None when the head
      is not well formed. */
  function DecodeChar(bs: seq<byte>): (r: Option<(char, nat)>)
    ensures r.Some? ==> 1 <= r.value.1 <= |bs| && r.value.1 <= 4
  {
    if |bs| == 0 then None
    else
      var b0: int := bs[0];
      if b0 < 0x80 then Some((b0 as char, 1))
      else if 0xC2 <= b0 < 0xE0 then
        if 2 <= |bs| && IsContinuation(bs[1]) then
          Some((((b0 - 0xC0) * 0x40 + (bs[1] as int - 0x80)) as char, 2))
        else None
      else if 0xE0 <= b0 < 0xF0 then
        if 3 <= |bs| && SecondOfThree(b0, bs[1]) && IsContinuation(bs[2]) then
          Some((((b0 - 0xE0) * 0x1000 + (bs[1] as int - 0x80) * 0x40 + (bs[2] as int - 0x80)) as char, 3))
        else None
      else if 0xF0 <= b0 < 0xF5 then
        if 4 <= |bs| && SecondOfFour(b0, bs[1]) && IsContinuation(bs[2]) && IsContinuation(bs[3]) then
          Some((((b0 - 0xF0) * 0x4_0000 + (bs[1] as int - 0x80) * 0x1000 + (bs[2] as int - 0x80) * 0x40 + (bs[3] as int - 0x80)) as char, 4))
        else None
      else None
  }

  /** `std::str::from_utf8`: the string when the whole input is well
      formed, None otherwise. */
  function Decode(bs: seq<byte>): (r: Option<string>)
    ensures r.Some? ==> |r.value| <= |bs|
    decreases |bs|
  {
    if bs == [] then Some([])
    else match DecodeChar(bs)
      case None => None
      case Some((c, n)) =>
        match Decode(bs[n..])
        case None => None
        case Some(rest) => Some([c] + rest)
  }

  /** The decoder reads back the encoding of one character, whatever follows it. */
  lemma DecodeEncodeChar(c: char, rest: seq<byte>)
    ensures DecodeChar(EncodeChar(c) + rest) == Some((c, |EncodeChar(c)|))
  {
    var n := c as int;
    if n < 0x80 {
    } else if n < 0x800 {
      DecodeEncodeTwo(c, rest);
    } else if n < 0x1_0000 {
      DecodeEncodeThree(c, rest);
    } else {
      DecodeEncodeFour(c, rest);
    }
  }

  lemma DecodeEncodeTwo(c: char, rest: seq<byte>)
    requires 0x80 <= c as int < 0x800
    ensures DecodeChar(EncodeChar(c) + rest) == Some((c, 2))
  {
    var n := c as int;
    var hi, lo := n / 0x40, n % 0x40;
    assert n == hi * 0x40 + lo;
    var bs := EncodeChar(c) + rest;
    assert bs[0] == 0xC0 + hi && bs[1] == 0x80 + lo;
  }

  lemma DecodeEncodeThree(c: char, rest: seq<byte>)
    requires 0x800 <= c as int < 0x1_0000
    ensures DecodeChar(EncodeChar(c) + rest) == Some((c, 3))
  {
    var n := c as int;
    var a, m, lo := n / 0x1000, n / 0x40 % 0x40, n % 0x40;
    assert n / 0x40 == a * 0x40 + m;
    assert n == a * 0x1000 + m * 0x40 + lo;
    assert !(0xD800 <= n < 0xE000);
    var bs := EncodeChar(c) + rest;
    assert bs[0] == 0xE0 + a && bs[1] == 0x80 + m && bs[2] == 0x80 + lo;
    assert SecondOfThree(bs[0], bs[1]);
  }

  lemma DecodeEncodeFour(c: char, rest: seq<byte>)
    requires 0x1_0000 <= c as int
    ensures DecodeChar(EncodeChar(c) + rest) == Some((c, 4))
  {
    var n := c as int;
    var a, m1, m2, lo := n / 0x4_0000, n / 0x1000 % 0x40, n / 0x40 % 0x40, n % 0x40;
    assert n / 0x1000 == a * 0x40 + m1;
    assert n / 0x40 == (a * 0x40 + m1) * 0x40 + m2;
    assert n == a * 0x4_0000 + m1 * 0x1000 + m2 * 0x40 + lo;
    var bs := EncodeChar(c) + rest;
    assert bs[0] == 0xF0 + a && bs[1] == 0x80 + m1 && bs[2] == 0x80 + m2 && bs[3] == 0x80 + lo;
    assert SecondOfFour(bs[0], bs[1]);
  }

  /** Whatever the decoder accepts at the head of `bs` is the shortest
      encoding of the character it returns. */
  lemma EncodeDecodeChar(bs: seq<byte>)
    requires DecodeChar(bs).Some?
    ensures var (c, n) := DecodeChar(bs).value; bs[..n] == EncodeChar(c)
  {
    var (c, n) := DecodeChar(bs).value;
    if n == 2 {
      EncodeDecodeTwo(bs[0], bs[1], c);
      assert bs[..2] == [bs[0], bs[1]];
    } else if n == 3 {
      EncodeDecodeThree(bs[0], bs[1], bs[2], c);
      assert bs[..3] == [bs[0], bs[1], bs[2]];
    } else if n == 4 {
      EncodeDecodeFour(bs[0], bs[1], bs[2], bs[3], c);
      assert bs[..4] == [bs[0], bs[1], bs[2], bs[3]];
    }
  }

  lemma EncodeDecodeTwo(b0: byte, b1: byte, c: char)
    requires 0xC2 <= b0 < 0xE0 && IsContinuation(b1)
    requires c as int == (b0 as int - 0xC0) * 0x40 + (b1 as int - 0x80)
    ensures EncodeChar(c) == [b0, b1]
  {
    var v := c as int;
    assert v / 0x40 == b0 as int - 0xC0 && v % 0x40 == b1 as int - 0x80;
  }

  lemma EncodeDecodeThree(b0: byte, b1: byte, b2: byte, c: char)
    requires 0xE0 <= b0 < 0xF0 && SecondOfThree(b0, b1) && IsContinuation(b2)
    requires c as int == (b0 as int - 0xE0) * 0x1000 + (b1 as int - 0x80) * 0x40 + (b2 as int - 0x80)
    ensures EncodeChar(c) == [b0, b1, b2]
  {
    var v := c as int;
    var x0, x1, x2 := b0 as int - 0xE0, b1 as int - 0x80, b2 as int - 0x80;
    assert v / 0x40 == x0 * 0x40 + x1 && v % 0x40 == x2;
    assert v / 0x1000 == x0;
    assert v / 0x40 % 0x40 == x1;
  }

  lemma EncodeDecodeFour(b0: byte, b1: byte, b2: byte, b3: byte, c: char)
    requires 0xF0 <= b0 < 0xF5 && SecondOfFour(b0, b1) && IsContinuation(b2) && IsContinuation(b3)
    requires c as int == (b0 as int - 0xF0) * 0x4_0000 + (b1 as int - 0x80) * 0x1000
                         + (b2 as int - 0x80) * 0x40 + (b3 as int - 0x80)
    ensures EncodeChar(c) == [b0, b1, b2, b3]
  {
    var v := c as int;
    var x0, x1, x2, x3 := b0 as int - 0xF0, b1 as int - 0x80, b2 as int - 0x80, b3 as int - 0x80;
    assert v / 0x40 == x0 * 0x1000 + x1 * 0x40 + x2 && v % 0x40 == x3;
    assert v / 0x1000 == x0 * 0x40 + x1;
    assert v / 0x4_0000 == x0;
    assert v / 0x1000 % 0x40 == x1;
    assert v / 0x40 % 0x40 == x2;
  }

  /** Round trip: decoding the encoding of any string gives it back. */
  lemma {:induction false} DecodeEncode(s: string)
    ensures Decode(Encode(s)) == Some(s)
  {
    if s != [] {
      var head := EncodeChar(s[0]);
      var tail := Encode(s[1..]);
      DecodeEncodeChar(s[0], tail);
      assert (head + tail)[|head|..] == tail;
      DecodeEncode(s[1..]);
      assert [s[0]] + s[1..] == s;
    }
  }

  /** The decoder accepts only encodings: what it accepts is exactly
      the encoding of the string it returns. */
  lemma {:induction false} EncodeDecode(bs: seq<byte>)
    requires Decode(bs).Some?
    ensures Encode(Decode(bs).value) == bs
    decreases |bs|
  {
    if bs != [] {
      var (c, n) := DecodeChar(bs).value;
      EncodeDecodeChar(bs);
      EncodeDecode(bs[n..]);
      var s := Decode(bs).value;
      assert s[0] == c && s[1..] == Decode(bs[n..]).value;
      assert bs == bs[..n] + bs[n..];
    }
  }

  /** `from_utf8(bs)` yields `s` exactly when `bs` is the encoding of `s`. */
  lemma DecodeIff(bs: seq<byte>, s: string)
    ensures Decode(bs) == Some(s) <==> bs == Encode(s)
  {
    if Decode(bs) == Some(s) {
      EncodeDecode(bs);
    }
    if bs == Encode(s) {
      DecodeEncode(s);
    }
  }
}
