/** Lowercase hexadecimal, as the `hex::encode` helper writes it: two
    digits per byte, high nibble first. */
module Hex {
  import opened Wrappers
  import opened Utf8

  const LowerDigits: string := "0123456789abcdef"

  /** `hex::encode`. */
  function Encode(bs: seq<byte>): (s: string)
    ensures |s| == 2 * |bs|
    ensures forall i :: 0 <= i < |s| ==> s[i] in LowerDigits
  {
    if bs == [] then []
    else [LowerDigits[bs[0] / 0x10], LowerDigits[bs[0] % 0x10]] + Encode(bs[1..])
  }

  /** The value of one lowercase hex digit. */
  function DigitValue(ch: char): (d: Option<nat>)
    ensures d.Some? ==> d.value < 0x10
  {
    if '0' <= ch <= '9' then Some(ch as int - '0' as int)
    else if 'a' <= ch <= 'f' then Some(ch as int - 'a' as int + 10)
    else None
  }

  /** Reads back lowercase hex: the reference inverse of Encode. */
  function Decode(s: string): Option<seq<byte>>
  {
    if s == [] then Some([])
    else if |s| == 1 || DigitValue(s[0]).None? || DigitValue(s[1]).None? then None
    else
      match Decode(s[2..])
      case None => None
      case Some(rest) => Some([DigitValue(s[0]).value * 0x10 + DigitValue(s[1]).value] + rest)
  }

  lemma DigitValueAt(k: nat)
    requires k < 0x10
    ensures DigitValue(LowerDigits[k]) == Some(k)
  {
  }

  /** Round trip: the digits Encode writes read back as the same bytes. */
  lemma {:induction false} DecodeEncode(bs: seq<byte>)
    ensures Decode(Encode(bs)) == Some(bs)
  {
    if bs != [] {
      var hi, lo := bs[0] / 0x10, bs[0] % 0x10;
      var tail := Encode(bs[1..]);
      EncodeStep(bs);
      DigitValueAt(hi);
      DigitValueAt(lo);
      DecodeEncode(bs[1..]);
      DecodePair(LowerDigits[hi], LowerDigits[lo], tail);
      assert [bs[0]] + bs[1..] == bs;
    }
  }

  lemma EncodeStep(bs: seq<byte>)
    requires bs != []
    ensures Encode(bs) == [LowerDigits[bs[0] / 0x10], LowerDigits[bs[0] % 0x10]] + Encode(bs[1..])
  {
  }

  /** Decode reads two digits at a time. */
  lemma DecodePair(c0: char, c1: char, rest: string)
    requires DigitValue(c0).Some? && DigitValue(c1).Some? && Decode(rest).Some?
    ensures Decode([c0, c1] + rest)
         == Some([DigitValue(c0).value * 0x10 + DigitValue(c1).value] + Decode(rest).value)
  {
    var s := [c0, c1] + rest;
    assert s[0] == c0 && s[1] == c1 && s[2..] == rest;
  }

  /** Encoding distributes over concatenation. */
  lemma {:induction false} EncodeConcat(a: seq<byte>, b: seq<byte>)
    ensures Encode(a + b) == Encode(a) + Encode(b)
  {
    if a == [] {
      assert a + b == b;
    } else {
      assert (a + b)[0] == a[0];
      assert (a + b)[1..] == a[1..] + b;
      EncodeConcat(a[1..], b);
    }
  }

  /** Distinct byte strings have distinct encodings. */
  lemma EncodeInjective(a: seq<byte>, b: seq<byte>)
    requires Encode(a) == Encode(b)
    ensures a == b
  {
    DecodeEncode(a);
    DecodeEncode(b);
  }
}
