/** 128-bit UUIDs and their hyphenated text form (RFC 4122, section 3):
    32 lowercase hex digits in groups of 8-4-4-4-12. */
module Uuid {
  import opened Wrappers
  import opened Utf8
  import Hex

  type Uuid = s: seq<byte> | |s| == 16 witness seq(16, i => 0)

  /** The name-space ID for fully qualified domain names, RFC 4122, Appendix C. */
  const DnsNamespace: Uuid := [0x6b, 0xa7, 0xb8, 0x10, 0x9d, 0xad, 0x11, 0xd1,
                               0x80, 0xb4, 0x00, 0xc0, 0x4f, 0xd4, 0x30, 0xc8]

  /** The text the namespace is written as in the source. */
  const DnsNamespaceText: string := "6ba7b810-9dad-11d1-80b4-00c04fd430c8"

  /** The positions of the four hyphens in the hyphenated form. */
  predicate IsHyphenPosition(i: int) {
    i == 8 || i == 13 || i == 18 || i == 23
  }

  /** `Uuid::to_string`: the hyphenated lowercase form. */
  function ToString(u: Uuid): (s: string)
    ensures |s| == 36
  {
    Hex.Encode(u[..4]) + "-" + Hex.Encode(u[4..6]) + "-" + Hex.Encode(u[6..8]) + "-"
      + Hex.Encode(u[8..10]) + "-" + Hex.Encode(u[10..])
  }

  /** `Uuid::parse_str` restricted to the hyphenated lowercase form, the
      only form the source gives it. */
  function ParseHyphenated(s: string): (r: Option<Uuid>)
    ensures r.Some? ==> |s| == 36 && forall i :: 0 <= i < 36 && IsHyphenPosition(i) ==> s[i] == '-'
  {
    if |s| != 36 || s[8] != '-' || s[13] != '-' || s[18] != '-' || s[23] != '-' then None
    else
      match Hex.Decode(Digits(s))
      case Some(bs) => if |bs| == 16 then Some(bs) else None
      case None => None
  }

  /** The 32 digits of a hyphenated form, hyphens removed. */
  function Digits(s: string): string
    requires |s| == 36
  {
    s[..8] + s[9..13] + s[14..18] + s[19..23] + s[24..]
  }

  /** Every formatted UUID has the hyphenated shape: 36 characters,
      hyphens at the four group boundaries, lowercase hex digits elsewhere. */
  lemma ToStringShape(u: Uuid)
    ensures |ToString(u)| == 36
    ensures forall i :: 0 <= i < 36 && IsHyphenPosition(i) ==> ToString(u)[i] == '-'
    ensures forall i :: 0 <= i < 36 && !IsHyphenPosition(i) ==> ToString(u)[i] in Hex.LowerDigits
  {
    var s := ToString(u);
    var g0, g1, g2, g3, g4 := Hex.Encode(u[..4]), Hex.Encode(u[4..6]), Hex.Encode(u[6..8]),
                              Hex.Encode(u[8..10]), Hex.Encode(u[10..]);
    assert s == g0 + "-" + g1 + "-" + g2 + "-" + g3 + "-" + g4;
    forall i | 0 <= i < 36 && !IsHyphenPosition(i)
      ensures s[i] in Hex.LowerDigits
    {
      if i < 8 { assert s[i] == g0[i]; }
      else if i < 13 { assert s[i] == g1[i - 9]; }
      else if i < 18 { assert s[i] == g2[i - 14]; }
      else if i < 23 { assert s[i] == g3[i - 19]; }
      else { assert s[i] == g4[i - 24]; }
    }
  }

  /** Round trip: the hyphenated form reads back as the same UUID. */
  lemma ParseToString(u: Uuid)
    ensures ParseHyphenated(ToString(u)) == Some(u)
  {
    var s := ToString(u);
    var g0, g1, g2, g3, g4 := Hex.Encode(u[..4]), Hex.Encode(u[4..6]), Hex.Encode(u[6..8]),
                              Hex.Encode(u[8..10]), Hex.Encode(u[10..]);
    assert |g0| == 8 && |g1| == 4 && |g2| == 4 && |g3| == 4 && |g4| == 12;
    assert s == g0 + "-" + g1 + "-" + g2 + "-" + g3 + "-" + g4;
    assert s[8] == '-' && s[13] == '-' && s[18] == '-' && s[23] == '-';
    assert s[..8] == g0 && s[9..13] == g1 && s[14..18] == g2 && s[19..23] == g3 && s[24..] == g4;
    assert Digits(s) == Hex.Encode(u) by {
      Hex.EncodeConcat(u[..4], u[4..6]);
      assert u[..4] + u[4..6] == u[..6];
      Hex.EncodeConcat(u[..6], u[6..8]);
      assert u[..6] + u[6..8] == u[..8];
      Hex.EncodeConcat(u[..8], u[8..10]);
      assert u[..8] + u[8..10] == u[..10];
      Hex.EncodeConcat(u[..10], u[10..]);
      assert u[..10] + u[10..] == u;
    }
    Hex.DecodeEncode(u);
  }

  /** Formatting loses nothing: two UUIDs have the same text exactly
      when they are the same UUID. */
  lemma ToStringInjective(u: Uuid, v: Uuid)
    ensures ToString(u) == ToString(v) <==> u == v
  {
    ParseToString(u);
    ParseToString(v);
  }

  /** The namespace literal of the source parses, so its `unwrap` cannot
      fail, and it denotes the DNS namespace of RFC 4122, Appendix C. */
  lemma DnsNamespaceParses()
    ensures ParseHyphenated(DnsNamespaceText) == Some(DnsNamespace)
  {
    DnsNamespaceFormats();
    ParseToString(DnsNamespace);
  }

  /** The DNS namespace formats as the literal the source writes. */
  lemma DnsNamespaceFormats()
    ensures ToString(DnsNamespace) == DnsNamespaceText
  {
    DnsNamespaceGroups();
    ToStringOfGroups(DnsNamespace, "6ba7b810", "9dad", "11d1", "80b4", "00c04fd430c8");
    DnsNamespaceTextGroups();
  }

  lemma DnsNamespaceTextGroups()
    ensures "6ba7b810" + "-" + "9dad" + "-" + "11d1" + "-" + "80b4" + "-" + "00c04fd430c8" == DnsNamespaceText
  {
  }

  lemma ToStringOfGroups(u: Uuid, g0: string, g1: string, g2: string, g3: string, g4: string)
    requires Hex.Encode(u[..4]) == g0 && Hex.Encode(u[4..6]) == g1 && Hex.Encode(u[6..8]) == g2
    requires Hex.Encode(u[8..10]) == g3 && Hex.Encode(u[10..]) == g4
    ensures ToString(u) == g0 + "-" + g1 + "-" + g2 + "-" + g3 + "-" + g4
  {
  }

  lemma DnsNamespaceGroups()
    ensures Hex.Encode(DnsNamespace[..4]) == "6ba7b810"
    ensures Hex.Encode(DnsNamespace[4..6]) == "9dad"
    ensures Hex.Encode(DnsNamespace[6..8]) == "11d1"
    ensures Hex.Encode(DnsNamespace[8..10]) == "80b4"
    ensures Hex.Encode(DnsNamespace[10..]) == "00c04fd430c8"
  {
    var u := DnsNamespace;
    assert u[..4] == [0x6b, 0xa7, 0xb8, 0x10];
    assert Hex.Encode([0x6b, 0xa7, 0xb8, 0x10]) == "6ba7b810";
    assert u[4..6] == [0x9d, 0xad];
    assert Hex.Encode([0x9d, 0xad]) == "9dad";
    assert u[6..8] == [0x11, 0xd1];
    assert Hex.Encode([0x11, 0xd1]) == "11d1";
    assert u[8..10] == [0x80, 0xb4];
    assert Hex.Encode([0x80, 0xb4]) == "80b4";
    assert u[10..] == [0x00, 0xc0, 0x4f, 0xd4, 0x30, 0xc8];
    assert Hex.Encode([0x00, 0xc0, 0x4f, 0xd4, 0x30, 0xc8]) == "00c04fd430c8";
  }
}
