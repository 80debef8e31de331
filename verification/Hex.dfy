/** Base 16, section 8 of RFC 4648, as Go's `encoding/hex` decodes and encodes it. */
module Hex {
  import opened GoRuntime
  import opened Text

  newtype byte = x: int | 0 <= x < 256
  newtype nibble = x: int | 0 <= x < 16

  const ALPHABET: string := "0123456789abcdef"

  predicate IsHexChar(c: char) {
    '0' <= c <= '9' || 'a' <= c <= 'f' || 'A' <= c <= 'F'
  }

  predicate IsHex(s: string) {
    |s| % 2 == 0 && forall i :: 0 <= i < |s| ==> IsHexChar(s[i])
  }

  function FromHexChar(c: char): (r: Option<nibble>)
    ensures r.Some? <==> IsHexChar(c)
    ensures r.Some? ==> ALPHABET[r.value as int] == LowerChar(c)
  {
    if '0' <= c <= '9' then Some((c as int - '0' as int) as nibble)
    else if 'a' <= c <= 'f' then Some((c as int - 'a' as int + 10) as nibble)
    else if 'A' <= c <= 'F' then Some((c as int - 'A' as int + 10) as nibble)
    else None
  }

  function Pair(hi: nibble, lo: nibble): (b: byte)
    ensures b as int / 16 == hi as int && b as int % 16 == lo as int
  {
    hi as byte * 16 + lo as byte
  }

  predicate StartsWithPair(s: string) {
    |s| >= 2 && IsHexChar(s[0]) && IsHexChar(s[1])
  }

  /** The longest prefix of `s` made of whole pairs of hex digits. */
  function HexPrefix(s: string): (p: string)
  {
    if StartsWithPair(s) then s[..2] + HexPrefix(s[2..]) else ""
  }

  lemma {:induction false} HexPrefixIsLongest(s: string)
    ensures HexPrefix(s) <= s && IsHex(HexPrefix(s))
    ensures forall n :: 0 <= n <= |s| && IsHex(s[..n]) ==> n <= |HexPrefix(s)|
    ensures IsHex(s) <==> HexPrefix(s) == s
  {
    var p := HexPrefix(s);
    if StartsWithPair(s) {
      HexPrefixIsLongest(s[2..]);
      assert p == s[..|p|];
      forall n | 0 <= n <= |s| && IsHex(s[..n])
        ensures n <= |p|
      {
        if n >= 2 {
          assert s[2..][..n - 2] == s[..n][2..];
        }
      }
    } else {
      assert forall n :: 2 <= n <= |s| ==> s[..n][0] == s[0] && s[..n][1] == s[1];
    }
    assert s[..|s|] == s;
  }

  /** The bytes of the pairs before the first character that cannot be decoded. */
  function Decoded(s: string): (bs: seq<byte>)
  {
    if StartsWithPair(s) then
      [Pair(FromHexChar(s[0]).value, FromHexChar(s[1]).value)] + Decoded(s[2..])
    else
      []
  }

  function Encode(bs: seq<byte>): (s: string)
  {
    if bs == [] then ""
    else [ALPHABET[bs[0] as int / 16], ALPHABET[bs[0] as int % 16]] + Encode(bs[1..])
  }

  /** Decodes pair by pair and stops at the first bad character; what was decoded so far is returned
      beside the error. */
  method DecodeString(s: string) returns (bs: seq<byte>, ok: bool)
    ensures bs == Decoded(s)
    ensures ok <==> IsHex(s)
  {
    bs := [];
    var j := 1;
    while j < |s|
      invariant 1 <= j <= |s| + 1 && j % 2 == 1
      invariant forall i :: 0 <= i < j - 1 ==> IsHexChar(s[i])
      invariant bs + Decoded(s[j - 1..]) == Decoded(s)
    {
      var hi := FromHexChar(s[j - 1]);
      if hi.None? {
        return bs, false;
      }
      var lo := FromHexChar(s[j]);
      if lo.None? {
        return bs, false;
      }
      assert s[j - 1..][2..] == s[j + 1..];
      bs := bs + [Pair(hi.value, lo.value)];
      j := j + 2;
    }
    ok := |s| % 2 == 0;
  }

  lemma {:induction false} DecodeEncode(bs: seq<byte>)
    ensures IsHex(Encode(bs)) && Decoded(Encode(bs)) == bs
  {
    if bs != [] {
      DecodeEncode(bs[1..]);
      var s := Encode(bs);
      assert s[2..] == Encode(bs[1..]);
      AlphabetRoundTrip(bs[0] as int / 16);
      AlphabetRoundTrip(bs[0] as int % 16);
      assert forall i :: 2 <= i < |s| ==> s[i] == s[2..][i - 2];
    }
  }

  lemma AlphabetRoundTrip(d: int)
    requires 0 <= d < 16
    ensures IsHexChar(ALPHABET[d]) && FromHexChar(ALPHABET[d]) == Some(d as nibble)
  {
  }

  lemma {:induction false} EncodeDecode(s: string)
    ensures Encode(Decoded(s)) == Lower(HexPrefix(s))
  {
    if StartsWithPair(s) {
      EncodeDecode(s[2..]);
      HexPrefixIsLongest(s);
      HexPrefixIsLongest(s[2..]);
      var p := HexPrefix(s);
      assert p[2..] == HexPrefix(s[2..]);
      assert Lower(p) == [LowerChar(p[0]), LowerChar(p[1])] + Lower(p[2..]);
      assert Decoded(s)[1..] == Decoded(s[2..]);
    }
  }

  /** The hex digits are the characters of the alphabet, in either case. */
  lemma HexCharExact(c: char)
    ensures IsHexChar(c) <==> LowerChar(c) in ALPHABET
  {
    if IsHexChar(c) {
      assert ALPHABET[FromHexChar(c).value as int] == LowerChar(c);
    }
  }

  /** Byte `k` has the value of digits `2k` and `2k + 1`, the first being worth sixteen times its own. */
  lemma {:induction false} DecodedAt(s: string, k: nat)
    requires 2 * k + 1 < |HexPrefix(s)|
    ensures |Decoded(s)| * 2 == |HexPrefix(s)| && 2 * k + 1 < |s|
    ensures var b := Decoded(s)[k] as int;
            ALPHABET[b / 16] == LowerChar(s[2 * k]) && ALPHABET[b % 16] == LowerChar(s[2 * k + 1])
  {
    HexPrefixIsLongest(s);
    DecodedLength(s);
    if k > 0 {
      DecodedAt(s[2..], k - 1);
    }
  }

  lemma {:induction false} DecodedLength(s: string)
    ensures |Decoded(s)| * 2 == |HexPrefix(s)|
  {
    if StartsWithPair(s) {
      DecodedLength(s[2..]);
    }
  }

  /** The alphabet of section 8 of RFC 4648, in lower case. */
  lemma AlphabetOrder()
    ensures |ALPHABET| == 16
    ensures forall d :: 0 <= d < 10 ==> ALPHABET[d] as int == '0' as int + d
    ensures forall d :: 10 <= d < 16 ==> ALPHABET[d] as int == 'a' as int + d - 10
  {
  }

  /** Two strings decode to the same bytes exactly when their decodable prefixes agree up to letter case. */
  lemma DecodedEqual(s: string, t: string)
    ensures Decoded(s) == Decoded(t) <==> Lower(HexPrefix(s)) == Lower(HexPrefix(t))
  {
    EncodeDecode(s);
    EncodeDecode(t);
    DecodeEncode(Decoded(s));
    DecodeEncode(Decoded(t));
  }
}
