/**
 * `hex.EncodeToString`: base 16 encoding (section 8 of RFC 4648) with the
 * lower-case alphabet, two characters per byte, high nibble first; and the
 * decoding that undoes it.
 */
module Hex {
  import opened Wrappers
  import opened Strings

  predicate IsLowerHex(c: char)
  {
    '0' <= c <= '9' || 'a' <= c <= 'f'
  }

  /** The lower-case digit for a nibble. */
  function HexDigit(d: nat): (c: char)
    requires d < 16
    ensures IsLowerHex(c)
  {
    if d < 10 then ('0' as int + d) as char else ('a' as int + d - 10) as char
  }

  /** The nibble a lower-case digit stands for; `None` for every other character, upper-case digits included. */
  function DigitValue(c: char): (d: Option<nat>)
    ensures d.Some? <==> IsLowerHex(c)
    ensures d.Some? ==> d.value < 16 && HexDigit(d.value) == c
  {
    if '0' <= c <= '9' then Some(c as int - '0' as int)
    else if 'a' <= c <= 'f' then Some(c as int - 'a' as int + 10)
    else None
  }

  /** `hex.EncodeToString`. */
  function EncodeToString(src: seq<byte>): (s: string)
    ensures |s| == 2 * |src|
    ensures forall i :: 0 <= i < |s| ==> IsLowerHex(s[i])
  {
    if src == [] then ""
    else [HexDigit(src[0] as int / 16), HexDigit(src[0] as int % 16)] + EncodeToString(src[1..])
  }

  /** Lower-case base 16 decoding: `None` for an odd length or any character outside `0-9a-f`. */
  function Decode(s: string): Option<seq<byte>>
    decreases |s|
  {
    if |s| == 0 then Some([])
    else if |s| == 1 then None
    else match (DigitValue(s[0]), DigitValue(s[1]), Decode(s[2..]))
      case (Some(hi), Some(lo), Some(rest)) => Some([(hi * 16 + lo) as byte] + rest)
      case _ => None
  }

  /** Decoding an encoding gives the bytes back. */
  lemma {:induction false} DecodeEncode(src: seq<byte>)
    ensures Decode(EncodeToString(src)) == Some(src)
  {
    if src != [] {
      var s := EncodeToString(src);
      var b := src[0] as int;
      assert DigitValue(HexDigit(b / 16)) == Some(b / 16);
      assert DigitValue(HexDigit(b % 16)) == Some(b % 16);
      assert s[2..] == EncodeToString(src[1..]);
      DecodeEncode(src[1..]);
      assert [src[0]] + src[1..] == src;
    }
  }

  /** Whatever decodes is the encoding of what it decodes to: encoding is the only spelling the decoder accepts. */
  lemma {:induction false} EncodeDecode(s: string, bytes: seq<byte>)
    requires Decode(s) == Some(bytes)
    ensures EncodeToString(bytes) == s
    decreases |s|
  {
    if |s| > 0 {
      var hi := DigitValue(s[0]).value;
      var lo := DigitValue(s[1]).value;
      var rest := Decode(s[2..]).value;
      EncodeDecode(s[2..], rest);
      var b := (hi * 16 + lo) as byte;
      assert bytes == [b] + rest;
      assert b as int / 16 == hi && b as int % 16 == lo;
      assert bytes[1..] == rest;
      assert s == [s[0], s[1]] + s[2..];
    }
  }

  /** A string is some byte sequence's encoding exactly when it decodes to that sequence. */
  lemma EncodingIff(s: string, bytes: seq<byte>)
    ensures EncodeToString(bytes) == s <==> Decode(s) == Some(bytes)
  {
    DecodeEncode(bytes);
    if Decode(s) == Some(bytes) {
      EncodeDecode(s, bytes);
    }
  }
}
