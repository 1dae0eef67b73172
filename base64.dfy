/** Octets, as the codecs of the preferences cookie see them. */
module Bytes {
  type Byte = b: int | 0 <= b < 256
}

/**
 * Base64 with the standard alphabet and padding (section 4 of RFC 4648), as
 * `base64.b64encode` writes it and as `base64.b64decode` reads a canonical
 * text. Decoding accepts non-zero bits left over in the last character
 * before the padding, as Python does; any character outside the alphabet,
 * a length that is not a multiple of 4, or padding anywhere but at the end
 * is a failure.
 */
module Base64 {
  import opened Wrappers
  import opened Bytes

  /** The character for the 6-bit value `i`. */
  function IndexChar(i: int): (c: char)
    requires 0 <= i < 64
    ensures c != '='
  {
    if i < 26 then ('A' as int + i) as char
    else if i < 52 then ('a' as int + i - 26) as char
    else if i < 62 then ('0' as int + i - 52) as char
    else if i == 62 then '+'
    else '/'
  }

  /** The 6-bit value of an alphabet character; None for any other character, the pad included. */
  function CharIndex(c: char): (r: Option<int>)
    ensures r.Some? ==> 0 <= r.value < 64 && IndexChar(r.value) == c
    ensures c == '=' ==> r.None?
  {
    if 'A' <= c <= 'Z' then Some(c as int - 'A' as int)
    else if 'a' <= c <= 'z' then Some(c as int - 'a' as int + 26)
    else if '0' <= c <= '9' then Some(c as int - '0' as int + 52)
    else if c == '+' then Some(62)
    else if c == '/' then Some(63)
    else None
  }

  /** Each value has one character and reads back from it. */
  lemma CharIndexOfIndexChar(i: int)
    requires 0 <= i < 64
    ensures CharIndex(IndexChar(i)) == Some(i)
  {
  }

  /** Three octets as four characters. */
  function EncodeGroup(b0: Byte, b1: Byte, b2: Byte): (s: string)
    ensures |s| == 4
  {
    [IndexChar(b0 / 4), IndexChar(b0 % 4 * 16 + b1 / 16), IndexChar(b1 % 16 * 4 + b2 / 64), IndexChar(b2 % 64)]
  }

  /** The last one or two octets, padded to four characters. */
  function EncodeTail(b: seq<Byte>): (s: string)
    requires 1 <= |b| <= 2
    ensures |s| == 4
  {
    if |b| == 1 then [IndexChar(b[0] / 4), IndexChar(b[0] % 4 * 16), '=', '=']
    else [IndexChar(b[0] / 4), IndexChar(b[0] % 4 * 16 + b[1] / 16), IndexChar(b[1] % 16 * 4), '=']
  }

  /** `base64.b64encode`: three octets to four characters, the last group padded with '='. */
  function Encode(b: seq<Byte>): (s: string)
    ensures |s| == (|b| + 2) / 3 * 4
    decreases |b|
  {
    if |b| == 0 then ""
    else if |b| <= 2 then EncodeTail(b)
    else EncodeGroup(b[0], b[1], b[2]) + Encode(b[3..])
  }

  /** Four alphabet characters to three octets. */
  function DecodeGroup(c0: char, c1: char, c2: char, c3: char): (r: Option<seq<Byte>>)
    ensures r.Some? ==> |r.value| == 3
  {
    if CharIndex(c0).Some? && CharIndex(c1).Some? && CharIndex(c2).Some? && CharIndex(c3).Some? then
      var a, b, c, d := CharIndex(c0).value, CharIndex(c1).value, CharIndex(c2).value, CharIndex(c3).value;
      Some([a * 4 + b / 16, b % 16 * 16 + c / 4, c % 4 * 64 + d])
    else None
  }

  /** The last group, which may end in one or two pad characters. */
  function DecodeLastGroup(c0: char, c1: char, c2: char, c3: char): (r: Option<seq<Byte>>)
  {
    if c3 != '=' then DecodeGroup(c0, c1, c2, c3)
    else if c2 == '=' then
      if CharIndex(c0).Some? && CharIndex(c1).Some? then
        var a, b := CharIndex(c0).value, CharIndex(c1).value;
        Some([a * 4 + b / 16])
      else None
    else if CharIndex(c0).Some? && CharIndex(c1).Some? && CharIndex(c2).Some? then
      var a, b, c := CharIndex(c0).value, CharIndex(c1).value, CharIndex(c2).value;
      Some([a * 4 + b / 16, b % 16 * 16 + c / 4])
    else None
  }

  /** The octets of a text in canonical form, or None. */
  function Decode(s: string): (r: Option<seq<Byte>>)
    decreases |s|
  {
    if |s| == 0 then Some([])
    else if |s| < 4 then None
    else if |s| == 4 then DecodeLastGroup(s[0], s[1], s[2], s[3])
    else
      match DecodeGroup(s[0], s[1], s[2], s[3])
      case None => None
      case Some(group) =>
        match Decode(s[4..])
        case None => None
        case Some(rest) => Some(group + rest)
  }

  /** The six-bit pieces of three octets put back together. */
  lemma GroupArithmetic(b0: Byte, b1: Byte, b2: Byte)
    ensures var x := b0 % 4 * 16 + b1 / 16;
      var y := b1 % 16 * 4 + b2 / 64;
      && b0 / 4 * 4 + x / 16 == b0
      && x % 16 * 16 + y / 4 == b1
      && y % 4 * 64 + b2 % 64 == b2
  {
  }

  /** A full group reads back. */
  lemma DecodeGroupOf(b0: Byte, b1: Byte, b2: Byte)
    ensures var s := EncodeGroup(b0, b1, b2); DecodeGroup(s[0], s[1], s[2], s[3]) == Some([b0, b1, b2])
  {
    CharIndexOfIndexChar(b0 / 4);
    CharIndexOfIndexChar(b0 % 4 * 16 + b1 / 16);
    CharIndexOfIndexChar(b1 % 16 * 4 + b2 / 64);
    CharIndexOfIndexChar(b2 % 64);
    GroupArithmetic(b0, b1, b2);
  }

  /** A padded last group reads back. */
  lemma DecodeTailOf(b: seq<Byte>)
    requires 1 <= |b| <= 2
    ensures var s := EncodeTail(b); DecodeLastGroup(s[0], s[1], s[2], s[3]) == Some(b)
  {
    if |b| == 1 {
      CharIndexOfIndexChar(b[0] / 4);
      CharIndexOfIndexChar(b[0] % 4 * 16);
      GroupArithmetic(b[0], 0, 0);
      assert b == [b[0]];
    } else {
      CharIndexOfIndexChar(b[0] / 4);
      CharIndexOfIndexChar(b[0] % 4 * 16 + b[1] / 16);
      CharIndexOfIndexChar(b[1] % 16 * 4);
      GroupArithmetic(b[0], b[1], 0);
      assert b == [b[0], b[1]];
    }
  }

  /** `b64decode(b64encode(b)) == b`. */
  lemma {:induction false} DecodeEncode(b: seq<Byte>)
    ensures Decode(Encode(b)) == Some(b)
    decreases |b|
  {
    if 1 <= |b| <= 2 {
      DecodeTailOf(b);
    } else if |b| >= 3 {
      var g := EncodeGroup(b[0], b[1], b[2]);
      var rest := Encode(b[3..]);
      DecodeGroupOf(b[0], b[1], b[2]);
      DecodeEncode(b[3..]);
      var s := g + rest;
      assert Encode(b) == s;
      assert s[0] == g[0] && s[1] == g[1] && s[2] == g[2] && s[3] == g[3] && s[4..] == rest;
      assert b == [b[0], b[1], b[2]] + b[3..];
      if |b| == 3 {
        assert rest == [] && b[3..] == [];
        assert Decode(s) == DecodeLastGroup(s[0], s[1], s[2], s[3]);
        assert DecodeLastGroup(s[0], s[1], s[2], s[3]) == DecodeGroup(s[0], s[1], s[2], s[3]);
        assert b == [b[0], b[1], b[2]];
      } else {
        assert |rest| > 0;
        assert Decode(s) == Some([b[0], b[1], b[2]] + b[3..]);
      }
    }
  }

  /** An encoding uses only the alphabet and the pad. */
  lemma {:induction false} EncodeAlphabet(b: seq<Byte>, c: char)
    requires c in Encode(b)
    ensures c == '=' || CharIndex(c).Some?
    decreases |b|
  {
    if |b| >= 3 {
      var s := Encode(b);
      var head := s[..4];
      assert s == head + Encode(b[3..]);
      if c !in head {
        EncodeAlphabet(b[3..], c);
      } else {
        var k :| 0 <= k < 4 && head[k] == c;
        assert k == 0 || k == 1 || k == 2 || k == 3;
      }
    } else {
      var s := Encode(b);
      var k :| 0 <= k < |s| && s[k] == c;
      assert |b| == 1 || |b| == 2;
    }
  }
}
