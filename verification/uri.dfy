/** `encodeURIComponent` as ECMA-262 defines it (the Encode operation of its
    URI handling functions): characters of the unreserved set are kept, and
    every other character is replaced by the percent-encoded octets of its
    UTF-8 encoding (section 2.1 of RFC 3986), with upper-case hex digits.
    `DecodeUriComponent` is the inverse a server applies to the path segment. */
module Uri {
  import opened Wrappers
  import Utf8

  /** Letters, digits and the marks - _ . ! ~ * ' ( ) */
  predicate Unreserved(c: char)
  {
    ('A' <= c <= 'Z') || ('a' <= c <= 'z') || ('0' <= c <= '9') ||
    c == '-' || c == '_' || c == '.' || c == '!' || c == '~' || c == '*' ||
    c == '\'' || c == '(' || c == ')'
  }

  /** What an encoded identifier is made of: no '/', '?', '#' or space, so it
      stays one path segment of the URL. */
  predicate SegmentChar(c: char)
  {
    Unreserved(c) || c == '%'
  }

  function HexDigit(d: nat): (c: char)
    requires d < 16
    ensures Unreserved(c)
  {
    if d < 10 then ('0' as int + d) as char else ('A' as int + d - 10) as char
  }

  predicate IsHexDigit(c: char)
  {
    ('0' <= c <= '9') || ('A' <= c <= 'F') || ('a' <= c <= 'f')
  }

  function HexValue(c: char): (d: nat)
    requires IsHexDigit(c)
    ensures d < 16
  {
    if '0' <= c <= '9' then c as int - '0' as int
    else if 'A' <= c <= 'F' then c as int - 'A' as int + 10
    else c as int - 'a' as int + 10
  }

  /** One octet as `%XY`. */
  function Percent(b: Utf8.Byte): string
  {
    ['%', HexDigit(b / 16), HexDigit(b % 16)]
  }

  function PercentAll(bs: seq<Utf8.Byte>): (r: string)
    ensures |r| == 3 * |bs|
    ensures forall i :: 0 <= i < |r| ==> SegmentChar(r[i])
  {
    if bs == [] then [] else Percent(bs[0]) + PercentAll(bs[1..])
  }

  function EncodeChar(c: char): (r: string)
    ensures forall i :: 0 <= i < |r| ==> SegmentChar(r[i])
  {
    if Unreserved(c) then [c] else PercentAll(Utf8.EncodeChar(c))
  }

  /** `encodeURIComponent`: the result consists of segment characters only,
      and a string made of unreserved characters is left as it is. */
  function EncodeUriComponent(s: string): (r: string)
    ensures forall i :: 0 <= i < |r| ==> SegmentChar(r[i])
    ensures (forall i :: 0 <= i < |s| ==> Unreserved(s[i])) ==> r == s
  {
    if s == [] then [] else EncodeChar(s[0]) + EncodeUriComponent(s[1..])
  }

  function ConsBytes(bs: seq<Utf8.Byte>, rest: Option<seq<Utf8.Byte>>): Option<seq<Utf8.Byte>>
  {
    match rest
    case None => None
    case Some(t) => Some(bs + t)
  }

  /** Percent-decoding to octets: `%XY` is one octet, any other ASCII
      character stands for itself, anything else is malformed. */
  function Unescape(t: string): Option<seq<Utf8.Byte>>
  {
    if t == [] then Some([])
    else if t[0] == '%' then
      if |t| >= 3 && IsHexDigit(t[1]) && IsHexDigit(t[2]) then
        ConsBytes([HexValue(t[1]) * 16 + HexValue(t[2])], Unescape(t[3..]))
      else None
    else if t[0] as int < 0x80 then ConsBytes([t[0] as int], Unescape(t[1..]))
    else None
  }

  function DecodeUriComponent(t: string): Option<string>
  {
    match Unescape(t)
    case None => None
    case Some(bs) => Utf8.Decode(bs)
  }

  lemma {:induction false} UnescapePercentAll(bs: seq<Utf8.Byte>, rest: string)
    ensures Unescape(PercentAll(bs) + rest) == ConsBytes(bs, Unescape(rest))
  {
    if bs == [] {
      assert PercentAll(bs) + rest == rest;
      match Unescape(rest) {
        case None =>
        case Some(t) => assert bs + t == t;
      }
    } else {
      var b := bs[0];
      var tail := PercentAll(bs[1..]) + rest;
      assert PercentAll(bs) + rest == Percent(b) + tail;
      assert (Percent(b) + tail)[3..] == tail;
      assert HexValue(HexDigit(b / 16)) * 16 + HexValue(HexDigit(b % 16)) == b;
      UnescapePercentAll(bs[1..], rest);
      match Unescape(rest) {
        case None =>
        case Some(t) => assert [b] + (bs[1..] + t) == bs + t;
      }
    }
  }

  lemma UnescapeEncodeChar(c: char, rest: string)
    ensures Unescape(EncodeChar(c) + rest) == ConsBytes(Utf8.EncodeChar(c), Unescape(rest))
  {
    if Unreserved(c) {
      assert ([c] + rest)[1..] == rest;
    } else {
      UnescapePercentAll(Utf8.EncodeChar(c), rest);
    }
  }

  lemma {:induction false} UnescapeEncode(s: string)
    ensures Unescape(EncodeUriComponent(s)) == Some(Utf8.Encode(s))
  {
    if s != [] {
      UnescapeEncodeChar(s[0], EncodeUriComponent(s[1..]));
      UnescapeEncode(s[1..]);
    }
  }

  /** Decoding an encoded component gives back the original string; so
      two different strings never encode alike. */
  lemma DecodeEncode(s: string)
    ensures DecodeUriComponent(EncodeUriComponent(s)) == Some(s)
  {
    UnescapeEncode(s);
    Utf8.DecodeEncode(s);
  }

  lemma EncodeInjective(s: string, t: string)
    requires EncodeUriComponent(s) == EncodeUriComponent(t)
    ensures s == t
  {
    DecodeEncode(s);
    DecodeEncode(t);
  }
}
