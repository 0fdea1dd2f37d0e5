/** UTF-8, the byte encoding that `encodeURIComponent` applies to every
    character outside its unreserved set before percent-encoding the bytes
    (section 3 of RFC 3629). A Dafny `char` is a Unicode scalar value, so
    every character has an encoding. */
module Utf8 {
  import opened Wrappers

  type Byte = b: int | 0 <= b < 256

  predicate IsContinuation(b: Byte)
  {
    0x80 <= b < 0xC0
  }

  /** The one to four bytes of the UTF-8 encoding of `c`; a leading byte
      below 0x80 is an ASCII character, every byte after the first is a
      continuation byte. */
  function EncodeChar(c: char): (r: seq<Byte>)
    ensures 1 <= |r| <= 4
    ensures |r| == 1 <==> c as int < 0x80
    ensures |r| == 1 ==> r[0] == c as int
    ensures |r| > 1 ==> r[0] >= 0xC0
    ensures forall k :: 1 <= k < |r| ==> IsContinuation(r[k])
  {
    var n := c as int;
    if n < 0x80 then [n]
    else
      var q1, r1 := n / 64, n % 64;
      if n < 0x800 then [0xC0 + q1, 0x80 + r1]
      else
        var q2, r2 := q1 / 64, q1 % 64;
        if n < 0x10000 then [0xE0 + q2, 0x80 + r2, 0x80 + r1]
        else
          var q3, r3 := q2 / 64, q2 % 64;
          [0xF0 + q3, 0x80 + r3, 0x80 + r2, 0x80 + r1]
  }

  function Encode(s: string): (r: seq<Byte>)
  {
    if s == [] then [] else EncodeChar(s[0]) + Encode(s[1..])
  }

  /** Decodes the character at the head of `bs` and says how many bytes it
      took; `None` for a malformed, overlong or surrogate sequence. */
  function DecodeChar(bs: seq<Byte>): (r: Option<(char, nat)>)
    requires |bs| > 0
    ensures r.Some? ==> 1 <= r.value.1 <= |bs| && r.value.1 <= 4
  {
    var b0: int := bs[0];
    if b0 < 0x80 then Some((b0 as char, 1))
    else if b0 < 0xC0 then None
    else if b0 < 0xE0 then
      if |bs| < 2 || !IsContinuation(bs[1]) then None
      else
        var n: int := (b0 - 0xC0) * 64 + (bs[1] - 0x80);
        if n < 0x80 then None else Some((n as char, 2))
    else if b0 < 0xF0 then
      if |bs| < 3 || !IsContinuation(bs[1]) || !IsContinuation(bs[2]) then None
      else
        var n: int := ((b0 - 0xE0) * 64 + (bs[1] - 0x80)) * 64 + (bs[2] - 0x80);
        if n < 0x800 || 0xD800 <= n < 0xE000 then None else Some((n as char, 3))
    else if b0 < 0xF8 then
      if |bs| < 4 || !IsContinuation(bs[1]) || !IsContinuation(bs[2]) || !IsContinuation(bs[3]) then None
      else
        var n: int := (((b0 - 0xF0) * 64 + (bs[1] - 0x80)) * 64 + (bs[2] - 0x80)) * 64 + (bs[3] - 0x80);
        if n < 0x10000 || 0x110000 <= n then None else Some((n as char, 4))
    else None
  }

  function Cons(c: char, rest: Option<string>): Option<string>
  {
    match rest
    case None => None
    case Some(s) => Some([c] + s)
  }

  function Decode(bs: seq<Byte>): (r: Option<string>)
    decreases |bs|
  {
    if bs == [] then Some([])
    else
      match DecodeChar(bs)
      case None => None
      case Some((c, k)) => Cons(c, Decode(bs[k..]))
  }

  /** Decoding reads back exactly the bytes that encoding one character
      produced, whatever follows them. */
  lemma DecodeCharOfEncodeChar(c: char, rest: seq<Byte>)
    ensures DecodeChar(EncodeChar(c) + rest) == Some((c, |EncodeChar(c)|))
  {
    var n := c as int;
    var q1, r1 := n / 64, n % 64;
    var q2, r2 := q1 / 64, q1 % 64;
    var q3, r3 := q2 / 64, q2 % 64;
    assert n == q1 * 64 + r1;
    assert q1 == q2 * 64 + r2;
    assert q2 == q3 * 64 + r3;
  }

  lemma {:induction false} DecodeEncode(s: string)
    ensures Decode(Encode(s)) == Some(s)
  {
    if s != [] {
      var e, tail := EncodeChar(s[0]), Encode(s[1..]);
      DecodeCharOfEncodeChar(s[0], tail);
      assert (e + tail)[|e|..] == tail;
      DecodeEncode(s[1..]);
      assert [s[0]] + s[1..] == s;
    }
  }
}
