/** `encodeURIComponent` over Unicode scalar values, and the matching
    `decodeURIComponent`: every character outside the unreserved set
    `A-Z a-z 0-9 - _ . ! ~ * ' ( )` is written as the percent-escaped,
    upper-case hexadecimal octets of its UTF-8 encoding (section 2.1 of
    RFC 3986; UTF-8 as in RFC 3629). */
module UriComponent {
  import opened Base

  predicate Unreserved(c: char)
  {
    || 'A' <= c <= 'Z' || 'a' <= c <= 'z' || '0' <= c <= '9'
    || c == '-' || c == '_' || c == '.' || c == '!' || c == '~'
    || c == '*' || c == '\'' || c == '(' || c == ')'
  }

  predicate IsUpperHex(c: char)
  {
    '0' <= c <= '9' || 'A' <= c <= 'F'
  }

  function HexDigit(d: nat): (c: char)
    requires d < 16
    ensures IsUpperHex(c)
  {
    if d < 10 then ('0' as int + d) as char else ('A' as int + d - 10) as char
  }

  /** The value of a hexadecimal digit of either case. */
  function HexValue(c: char): (r: Option<nat>)
    ensures r.Some? ==> r.value < 16
  {
    if '0' <= c <= '9' then Some(c as int - '0' as int)
    else if 'A' <= c <= 'F' then Some(c as int - 'A' as int + 10)
    else if 'a' <= c <= 'f' then Some(c as int - 'a' as int + 10)
    else None
  }

  lemma HexRoundTrip(d: nat)
    requires d < 16
    ensures HexValue(HexDigit(d)) == Some(d)
  {
  }

  /** The UTF-8 encoding of one scalar value: one to four octets. */
  function Utf8(c: char): (r: seq<byte>)
    ensures 1 <= |r| <= 4
  {
    var cp := c as int;
    if cp < 0x80 then [cp as byte]
    else if cp < 0x800 then [(0xC0 + cp / 64) as byte, (0x80 + cp % 64) as byte]
    else if cp < 0x10000 then
      [(0xE0 + cp / 4096) as byte, (0x80 + cp / 64 % 64) as byte, (0x80 + cp % 64) as byte]
    else
      [(0xF0 + cp / 262144) as byte, (0x80 + cp / 4096 % 64) as byte,
       (0x80 + cp / 64 % 64) as byte, (0x80 + cp % 64) as byte]
  }

  /** One octet as `%HH`. */
  function PercentByte(b: byte): (r: string)
    ensures |r| == 3 && r[0] == '%' && IsUpperHex(r[1]) && IsUpperHex(r[2])
  {
    ['%', HexDigit(b as int / 16), HexDigit(b as int % 16)]
  }

  function PercentBytes(bs: seq<byte>): (r: string)
    ensures |r| == 3 * |bs|
    ensures forall i :: 0 <= i < |bs| ==> r[3 * i..3 * i + 3] == PercentByte(bs[i])
  {
    if bs == [] then []
    else
      var r := PercentByte(bs[0]) + PercentBytes(bs[1..]);
      assert forall i :: 1 <= i < |bs| ==> r[3 * i..3 * i + 3] == PercentBytes(bs[1..])[3 * (i - 1)..3 * (i - 1) + 3];
      r
  }

  function EncodeChar(c: char): (r: string)
    ensures Unreserved(c) ==> r == [c]
    ensures !Unreserved(c) ==> r == PercentBytes(Utf8(c))
  {
    if Unreserved(c) then [c] else PercentBytes(Utf8(c))
  }

  /** `encodeURIComponent`. Every character of the result is unreserved, a
      `%`, or an upper-case hexadecimal digit; in particular the result has
      no quote, backslash, slash, `?` or `#`. */
  function EncodeUriComponent(s: string): (r: string)
    ensures forall i :: 0 <= i < |r| ==> Unreserved(r[i]) || r[i] == '%'
  {
    if s == [] then []
    else
      var head := EncodeChar(s[0]);
      var tail := EncodeUriComponent(s[1..]);
      EncodeCharIsSafe(s[0]);
      var r := head + tail;
      assert forall i :: |head| <= i < |r| ==> r[i] == tail[i - |head|];
      r
  }

  lemma EncodeCharIsSafe(c: char)
    ensures forall i :: 0 <= i < |EncodeChar(c)| ==> Unreserved(EncodeChar(c)[i]) || EncodeChar(c)[i] == '%'
  {
    if !Unreserved(c) {
      PercentBytesAreSafe(Utf8(c));
    }
  }

  lemma PercentBytesAreSafe(bs: seq<byte>)
    ensures forall i :: 0 <= i < |PercentBytes(bs)| ==> Unreserved(PercentBytes(bs)[i]) || PercentBytes(bs)[i] == '%'
  {
    var r := PercentBytes(bs);
    forall i | 0 <= i < |r|
      ensures Unreserved(r[i]) || r[i] == '%'
    {
      var k := i / 3;
      assert r[3 * k..3 * k + 3] == PercentByte(bs[k]);
      assert r[i] == r[3 * k..3 * k + 3][i - 3 * k];
    }
  }

  /** A string of unreserved characters is its own encoding. */
  lemma {:induction false} EncodeUnreservedIsIdentity(s: string)
    requires forall i :: 0 <= i < |s| ==> Unreserved(s[i])
    ensures EncodeUriComponent(s) == s
  {
    if s != [] {
      EncodeUnreservedIsIdentity(s[1..]);
    }
  }

  /** The octet written as `%HH` at `s[i..i + 3]`, if there is one. */
  function PercentAt(s: string, i: nat): Option<byte>
  {
    if i + 3 <= |s| && s[i] == '%' && HexValue(s[i + 1]).Some? && HexValue(s[i + 2]).Some? then
      Some((HexValue(s[i + 1]).value * 16 + HexValue(s[i + 2]).value) as byte)
    else
      None
  }

  predicate IsContinuation(b: byte)
  {
    0x80 <= b < 0xC0
  }

  /** The scalar value a UTF-8 sequence of escaped octets at the front of `s`
      stands for, and how many characters of `s` it takes; `None` for an
      escape that is malformed, overlong, a surrogate or out of range
      (where `decodeURIComponent` throws `URIError`). */
  function DecodeEscape(s: string): (r: Option<(char, nat)>)
    ensures r.Some? ==> 3 <= r.value.1 <= |s|
  {
    match PercentAt(s, 0)
    case None => None
    case Some(b0) =>
      if b0 < 0x80 then Some((b0 as int as char, 3))
      else if 0xC2 <= b0 <= 0xDF then
        match PercentAt(s, 3)
        case Some(b1) =>
          if IsContinuation(b1) then
            Some((((b0 as int - 0xC0) * 64 + (b1 as int - 0x80)) as char, 6))
          else None
        case None => None
      else if 0xE0 <= b0 <= 0xEF then
        match (PercentAt(s, 3), PercentAt(s, 6))
        case (Some(b1), Some(b2)) =>
          var cp := (b0 as int - 0xE0) * 4096 + (b1 as int - 0x80) * 64 + (b2 as int - 0x80);
          if IsContinuation(b1) && IsContinuation(b2) && 0x800 <= cp && !(0xD800 <= cp < 0xE000) then
            Some((cp as char, 9))
          else None
        case _ => None
      else if 0xF0 <= b0 <= 0xF4 then
        match (PercentAt(s, 3), PercentAt(s, 6), PercentAt(s, 9))
        case (Some(b1), Some(b2), Some(b3)) =>
          var cp := (b0 as int - 0xF0) * 262144 + (b1 as int - 0x80) * 4096
                    + (b2 as int - 0x80) * 64 + (b3 as int - 0x80);
          if IsContinuation(b1) && IsContinuation(b2) && IsContinuation(b3) && 0x10000 <= cp < 0x110000 then
            Some((cp as char, 12))
          else None
        case _ => None
      else None
  }

  /** `decodeURIComponent`: `None` where it throws. */
  function DecodeUriComponent(s: string): Option<string>
    decreases |s|
  {
    if s == [] then Some([])
    else if s[0] != '%' then
      match DecodeUriComponent(s[1..])
      case Some(rest) => Some([s[0]] + rest)
      case None => None
    else
      match DecodeEscape(s)
      case None => None
      case Some((c, n)) =>
        match DecodeUriComponent(s[n..])
        case Some(rest) => Some([c] + rest)
        case None => None
  }

  lemma PercentByteReadsBack(b: byte, rest: string)
    ensures PercentAt(PercentByte(b) + rest, 0) == Some(b)
  {
    HexRoundTrip(b as int / 16);
    HexRoundTrip(b as int % 16);
  }

  /** The escaped octets of a character read back as the octets. */
  lemma {:induction false} PercentBytesReadBack(bs: seq<byte>, rest: string, k: nat)
    requires k < |bs|
    ensures PercentAt(PercentBytes(bs) + rest, 3 * k) == Some(bs[k])
  {
    var s := PercentBytes(bs) + rest;
    assert s[3 * k..] == PercentByte(bs[k]) + s[3 * k + 3..];
    PercentByteReadsBack(bs[k], s[3 * k + 3..]);
    assert PercentAt(s, 3 * k) == PercentAt(s[3 * k..], 0);
  }

  /** The octets of a two-, three- or four-octet encoding have the lead and
      continuation shapes the decoder checks, and recombine to the value. */
  lemma Utf8Two(c: char)
    requires 0x80 <= c as int < 0x800
    ensures var bs := Utf8(c);
      0xC2 <= bs[0] <= 0xDF && IsContinuation(bs[1])
      && (bs[0] as int - 0xC0) * 64 + (bs[1] as int - 0x80) == c as int
  {
  }

  lemma Utf8Three(c: char)
    requires 0x800 <= c as int < 0x10000
    ensures var bs := Utf8(c);
      0xE0 <= bs[0] <= 0xEF && IsContinuation(bs[1]) && IsContinuation(bs[2])
      && (bs[0] as int - 0xE0) * 4096 + (bs[1] as int - 0x80) * 64 + (bs[2] as int - 0x80) == c as int
  {
    var cp := c as int;
    assert cp / 64 == cp / 4096 * 64 + cp / 64 % 64;
  }

  lemma Utf8Four(c: char)
    requires 0x10000 <= c as int
    ensures var bs := Utf8(c);
      0xF0 <= bs[0] <= 0xF4 && IsContinuation(bs[1]) && IsContinuation(bs[2]) && IsContinuation(bs[3])
      && (bs[0] as int - 0xF0) * 262144 + (bs[1] as int - 0x80) * 4096
         + (bs[2] as int - 0x80) * 64 + (bs[3] as int - 0x80) == c as int
  {
    var cp := c as int;
    assert cp / 4096 == cp / 262144 * 64 + cp / 4096 % 64;
    assert cp / 64 == cp / 4096 * 64 + cp / 64 % 64;
  }

  /** What the decoder makes of well-formed one- to four-octet escapes. */
  lemma DecodeOneOctet(s: string, b0: byte)
    requires PercentAt(s, 0) == Some(b0) && b0 < 0x80
    ensures DecodeEscape(s) == Some((b0 as int as char, 3))
  {
  }

  lemma DecodeTwoOctets(s: string, b0: byte, b1: byte)
    requires PercentAt(s, 0) == Some(b0) && PercentAt(s, 3) == Some(b1)
    requires 0xC2 <= b0 <= 0xDF && IsContinuation(b1)
    ensures DecodeEscape(s) == Some((((b0 as int - 0xC0) * 64 + (b1 as int - 0x80)) as char, 6))
  {
  }

  lemma DecodeThreeOctets(s: string, b0: byte, b1: byte, b2: byte, c: char)
    requires PercentAt(s, 0) == Some(b0) && PercentAt(s, 3) == Some(b1) && PercentAt(s, 6) == Some(b2)
    requires 0xE0 <= b0 <= 0xEF && IsContinuation(b1) && IsContinuation(b2)
    requires (b0 as int - 0xE0) * 4096 + (b1 as int - 0x80) * 64 + (b2 as int - 0x80) == c as int
    requires 0x800 <= c as int
    ensures DecodeEscape(s) == Some((c, 9))
  {
  }

  lemma DecodeFourOctets(s: string, b0: byte, b1: byte, b2: byte, b3: byte, c: char)
    requires PercentAt(s, 0) == Some(b0) && PercentAt(s, 3) == Some(b1)
    requires PercentAt(s, 6) == Some(b2) && PercentAt(s, 9) == Some(b3)
    requires 0xF0 <= b0 <= 0xF4 && IsContinuation(b1) && IsContinuation(b2) && IsContinuation(b3)
    requires (b0 as int - 0xF0) * 262144 + (b1 as int - 0x80) * 4096
             + (b2 as int - 0x80) * 64 + (b3 as int - 0x80) == c as int
    requires 0x10000 <= c as int
    ensures DecodeEscape(s) == Some((c, 12))
  {
  }

  /** Decoding the escape of an escaped character gives the character back
      and consumes exactly its escape. */
  lemma {:induction false} DecodeEscapeOfChar(c: char, rest: string)
    requires !Unreserved(c)
    ensures DecodeEscape(EncodeChar(c) + rest) == Some((c, |EncodeChar(c)|))
  {
    var bs := Utf8(c);
    var s := EncodeChar(c) + rest;
    var cp := c as int;
    assert EncodeChar(c) == PercentBytes(bs);
    PercentBytesReadBack(bs, rest, 0);
    if cp < 0x80 {
      DecodeOneOctet(s, bs[0]);
    } else if cp < 0x800 {
      PercentBytesReadBack(bs, rest, 1);
      Utf8Two(c);
      DecodeTwoOctets(s, bs[0], bs[1]);
    } else if cp < 0x10000 {
      PercentBytesReadBack(bs, rest, 1);
      PercentBytesReadBack(bs, rest, 2);
      Utf8Three(c);
      DecodeThreeOctets(s, bs[0], bs[1], bs[2], c);
    } else {
      PercentBytesReadBack(bs, rest, 1);
      PercentBytesReadBack(bs, rest, 2);
      PercentBytesReadBack(bs, rest, 3);
      Utf8Four(c);
      DecodeFourOctets(s, bs[0], bs[1], bs[2], bs[3], c);
    }
  }

  /** Decoding is the inverse of encoding: `decodeURIComponent` never throws
      on what `encodeURIComponent` produced, and gives the original back. */
  lemma {:induction false} DecodeEncode(s: string)
    ensures DecodeUriComponent(EncodeUriComponent(s)) == Some(s)
  {
    if s != [] {
      var head := EncodeChar(s[0]);
      var tail := EncodeUriComponent(s[1..]);
      assert EncodeUriComponent(s) == head + tail;
      DecodeEncode(s[1..]);
      if Unreserved(s[0]) {
        DecodePlainHead(s[0], tail);
      } else {
        DecodeEscapeOfChar(s[0], tail);
        assert head[0..3] == PercentByte(Utf8(s[0])[0]);
        DecodeEscapedHead(head, tail, s[0]);
      }
      assert s == [s[0]] + s[1..];
    }
  }

  /** A character other than `%` is copied, and decoding goes on after it. */
  lemma DecodePlainHead(c: char, t: string)
    requires c != '%'
    ensures DecodeUriComponent([c] + t)
         == if DecodeUriComponent(t).Some? then Some([c] + DecodeUriComponent(t).value) else None
  {
    assert ([c] + t)[1..] == t;
  }

  /** An escape that decodes to `c` is replaced by `c`, and decoding goes on
      after it. */
  lemma DecodeEscapedHead(h: string, t: string, c: char)
    requires |h| > 0 && h[0] == '%' && DecodeEscape(h + t) == Some((c, |h|))
    ensures DecodeUriComponent(h + t)
         == if DecodeUriComponent(t).Some? then Some([c] + DecodeUriComponent(t).value) else None
  {
    assert (h + t)[|h|..] == t;
  }

  /** So two names with the same encoding are the same name. */
  lemma EncodeInjective(s: string, t: string)
    requires EncodeUriComponent(s) == EncodeUriComponent(t)
    ensures s == t
  {
    DecodeEncode(s);
    DecodeEncode(t);
  }
}
