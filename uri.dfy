/** `encodeURIComponent` of ECMA-262: every character outside
    `A-Z a-z 0-9 - _ . ! ~ * ' ( )` is replaced by the percent-encoded octets
    of its UTF-8 form (section 2.1 of RFC 3986, upper-case hex digits).
    Dafny characters are Unicode scalar values, so the lone-surrogate
    `URIError` of JavaScript cannot arise. */
module UriEncoding {
  import opened Wrappers

  type Byte = b: int | 0 <= b < 256

  predicate IsAlphaNumeric(c: char)
  {
    ('A' <= c <= 'Z') || ('a' <= c <= 'z') || ('0' <= c <= '9')
  }

  /** The characters `encodeURIComponent` leaves as they are. */
  predicate IsUnescaped(c: char)
  {
    || IsAlphaNumeric(c)
    || c == '-' || c == '_' || c == '.' || c == '!' || c == '~'
    || c == '*' || c == '\'' || c == '(' || c == ')'
  }

  /** The UTF-8 octets of one code point. */
  function Utf8(c: char): (bs: seq<Byte>)
    ensures 1 <= |bs| <= 4
    ensures |bs| == 1 <==> c as int < 0x80
  {
    var n := c as int;
    if n < 0x80 then [n]
    else if n < 0x800 then [0xC0 + n / 0x40, 0x80 + n % 0x40]
    else if n < 0x10000 then [0xE0 + n / 0x1000, 0x80 + (n / 0x40) % 0x40, 0x80 + n % 0x40]
    else [0xF0 + n / 0x40000, 0x80 + (n / 0x1000) % 0x40, 0x80 + (n / 0x40) % 0x40, 0x80 + n % 0x40]
  }

  /** Decodes the octets of one code point, the inverse of Utf8. */
  function Utf8CodePoint(bs: seq<Byte>): int
    requires 1 <= |bs| <= 4
  {
    var b := seq(|bs|, k requires 0 <= k < |bs| => bs[k] as int);
    if |b| == 1 then b[0]
    else if |b| == 2 then (b[0] - 0xC0) * 0x40 + (b[1] - 0x80)
    else if |b| == 3 then (b[0] - 0xE0) * 0x1000 + (b[1] - 0x80) * 0x40 + (b[2] - 0x80)
    else (b[0] - 0xF0) * 0x40000 + (b[1] - 0x80) * 0x1000 + (b[2] - 0x80) * 0x40 + (b[3] - 0x80)
  }

  /** UTF-8 well-formedness: the lead octet announces the length and every
      other octet is a continuation octet `10xxxxxx`. */
  predicate WellFormedUtf8(bs: seq<Byte>)
  {
    && 1 <= |bs| <= 4
    && (|bs| == 1 ==> bs[0] < 0x80)
    && (|bs| == 2 ==> 0xC0 <= bs[0] < 0xE0)
    && (|bs| == 3 ==> 0xE0 <= bs[0] < 0xF0)
    && (|bs| == 4 ==> 0xF0 <= bs[0] < 0xF8)
    && forall k :: 1 <= k < |bs| ==> 0x80 <= bs[k] < 0xC0
  }

  /** Utf8 produces well-formed octets that decode back to the code point. */
  lemma Utf8RoundTrip(c: char)
    ensures WellFormedUtf8(Utf8(c))
    ensures Utf8CodePoint(Utf8(c)) == c as int
  {
    var n := c as int;
    if n >= 0x10000 {
      assert n == (n / 0x40000) * 0x40000 + ((n / 0x1000) % 0x40) * 0x1000 + ((n / 0x40) % 0x40) * 0x40 + n % 0x40;
    } else if n >= 0x800 {
      assert n == (n / 0x1000) * 0x1000 + ((n / 0x40) % 0x40) * 0x40 + n % 0x40;
    }
  }

  /** An upper-case hexadecimal digit. */
  function HexDigit(n: int): (c: char)
    requires 0 <= n < 16
    ensures IsAlphaNumeric(c)
  {
    if n < 10 then ('0' as int + n) as char else ('A' as int + n - 10) as char
  }

  /** `%XY` for one octet. */
  function Escape(b: Byte): string
  {
    ['%', HexDigit(b / 16), HexDigit(b % 16)]
  }

  function EscapeAll(bs: seq<Byte>): (r: string)
    ensures |r| == 3 * |bs|
    ensures forall c :: c in r ==> IsAlphaNumeric(c) || c == '%'
  {
    if |bs| == 0 then [] else Escape(bs[0]) + EscapeAll(bs[1..])
  }

  function EncodeChar(c: char): string
  {
    if IsUnescaped(c) then [c] else EscapeAll(Utf8(c))
  }

  /** `encodeURIComponent(s)`: every output character is one it leaves
      unescaped or the `%` of an escape. */
  function EncodeURIComponent(s: string): (r: string)
    ensures forall c :: c in r ==> IsUnescaped(c) || c == '%'
  {
    if |s| == 0 then "" else EncodeChar(s[0]) + EncodeURIComponent(s[1..])
  }

  /** The output never holds a URL delimiter, a brace or a `$`: it can sit
      in a path segment or a query value, and as a `replace` replacement
      it has no `$` pattern. */
  lemma EncodedHasNoDelimiter(s: string)
    ensures var r := EncodeURIComponent(s);
      '/' !in r && '&' !in r && '=' !in r && '?' !in r && '#' !in r
      && '$' !in r && '{' !in r && '}' !in r && ' ' !in r && ',' !in r
  {
    EscapedNotInEncoded(s, '/');
    EscapedNotInEncoded(s, '&');
    EscapedNotInEncoded(s, '=');
    EscapedNotInEncoded(s, '?');
    EscapedNotInEncoded(s, '#');
    EscapedNotInEncoded(s, '$');
    EscapedNotInEncoded(s, '{');
    EscapedNotInEncoded(s, '}');
    EscapedNotInEncoded(s, ' ');
    EscapedNotInEncoded(s, ',');
  }

  /** A character that is escaped, other than `%`, never appears in the
      output. */
  lemma EscapedNotInEncoded(s: string, d: char)
    requires !IsUnescaped(d) && d != '%'
    ensures d !in EncodeURIComponent(s)
  {
  }

  /** Strings made only of unescaped characters pass through unchanged. */
  lemma {:induction false} EncodeUnescapedIdentity(s: string)
    requires forall i :: 0 <= i < |s| ==> IsUnescaped(s[i])
    ensures EncodeURIComponent(s) == s
    decreases |s|
  {
    if |s| > 0 {
      EncodeUnescapedIdentity(s[1..]);
      assert [s[0]] + s[1..] == s;
    }
  }

  /** The UTF-8 octets of a whole string. */
  function Utf8Bytes(s: string): seq<Byte>
  {
    if |s| == 0 then [] else Utf8(s[0]) + Utf8Bytes(s[1..])
  }

  function HexValue(c: char): Option<int>
  {
    if '0' <= c <= '9' then Some(c as int - '0' as int)
    else if 'A' <= c <= 'F' then Some(c as int - 'A' as int + 10)
    else if 'a' <= c <= 'f' then Some(c as int - 'a' as int + 10)
    else None
  }

  /** Percent-decoding to octets (section 2.1 of RFC 3986): `%XY` is one
      octet and any other ASCII character stands for its own code. */
  function PercentDecode(t: string): Option<seq<Byte>>
    decreases |t|
  {
    if |t| == 0 then Some([])
    else if t[0] == '%' then
      if |t| >= 3 && HexValue(t[1]).Some? && HexValue(t[2]).Some? then
        match PercentDecode(t[3..])
        case None => None
        case Some(rest) => Some([HexValue(t[1]).value * 16 + HexValue(t[2]).value] + rest)
      else None
    else if t[0] as int < 0x80 then
      match PercentDecode(t[1..])
      case None => None
      case Some(rest) => Some([t[0] as int] + rest)
    else None
  }

  lemma {:induction false} DecodeEscapes(bs: seq<Byte>, t: string, tail: seq<Byte>)
    requires PercentDecode(t) == Some(tail)
    ensures PercentDecode(EscapeAll(bs) + t) == Some(bs + tail)
    decreases |bs|
  {
    if |bs| > 0 {
      DecodeEscapes(bs[1..], t, tail);
      var b := bs[0];
      var u := EscapeAll(bs) + t;
      assert u == Escape(b) + (EscapeAll(bs[1..]) + t);
      assert u[3..] == EscapeAll(bs[1..]) + t;
      assert u[0] == '%' && u[1] == HexDigit(b / 16) && u[2] == HexDigit(b % 16);
      assert (b / 16) * 16 + b % 16 == b;
      assert HexValue(HexDigit(b / 16)) == Some(b / 16);
      assert HexValue(HexDigit(b % 16)) == Some(b % 16);
      assert [b] + (bs[1..] + tail) == bs + tail;
    } else {
      assert EscapeAll(bs) + t == t && bs + tail == tail;
    }
  }

  /** Decoding the encoding gives the UTF-8 octets of the input: the
      encoding loses nothing. */
  lemma {:induction false} DecodeEncode(s: string)
    ensures PercentDecode(EncodeURIComponent(s)) == Some(Utf8Bytes(s))
    decreases |s|
  {
    if |s| > 0 {
      DecodeEncode(s[1..]);
      var t := EncodeURIComponent(s[1..]);
      var c := s[0];
      if IsUnescaped(c) {
        var u := [c] + t;
        assert u[1..] == t;
        assert c != '%';
      } else {
        DecodeEscapes(Utf8(c), t, Utf8Bytes(s[1..]));
      }
    }
  }
}
