/**
 * `encodeURIComponent`: characters outside the unreserved set are written as the
 * percent-escaped bytes of their UTF-8 encoding, with upper-case hexadecimal digits
 * (section 2.1 of RFC 3986 for the escapes, section 3 of RFC 3629 for UTF-8). A Dafny
 * `char` is a Unicode scalar value, so the lone-surrogate error case cannot arise.
 */
module Uri {

  newtype byte = b: int | 0 <= b < 256

  /** The characters `encodeURIComponent` leaves as they are. */
  predicate Unreserved(c: char)
  {
    ('A' <= c <= 'Z') || ('a' <= c <= 'z') || ('0' <= c <= '9') ||
    c == '-' || c == '_' || c == '.' || c == '!' || c == '~' || c == '*' || c == '\'' || c == '(' || c == ')'
  }

  /** The characters an encoded component is made of. */
  predicate Encoded(s: string)
  {
    forall i :: 0 <= i < |s| ==> Unreserved(s[i]) || s[i] == '%'
  }

  function HexDigit(d: int): (c: char)
    requires 0 <= d < 16
    ensures Unreserved(c)
  {
    "0123456789ABCDEF"[d]
  }

  /** The value of an upper-case hexadecimal digit, or none. */
  function HexValue(c: char): (r: int)
    ensures -1 <= r < 16
  {
    if '0' <= c <= '9' then c as int - '0' as int
    else if 'A' <= c <= 'F' then c as int - 'A' as int + 10
    else -1
  }

  lemma HexRoundTrip(d: int)
    requires 0 <= d < 16
    ensures HexValue(HexDigit(d)) == d
  {
  }

  /** The UTF-8 encoding of one scalar value: one to four bytes, six payload bits per continuation byte. */
  function Utf8(c: char): (bs: seq<byte>)
    ensures 1 <= |bs| <= 4
    ensures |bs| == 1 <==> c as int < 0x80
    ensures |bs| == 1 ==> bs[0] as int == c as int
  {
    var cp := c as int;
    var q1 := cp / 64;
    var q2 := q1 / 64;
    var q3 := q2 / 64;
    if cp < 0x80 then [cp as byte]
    else if cp < 0x800 then [(0xC0 + q1) as byte, (0x80 + cp % 64) as byte]
    else if cp < 0x1_0000 then
      [(0xE0 + q2) as byte, (0x80 + q1 % 64) as byte, (0x80 + cp % 64) as byte]
    else
      [(0xF0 + q3) as byte, (0x80 + q2 % 64) as byte, (0x80 + q1 % 64) as byte, (0x80 + cp % 64) as byte]
  }

  /** The scalar value whose encoding `bs` is, read back from the lead and continuation bytes. */
  function Utf8Value(bs: seq<byte>): int
    requires 1 <= |bs| <= 4
  {
    if |bs| == 1 then bs[0] as int
    else if |bs| == 2 then (bs[0] as int - 0xC0) * 64 + (bs[1] as int - 0x80)
    else if |bs| == 3 then (bs[0] as int - 0xE0) * 4096 + (bs[1] as int - 0x80) * 64 + (bs[2] as int - 0x80)
    else (bs[0] as int - 0xF0) * 262144 + (bs[1] as int - 0x80) * 4096 + (bs[2] as int - 0x80) * 64 + (bs[3] as int - 0x80)
  }

  /** The lead byte says how long the encoding is, and decoding gives the scalar value back. */
  lemma Utf8RoundTrip(c: char)
    ensures Utf8Value(Utf8(c)) == c as int
    ensures var bs := Utf8(c);
            (|bs| == 1 <==> bs[0] < 0x80) &&
            (|bs| == 2 <==> 0xC0 <= bs[0] < 0xE0) &&
            (|bs| == 3 <==> 0xE0 <= bs[0] < 0xF0) &&
            (|bs| == 4 <==> 0xF0 <= bs[0]) &&
            forall i :: 1 <= i < |bs| ==> 0x80 <= bs[i] < 0xC0
  {
    var cp := c as int;
    if cp >= 0x1_0000 {
      SplitSixBits(cp);
      SplitSixBits(cp / 64);
      SplitSixBits(cp / 64 / 64);
    } else if cp >= 0x800 {
      SplitSixBits(cp);
      SplitSixBits(cp / 64);
    } else if cp >= 0x80 {
      SplitSixBits(cp);
    }
  }

  /** A number is its low six bits plus 64 times the rest. */
  lemma SplitSixBits(n: int)
    requires n >= 0
    ensures n == (n / 64) * 64 + n % 64
    ensures 0 <= n % 64 < 64 && 0 <= n / 64 <= n
  {
  }

  /** `%XX` for one byte. */
  function Escape(b: byte): (s: string)
    ensures |s| == 3 && s[0] == '%' && Unreserved(s[1]) && Unreserved(s[2])
  {
    ['%', HexDigit(b as int / 16), HexDigit(b as int % 16)]
  }

  function EscapeAll(bs: seq<byte>): (s: string)
    ensures |s| == 3 * |bs|
    ensures Encoded(s)
  {
    if |bs| == 0 then "" else Escape(bs[0]) + EscapeAll(bs[1..])
  }

  function EncodeChar(c: char): (s: string)
    ensures Encoded(s)
  {
    if Unreserved(c) then [c] else EscapeAll(Utf8(c))
  }

  /** `encodeURIComponent(s)`. */
  function Encode(s: string): (r: string)
    ensures Encoded(r)
    ensures |r| >= |s|
  {
    if |s| == 0 then "" else EncodeChar(s[0]) + Encode(s[1..])
  }

  /** A string of unreserved characters is its own encoding. */
  lemma {:induction false} EncodeUnreserved(s: string)
    requires forall i :: 0 <= i < |s| ==> Unreserved(s[i])
    ensures Encode(s) == s
  {
    if |s| > 0 {
      EncodeUnreserved(s[1..]);
      assert [s[0]] + s[1..] == s;
    }
  }

  /** An encoded component never contains the query separators. */
  lemma EncodedHasNoSeparators(s: string)
    requires Encoded(s)
    ensures '&' !in s && '=' !in s && '?' !in s
  {
  }

  /** The bytes a component stands for: unreserved characters are their ASCII code, escapes their byte. */
  function Unescape(s: string): seq<byte>
    decreases |s|
  {
    if |s| >= 3 && s[0] == '%' && HexValue(s[1]) >= 0 && HexValue(s[2]) >= 0 then
      [(HexValue(s[1]) * 16 + HexValue(s[2])) as byte] + Unescape(s[3..])
    else if |s| > 0 then
      [(if s[0] as int < 256 then s[0] as int else 0) as byte] + Unescape(s[1..])
    else []
  }

  /** The UTF-8 bytes of a whole string. */
  function Utf8String(s: string): seq<byte>
  {
    if |s| == 0 then [] else Utf8(s[0]) + Utf8String(s[1..])
  }

  /** One escape reads back as its byte, whatever follows it. */
  lemma UnescapeOne(b: byte, rest: string)
    ensures Unescape(Escape(b) + rest) == [b] + Unescape(rest)
  {
    HexRoundTrip(b as int / 16);
    HexRoundTrip(b as int % 16);
    var s := Escape(b) + rest;
    assert s[0] == '%' && s[1] == Escape(b)[1] && s[2] == Escape(b)[2];
    assert s[3..] == rest;
  }

  /** Splitting off the first byte of `a` commutes with appending `b`. */
  lemma Regroup(a: seq<byte>, b: seq<byte>)
    requires |a| > 0
    ensures [a[0]] + (a[1..] + b) == a + b
  {
    assert [a[0]] + a[1..] == a;
  }

  lemma {:induction false} UnescapeEscapes(bs: seq<byte>, rest: string)
    ensures Unescape(EscapeAll(bs) + rest) == bs + Unescape(rest)
    decreases |bs|
  {
    if |bs| > 0 {
      UnescapeEscapes(bs[1..], rest);
      UnescapeEscapesStep(bs, rest);
    } else {
      assert EscapeAll(bs) + rest == rest;
    }
  }

  /** The inductive step: the first escape reads back as the first byte, and the rest as the rest. */
  lemma UnescapeEscapesStep(bs: seq<byte>, rest: string)
    requires |bs| > 0
    requires Unescape(EscapeAll(bs[1..]) + rest) == bs[1..] + Unescape(rest)
    ensures Unescape(EscapeAll(bs) + rest) == bs + Unescape(rest)
  {
    var tail := EscapeAll(bs[1..]) + rest;
    EscapeAllSplit(bs, rest);
    UnescapeOne(bs[0], tail);
    Regroup(bs, Unescape(rest));
  }

  lemma EscapeAllSplit(bs: seq<byte>, rest: string)
    requires |bs| > 0
    ensures EscapeAll(bs) + rest == Escape(bs[0]) + (EscapeAll(bs[1..]) + rest)
  {
    assert EscapeAll(bs) == Escape(bs[0]) + EscapeAll(bs[1..]);
  }

  /** Undoing the escapes of an encoded string gives the UTF-8 bytes of the original. */
  lemma {:induction false} UnescapeEncode(s: string)
    ensures Unescape(Encode(s)) == Utf8String(s)
    decreases |s|
  {
    if |s| > 0 {
      var c := s[0];
      UnescapeEncode(s[1..]);
      if Unreserved(c) {
        var e := [c] + Encode(s[1..]);
        assert Encode(s) == e;
        assert HexValue('%') == -1;
        assert e[1..] == Encode(s[1..]);
        assert c != '%';
      } else {
        UnescapeEscapes(Utf8(c), Encode(s[1..]));
      }
    }
  }
}
