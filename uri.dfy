/**
 * JavaScript's `encodeURIComponent`, which the playlists apply to the session
 * cookie: every character outside A-Z a-z 0-9 - _ . ! ~ * ' ( ) is written as
 * the percent-escaped bytes of its UTF-8 encoding, in upper-case hex.
 */
module Uri {
  import opened Util

  predicate IsUnreserved(c: char)
  {
    || 'A' <= c <= 'Z' || 'a' <= c <= 'z' || '0' <= c <= '9'
    || c == '-' || c == '_' || c == '.' || c == '!' || c == '~'
    || c == '*' || c == '\'' || c == '(' || c == ')'
  }

  predicate IsUpperHex(c: char)
  {
    '0' <= c <= '9' || 'A' <= c <= 'F'
  }

  /** A character that can appear in the output of `EncodeUriComponent`. */
  predicate IsEncodedChar(c: char)
  {
    IsUnreserved(c) || c == '%'
  }

  /** A hexadecimal digit as `decodeURIComponent` reads it, in either case. */
  predicate IsHex(c: char)
  {
    '0' <= c <= '9' || 'A' <= c <= 'F' || 'a' <= c <= 'f'
  }

  function HexValue(c: char): (v: nat)
    requires IsHex(c)
    ensures v < 16
  {
    if c <= '9' then c as int - '0' as int
    else if c <= 'F' then c as int - 'A' as int + 10
    else c as int - 'a' as int + 10
  }

  function HexDigit(d: nat): (c: char)
    requires d < 16
    ensures IsUpperHex(c) && IsHex(c) && HexValue(c) == d
  {
    if d < 10 then (('0' as int) + d) as char else (('A' as int) + d - 10) as char
  }

  /** One escaped byte: '%' and its two upper-case hex digits, high first. */
  function PercentByte(b: nat): (s: string)
    requires b < 256
    ensures |s| == 3 && s[0] == '%' && IsUpperHex(s[1]) && IsUpperHex(s[2])
    ensures IsHex(s[1]) && IsHex(s[2]) && HexValue(s[1]) * 16 + HexValue(s[2]) == b
  {
    ['%', HexDigit(b / 16), HexDigit(b % 16)]
  }

  /** The UTF-8 encoding of one Unicode scalar value: the lead byte gives the
      length, and the payload bits of the bytes, read most significant first,
      give back the code point. */
  function Utf8(c: char): (bytes: seq<nat>)
    ensures 1 <= |bytes| <= 4
    ensures forall i :: 0 <= i < |bytes| ==> bytes[i] < 256
    ensures |bytes| == 1 <==> c as int < 0x80
    ensures |bytes| == 2 <==> 0x80 <= c as int < 0x800
    ensures |bytes| == 3 <==> 0x800 <= c as int < 0x1_0000
    ensures |bytes| == 1 ==> bytes[0] == c as int
    ensures forall i :: 1 <= i < |bytes| ==> 0x80 <= bytes[i] < 0xC0
    ensures |bytes| == 2 ==>
      (0xC2 <= bytes[0] < 0xE0 && (bytes[0] - 0xC0) * 0x40 + (bytes[1] - 0x80) == c as int)
    ensures |bytes| == 3 ==>
      (0xE0 <= bytes[0] < 0xF0 && ((bytes[0] - 0xE0) * 0x40 + (bytes[1] - 0x80)) * 0x40 + (bytes[2] - 0x80) == c as int)
    ensures |bytes| == 4 ==>
      (0xF0 <= bytes[0] < 0xF5
       && (((bytes[0] - 0xF0) * 0x40 + (bytes[1] - 0x80)) * 0x40 + (bytes[2] - 0x80)) * 0x40 + (bytes[3] - 0x80) == c as int)
  {
    var cp := c as int;
    if cp < 0x80 then [cp]
    else if cp < 0x800 then TwoBytes(cp)
    else if cp < 0x1_0000 then ThreeBytes(cp)
    else FourBytes(cp)
  }

  function TwoBytes(cp: int): (b: seq<nat>)
    requires 0x80 <= cp < 0x800
    ensures |b| == 2 && 0xC2 <= b[0] < 0xE0 && 0x80 <= b[1] < 0xC0
    ensures (b[0] - 0xC0) * 0x40 + (b[1] - 0x80) == cp
  {
    [0xC0 + cp / 0x40, 0x80 + cp % 0x40]
  }

  function ThreeBytes(cp: int): (b: seq<nat>)
    requires 0x800 <= cp < 0x1_0000
    ensures |b| == 3 && 0xE0 <= b[0] < 0xF0 && 0x80 <= b[1] < 0xC0 && 0x80 <= b[2] < 0xC0
    ensures ((b[0] - 0xE0) * 0x40 + (b[1] - 0x80)) * 0x40 + (b[2] - 0x80) == cp
  {
    assert cp / 0x1000 == (cp / 0x40) / 0x40;
    [0xE0 + cp / 0x1000, 0x80 + (cp / 0x40) % 0x40, 0x80 + cp % 0x40]
  }

  function FourBytes(cp: int): (b: seq<nat>)
    requires 0x1_0000 <= cp < 0x11_0000
    ensures |b| == 4 && 0xF0 <= b[0] < 0xF5 && 0x80 <= b[1] < 0xC0 && 0x80 <= b[2] < 0xC0 && 0x80 <= b[3] < 0xC0
    ensures (((b[0] - 0xF0) * 0x40 + (b[1] - 0x80)) * 0x40 + (b[2] - 0x80)) * 0x40 + (b[3] - 0x80) == cp
  {
    assert cp / 0x1000 == (cp / 0x40) / 0x40;
    assert cp / 0x4_0000 == (cp / 0x1000) / 0x40;
    [0xF0 + cp / 0x4_0000, 0x80 + (cp / 0x1000) % 0x40, 0x80 + (cp / 0x40) % 0x40, 0x80 + cp % 0x40]
  }

  function PercentBytes(bytes: seq<nat>): (s: string)
    requires forall i :: 0 <= i < |bytes| ==> bytes[i] < 256
    ensures |s| == 3 * |bytes|
    ensures forall i :: 0 <= i < |s| ==> IsUpperHex(s[i]) || s[i] == '%'
  {
    if bytes == [] then [] else PercentByte(bytes[0]) + PercentBytes(bytes[1..])
  }

  /** One character: itself when unreserved, else its UTF-8 bytes escaped. */
  function EncodeChar(c: char): (s: string)
    ensures IsUnreserved(c) ==> s == [c]
    ensures !IsUnreserved(c) ==> 3 <= |s| <= 12 && s[0] == '%' && |s| == 3 * |Utf8(c)|
    ensures forall i :: 0 <= i < |s| ==> IsEncodedChar(s[i])
  {
    if IsUnreserved(c) then [c] else PercentBytes(Utf8(c))
  }

  /** Each input character becomes one to twelve output characters. */
  function EncodeUriComponent(s: string): (r: string)
    ensures |s| <= |r| <= 12 * |s|
  {
    if s == [] then [] else EncodeChar(s[0]) + EncodeUriComponent(s[1..])
  }

  /** Every output character is unreserved or '%'; in particular the result
      holds no '/', so it stays inside one path segment. */
  lemma {:induction false} EncodedIsSafe(s: string)
    ensures forall i :: 0 <= i < |EncodeUriComponent(s)| ==> IsEncodedChar(EncodeUriComponent(s)[i])
    ensures '/' !in EncodeUriComponent(s)
  {
    if s != [] {
      EncodedIsSafe(s[1..]);
      EncodedAppend(EncodeChar(s[0]), EncodeUriComponent(s[1..]));
    }
  }

  lemma EncodedAppend(a: string, b: string)
    requires forall i :: 0 <= i < |a| ==> IsEncodedChar(a[i])
    requires forall i :: 0 <= i < |b| ==> IsEncodedChar(b[i])
    ensures forall i :: 0 <= i < |a + b| ==> IsEncodedChar((a + b)[i])
  {
  }

  /** A string made only of unreserved characters is left as it is. */
  lemma {:induction false} EncodeUnreservedIdentity(s: string)
    requires forall i :: 0 <= i < |s| ==> IsUnreserved(s[i])
    ensures EncodeUriComponent(s) == s
  {
    if s != [] {
      EncodeUnreservedIdentity(s[1..]);
      assert s == [s[0]] + s[1..];
    }
  }

  /** Encoding distributes over concatenation. */
  lemma {:induction false} EncodeAppend(a: string, b: string)
    ensures EncodeUriComponent(a + b) == EncodeUriComponent(a) + EncodeUriComponent(b)
  {
    if a != [] {
      assert (a + b)[0] == a[0] && (a + b)[1..] == a[1..] + b;
      EncodeAppend(a[1..], b);
    } else {
      assert a + b == b;
    }
  }

  // ---------------------------------------------------------------------------
  // Decoding

  /** The UTF-8 encoding of a string: the encodings of its characters in order. */
  function Utf8String(s: string): (bytes: seq<nat>)
    ensures |s| <= |bytes| <= 4 * |s|
  {
    if s == [] then [] else Utf8(s[0]) + Utf8String(s[1..])
  }

  function Prepend(bytes: seq<nat>, r: Option<seq<nat>>): Option<seq<nat>>
  {
    if r.Some? then Some(bytes + r.value) else None
  }

  /** `decodeURIComponent`, read as the UTF-8 bytes of the string it returns:
      '%' and two hex digits give that byte, and any other character gives
      its own UTF-8 bytes. A '%' without two hex digits after it is an error
      (a `URIError`). A text without '%' decodes to itself. */
  function PercentDecode(s: string): (r: Option<seq<nat>>)
    ensures '%' !in s ==> r == Some(Utf8String(s))
    decreases |s|
  {
    if s == [] then Some([])
    else if s[0] != '%' then
      assert '%' !in s ==> '%' !in s[1..];
      Prepend(Utf8(s[0]), PercentDecode(s[1..]))
    else if |s| >= 3 && IsHex(s[1]) && IsHex(s[2]) then
      Prepend([HexValue(s[1]) * 16 + HexValue(s[2])], PercentDecode(s[3..]))
    else None
  }

  lemma PrependPrepend(a: seq<nat>, b: seq<nat>, r: Option<seq<nat>>)
    ensures Prepend(a, Prepend(b, r)) == Prepend(a + b, r)
  {
    if r.Some? {
      AppendAssoc(a, b, r.value);
    }
  }

  /** One escaped byte decodes to that byte, whatever follows it. */
  lemma DecodeEscape(b: nat, rest: string)
    requires b < 256
    ensures PercentDecode(PercentByte(b) + rest) == Prepend([b], PercentDecode(rest))
  {
    var s := PercentByte(b) + rest;
    assert s[0] == '%' && s[1] == PercentByte(b)[1] && s[2] == PercentByte(b)[2] && s[3..] == rest;
  }

  /** Escaped bytes decode to those bytes, whatever follows them. */
  lemma {:induction false} DecodePercentBytes(bytes: seq<nat>, t: string)
    requires forall i :: 0 <= i < |bytes| ==> bytes[i] < 256
    ensures PercentDecode(PercentBytes(bytes) + t) == Prepend(bytes, PercentDecode(t))
  {
    if bytes == [] {
      assert PercentBytes(bytes) + t == t;
      if PercentDecode(t).Some? {
        assert bytes + PercentDecode(t).value == PercentDecode(t).value;
      }
    } else {
      AppendAssoc(PercentByte(bytes[0]), PercentBytes(bytes[1..]), t);
      DecodeEscape(bytes[0], PercentBytes(bytes[1..]) + t);
      DecodePercentBytes(bytes[1..], t);
      PrependPrepend([bytes[0]], bytes[1..], PercentDecode(t));
      assert [bytes[0]] + bytes[1..] == bytes;
    }
  }

  /** Decoding the encoding of a string gives the string's UTF-8 bytes. */
  lemma {:induction false} EncodeDecodeRoundTrip(s: string)
    ensures PercentDecode(EncodeUriComponent(s)) == Some(Utf8String(s))
  {
    if s != [] {
      var c := s[0];
      var tail := EncodeUriComponent(s[1..]);
      EncodeDecodeRoundTrip(s[1..]);
      if IsUnreserved(c) {
        var e := [c] + tail;
        assert e[0] == c && e[1..] == tail;
      } else {
        DecodePercentBytes(Utf8(c), tail);
      }
    }
  }

  /** The lead byte of a UTF-8 encoding gives its length. */
  function LeadLength(b: nat): nat
  {
    if b < 0x80 then 1 else if b < 0xE0 then 2 else if b < 0xF0 then 3 else 4
  }

  lemma Utf8LeadLength(c: char)
    ensures |Utf8(c)| == LeadLength(Utf8(c)[0])
  {
  }

  lemma Utf8Injective(a: char, b: char)
    requires Utf8(a) == Utf8(b)
    ensures a == b
  {
  }

  /** UTF-8 is a prefix code: the bytes of a string determine the string. */
  lemma {:induction false} Utf8StringInjective(a: string, b: string)
    requires Utf8String(a) == Utf8String(b)
    ensures a == b
  {
    if a != [] && b != [] {
      var u := Utf8String(a);
      var ea, eb := Utf8(a[0]), Utf8(b[0]);
      Utf8LeadLength(a[0]);
      Utf8LeadLength(b[0]);
      assert ea[0] == u[0] == eb[0];
      assert ea == u[..|ea|] == eb;
      Utf8Injective(a[0], b[0]);
      assert Utf8String(a[1..]) == u[|ea|..] == Utf8String(b[1..]);
      Utf8StringInjective(a[1..], b[1..]);
      assert a == [a[0]] + a[1..] && b == [b[0]] + b[1..];
    }
  }

  /** The only string `decodeURIComponent` can give back for the encoding of
      `s` is `s` itself. */
  lemma DecodeGivesBack(s: string, decoded: string)
    requires PercentDecode(EncodeUriComponent(s)) == Some(Utf8String(decoded))
    ensures decoded == s
  {
    EncodeDecodeRoundTrip(s);
    Utf8StringInjective(s, decoded);
  }

  lemma EncodeUriComponentInjective(a: string, b: string)
    requires EncodeUriComponent(a) == EncodeUriComponent(b)
    ensures a == b
  {
    EncodeDecodeRoundTrip(a);
    DecodeGivesBack(b, a);
  }
}
