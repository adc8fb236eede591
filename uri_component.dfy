/**
 * `encodeURIComponent`: every character outside the unreserved set becomes
 * the `%XX` escapes of its UTF-8 bytes, with upper-case hex digits.
 */
module UriComponent {

  /** The characters `encodeURIComponent` leaves as they are: A–Z a–z 0–9 - _ . ! ~ * ' ( ) */
  predicate Unreserved(c: char) {
    || ('A' <= c <= 'Z') || ('a' <= c <= 'z') || ('0' <= c <= '9')
    || c == '-' || c == '_' || c == '.' || c == '!' || c == '~' || c == '*' || c == '\'' || c == '(' || c == ')'
  }

  /** What an encoded string is made of: unreserved characters and `%`. */
  predicate Safe(c: char) {
    Unreserved(c) || c == '%'
  }

  /** An upper-case hexadecimal digit: 0–9 or A–F. */
  predicate UpperHex(c: char) {
    ('0' <= c <= '9') || ('A' <= c <= 'F')
  }

  /** The value of a hexadecimal digit; 0 for any other character. */
  function HexValue(c: char): nat {
    if '0' <= c <= '9' then c as int - '0' as int
    else if 'A' <= c <= 'F' then c as int - 'A' as int + 10
    else 0
  }

  /** The upper-case digit for a value below 16. */
  function HexDigit(d: nat): (c: char)
    requires d < 16
    ensures UpperHex(c) && Unreserved(c)
    ensures HexValue(c) == d
  {
    if d < 10 then ('0' as int + d) as char else ('A' as int + d - 10) as char
  }

  /** `%` followed by the two upper-case hex digits of a byte, high digit first. */
  function Escape(b: nat): (r: string)
    requires b < 256
    ensures |r| == 3 && r[0] == '%'
    ensures UpperHex(r[1]) && UpperHex(r[2])
    ensures 16 * HexValue(r[1]) + HexValue(r[2]) == b
    ensures forall i :: 0 <= i < |r| ==> Safe(r[i])
  {
    ['%', HexDigit(b / 16), HexDigit(b % 16)]
  }

  /** The UTF-8 encoding of a Unicode scalar value. */
  function Utf8(cp: nat): (bytes: seq<nat>)
    requires cp <= 0x10FFFF
    ensures 1 <= |bytes| <= 4
    ensures forall i :: 0 <= i < |bytes| ==> bytes[i] < 256
    ensures |bytes| == 1 <==> cp < 0x80
  {
    if cp < 0x80 then [cp]
    else if cp < 0x800 then [0xC0 + cp / 0x40, 0x80 + cp % 0x40]
    else if cp < 0x10000 then [0xE0 + cp / 0x1000, 0x80 + (cp / 0x40) % 0x40, 0x80 + cp % 0x40]
    else [0xF0 + cp / 0x40000, 0x80 + (cp / 0x1000) % 0x40, 0x80 + (cp / 0x40) % 0x40, 0x80 + cp % 0x40]
  }

  function EscapeBytes(bytes: seq<nat>): (r: string)
    requires forall i :: 0 <= i < |bytes| ==> bytes[i] < 256
    ensures |r| == 3 * |bytes|
    ensures forall i :: 0 <= i < |r| ==> Safe(r[i])
  {
    if bytes == [] then [] else Escape(bytes[0]) + EscapeBytes(bytes[1..])
  }

  /** One character: itself when unreserved, otherwise its escaped UTF-8 bytes. */
  function EncodeChar(c: char): (r: string)
    ensures forall i :: 0 <= i < |r| ==> Safe(r[i])
    ensures Unreserved(c) ==> r == [c]
    ensures !Unreserved(c) ==> 3 <= |r| <= 12 && r[0] == '%'
  {
    if Unreserved(c) then [c] else EscapeBytes(Utf8(c as int))
  }

  /**
   * `encodeURIComponent(s)`: the output holds only unreserved characters and
   * `%`, so it can never close a query value (no `&`, `=`, `#` or space); a
   * string that is already unreserved comes out unchanged.
   */
  function Encode(s: string): (r: string)
    ensures forall i :: 0 <= i < |r| ==> Safe(r[i])
    ensures |r| >= |s|
    ensures (forall i :: 0 <= i < |s| ==> Unreserved(s[i])) ==> r == s
  {
    if s == [] then [] else EncodeChar(s[0]) + Encode(s[1..])
  }

  /** Encoding distributes over concatenation. */
  lemma {:induction false} EncodeAppend(a: string, b: string)
    ensures Encode(a + b) == Encode(a) + Encode(b)
  {
    if a == [] {
      assert a + b == b;
    } else {
      assert (a + b)[0] == a[0] && (a + b)[1..] == a[1..] + b;
      EncodeAppend(a[1..], b);
    }
  }

  // ---------------------------------------------------------------------
  // Decoding: the inverse that shows no information is lost
  // ---------------------------------------------------------------------

  /** How many bytes a UTF-8 sequence with this lead byte has. */
  function Utf8Length(lead: nat): nat {
    if lead < 0x80 then 1 else if lead < 0xE0 then 2 else if lead < 0xF0 then 3 else 4
  }

  /** The code point a UTF-8 sequence of one to four bytes stands for. */
  function Utf8Decode(bytes: seq<nat>): int {
    if |bytes| == 1 then bytes[0]
    else if |bytes| == 2 then (bytes[0] as int - 0xC0) * 0x40 + (bytes[1] as int - 0x80)
    else if |bytes| == 3 then (bytes[0] as int - 0xE0) * 0x1000 + (bytes[1] as int - 0x80) * 0x40 + (bytes[2] as int - 0x80)
    else if |bytes| == 4 then
      (bytes[0] as int - 0xF0) * 0x40000 + (bytes[1] as int - 0x80) * 0x1000 + (bytes[2] as int - 0x80) * 0x40 + (bytes[3] as int - 0x80)
    else -1
  }

  /** The lead byte announces the length, and decoding gives the code point back. */
  lemma Utf8RoundTrip(cp: nat)
    requires cp <= 0x10FFFF
    ensures var bytes := Utf8(cp);
            Utf8Length(bytes[0]) == |bytes| && Utf8Decode(bytes) == cp
  {
    if 0x80 <= cp < 0x800 {
      assert cp == (cp / 0x40) * 0x40 + cp % 0x40;
    } else if 0x800 <= cp < 0x10000 {
      assert cp / 0x40 == (cp / 0x1000) * 0x40 + (cp / 0x40) % 0x40;
      assert cp == (cp / 0x40) * 0x40 + cp % 0x40;
    } else if 0x10000 <= cp {
      assert cp / 0x1000 == (cp / 0x40000) * 0x40 + (cp / 0x1000) % 0x40;
      assert cp / 0x40 == (cp / 0x1000) * 0x40 + (cp / 0x40) % 0x40;
      assert cp == (cp / 0x40) * 0x40 + cp % 0x40;
    }
  }

  /** The byte the `%XY` group at the front of `s` stands for. */
  function EscapedByte(s: string): nat
    requires |s| >= 3
  {
    16 * HexValue(s[1]) + HexValue(s[2])
  }

  /** The bytes of consecutive `%XY` groups. */
  function DecodeBytes(s: string): seq<nat>
    decreases |s|
  {
    if |s| < 3 then [] else [EscapedByte(s)] + DecodeBytes(s[3..])
  }

  /** Reading the escapes back gives the bytes that were escaped. */
  lemma {:induction false} DecodeEscapeBytes(bytes: seq<nat>)
    requires forall i :: 0 <= i < |bytes| ==> bytes[i] < 256
    ensures DecodeBytes(EscapeBytes(bytes)) == bytes
  {
    if bytes != [] {
      var e := EscapeBytes(bytes);
      var head := Escape(bytes[0]);
      assert e == head + EscapeBytes(bytes[1..]);
      assert e[1] == head[1] && e[2] == head[2];
      assert e[3..] == EscapeBytes(bytes[1..]);
      DecodeEscapeBytes(bytes[1..]);
    }
  }

  /** The character of a code point, or U+FFFD for a value that is not a Unicode scalar value. */
  function ScalarChar(cp: int): char {
    if 0 <= cp < 0xD800 || 0xE000 <= cp <= 0x10FFFF then cp as char else '\U{FFFD}'
  }

  /**
   * `decodeURIComponent` on what `encodeURIComponent` can produce: a `%`
   * starts the escapes of one character's UTF-8 bytes, any other character
   * stands for itself. A truncated escape at the end is kept as it is.
   */
  function Decode(s: string): string
    decreases |s|
  {
    if s == [] then []
    else if s[0] != '%' then [s[0]] + Decode(s[1..])
    else if |s| < 3 || |s| < 3 * Utf8Length(EscapedByte(s)) then s
    else
      var n := 3 * Utf8Length(EscapedByte(s));
      [ScalarChar(Utf8Decode(DecodeBytes(s[..n])))] + Decode(s[n..])
  }

  /** An escaped character decodes back to itself, whatever follows it. */
  lemma DecodeEscapedChar(c: char, rest: string)
    requires !Unreserved(c)
    ensures Decode(EncodeChar(c) + rest) == [c] + Decode(rest)
  {
    var bytes := Utf8(c as int);
    var e := EscapeBytes(bytes);
    var t := e + rest;
    Utf8RoundTrip(c as int);
    DecodeEscapeBytes(bytes);
    var head := Escape(bytes[0]);
    assert e == head + EscapeBytes(bytes[1..]);
    assert t[0] == '%' && t[1] == head[1] && t[2] == head[2];
    assert EscapedByte(t) == bytes[0];
    assert t[..3 * |bytes|] == e;
    assert t[3 * |bytes|..] == rest;
  }

  /** `decodeURIComponent(encodeURIComponent(s)) === s`: the encoding loses nothing. */
  lemma {:induction false} DecodeEncode(s: string)
    ensures Decode(Encode(s)) == s
  {
    if s != [] {
      var rest := Encode(s[1..]);
      assert Encode(s) == EncodeChar(s[0]) + rest;
      DecodeEncode(s[1..]);
      if Unreserved(s[0]) {
        assert (EncodeChar(s[0]) + rest)[1..] == rest;
      } else {
        DecodeEscapedChar(s[0], rest);
      }
    }
  }
}
