/**
 * JavaScript's `encodeURIComponent` (percent-encoding of section 2.1 of RFC 3986 over the
 * UTF-8 bytes of each character) and its inverse `decodeURIComponent`, which the static file
 * mount and the delete route apply to the path segment.
 */
module UriComponent {

  import opened Wrappers

  type Byte = b: int | 0 <= b < 256

  /** The characters `encodeURIComponent` leaves as they are: A-Z a-z 0-9 - _ . ! ~ * ' ( ) */
  predicate Unreserved(c: char) {
    || 'A' <= c <= 'Z' || 'a' <= c <= 'z' || '0' <= c <= '9'
    || c == '-' || c == '_' || c == '.' || c == '!' || c == '~'
    || c == '*' || c == '\'' || c == '(' || c == ')'
  }

  /** UTF-8 encoding of one Unicode scalar value (section 3 of RFC 3629). */
  function Utf8(c: char): (bs: seq<Byte>)
    ensures 1 <= |bs| <= 4
  {
    var cp := c as int;
    if cp < 0x80 then [cp]
    else if cp < 0x800 then [0xC0 + cp / 64, 0x80 + cp % 64]
    else if cp < 0x10000 then [0xE0 + cp / 64 / 64, 0x80 + cp / 64 % 64, 0x80 + cp % 64]
    else [0xF0 + cp / 64 / 64 / 64, 0x80 + cp / 64 / 64 % 64, 0x80 + cp / 64 % 64, 0x80 + cp % 64]
  }

  /** Upper-case hexadecimal digit, as `encodeURIComponent` writes them. */
  function HexDigit(d: int): (c: char)
    requires 0 <= d < 16
    ensures Unreserved(c)
  {
    if d < 10 then ('0' as int + d) as char else ('A' as int + d - 10) as char
  }

  /** Value of a hexadecimal digit of either case. */
  function HexValue(c: char): (v: Option<nat>)
    ensures v.Some? ==> v.value < 16
  {
    if '0' <= c <= '9' then Some(c as int - '0' as int)
    else if 'A' <= c <= 'F' then Some(c as int - 'A' as int + 10)
    else if 'a' <= c <= 'f' then Some(c as int - 'a' as int + 10)
    else None
  }

  lemma HexDigitValue(d: int)
    requires 0 <= d < 16
    ensures HexValue(HexDigit(d)) == Some(d)
  {
  }

  /** The escape `%XY` of one byte. */
  function Escape(b: Byte): string {
    ['%', HexDigit(b / 16), HexDigit(b % 16)]
  }

  function EscapeAll(bs: seq<Byte>): (r: string)
    ensures |r| == 3 * |bs|
    ensures forall i :: 0 <= i < |r| ==> Unreserved(r[i]) || r[i] == '%'
  {
    if bs == [] then [] else Escape(bs[0]) + EscapeAll(bs[1..])
  }

  function EncodeChar(c: char): string {
    if Unreserved(c) then [c] else EscapeAll(Utf8(c))
  }

  /**
   * `encodeURIComponent(s)`: every character outside the unreserved set becomes the escapes
   * of its UTF-8 bytes, so the result holds only unreserved characters and `%` (no `/`).
   */
  function Encode(s: string): (r: string)
    ensures forall i :: 0 <= i < |r| ==> Unreserved(r[i]) || r[i] == '%'
    ensures |r| >= |s|
  {
    if s == [] then [] else EncodeChar(s[0]) + Encode(s[1..])
  }

  /** A string of unreserved characters is left as it is, and only such a string. */
  lemma {:induction false} EncodeIdentityIffUnreserved(s: string)
    ensures Encode(s) == s <==> forall i :: 0 <= i < |s| ==> Unreserved(s[i])
  {
    if s != [] {
      EncodeIdentityIffUnreserved(s[1..]);
      if Unreserved(s[0]) {
        assert Encode(s) == [s[0]] + Encode(s[1..]);
        if Encode(s[1..]) != s[1..] {
          assert Encode(s)[1..] == Encode(s[1..]);
          assert s[1..] == s[1..];
        }
        assert (forall i :: 0 <= i < |s| ==> Unreserved(s[i])) <==>
               (forall i :: 0 <= i < |s[1..]| ==> Unreserved(s[1..][i]));
      } else {
        assert |EncodeChar(s[0])| >= 3;
        assert |Encode(s)| > |s|;
      }
    }
  }

  /** The byte written as `%XY` at position `i` of `t`, if there is one. */
  function EscapedByte(t: string, i: nat): Option<Byte> {
    if i + 3 <= |t| && t[i] == '%' then
      match (HexValue(t[i + 1]), HexValue(t[i + 2]))
      case (Some(h), Some(l)) => Some(16 * h + l)
      case _ => None
    else None
  }

  /** The six payload bits of a UTF-8 continuation byte escaped at position `i`. */
  function Continuation(t: string, i: nat): (v: Option<nat>)
    ensures v.Some? ==> v.value < 64
  {
    match EscapedByte(t, i)
    case Some(b) => if 0x80 <= b < 0xC0 then Some(b - 0x80) else None
    case None => None
  }

  /**
   * The character whose escapes start `t`, with the number of characters they take; None
   * where `decodeURIComponent` throws a URIError (a stray continuation byte, a truncated or
   * over-long sequence, a surrogate, a value past U+10FFFF).
   */
  function DecodeEscapes(t: string): (r: Option<(char, nat)>)
    ensures r.Some? ==> 0 < r.value.1 <= |t|
  {
    match EscapedByte(t, 0)
    case None => None
    case Some(b0) =>
      if b0 < 0x80 then Some((b0 as char, 3))
      else if 0xC0 <= b0 < 0xE0 then
        match Continuation(t, 3)
        case None => None
        case Some(b1) =>
          var cp := (b0 - 0xC0) * 64 + b1;
          if cp < 0x80 then None else Some((cp as char, 6))
      else if 0xE0 <= b0 < 0xF0 then
        match (Continuation(t, 3), Continuation(t, 6))
        case (Some(b1), Some(b2)) =>
          var cp := ((b0 - 0xE0) * 64 + b1) * 64 + b2;
          if cp < 0x800 || 0xD800 <= cp < 0xE000 then None else Some((cp as char, 9))
        case _ => None
      else if 0xF0 <= b0 < 0xF8 then
        match (Continuation(t, 3), Continuation(t, 6), Continuation(t, 9))
        case (Some(b1), Some(b2), Some(b3)) =>
          var cp := (((b0 - 0xF0) * 64 + b1) * 64 + b2) * 64 + b3;
          if cp < 0x10000 || cp >= 0x110000 then None else Some((cp as char, 12))
        case _ => None
      else None
  }

  /** `decodeURIComponent(t)`; None where it throws a URIError. */
  function Decode(t: string): (r: Option<string>)
    ensures r.Some? ==> |r.value| <= |t|
    decreases |t|
  {
    if t == [] then Some([])
    else if t[0] != '%' then
      match Decode(t[1..])
      case Some(rest) => Some([t[0]] + rest)
      case None => None
    else
      match DecodeEscapes(t)
      case None => None
      case Some((c, n)) =>
        match Decode(t[n..])
        case Some(rest) => Some([c] + rest)
        case None => None
  }

  lemma EscapeRead(b: Byte, t: string, i: nat)
    requires i + 3 <= |t| && t[i..i + 3] == Escape(b)
    ensures EscapedByte(t, i) == Some(b)
  {
    assert t[i] == '%' && t[i + 1] == HexDigit(b / 16) && t[i + 2] == HexDigit(b % 16);
    HexDigitValue(b / 16);
    HexDigitValue(b % 16);
  }

  /** The escapes of one character's bytes decode back to that character. */
  lemma EscapesOfCharDecode(c: char, rest: string)
    requires !Unreserved(c)
    ensures var e := EncodeChar(c); DecodeEscapes(e + rest) == Some((c, |e|))
  {
    var cp := c as int;
    EscapedAt(c, rest, 0);
    if cp < 0x80 {
    } else if cp < 0x800 {
      TwoByteDecode(c, rest);
    } else if cp < 0x10000 {
      ThreeByteDecode(c, rest);
    } else {
      FourByteDecode(c, rest);
    }
  }

  lemma TwoByteDecode(c: char, rest: string)
    requires !Unreserved(c) && 0x80 <= c as int < 0x800
    ensures DecodeEscapes(EncodeChar(c) + rest) == Some((c, 6))
  {
    var cp := c as int;
    EscapedAt(c, rest, 0);
    EscapedAt(c, rest, 1);
    assert (cp / 64) * 64 + cp % 64 == cp;
  }

  lemma ThreeByteDecode(c: char, rest: string)
    requires !Unreserved(c) && 0x800 <= c as int < 0x10000
    ensures DecodeEscapes(EncodeChar(c) + rest) == Some((c, 9))
  {
    var cp := c as int;
    var t := EncodeChar(c) + rest;
    ThreeEscapesRead(c, rest);
    DecodeThreeEscapes(t, cp / 64 / 64, cp / 64 % 64, cp % 64);
    assert (cp / 64 / 64) * 64 + cp / 64 % 64 == cp / 64;
    assert (cp / 64) * 64 + cp % 64 == cp;
  }

  /** The escapes of a three-byte character read back as its lead byte and two continuations. */
  lemma ThreeEscapesRead(c: char, rest: string)
    requires !Unreserved(c) && 0x800 <= c as int < 0x10000
    ensures var cp := c as int; var t := EncodeChar(c) + rest;
      && EscapedByte(t, 0) == Some(0xE0 + cp / 64 / 64)
      && Continuation(t, 3) == Some(cp / 64 % 64)
      && Continuation(t, 6) == Some(cp % 64)
  {
    EscapedAt(c, rest, 0);
    EscapedAt(c, rest, 1);
    EscapedAt(c, rest, 2);
  }

  /** A three-byte sequence: lead byte `0xE0 + b0` and two continuations carrying b1, b2. */
  lemma DecodeThreeEscapes(t: string, b0: nat, b1: nat, b2: nat)
    requires b0 < 16 && EscapedByte(t, 0) == Some(0xE0 + b0)
    requires Continuation(t, 3) == Some(b1) && Continuation(t, 6) == Some(b2)
    ensures var cp := (b0 * 64 + b1) * 64 + b2;
      DecodeEscapes(t) == if cp < 0x800 || 0xD800 <= cp < 0xE000 then None else Some((cp as char, 9))
  {
  }

  lemma FourByteDecode(c: char, rest: string)
    requires !Unreserved(c) && 0x10000 <= c as int
    ensures DecodeEscapes(EncodeChar(c) + rest) == Some((c, 12))
  {
    var cp := c as int;
    var t := EncodeChar(c) + rest;
    FourEscapesRead(c, rest);
    DecodeFourEscapes(t, cp / 64 / 64 / 64, cp / 64 / 64 % 64, cp / 64 % 64, cp % 64);
    SixBitGroups(cp);
  }

  /** The escapes of a four-byte character read back as its lead byte and three continuations. */
  lemma FourEscapesRead(c: char, rest: string)
    requires !Unreserved(c) && 0x10000 <= c as int
    ensures var cp := c as int; var t := EncodeChar(c) + rest;
      && EscapedByte(t, 0) == Some(0xF0 + cp / 64 / 64 / 64)
      && Continuation(t, 3) == Some(cp / 64 / 64 % 64)
      && Continuation(t, 6) == Some(cp / 64 % 64)
      && Continuation(t, 9) == Some(cp % 64)
  {
    EscapedAt(c, rest, 0);
    EscapedAt(c, rest, 1);
    EscapedAt(c, rest, 2);
    EscapedAt(c, rest, 3);
  }

  /** A four-byte sequence: lead byte `0xF0 + b0` and three continuations carrying b1, b2, b3. */
  lemma DecodeFourEscapes(t: string, b0: nat, b1: nat, b2: nat, b3: nat)
    requires b0 < 8 && EscapedByte(t, 0) == Some(0xF0 + b0)
    requires Continuation(t, 3) == Some(b1) && Continuation(t, 6) == Some(b2) && Continuation(t, 9) == Some(b3)
    ensures var cp := ((b0 * 64 + b1) * 64 + b2) * 64 + b3;
      DecodeEscapes(t) == if cp < 0x10000 || cp >= 0x110000 then None else Some((cp as char, 12))
  {
  }

  /** Reading four six-bit groups back, most significant first, gives the code point. */
  lemma SixBitGroups(cp: nat)
    ensures ((cp / 64 / 64 / 64 * 64 + cp / 64 / 64 % 64) * 64 + cp / 64 % 64) * 64 + cp % 64 == cp
  {
    assert (cp / 64 / 64 / 64) * 64 + cp / 64 / 64 % 64 == cp / 64 / 64;
    assert (cp / 64 / 64) * 64 + cp / 64 % 64 == cp / 64;
    assert (cp / 64) * 64 + cp % 64 == cp;
  }

  lemma EscapedAt(c: char, rest: string, k: nat)
    requires !Unreserved(c) && k < |Utf8(c)|
    ensures EscapedByte(EncodeChar(c) + rest, 3 * k) == Some(Utf8(c)[k])
  {
    var bs := Utf8(c);
    var e := EncodeChar(c);
    var t := e + rest;
    EscapeAllAt(bs, k);
    assert t[3 * k..3 * k + 3] == e[3 * k..3 * k + 3];
    EscapeRead(bs[k], t, 3 * k);
  }

  lemma {:induction false} EscapeAllAt(bs: seq<Byte>, k: nat)
    requires k < |bs|
    ensures EscapeAll(bs)[3 * k..3 * k + 3] == Escape(bs[k])
  {
    if k > 0 {
      EscapeAllAt(bs[1..], k - 1);
      assert EscapeAll(bs)[3..] == EscapeAll(bs[1..]);
    }
  }

  /** `decodeURIComponent(encodeURIComponent(s)) == s`: the URL of a photo leads back to its name. */
  lemma {:induction false} DecodeEncode(s: string)
    ensures Decode(Encode(s)) == Some(s)
  {
    if s != [] {
      var e := EncodeChar(s[0]);
      var rest := Encode(s[1..]);
      var t := e + rest;
      assert Encode(s) == t;
      DecodeEncode(s[1..]);
      if Unreserved(s[0]) {
        assert t[0] == s[0] != '%' && t[1..] == rest;
      } else {
        EscapesOfCharDecode(s[0], rest);
        assert t[0] == '%';
        assert t[|e|..] == rest;
      }
      assert [s[0]] + s[1..] == s;
    }
  }
}
