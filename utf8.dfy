/**
 * Go's conversion `[]byte(s)` of a string to its bytes. A Go string literal
 * holds UTF-8, and a Dafny `string` is a sequence of Unicode scalar values,
 * so the conversion is UTF-8 encoding. A decoder shows that the encoding
 * loses nothing: two strings convert to the same bytes only if they are
 * equal. The decoder is a left inverse of `Encode`, not a validating UTF-8
 * decoder: it accepts overlong forms and does not check continuation bytes.
 */
module Utf8 {
  import opened Wrappers

  newtype byte = x: int | 0 <= x < 256
  type Bytes = seq<byte>

  /** The UTF-8 bytes of one scalar value: one to four bytes. */
  function EncodeRune(c: char): (b: Bytes)
    ensures 1 <= |b| <= 4
    ensures |b| == RuneLength(b[0])
  {
    var n := c as int;
    if n < 0x80 then
      [n as byte]
    else if n < 0x800 then
      [(0xC0 + n / 0x40) as byte, (0x80 + n % 0x40) as byte]
    else if n < 0x10000 then
      [(0xE0 + n / 0x1000) as byte, (0x80 + n / 0x40 % 0x40) as byte, (0x80 + n % 0x40) as byte]
    else
      [(0xF0 + n / 0x40000) as byte, (0x80 + n / 0x1000 % 0x40) as byte,
       (0x80 + n / 0x40 % 0x40) as byte, (0x80 + n % 0x40) as byte]
  }

  /** The length of an encoded rune, read from its leading byte. */
  function RuneLength(lead: byte): (n: nat)
  {
    if lead < 0x80 then 1 else if lead < 0xE0 then 2 else if lead < 0xF0 then 3 else 4
  }

  /** `[]byte(s)`: the concatenated encodings of the runes of `s`. */
  function Encode(s: string): (b: Bytes)
    ensures |s| <= |b| <= 4 * |s|
  {
    if s == [] then [] else EncodeRune(s[0]) + Encode(s[1..])
  }

  /**
   * The scalar value spelt by one encoded rune, read off the payload bits of
   * each byte; surrogates and values past U+10FFFF are refused, but overlong
   * forms and malformed continuation bytes are not checked.
   */
  function DecodeRune(b: Bytes): (r: Option<char>)
    requires 1 <= |b| <= 4
  {
    var n :=
      if |b| == 1 then b[0] as int
      else if |b| == 2 then (b[0] as int - 0xC0) * 0x40 + (b[1] as int - 0x80)
      else if |b| == 3 then (b[0] as int - 0xE0) * 0x1000 + (b[1] as int - 0x80) * 0x40 + (b[2] as int - 0x80)
      else (b[0] as int - 0xF0) * 0x40000 + (b[1] as int - 0x80) * 0x1000 + (b[2] as int - 0x80) * 0x40 + (b[3] as int - 0x80);
    if 0 <= n < 0xD800 || 0xE000 <= n < 0x11_0000 then Some(n as char) else None
  }

  /** Reads runes off the front of `b` until it is used up: a left inverse of `Encode`. */
  function Decode(b: Bytes): (r: Option<string>)
    decreases |b|
  {
    if b == [] then Some([])
    else
      var n := RuneLength(b[0]);
      if |b| < n then None
      else match (DecodeRune(b[..n]), Decode(b[n..]))
        case (Some(c), Some(rest)) => Some([c] + rest)
        case _ => None
  }

  lemma DecodeRuneOfEncodeRune(c: char)
    ensures DecodeRune(EncodeRune(c)) == Some(c)
  {
    var n := c as int;
    if n < 0x80 {
    } else if n < 0x800 {
      DecodeTwo(n);
    } else if n < 0x10000 {
      DecodeThree(n);
    } else {
      DecodeFour(n);
    }
  }

  lemma DecodeTwo(n: int)
    requires 0x80 <= n < 0x800
    ensures (0xC0 + n / 0x40 - 0xC0) * 0x40 + (0x80 + n % 0x40 - 0x80) == n
  {
  }

  lemma DecodeThree(n: int)
    requires 0x800 <= n < 0x10000
    ensures (0xE0 + n / 0x1000 - 0xE0) * 0x1000 + (0x80 + n / 0x40 % 0x40 - 0x80) * 0x40
            + (0x80 + n % 0x40 - 0x80) == n
  {
    var a, b := n / 0x40, n % 0x40;
    assert n == a * 0x40 + b;
    assert a == a / 0x40 * 0x40 + a % 0x40;
    assert a / 0x40 == n / 0x1000;
  }

  lemma DecodeFour(n: int)
    requires 0x10000 <= n < 0x11_0000
    ensures (0xF0 + n / 0x40000 - 0xF0) * 0x40000 + (0x80 + n / 0x1000 % 0x40 - 0x80) * 0x1000
            + (0x80 + n / 0x40 % 0x40 - 0x80) * 0x40 + (0x80 + n % 0x40 - 0x80) == n
  {
    var a, b := n / 0x40, n % 0x40;
    assert n == a * 0x40 + b;
    var c, d := a / 0x40, a % 0x40;
    assert a == c * 0x40 + d;
    assert c == n / 0x1000;
    assert c == c / 0x40 * 0x40 + c % 0x40;
    assert c / 0x40 == n / 0x40000;
  }

  /** Decoding undoes the conversion of any string. */
  lemma {:induction false} DecodeEncode(s: string)
    ensures Decode(Encode(s)) == Some(s)
  {
    if s != [] {
      var e := EncodeRune(s[0]);
      var b := Encode(s);
      assert b == e + Encode(s[1..]);
      assert b[..|e|] == e && b[|e|..] == Encode(s[1..]);
      DecodeRuneOfEncodeRune(s[0]);
      DecodeEncode(s[1..]);
      assert [s[0]] + s[1..] == s;
    }
  }

  /** The conversion is injective: distinct strings give distinct bytes. */
  lemma EncodeInjective(s: string, t: string)
    ensures Encode(s) == Encode(t) <==> s == t
  {
    if Encode(s) == Encode(t) {
      DecodeEncode(s);
      DecodeEncode(t);
    }
  }

  /** A string of ASCII characters converts to one byte per character. */
  lemma {:induction false} EncodeAscii(s: string)
    requires forall i :: 0 <= i < |s| ==> s[i] as int < 0x80
    ensures |Encode(s)| == |s|
    ensures forall i :: 0 <= i < |s| ==> Encode(s)[i] as int == s[i] as int
  {
    if s != [] {
      EncodeAscii(s[1..]);
    }
  }
}
