/**
 * The two byte-level conversions `hash_password` performs around the hash:
 * Python's `str.encode()` (UTF-8) before hashing and `hexdigest()` (lower-case
 * hexadecimal) after it, each with its decoder and the round trips that
 * connect them.
 */
module Encoding {
  import opened Wrappers

  newtype byte = x: int | 0 <= x < 256

  // ---------------------------------------------------------------------------
  // str.encode(): UTF-8
  // ---------------------------------------------------------------------------

  /** A continuation byte, 10xxxxxx. */
  predicate IsContinuation(b: byte)
  {
    0x80 <= b < 0xC0
  }

  /** The UTF-8 encoding of one Unicode scalar value: one to four bytes. */
  function EncodeChar(ch: char): (r: seq<byte>)
    ensures 1 <= |r| <= 4
    ensures |r| == 1 <==> ch as int < 0x80
    ensures forall i :: 1 <= i < |r| ==> IsContinuation(r[i])
  {
    var cp := ch as int;
    if cp < 0x80 then
      [cp as byte]
    else if cp < 0x800 then
      [(0xC0 + cp / 64) as byte, (0x80 + cp % 64) as byte]
    else if cp < 0x10000 then
      [(0xE0 + cp / 4096) as byte, (0x80 + (cp / 64) % 64) as byte, (0x80 + cp % 64) as byte]
    else
      [(0xF0 + cp / 262144) as byte, (0x80 + (cp / 4096) % 64) as byte,
       (0x80 + (cp / 64) % 64) as byte, (0x80 + cp % 64) as byte]
  }

  /** Python's `s.encode()`, whose default codec is UTF-8. */
  function Utf8Encode(s: string): seq<byte>
  {
    if |s| == 0 then [] else EncodeChar(s[0]) + Utf8Encode(s[1..])
  }

  /** A code point as a `char`, when it is a Unicode scalar value. */
  function ScalarOf(cp: int): Option<char>
  {
    if 0 <= cp < 0xD800 || 0xE000 <= cp < 0x110000 then Some(cp as char) else None
  }

  /**
   * Decodes the first character of `b` under the strict UTF-8 rules (no
   * overlong forms, no surrogates, nothing above U+10FFFF), returning it with
   * the number of bytes it used.
   */
  function DecodeFirst(b: seq<byte>): (r: Option<(char, nat)>)
    requires |b| > 0
    ensures r.Some? ==> 1 <= r.value.1 <= |b|
  {
    var b0 := b[0] as int;
    if b0 < 0x80 then
      Some((b0 as char, 1))
    else if 0xC2 <= b0 < 0xE0 && |b| >= 2 && IsContinuation(b[1]) then
      var cp := (b0 - 0xC0) * 64 + (b[1] as int - 0x80);
      match ScalarOf(cp)
      case Some(ch) => Some((ch, 2))
      case None => None
    else if 0xE0 <= b0 < 0xF0 && |b| >= 3 && IsContinuation(b[1]) && IsContinuation(b[2]) then
      var cp := (b0 - 0xE0) * 4096 + (b[1] as int - 0x80) * 64 + (b[2] as int - 0x80);
      if cp < 0x800 then None
      else match ScalarOf(cp)
        case Some(ch) => Some((ch, 3))
        case None => None
    else if 0xF0 <= b0 < 0xF5 && |b| >= 4 && IsContinuation(b[1]) && IsContinuation(b[2]) && IsContinuation(b[3]) then
      var cp := (b0 - 0xF0) * 262144 + (b[1] as int - 0x80) * 4096 + (b[2] as int - 0x80) * 64 + (b[3] as int - 0x80);
      if cp < 0x10000 then None
      else match ScalarOf(cp)
        case Some(ch) => Some((ch, 4))
        case None => None
    else
      None
  }

  /** Python's `b.decode()` (strict UTF-8): the text, or `None` where Python raises. */
  function Utf8Decode(b: seq<byte>): Option<string>
    decreases |b|
  {
    if |b| == 0 then Some("")
    else match DecodeFirst(b)
      case None => None
      case Some((ch, n)) =>
        match Utf8Decode(b[n..])
        case None => None
        case Some(rest) => Some([ch] + rest)
  }

  /** The encoding of one character decodes back to it, whatever follows. */
  lemma DecodeEncodedChar(ch: char, rest: seq<byte>)
    ensures DecodeFirst(EncodeChar(ch) + rest) == Some((ch, |EncodeChar(ch)|))
  {
    var cp := ch as int;
    if cp < 0x80 {
    } else if cp < 0x800 {
      DecodeTwo(ch, rest);
    } else if cp < 0x10000 {
      DecodeThree(ch, rest);
    } else {
      DecodeFour(ch, rest);
    }
  }

  lemma DecodeTwo(ch: char, rest: seq<byte>)
    requires 0x80 <= ch as int < 0x800
    ensures DecodeFirst(EncodeChar(ch) + rest) == Some((ch, 2))
  {
  }

  lemma DecodeThree(ch: char, rest: seq<byte>)
    requires 0x800 <= ch as int < 0x10000
    ensures DecodeFirst(EncodeChar(ch) + rest) == Some((ch, 3))
  {
    var cp := ch as int;
    var b := EncodeChar(ch) + rest;
    var hi, mid, lo := cp / 4096, (cp / 64) % 64, cp % 64;
    assert b[0] as int == 0xE0 + hi && b[1] as int == 0x80 + mid && b[2] as int == 0x80 + lo;
    assert hi * 4096 + mid * 64 + lo == cp by { Digits64(cp); }
    assert ScalarOf(cp) == Some(ch);
  }

  lemma DecodeFour(ch: char, rest: seq<byte>)
    requires 0x10000 <= ch as int
    ensures DecodeFirst(EncodeChar(ch) + rest) == Some((ch, 4))
  {
    var cp := ch as int;
    var b := EncodeChar(ch) + rest;
    var top, hi, mid, lo := cp / 262144, (cp / 4096) % 64, (cp / 64) % 64, cp % 64;
    assert b[0] as int == 0xF0 + top && b[1] as int == 0x80 + hi;
    assert b[2] as int == 0x80 + mid && b[3] as int == 0x80 + lo;
    assert top * 262144 + hi * 4096 + mid * 64 + lo == cp by { Digits64(cp); }
    assert ScalarOf(cp) == Some(ch);
  }

  /** Base-64 digits of a code point put back together. */
  lemma Digits64(cp: nat)
    ensures (cp / 4096) * 4096 + ((cp / 64) % 64) * 64 + cp % 64 == cp
    ensures (cp / 262144) * 262144 + ((cp / 4096) % 64) * 4096 + ((cp / 64) % 64) * 64 + cp % 64 == cp
  {
    var q := cp / 64;
    assert q * 64 + cp % 64 == cp;
    assert (q / 64) * 64 + q % 64 == q;
    assert q / 64 == cp / 4096;
    var r := cp / 4096;
    assert (r / 64) * 64 + r % 64 == r;
    assert r / 64 == cp / 262144;
  }

  /** Decoding the UTF-8 encoding of a string gives the string back. */
  lemma {:induction false} Utf8RoundTrip(s: string)
    ensures Utf8Decode(Utf8Encode(s)) == Some(s)
    decreases |s|
  {
    if |s| > 0 {
      var e := EncodeChar(s[0]);
      var tail := Utf8Encode(s[1..]);
      DecodeEncodedChar(s[0], tail);
      Utf8RoundTrip(s[1..]);
      assert (e + tail)[|e|..] == tail;
      assert s == [s[0]] + s[1..];
    }
  }

  /** Different strings have different UTF-8 encodings. */
  lemma Utf8Injective(s: string, t: string)
    requires Utf8Encode(s) == Utf8Encode(t)
    ensures s == t
  {
    Utf8RoundTrip(s);
    Utf8RoundTrip(t);
  }

  // ---------------------------------------------------------------------------
  // hexdigest(): lower-case hexadecimal, two digits per byte
  // ---------------------------------------------------------------------------

  predicate IsLowerHexDigit(ch: char)
  {
    '0' <= ch <= '9' || 'a' <= ch <= 'f'
  }

  /** A string of lower-case hexadecimal digits, as `hexdigest()` produces. */
  predicate IsLowerHex(s: string)
  {
    forall i :: 0 <= i < |s| ==> IsLowerHexDigit(s[i])
  }

  function HexDigit(n: nat): (ch: char)
    requires n < 16
    ensures IsLowerHexDigit(ch)
  {
    if n < 10 then ('0' as int + n) as char else ('a' as int + (n - 10)) as char
  }

  function HexValue(ch: char): (n: nat)
    requires IsLowerHexDigit(ch)
    ensures n < 16 && HexDigit(n) == ch
  {
    if ch <= '9' then ch as int - '0' as int else ch as int - 'a' as int + 10
  }

  /** `hexdigest()` of the bytes `d`: the high nibble, then the low nibble, of each byte in turn. */
  function HexOf(d: seq<byte>): (s: string)
    ensures |s| == 2 * |d|
    ensures IsLowerHex(s)
  {
    if |d| == 0 then ""
    else [HexDigit(d[0] as int / 16), HexDigit(d[0] as int % 16)] + HexOf(d[1..])
  }

  /** `bytes.fromhex` restricted to the lower-case form: the bytes, or `None` if `s` is not such a string. */
  function Unhex(s: string): Option<seq<byte>>
    decreases |s|
  {
    if |s| == 0 then Some([])
    else if |s| == 1 || !IsLowerHexDigit(s[0]) || !IsLowerHexDigit(s[1]) then None
    else match Unhex(s[2..])
      case None => None
      case Some(rest) => Some([(HexValue(s[0]) * 16 + HexValue(s[1])) as byte] + rest)
  }

  /** Reading back a hex digest gives the bytes. */
  lemma {:induction false} UnhexHexOf(d: seq<byte>)
    ensures Unhex(HexOf(d)) == Some(d)
    decreases |d|
  {
    if |d| > 0 {
      UnhexHexOf(d[1..]);
      var s := HexOf(d);
      assert s[2..] == HexOf(d[1..]);
      assert HexValue(s[0]) == d[0] as int / 16;
      assert HexValue(s[1]) == d[0] as int % 16;
      assert d == [d[0]] + d[1..];
    }
  }

  /** `Unhex` reads back exactly the lower-case hex strings of even length. */
  lemma {:induction false} UnhexDefined(s: string)
    ensures Unhex(s).Some? <==> |s| % 2 == 0 && IsLowerHex(s)
    decreases |s|
  {
    if |s| >= 2 {
      UnhexDefined(s[2..]);
      if IsLowerHex(s) {
        assert IsLowerHex(s[2..]);
      } else if IsLowerHexDigit(s[0]) && IsLowerHexDigit(s[1]) {
        var i :| 0 <= i < |s| && !IsLowerHexDigit(s[i]);
        assert !IsLowerHexDigit(s[2..][i - 2]);
      }
    }
  }

  /** Every lower-case hex string of even length is the hex digest of the bytes it reads back as. */
  lemma {:induction false} HexOfUnhex(s: string)
    requires |s| % 2 == 0 && IsLowerHex(s)
    ensures Unhex(s).Some? && HexOf(Unhex(s).value) == s
    decreases |s|
  {
    UnhexDefined(s);
    if |s| > 0 {
      assert IsLowerHex(s[2..]);
      HexOfUnhex(s[2..]);
      var d := Unhex(s).value;
      assert d[1..] == Unhex(s[2..]).value;
      var n := HexValue(s[0]) * 16 + HexValue(s[1]);
      assert d[0] as int == n;
      assert n / 16 == HexValue(s[0]) && n % 16 == HexValue(s[1]);
      assert s == [s[0], s[1]] + s[2..];
    }
  }

  /** Two byte strings have the same hex digest exactly when they are equal. */
  lemma HexOfInjective(d: seq<byte>, e: seq<byte>)
    ensures HexOf(d) == HexOf(e) <==> d == e
  {
    if HexOf(d) == HexOf(e) {
      UnhexHexOf(d);
      UnhexHexOf(e);
    }
  }
}
