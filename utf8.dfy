/**
 * UTF-8 as Rust's `core::str::from_utf8` accepts it: the well-formed byte
 * sequences of the Unicode Standard (no overlong forms, no surrogates, nothing
 * above U+10FFFF), and the encoding of a `char` into those bytes.
 */
module Utf8 {
  import opened Wrappers
  import opened Numeric

  predicate IsContinuation(b: Byte) { 0x80 <= b < 0xC0 }

  /** The second byte of a three-byte sequence, which depends on the lead byte. */
  predicate SecondOfThree(lead: Byte, b: Byte) {
    if lead == 0xE0 then 0xA0 <= b < 0xC0
    else if lead == 0xED then 0x80 <= b < 0xA0
    else IsContinuation(b)
  }

  /** The second byte of a four-byte sequence, which depends on the lead byte. */
  predicate SecondOfFour(lead: Byte, b: Byte) {
    if lead == 0xF0 then 0x90 <= b < 0xC0
    else if lead == 0xF4 then 0x80 <= b < 0x90
    else IsContinuation(b)
  }

  /** The code point of a well-formed two-byte sequence: U+0080 to U+07FF. */
  function Scalar2(b0: Byte, b1: Byte): (cp: int)
    requires 0xC2 <= b0 < 0xE0 && IsContinuation(b1)
    ensures 0x80 <= cp < 0x800
  {
    (b0 as int - 0xC0) * 64 + (b1 as int - 0x80)
  }

  /** The code point of a well-formed three-byte sequence: U+0800 to U+FFFF, no surrogate. */
  function Scalar3(b0: Byte, b1: Byte, b2: Byte): (cp: int)
    requires 0xE0 <= b0 < 0xF0 && SecondOfThree(b0, b1) && IsContinuation(b2)
    ensures 0x800 <= cp < 0xD800 || 0xE000 <= cp < 0x10000
  {
    (b0 as int - 0xE0) * 4096 + (b1 as int - 0x80) * 64 + (b2 as int - 0x80)
  }

  /** The code point of a well-formed four-byte sequence: U+10000 to U+10FFFF. */
  function Scalar4(b0: Byte, b1: Byte, b2: Byte, b3: Byte): (cp: int)
    requires 0xF0 <= b0 < 0xF5 && SecondOfFour(b0, b1) && IsContinuation(b2) && IsContinuation(b3)
    ensures 0x10000 <= cp < 0x110000
  {
    (b0 as int - 0xF0) * 262144 + (b1 as int - 0x80) * 4096 + (b2 as int - 0x80) * 64 + (b3 as int - 0x80)
  }

  /** The first character of `b` and how many bytes it occupies, if `b` starts well formed. */
  function DecodeFirst(b: seq<Byte>): (r: Option<(char, nat)>)
    ensures r.Some? ==> 1 <= r.value.1 <= |b| && r.value.1 <= 4
    ensures |b| > 0 && b[0] < 0x80 ==> r == Some((b[0] as char, 1))
    ensures |b| > 0 && b[0] >= 0x80 && r.Some? ==> r.value.0 as int >= 0x80
  {
    if |b| == 0 then None
    else if b[0] < 0x80 then Some((b[0] as char, 1))
    else if 0xC2 <= b[0] < 0xE0 then
      if |b| >= 2 && IsContinuation(b[1])
      then Some((Scalar2(b[0], b[1]) as char, 2))
      else None
    else if 0xE0 <= b[0] < 0xF0 then
      if |b| >= 3 && SecondOfThree(b[0], b[1]) && IsContinuation(b[2])
      then Some((Scalar3(b[0], b[1], b[2]) as char, 3))
      else None
    else if 0xF0 <= b[0] < 0xF5 then
      if |b| >= 4 && SecondOfFour(b[0], b[1]) && IsContinuation(b[2]) && IsContinuation(b[3])
      then Some((Scalar4(b[0], b[1], b[2], b[3]) as char, 4))
      else None
    else None
  }

  /** `core::str::from_utf8`: the text the bytes spell, or None if they are not well-formed UTF-8. */
  function Decode(b: seq<Byte>): Option<string>
    decreases |b|
  {
    if b == [] then Some([])
    else match DecodeFirst(b)
      case None => None
      case Some((c, n)) =>
        match Decode(b[n..])
        case None => None
        case Some(rest) => Some([c] + rest)
  }

  /** The UTF-8 bytes of one character. */
  function EncodeChar(c: char): (r: seq<Byte>)
    ensures 1 <= |r| <= 4
    ensures (|r| == 1) == (c as int < 0x80)
    ensures |r| == 1 ==> r[0] == c as int
  {
    var cp := c as int;
    if cp < 0x80 then [cp]
    else if cp < 0x800 then [0xC0 + cp / 64, 0x80 + cp % 64]
    else if cp < 0x10000 then [0xE0 + cp / 4096, 0x80 + (cp / 64) % 64, 0x80 + cp % 64]
    else [0xF0 + cp / 262144, 0x80 + (cp / 4096) % 64, 0x80 + (cp / 64) % 64, 0x80 + cp % 64]
  }

  /** The UTF-8 bytes of a string (`str::as_bytes`). */
  function Encode(s: string): (r: seq<Byte>)
    ensures |r| >= |s|
  {
    if s == [] then [] else EncodeChar(s[0]) + Encode(s[1..])
  }

  lemma Encoded2(cp: int)
    requires 0x80 <= cp < 0x800
    ensures 0xC2 <= 0xC0 + cp / 64 < 0xE0 && 0 <= cp % 64 < 64
    ensures (cp / 64) * 64 + cp % 64 == cp
  {
  }

  lemma Encoded3(cp: int)
    requires 0x800 <= cp < 0xD800 || 0xE000 <= cp < 0x10000
    ensures 0xE0 <= 0xE0 + cp / 4096 < 0xF0 && 0 <= (cp / 64) % 64 < 64 && 0 <= cp % 64 < 64
    ensures SecondOfThree(0xE0 + cp / 4096, 0x80 + (cp / 64) % 64)
    ensures (cp / 4096) * 4096 + ((cp / 64) % 64) * 64 + cp % 64 == cp
  {
    var q, r := cp / 4096, cp % 4096;
    assert cp == q * 4096 + r && 0 <= r < 4096;
    var m, l := r / 64, r % 64;
    assert r == m * 64 + l && 0 <= m < 64 && 0 <= l < 64;
    assert cp == (q * 64 + m) * 64 + l;
    assert cp / 64 == q * 64 + m;
    assert (cp / 64) % 64 == m;
    assert cp % 64 == l;
    assert q == 0 ==> m >= 32;
    assert q == 13 ==> m < 32;
  }

  lemma Encoded4(cp: int)
    requires 0x10000 <= cp < 0x110000
    ensures 0xF0 <= 0xF0 + cp / 262144 < 0xF5 && 0 <= (cp / 4096) % 64 < 64
    ensures 0 <= (cp / 64) % 64 < 64 && 0 <= cp % 64 < 64
    ensures SecondOfFour(0xF0 + cp / 262144, 0x80 + (cp / 4096) % 64)
    ensures (cp / 262144) * 262144 + ((cp / 4096) % 64) * 4096 + ((cp / 64) % 64) * 64 + cp % 64 == cp
  {
    var q, r := cp / 262144, cp % 262144;
    assert cp == q * 262144 + r && 0 <= r < 262144;
    var h, r2 := r / 4096, r % 4096;
    assert r == h * 4096 + r2 && 0 <= h < 64 && 0 <= r2 < 4096;
    var m, l := r2 / 64, r2 % 64;
    assert r2 == m * 64 + l && 0 <= m < 64 && 0 <= l < 64;
    assert cp == ((q * 64 + h) * 64 + m) * 64 + l;
    assert cp / 4096 == q * 64 + h;
    assert (cp / 4096) % 64 == h;
    assert cp / 64 == (q * 64 + h) * 64 + m;
    assert (cp / 64) % 64 == m;
    assert cp % 64 == l;
    assert q == 0 ==> h >= 16;
    assert q == 4 ==> h < 16;
  }

  lemma DecodeFirstOfEncoded(c: char, rest: seq<Byte>)
    ensures DecodeFirst(EncodeChar(c) + rest) == Some((c, |EncodeChar(c)|))
  {
    var cp := c as int;
    if cp < 0x80 {
    } else if cp < 0x800 {
      Encoded2(cp);
    } else if cp < 0x10000 {
      Encoded3(cp);
    } else {
      Encoded4(cp);
    }
  }

  /** Decoding undoes encoding: every string survives the trip through its UTF-8 bytes. */
  lemma {:induction false} DecodeEncode(s: string)
    ensures Decode(Encode(s)) == Some(s)
  {
    if s != [] {
      var e := EncodeChar(s[0]);
      var b := Encode(s);
      DecodeFirstOfEncoded(s[0], Encode(s[1..]));
      assert b[|e|..] == Encode(s[1..]);
      DecodeEncode(s[1..]);
      assert [s[0]] + s[1..] == s;
    }
  }

  /** Bytes below 0x80 are ASCII and decode one character each, unchanged. */
  lemma {:induction false} DecodeAscii(b: seq<Byte>)
    requires forall i :: 0 <= i < |b| ==> b[i] < 0x80
    ensures Decode(b).Some?
    ensures |Decode(b).value| == |b|
    ensures forall i :: 0 <= i < |b| ==> Decode(b).value[i] as int == b[i]
  {
    if b != [] {
      DecodeAscii(b[1..]);
    }
  }

  /** ASCII text is its own UTF-8 encoding: one byte per character, same value. */
  lemma {:induction false} EncodeAscii(s: string)
    requires forall i :: 0 <= i < |s| ==> s[i] as int < 0x80
    ensures |Encode(s)| == |s|
    ensures forall i :: 0 <= i < |s| ==> Encode(s)[i] == s[i] as int
  {
    if s != [] {
      EncodeAscii(s[1..]);
    }
  }
}
