/**
 UTF-8 (RFC 3629) and the construction of strings from `\u` escapes.
 */
module Utf8 {
  import opened Bytes
  import opened Wrappers

  predicate IsSurrogate(cp: int) {
    0xD800 <= cp <= 0xDFFF
  }

  /** A Unicode scalar value. */
  predicate IsScalar(cp: int) {
    0 <= cp <= 0x10FFFF && !IsSurrogate(cp)
  }

  type Scalar = cp: int | 0 <= cp < 0xD800 || 0xE000 <= cp <= 0x10FFFF

  /** The encoding of a code point, section 3 of RFC 3629. */
  function EncodePoint(cp: int): (s: bytes)
    requires 0 <= cp <= 0x10FFFF
    ensures 1 <= |s| <= 4
  {
    if cp <= 0x7F then [cp]
    else if cp <= 0x7FF then [0xC0 + cp / 64, 0x80 + cp % 64]
    else if cp <= 0xFFFF then [0xE0 + cp / 64 / 64, 0x80 + cp / 64 % 64, 0x80 + cp % 64]
    else [0xF0 + cp / 64 / 64 / 64, 0x80 + cp / 64 / 64 % 64, 0x80 + cp / 64 % 64, 0x80 + cp % 64]
  }

  predicate Tail(c: byte) {
    0x80 <= c <= 0xBF
  }

  /** The syntax of a multi-byte sequence, section 4 of RFC 3629. */
  predicate IsMultiByte(s: bytes) {
    match |s|
    case 2 => 0xC2 <= s[0] <= 0xDF && Tail(s[1])
    case 3 =>
      && Tail(s[2])
      && (|| (s[0] == 0xE0 && 0xA0 <= s[1] <= 0xBF)
          || (0xE1 <= s[0] <= 0xEC && Tail(s[1]))
          || (s[0] == 0xED && 0x80 <= s[1] <= 0x9F)
          || (0xEE <= s[0] <= 0xEF && Tail(s[1])))
    case 4 =>
      && Tail(s[2]) && Tail(s[3])
      && (|| (s[0] == 0xF0 && 0x90 <= s[1] <= 0xBF)
          || (0xF1 <= s[0] <= 0xF3 && Tail(s[1]))
          || (s[0] == 0xF4 && 0x80 <= s[1] <= 0x8F))
    case _ => false
  }

  /** The code point of a multi-byte sequence. */
  function DecodeMultiByte(s: bytes): int
    requires IsMultiByte(s)
  {
    if |s| == 2 then (s[0] as int - 0xC0) * 64 + (s[1] as int - 0x80)
    else if |s| == 3 then ((s[0] as int - 0xE0) * 64 + (s[1] as int - 0x80)) * 64 + (s[2] as int - 0x80)
    else
      (((s[0] as int - 0xF0) * 64 + (s[1] as int - 0x80)) * 64 + (s[2] as int - 0x80)) * 64 + (s[3] as int - 0x80)
  }

  lemma Digits64(a: int, b: int)
    requires 0 <= b < 64
    ensures (a * 64 + b) / 64 == a && (a * 64 + b) % 64 == b
  {
  }

  /** The multi-byte sequences are the encodings of the scalar values from U+0080 on. */
  lemma MultiByteDecodes(s: bytes)
    requires IsMultiByte(s)
    ensures IsScalar(DecodeMultiByte(s)) && DecodeMultiByte(s) >= 0x80
    ensures EncodePoint(DecodeMultiByte(s)) == s
  {
    hide DecodeMultiByte, EncodePoint;
    if |s| == 2 {
      TwoByteDecodes(s);
    } else if |s| == 3 {
      ThreeByteDecodes(s);
    } else {
      FourByteDecodes(s);
    }
  }

  lemma TwoByteDecodes(s: bytes)
    requires IsMultiByte(s) && |s| == 2
    ensures 0x80 <= DecodeMultiByte(s) <= 0x7FF && EncodePoint(DecodeMultiByte(s)) == s
  {
    Digits64(s[0] as int - 0xC0, s[1] as int - 0x80);
  }

  lemma ThreeByteDecodes(s: bytes)
    requires IsMultiByte(s) && |s| == 3
    ensures IsScalar(DecodeMultiByte(s)) && 0x800 <= DecodeMultiByte(s) <= 0xFFFF
    ensures EncodePoint(DecodeMultiByte(s)) == s
  {
    var a, b, c := s[0] as int - 0xE0, s[1] as int - 0x80, s[2] as int - 0x80;
    Digits64(a, b);
    Digits64(a * 64 + b, c);
  }

  lemma FourByteDecodes(s: bytes)
    requires IsMultiByte(s) && |s| == 4
    ensures 0x10000 <= DecodeMultiByte(s) <= 0x10FFFF && EncodePoint(DecodeMultiByte(s)) == s
  {
    var a, b, c, d := s[0] as int - 0xF0, s[1] as int - 0x80, s[2] as int - 0x80, s[3] as int - 0x80;
    Digits64(a, b);
    Digits64(a * 64 + b, c);
    Digits64((a * 64 + b) * 64 + c, d);
  }

  lemma EncodedIsMultiByte(cp: int)
    requires IsScalar(cp) && cp >= 0x80
    ensures IsMultiByte(EncodePoint(cp)) && DecodeMultiByte(EncodePoint(cp)) == cp
  {
    var a, b := cp / 64, cp / 64 / 64;
    assert cp == a * 64 + cp % 64 && a == b * 64 + a % 64;
  }

  /** The encoding of a sequence of scalar values. */
  function EncodePoints(cps: seq<Scalar>): bytes {
    if cps == [] then [] else EncodePoint(cps[0]) + EncodePoints(cps[1..])
  }

  /** Well-formed UTF-8. */
  ghost predicate WellFormed(s: bytes) {
    exists cps: seq<Scalar> :: s == EncodePoints(cps)
  }

  // ----- to_unicode -----

  predicate IsHigh(cp: int) {
    0xD800 <= cp <= 0xDBFF
  }

  predicate IsLow(cp: int) {
    0xDC00 <= cp <= 0xDFFF
  }

  /** The bytes that `to_unicode` composes for a code point, with its shifts and masks. */
  function Compose(cp: nat): Result<bytes> {
    if cp < 0x80 then Ok([cp])
    else if cp <= 0x7FF then Ok([0xC0 + cp / 64 % 32, 0x80 + cp % 64])
    else if cp <= 0xFFFF then Ok([0xE0 + cp / 4096 % 16, 0x80 + cp / 64 % 64, 0x80 + cp % 64])
    else if cp <= 0x10FFFF then
      Ok([0xF0 + cp / 262144 % 8, 0x80 + cp / 4096 % 64, 0x80 + cp / 64 % 64, 0x80 + cp % 64])
    else Err(OutOfRange)
  }

  /** `to_unicode`. */
  function ToUnicode(codepoint1: nat, codepoint2: nat): Result<bytes> {
    if IsHigh(codepoint1) then
      if IsLow(codepoint2) then Compose(codepoint1 * 1024 + codepoint2 - 0x35FDC00) else Err(InvalidArgument)
    else Compose(codepoint1)
  }

  /** The code point of a surrogate pair, section 2.1 of RFC 2781. */
  function PairPoint(high: int, low: int): int {
    0x10000 + (high - 0xD800) * 0x400 + (low - 0xDC00)
  }

  /** The shifts and masks produce the encoding. */
  lemma ComposeEncodes(cp: nat)
    requires cp <= 0x10FFFF
    ensures Compose(cp) == Ok(EncodePoint(cp))
  {
    var high := cp / 64;
    assert cp / 4096 == high / 64;
    assert cp / 262144 == high / 64 / 64;
  }

  /** A surrogate pair gives the encoding of its supplementary code point. */
  lemma ToUnicodePair(high: nat, low: nat)
    requires IsHigh(high) && IsLow(low)
    ensures 0x10000 <= PairPoint(high, low) <= 0x10FFFF
    ensures ToUnicode(high, low) == Ok(EncodePoint(PairPoint(high, low)))
    ensures IsMultiByte(EncodePoint(PairPoint(high, low)))
    ensures DecodeMultiByte(EncodePoint(PairPoint(high, low))) == PairPoint(high, low)
  {
    hide EncodePoint, Compose, IsMultiByte, DecodeMultiByte;
    var cp := PairPoint(high, low);
    assert cp == high * 1024 + low - 0x35FDC00;
    ComposeEncodes(cp);
    EncodedIsMultiByte(cp);
  }

  /** A code point of the Basic Multilingual Plane gives its encoding. */
  lemma ToUnicodeSingle(cp: nat, other: nat)
    requires cp <= 0xFFFF && !IsSurrogate(cp)
    ensures ToUnicode(cp, other) == Ok(EncodePoint(cp))
  {
  }
}
