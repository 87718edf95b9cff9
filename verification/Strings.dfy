/**
 What a JSON string stands for, and how `get_string` computes it.
 */
module Strings {
  import opened Bytes
  import opened Wrappers
  import opened Utf8
  import opened Lexical

  // ----- the characters of a string, section 7 of RFC 7159 -----

  /** An unescaped character, a two-character escape, or a `\u` escape with its four digits. */
  datatype StrChar = Plain(cp: Scalar) | Short(c: byte) | Unicode(hex: bytes)

  predicate IsHexWord(h: bytes) {
    |h| == 4 && IsHex(h[0]) && IsHex(h[1]) && IsHex(h[2]) && IsHex(h[3])
  }

  predicate ValidChar(ch: StrChar) {
    match ch
    case Plain(cp) => cp >= 0x20 && cp != QUOTE as int && cp != BACKSLASH as int
    case Short(c) => IsShortEscape(c)
    case Unicode(hex) => IsHexWord(hex)
  }

  function Spelling(ch: StrChar): (s: bytes) {
    match ch
    case Plain(cp) => EncodePoint(cp)
    case Short(c) => [BACKSLASH, c]
    case Unicode(hex) => [BACKSLASH, 'u' as int] + hex
  }

  predicate ValidChars(chs: seq<StrChar>) {
    forall i | 0 <= i < |chs| :: ValidChar(chs[i])
  }

  function SpellingAll(chs: seq<StrChar>): bytes {
    if chs == [] then [] else Spelling(chs[0]) + SpellingAll(chs[1..])
  }

  /** The byte that a two-character escape stands for. */
  function ShortValue(c: byte): byte {
    if c == 't' as int then 0x09
    else if c == 'b' as int then 0x08
    else if c == 'f' as int then 0x0C
    else if c == 'n' as int then 0x0A
    else if c == 'r' as int then 0x0D
    else c
  }

  function HexDigitValue(c: byte): (n: nat)
    requires IsHex(c)
    ensures n < 16
  {
    if c <= '9' as int then c - '0' as int
    else if c <= 'F' as int then c - 'A' as int + 10
    else c - 'a' as int + 10
  }

  /** `std::strtoul` with base 16. */
  function HexValue(h: bytes): (n: nat)
    requires IsHexWord(h)
    ensures n <= 0xFFFF
  {
    ((HexDigitValue(h[0]) * 16 + HexDigitValue(h[1])) * 16 + HexDigitValue(h[2])) * 16 + HexDigitValue(h[3])
  }

  function Cons(cp: Scalar, rest: Option<seq<Scalar>>): Option<seq<Scalar>> {
    match rest
    case Some(cps) => Some([cp] + cps)
    case None => None
  }

  /** The code points of a string; none if a surrogate is not paired. */
  function Points(chs: seq<StrChar>): Option<seq<Scalar>>
    requires ValidChars(chs)
  {
    if chs == [] then Some([])
    else match chs[0] {
      case Plain(cp) => Cons(cp, Points(chs[1..]))
      case Short(c) => Cons(ShortValue(c), Points(chs[1..]))
      case Unicode(hex) =>
        var u := HexValue(hex);
        if !IsSurrogate(u) then Cons(u, Points(chs[1..]))
        else if IsHigh(u) && |chs| > 1 && chs[1].Unicode? && IsLow(HexValue(chs[1].hex)) then
          Cons(PairPoint(u, HexValue(chs[1].hex)), Points(chs[2..]))
        else None
    }
  }

  // ----- get_string -----

  /** Every backslash begins a legal escape. */
  predicate Escaped(s: bytes) {
    if s == [] then true
    else if s[0] != BACKSLASH then Escaped(s[1..])
    else if |s| < 2 then false
    else if IsShortEscape(s[1]) then Escaped(s[2..])
    else s[1] == 'u' as int && |s| >= 6 && IsHexWord(s[2..6]) && Escaped(s[6..])
  }

  function Prepend(s: bytes, rest: Result<bytes>): Result<bytes> {
    match rest
    case Ok(t) => Ok(s + t)
    case Err(e) => Err(e)
  }

  /** What `get_string` makes of the characters between the quotation marks. */
  function Decoded(s: bytes): Result<bytes>
    requires Escaped(s)
  {
    if s == [] then Ok([])
    else if s[0] != BACKSLASH then Prepend([s[0]], Decoded(s[1..]))
    else if s[1] != 'u' as int then Prepend([ShortValue(s[1])], Decoded(s[2..]))
    else
      var codepoint := HexValue(s[2..6]);
      if IsHigh(codepoint) then
        var t := s[6..];
        if |t| < 2 || t[0] != BACKSLASH || t[1] != 'u' as int then Err(InvalidArgument)
        else
          assert Escaped(t) && !IsShortEscape(t[1]) && |t| >= 6;
          match ToUnicode(codepoint, HexValue(t[2..6])) {
            case Ok(u) => Prepend(u, Decoded(t[6..]))
            case Err(e) => Err(e)
          }
      else if IsLow(codepoint) then Err(InvalidArgument)
      else match ToUnicode(codepoint, 0) {
        case Ok(u) => Prepend(u, Decoded(s[6..]))
        case Err(e) => Err(e)
      }
  }

  /** Bytes without a backslash are copied. */
  lemma {:induction false} CopiedByte(c: byte, t: bytes)
    requires c != BACKSLASH && Escaped(t)
    ensures Escaped([c] + t) && Decoded([c] + t) == Prepend([c], Decoded(t))
  {
    hide ToUnicode, HexValue, IsHexWord, IsShortEscape;
    assert ([c] + t)[1..] == t;
  }

  lemma {:induction false} CopiedBytes(s: bytes, t: bytes)
    requires Escaped(t)
    requires forall i | 0 <= i < |s| :: s[i] != BACKSLASH
    ensures Escaped(s + t) && Decoded(s + t) == Prepend(s, Decoded(t))
  {
    hide Escaped, Decoded;
    if s == [] {
      assert s + t == t;
      if Decoded(t).Ok? {
        assert [] + Decoded(t).value == Decoded(t).value;
      }
    } else {
      CopiedBytes(s[1..], t);
      CopiedByte(s[0], s[1..] + t);
      assert s + t == [s[0]] + (s[1..] + t);
      if Decoded(t).Ok? {
        assert [s[0]] + (s[1..] + Decoded(t).value) == s + Decoded(t).value;
      }
    }
  }

  lemma ShortDecoded(c: byte, t: bytes)
    requires IsShortEscape(c) && Escaped(t)
    ensures Escaped([BACKSLASH, c] + t) && Decoded([BACKSLASH, c] + t) == Prepend([ShortValue(c)], Decoded(t))
  {
    assert ([BACKSLASH, c] + t)[2..] == t;
  }

  lemma UnicodeParts(hex: bytes, t: bytes)
    requires IsHexWord(hex)
    ensures var s := [BACKSLASH, 'u' as int] + hex + t; |s| >= 6 && s[2..6] == hex && s[6..] == t
    ensures Escaped([BACKSLASH, 'u' as int] + hex + t) == Escaped(t)
  {
    var s := [BACKSLASH, 'u' as int] + hex + t;
    assert s[2..6] == hex && s[6..] == t;
  }

  lemma SingleDecoded(hex: bytes, t: bytes)
    requires IsHexWord(hex) && Escaped(t) && !IsSurrogate(HexValue(hex))
    ensures Escaped([BACKSLASH, 'u' as int] + hex + t)
    ensures Decoded([BACKSLASH, 'u' as int] + hex + t) == Prepend(EncodePoint(HexValue(hex)), Decoded(t))
  {
    hide HexValue, ToUnicode;
    UnicodeParts(hex, t);
    ToUnicodeSingle(HexValue(hex), 0);
  }

  lemma PairDecoded(high: bytes, low: bytes, t: bytes)
    requires IsHexWord(high) && IsHexWord(low) && Escaped(t) && IsHigh(HexValue(high)) && IsLow(HexValue(low))
    ensures var s := [BACKSLASH, 'u' as int] + high + ([BACKSLASH, 'u' as int] + low + t);
      Escaped(s) && Decoded(s) == Prepend(EncodePoint(PairPoint(HexValue(high), HexValue(low))), Decoded(t))
  {
    hide HexValue, ToUnicode;
    var rest := [BACKSLASH, 'u' as int] + low + t;
    var s := [BACKSLASH, 'u' as int] + high + rest;
    UnicodeParts(low, t);
    UnicodeParts(high, rest);
    ToUnicodePair(HexValue(high), HexValue(low));
  }

  /** A surrogate that is not the high half of a pair makes `get_string` throw. */
  lemma LoneDecoded(hex: bytes, t: bytes)
    requires IsHexWord(hex) && Escaped(t) && IsSurrogate(HexValue(hex))
    requires IsHigh(HexValue(hex)) ==>
      !(|t| >= 6 && t[0] == BACKSLASH && t[1] == 'u' as int && IsHexWord(t[2..6]) && IsLow(HexValue(t[2..6])))
    ensures Escaped([BACKSLASH, 'u' as int] + hex + t)
    ensures Decoded([BACKSLASH, 'u' as int] + hex + t) == Err(InvalidArgument)
  {
    hide HexValue;
    UnicodeParts(hex, t);
  }

  // ----- get_string computes the denotation -----

  lemma PlainBytes(cp: Scalar)
    requires ValidChar(Plain(cp))
    ensures forall i | 0 <= i < |EncodePoint(cp)| :: EncodePoint(cp)[i] >= 0x20 && EncodePoint(cp)[i] != BACKSLASH
    ensures EncodePoint(cp)[0] as int != QUOTE as int
  {
  }

  /** `get_string` on legal characters: the UTF-8 encoding of their code points, or an exception. */
  lemma {:induction false} DecodedIsDenotation(chs: seq<StrChar>)
    requires ValidChars(chs)
    ensures Escaped(SpellingAll(chs))
    ensures Decoded(SpellingAll(chs)) ==
      match Points(chs) {
        case Some(cps) => Ok(EncodePoints(cps))
        case None => Err(InvalidArgument)
      }
    decreases |chs|
  {
    hide Decoded, Escaped, HexValue, EncodePoint, PairPoint, EncodePoints, IsHexWord, IsHigh, IsLow, Prepend;
    if chs == [] {
      EmptyDecoded();
    } else {
      var rest := chs[1..];
      var t := SpellingAll(rest);
      DecodedIsDenotation(rest);
      match chs[0]
      case Plain(cp) =>
        PlainBytes(cp);
        CopiedBytes(EncodePoint(cp), t);
        PrependDenotation(cp, EncodePoint(cp), Points(rest));
      case Short(c) =>
        ShortDecoded(c, t);
        ShortPoint(c);
        PrependDenotation(ShortValue(c), [ShortValue(c)], Points(rest));
      case Unicode(hex) =>
        UnicodeDenotation(chs);
    }
  }

  lemma EmptyDecoded()
    ensures Escaped([]) && Decoded([]) == Ok(EncodePoints([]))
  {
  }

  lemma ShortPoint(c: byte)
    requires IsShortEscape(c)
    ensures EncodePoint(ShortValue(c)) == [ShortValue(c)]
  {
  }

  /** The value that belongs to a list of code points, or to their absence. */
  function Encoded(cps: Option<seq<Scalar>>): Result<bytes> {
    match cps
    case Some(v) => Ok(EncodePoints(v))
    case None => Err(InvalidArgument)
  }

  lemma PrependDenotation(cp: Scalar, s: bytes, rest: Option<seq<Scalar>>)
    requires s == EncodePoint(cp)
    ensures Prepend(s, Encoded(rest)) == Encoded(Cons(cp, rest))
  {
    hide EncodePoint;
    if rest.Some? {
      assert ([cp] + rest.value)[1..] == rest.value;
    }
  }

  lemma UnicodeDenotation(chs: seq<StrChar>)
    requires ValidChars(chs) && chs != [] && chs[0].Unicode?
    requires ValidChars(chs[1..]) && Escaped(SpellingAll(chs[1..]))
    requires Decoded(SpellingAll(chs[1..])) == Encoded(Points(chs[1..]))
    ensures Escaped(SpellingAll(chs)) && Decoded(SpellingAll(chs)) == Encoded(Points(chs))
    decreases |chs|, 0
  {
    hide Decoded, Escaped, HexValue, EncodePoint, EncodePoints, IsHexWord, Prepend, SpellingAll;
    var hex, rest := chs[0].hex, chs[1..];
    var u, t := HexValue(hex), SpellingAll(rest);
    SpellingStep(chs);
    if !IsSurrogate(u) {
      SingleDecoded(hex, t);
      PrependDenotation(u, EncodePoint(u), Points(rest));
    } else if IsHigh(u) && |chs| > 1 && chs[1].Unicode? && IsLow(HexValue(chs[1].hex)) {
      var low := chs[1].hex;
      var tail := chs[2..];
      assert rest[1..] == tail && rest[0] == chs[1];
      SpellingStep(rest);
      DecodedIsDenotation(tail);
      ToUnicodePair(u, HexValue(low));
      PairDecoded(hex, low, SpellingAll(tail));
      PrependDenotation(PairPoint(u, HexValue(low)), EncodePoint(PairPoint(u, HexValue(low))), Points(tail));
    } else {
      if IsHigh(u) && |chs| > 1 {
        SpellingStep(rest);
        assert rest[0] == chs[1];
        SecondHalf(rest[0], SpellingAll(rest[1..]));
      } else {
        EmptySpelling();
      }
      LoneDecoded(hex, t);
    }
  }

  lemma EmptySpelling()
    ensures SpellingAll([]) == []
  {
  }

  lemma SpellingStep(chs: seq<StrChar>)
    requires chs != []
    ensures SpellingAll(chs) == Spelling(chs[0]) + SpellingAll(chs[1..])
  {
  }

  /** Only a `\u` escape looks like one. */
  lemma SecondHalf(ch: StrChar, t: bytes)
    requires ValidChar(ch)
    requires ch.Unicode? ==> !IsLow(HexValue(ch.hex))
    ensures var s := Spelling(ch) + t;
      !(|s| >= 6 && s[0] == BACKSLASH && s[1] == 'u' as int && IsHexWord(s[2..6]) && IsLow(HexValue(s[2..6])))
  {
    hide HexValue, EncodePoint;
    match ch
    case Plain(cp) => PlainBytes(cp);
    case Short(_) =>
    case Unicode(hex) => UnicodeParts(hex, t);
  }

  /** For every string token, `get_string` throws or returns well-formed UTF-8. */
  lemma GetStringWellFormed(chs: seq<StrChar>)
    requires ValidChars(chs)
    ensures Escaped(SpellingAll(chs))
    ensures var r := Decoded(SpellingAll(chs)); r == Err(InvalidArgument) || (r.Ok? && WellFormed(r.value))
  {
    DecodedIsDenotation(chs);
  }

  // ----- the scanner finds exactly the strings -----

  lemma PlainChar(text: bytes, p: nat)
    requires p < |text| && IsPlainAscii(text[p])
    ensures CharLength(text, p) == 1 && EncodePoint(text[p]) == [text[p]] == text[p..p + 1]
  {
  }

  lemma EscapeChar(text: bytes, p: nat)
    requires CharLength(text, p) > 0 && text[p] == BACKSLASH
    ensures IsShortEscape(CharAt(text, p + 1)) ==>
      CharLength(text, p) == 2 && text[p..p + 2] == [BACKSLASH, text[p + 1]]
    ensures !IsShortEscape(CharAt(text, p + 1)) ==>
      && CharLength(text, p) == 6 && IsHexWord(text[p + 2..p + 6])
      && text[p..p + 6] == [BACKSLASH, 'u' as int] + text[p + 2..p + 6]
  {
    if !IsShortEscape(CharAt(text, p + 1)) {
      assert text[p..p + 6] == [text[p], text[p + 1]] + text[p + 2..p + 6];
    }
  }

  lemma MultiByteChar(text: bytes, p: nat)
    requires CharLength(text, p) > 0 && text[p] != BACKSLASH && !IsPlainAscii(text[p])
    ensures
      var s := text[p..p + CharLength(text, p)];
      && IsMultiByte(s) && IsScalar(DecodeMultiByte(s))
      && DecodeMultiByte(s) >= 0x80 && EncodePoint(DecodeMultiByte(s)) == s
  {
    MultiByteDecodes(text[p..p + CharLength(text, p)]);
  }

  /** The character that the scanner recognises. */
  function CharOf(text: bytes, p: nat): (ch: StrChar)
    requires CharLength(text, p) > 0
    ensures ValidChar(ch) && Occurs(text, p, Spelling(ch)) && |Spelling(ch)| == CharLength(text, p)
  {
    hide CharLength, EncodePoint, DecodeMultiByte, IsMultiByte;
    var c, n := text[p], CharLength(text, p);
    if IsPlainAscii(c) then
      PlainChar(text, p);
      Plain(c)
    else if c == BACKSLASH then
      EscapeChar(text, p);
      if IsShortEscape(CharAt(text, p + 1)) then Short(text[p + 1]) else Unicode(text[p + 2..p + 6])
    else
      MultiByteChar(text, p);
      Plain(DecodeMultiByte(text[p..p + n]))
  }

  /** The scanner recognises every legal character. */
  lemma CharRecognised(text: bytes, p: nat, ch: StrChar)
    requires ValidChar(ch) && Occurs(text, p, Spelling(ch))
    ensures CharLength(text, p) == |Spelling(ch)| && CharAt(text, p) != QUOTE
    ensures CharOf(text, p) == ch
  {
    hide CharLength, EncodePoint, CharOf;
    match ch {
      case Plain(cp) =>
        if cp < 0x80 {
          AsciiRecognised(text, p, cp);
        } else {
          MultiByteRecognised(text, p, cp);
        }
      case Short(c) =>
        EscapeRecognised(text, p, ch);
      case Unicode(hex) =>
        EscapeRecognised(text, p, ch);
    }
    SpellingInjective(CharOf(text, p), ch);
  }

  /** No two characters are written alike. */
  lemma SpellingInjective(a: StrChar, b: StrChar)
    requires ValidChar(a) && ValidChar(b) && Spelling(a) == Spelling(b)
    ensures a == b
  {
    hide EncodePoint;
    if a.Plain? {
      PlainBytes(a.cp);
      PointInjective(a.cp);
    }
    if b.Plain? {
      PlainBytes(b.cp);
      PointInjective(b.cp);
    }
    if a.Unicode? && b.Unicode? {
      assert Spelling(a)[2..] == a.hex && Spelling(b)[2..] == b.hex;
    }
    if a.Short? && b.Short? {
      assert Spelling(a)[1] == a.c && Spelling(b)[1] == b.c;
    }
  }

  /** The code point that an encoding belongs to. */
  function PointOf(s: bytes): int {
    if IsMultiByte(s) then DecodeMultiByte(s) else if s == [] then 0 else s[0]
  }

  lemma PointInjective(cp: Scalar)
    ensures PointOf(EncodePoint(cp)) == cp
  {
    if cp >= 0x80 {
      EncodedIsMultiByte(cp);
    }
  }

  lemma AsciiRecognised(text: bytes, p: nat, cp: Scalar)
    requires ValidChar(Plain(cp)) && cp < 0x80 && Occurs(text, p, EncodePoint(cp))
    ensures CharLength(text, p) == |EncodePoint(cp)| && CharAt(text, p) != QUOTE
  {
    OccursAt(text, p, EncodePoint(cp), 0);
  }

  lemma MultiByteRecognised(text: bytes, p: nat, cp: Scalar)
    requires cp >= 0x80 && Occurs(text, p, EncodePoint(cp))
    ensures CharLength(text, p) == |EncodePoint(cp)| && CharAt(text, p) != QUOTE
  {
    hide CharLength, EncodePoint;
    var s := EncodePoint(cp);
    EncodedIsMultiByte(cp);
    OccursAt(text, p, s, 0);
    OccursAt(text, p, s, 1);
    if |s| > 2 {
      OccursAt(text, p, s, 2);
    }
    if |s| > 3 {
      OccursAt(text, p, s, 3);
    }
    MultiByteLength(text, p);
  }

  lemma EscapeRecognised(text: bytes, p: nat, ch: StrChar)
    requires ValidChar(ch) && !ch.Plain? && Occurs(text, p, Spelling(ch))
    ensures CharLength(text, p) == |Spelling(ch)| && CharAt(text, p) != QUOTE
  {
    var s := Spelling(ch);
    OccursAt(text, p, s, 0);
    OccursAt(text, p, s, 1);
    if ch.Unicode? {
      OccursAt(text, p, s, 2);
      OccursAt(text, p, s, 3);
      OccursAt(text, p, s, 4);
      OccursAt(text, p, s, 5);
    }
  }

  /** The characters up to the closing quotation mark. */
  function CharsOf(text: bytes, p: nat): (chs: seq<StrChar>)
    requires StringEnd(text, p).Some?
    ensures ValidChars(chs)
    decreases |text| - p
  {
    if CharAt(text, p) == QUOTE then [] else [CharOf(text, p)] + CharsOf(text, p + CharLength(text, p))
  }

  /** What stands before the closing quotation mark is a sequence of legal characters. */
  lemma {:induction false} StringEndSpelled(text: bytes, p: nat)
    requires StringEnd(text, p).Some?
    ensures Occurs(text, p, SpellingAll(CharsOf(text, p)))
    ensures StringEnd(text, p).value == p + |SpellingAll(CharsOf(text, p))|
    decreases |text| - p
  {
    hide CharLength, Spelling;
    if CharAt(text, p) == QUOTE {
      assert SpellingAll(CharsOf(text, p)) == [];
    } else {
      var ch, q := CharOf(text, p), p + CharLength(text, p);
      var rest := CharsOf(text, q);
      StringEndSpelled(text, q);
      assert ([ch] + rest)[1..] == rest;
      OccursParts(text, p, Spelling(ch), SpellingAll(rest));
    }
  }

  /** Legal characters are scanned up to the quotation mark behind them. */
  lemma {:induction false} SpelledStringEnd(text: bytes, p: nat, chs: seq<StrChar>)
    requires ValidChars(chs) && Occurs(text, p, SpellingAll(chs))
    requires CharAt(text, p + |SpellingAll(chs)|) == QUOTE
    ensures StringEnd(text, p) == Some(p + |SpellingAll(chs)|) && CharsOf(text, p) == chs
    decreases |chs|
  {
    hide CharLength, Spelling, Occurs, CharOf;
    if chs != [] {
      OccursParts(text, p, Spelling(chs[0]), SpellingAll(chs[1..]));
      CharRecognised(text, p, chs[0]);
      SpelledStringEnd(text, p + |Spelling(chs[0])|, chs[1..]);
    }
  }
}
