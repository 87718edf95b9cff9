/**
 The tokens of JSON text (RFC 7159): where each of them ends.
 */
module Lexical {
  import opened Bytes
  import opened Wrappers
  import opened Decimal
  import opened Utf8

  /** `token_type`. */
  datatype Kind =
    | LiteralTrue | LiteralFalse | LiteralNull
    | ValueString | ValueUnsigned | ValueInteger | ValueFloat
    | BeginArray | BeginObject | EndArray | EndObject
    | NameSeparator | ValueSeparator
    | ParseError | EndOfInput

  /** A token: its kind and its extent in the text. */
  datatype Token = Token(kind: Kind, start: nat, end: nat)

  const QUOTE: byte := '\"' as int
  const BACKSLASH: byte := '\\' as int
  const DOT: byte := '.' as int

  /** The byte at a position; a zero byte follows the text. */
  function CharAt(text: bytes, p: nat): byte {
    if p < |text| then text[p] else 0
  }

  /** `w` stands at position `p`. */
  predicate Occurs(text: bytes, p: nat, w: bytes) {
    p + |w| <= |text| && text[p..p + |w|] == w
  }

  lemma OccursAt(text: bytes, p: nat, w: bytes, i: nat)
    requires Occurs(text, p, w) && i < |w|
    ensures p + i < |text| && text[p + i] == w[i]
  {
    assert text[p..p + |w|][i] == text[p + i];
  }

  lemma OccursOne(text: bytes, p: nat, c: byte)
    ensures Occurs(text, p, [c]) <==> p < |text| && text[p] == c
  {
    if p < |text| {
      assert text[p..p + 1] == [text[p]];
    }
  }

  lemma OccursParts(text: bytes, p: nat, u: bytes, v: bytes)
    ensures Occurs(text, p, u + v) <==> Occurs(text, p, u) && Occurs(text, p + |u|, v)
  {
    var n := p + |u|;
    if Occurs(text, p, u + v) {
      assert text[p..n] == text[p..n + |v|][..|u|] && text[n..n + |v|] == text[p..n + |v|][|u|..];
    }
    if Occurs(text, p, u) && Occurs(text, n, v) {
      assert text[p..n + |v|] == text[p..n] + text[n..n + |v|];
    }
  }

  // ----- blanks -----

  predicate IsBlank(c: byte) {
    c == 0x20 || c == 0x09 || c == 0x0A || c == 0x0D
  }

  function SkipBlanks(text: bytes, p: nat): (q: nat)
    ensures p <= q && (p <= |text| ==> q <= |text|)
    ensures !IsBlank(CharAt(text, q))
    decreases |text| - p
  {
    if p < |text| && IsBlank(text[p]) then SkipBlanks(text, p + 1) else p
  }

  // ----- strings -----

  predicate IsHex(c: byte) {
    '0' as int <= c <= '9' as int || 'A' as int <= c <= 'F' as int || 'a' as int <= c <= 'f' as int
  }

  /** The characters that may follow a backslash, apart from `u`. */
  predicate IsShortEscape(c: byte) {
    || c == QUOTE || c == BACKSLASH || c == '/' as int || c == 'b' as int
    || c == 'f' as int || c == 'n' as int || c == 'r' as int || c == 't' as int
  }

  /** An unescaped ASCII character. */
  predicate IsPlainAscii(c: byte) {
    0x20 <= c <= 0x7F && c != QUOTE && c != BACKSLASH
  }

  predicate HexAt(text: bytes, p: nat) {
    IsHex(CharAt(text, p)) && IsHex(CharAt(text, p + 1)) && IsHex(CharAt(text, p + 2)) && IsHex(CharAt(text, p + 3))
  }

  predicate MultiByteAt(text: bytes, p: nat, n: nat) {
    p + n <= |text| && IsMultiByte(text[p..p + n])
  }

  /** The length of the string character at a position, section 7 of RFC 7159; 0 if there is none. */
  function CharLength(text: bytes, p: nat): (n: nat)
    ensures n > 0 ==> p + n <= |text|
  {
    var c := CharAt(text, p);
    if IsPlainAscii(c) then 1
    else if c == BACKSLASH then
      if IsShortEscape(CharAt(text, p + 1)) then 2
      else if CharAt(text, p + 1) == 'u' as int && HexAt(text, p + 2) then 6
      else 0
    else if MultiByteAt(text, p, 2) then 2
    else if MultiByteAt(text, p, 3) then 3
    else if MultiByteAt(text, p, 4) then 4
    else 0
  }

  /** The byte length that a lead byte and its successors make up. */
  lemma MultiByteLength(text: bytes, p: nat)
    requires p < |text| && text[p] >= 0x80
    ensures
      var c, d, e, f := text[p], CharAt(text, p + 1), CharAt(text, p + 2), CharAt(text, p + 3);
      CharLength(text, p) ==
      if 0xC2 <= c <= 0xDF then (if Tail(d) then 2 else 0)
      else if c == 0xE0 then (if 0xA0 <= d <= 0xBF && Tail(e) then 3 else 0)
      else if c == 0xED then (if 0x80 <= d <= 0x9F && Tail(e) then 3 else 0)
      else if 0xE1 <= c <= 0xEF then (if Tail(d) && Tail(e) then 3 else 0)
      else if c == 0xF0 then (if 0x90 <= d <= 0xBF && Tail(e) && Tail(f) then 4 else 0)
      else if 0xF1 <= c <= 0xF3 then (if Tail(d) && Tail(e) && Tail(f) then 4 else 0)
      else if c == 0xF4 then (if 0x80 <= d <= 0x8F && Tail(e) && Tail(f) then 4 else 0)
      else 0
  {
    if p + 2 <= |text| {
      var s := text[p..p + 2];
      assert s[0] == text[p] && s[1] == text[p + 1];
    }
    if p + 3 <= |text| {
      var s := text[p..p + 3];
      assert s[0] == text[p] && s[1] == text[p + 1] && s[2] == text[p + 2];
    }
    if p + 4 <= |text| {
      var s := text[p..p + 4];
      assert s[0] == text[p] && s[1] == text[p + 1] && s[2] == text[p + 2] && s[3] == text[p + 3];
    }
  }

  /** The position of the quotation mark that closes a string whose characters begin at `p`. */
  function StringEnd(text: bytes, p: nat): (e: Option<nat>)
    ensures e.Some? ==> p <= e.value < |text| && text[e.value] == QUOTE
    decreases |text| - p
  {
    if CharAt(text, p) == QUOTE then Some(p)
    else
      var n := CharLength(text, p);
      if n == 0 then None else StringEnd(text, p + n)
  }

  // ----- numbers -----

  predicate DigitAt(text: bytes, p: nat) {
    IsDigit(CharAt(text, p))
  }

  /** The first position from `p` on that does not hold a digit. */
  function DigitsEnd(text: bytes, p: nat): (q: nat)
    ensures p <= q && (p <= |text| ==> q <= |text|)
    ensures !DigitAt(text, q)
    ensures forall i | p <= i < q :: DigitAt(text, i)
    decreases |text| - p
  {
    if p < |text| && IsDigit(text[p]) then DigitsEnd(text, p + 1) else p
  }

  /** The end of the fraction that may begin at `p`. */
  function FractionEnd(text: bytes, p: nat): (q: nat)
    ensures p <= q && (p <= |text| ==> q <= |text|)
  {
    if CharAt(text, p) == DOT && DigitAt(text, p + 1) then DigitsEnd(text, p + 1) else p
  }

  predicate IsExponentMark(c: byte) {
    c == 'e' as int || c == 'E' as int
  }

  predicate IsSign(c: byte) {
    c == PLUS || c == MINUS
  }

  /** The end of the exponent that may begin at `p`. */
  function ExponentEnd(text: bytes, p: nat): (q: nat)
    ensures p <= q && (p <= |text| ==> q <= |text|)
  {
    if !IsExponentMark(CharAt(text, p)) then p
    else if DigitAt(text, p + 1) then DigitsEnd(text, p + 1)
    else if IsSign(CharAt(text, p + 1)) && DigitAt(text, p + 2) then DigitsEnd(text, p + 2)
    else p
  }

  /** A number token that begins at `p`; a leading zero followed by digits is an error. */
  function LexNumber(text: bytes, p: nat): (t: Token)
    requires p < |text| && (text[p] == MINUS || IsDigit(text[p]))
    ensures t.start == p < t.end <= |text|
    ensures t.kind == ParseError || t.kind == ValueUnsigned || t.kind == ValueInteger || t.kind == ValueFloat
  {
    var negative := text[p] == MINUS;
    var i := if negative then p + 1 else p;
    if !DigitAt(text, i) then Token(ParseError, p, i)
    else if CharAt(text, i) == ZERO && DigitAt(text, i + 1) then Token(ParseError, p, DigitsEnd(text, i + 1))
    else
      var intEnd := if CharAt(text, i) == ZERO then i + 1 else DigitsEnd(text, i);
      var fracEnd := FractionEnd(text, intEnd);
      var end := ExponentEnd(text, fracEnd);
      Token(if end > intEnd then ValueFloat else if negative then ValueInteger else ValueUnsigned, p, end)
  }

  // ----- tokens -----

  const TRUE: bytes := ['t' as int, 'r' as int, 'u' as int, 'e' as int]
  const FALSE: bytes := ['f' as int, 'a' as int, 'l' as int, 's' as int, 'e' as int]
  const NULL: bytes := ['n' as int, 'u' as int, 'l' as int, 'l' as int]

  /** The kind of a structural character. */
  function Structural(c: byte): Option<Kind> {
    if c == '[' as int then Some(BeginArray)
    else if c == ']' as int then Some(EndArray)
    else if c == '{' as int then Some(BeginObject)
    else if c == '}' as int then Some(EndObject)
    else if c == ':' as int then Some(NameSeparator)
    else if c == ',' as int then Some(ValueSeparator)
    else None
  }

  /** The token that begins exactly at `p`. */
  function LexAt(text: bytes, p: nat): (t: Token)
    ensures t.start == p < t.end
    ensures t.end > |text| ==> t.kind == EndOfInput
  {
    var c := CharAt(text, p);
    if c == 0 then Token(EndOfInput, p, p + 1)
    else if Structural(c).Some? then Token(Structural(c).value, p, p + 1)
    else if c == MINUS || IsDigit(c) then LexNumber(text, p)
    else if c == QUOTE then
      match StringEnd(text, p + 1) {
        case Some(e) => Token(ValueString, p, e + 1)
        case None => Token(ParseError, p, p + 1)
      }
    else if Occurs(text, p, TRUE) then Token(LiteralTrue, p, p + 4)
    else if Occurs(text, p, FALSE) then Token(LiteralFalse, p, p + 5)
    else if Occurs(text, p, NULL) then Token(LiteralNull, p, p + 4)
    else Token(ParseError, p, p + 1)
  }

  /** The next token at or after `p`. */
  function Lex(text: bytes, p: nat): (t: Token)
    ensures p <= t.start < t.end
    ensures t.end > |text| ==> t.kind == EndOfInput
  {
    LexAt(text, SkipBlanks(text, p))
  }
}
