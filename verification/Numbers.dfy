/**
 The grammar of numbers (section 6 of RFC 7159), the number tokens and their conversion by `get_number`.
 */
module Numbers {
  import opened Bytes
  import opened Wrappers
  import opened Decimal
  import opened Value
  import opened Lexical
  import Double

  datatype Exponent = Exponent(mark: byte, sign: Option<byte>, digits: bytes)

  /** The parts of a number. */
  datatype Parts = Parts(negative: bool, integer: bytes, fraction: Option<bytes>, exponent: Option<Exponent>)

  predicate SomeDigits(s: bytes) {
    s != [] && AllDigits(s)
  }

  predicate ValidExponent(e: Exponent) {
    IsExponentMark(e.mark) && (e.sign.Some? ==> IsSign(e.sign.value)) && SomeDigits(e.digits)
  }

  predicate ValidParts(n: Parts) {
    && SomeDigits(n.integer) && (|n.integer| > 1 ==> n.integer[0] != ZERO)
    && (n.fraction.Some? ==> SomeDigits(n.fraction.value))
    && (n.exponent.Some? ==> ValidExponent(n.exponent.value))
  }

  function SignText(n: Parts): bytes {
    if n.negative then [MINUS] else []
  }

  function FractionText(n: Parts): bytes {
    match n.fraction
    case Some(digits) => [DOT] + digits
    case None => []
  }

  function ExponentText(n: Parts): bytes {
    match n.exponent
    case Some(e) => [e.mark] + (match e.sign case Some(s) => [s] case None => []) + e.digits
    case None => []
  }

  function Text(n: Parts): bytes {
    SignText(n) + (n.integer + (FractionText(n) + ExponentText(n)))
  }

  function KindOf(n: Parts): Kind {
    if n.fraction.Some? || n.exponent.Some? then ValueFloat else if n.negative then ValueInteger else ValueUnsigned
  }

  // ----- tokens are numbers -----

  lemma DigitsOccur(text: bytes, p: nat)
    requires p <= |text|
    ensures AllDigits(text[p..DigitsEnd(text, p)]) && Occurs(text, p, text[p..DigitsEnd(text, p)])
    ensures DigitAt(text, p) ==> DigitsEnd(text, p) > p
  {
    var q := DigitsEnd(text, p);
    forall i | 0 <= i < q - p ensures IsDigit(text[p..q][i]) {
      assert DigitAt(text, p + i);
    }
  }

  lemma NoDigitBehind(text: bytes, p: nat)
    requires p <= |text| && !DigitAt(text, p)
    ensures !DigitAt(text, FractionEnd(text, p)) && !DigitAt(text, ExponentEnd(text, p))
  {
  }

  /** The fraction at `p`, if there is one. */
  function FractionAt(text: bytes, p: nat): (f: Option<bytes>)
    requires p <= |text|
  {
    if FractionEnd(text, p) > p then Some(text[p + 1..FractionEnd(text, p)]) else None
  }

  function ExponentAt(text: bytes, p: nat): (e: Option<Exponent>)
    requires p <= |text|
  {
    var end := ExponentEnd(text, p);
    if end == p then None
    else if DigitAt(text, p + 1) then Some(Exponent(text[p], None, text[p + 1..end]))
    else Some(Exponent(text[p], Some(text[p + 1]), text[p + 2..end]))
  }

  /** The parts of the number token at `p`. */
  function PartsAt(text: bytes, p: nat): (n: Parts)
    requires p < |text| && (text[p] == MINUS || IsDigit(text[p])) && LexNumber(text, p).kind != ParseError
  {
    var negative := text[p] == MINUS;
    var i := if negative then p + 1 else p;
    var intEnd := if CharAt(text, i) == ZERO then i + 1 else DigitsEnd(text, i);
    Parts(negative, text[i..intEnd], FractionAt(text, intEnd), ExponentAt(text, FractionEnd(text, intEnd)))
  }

  lemma FractionFound(text: bytes, p: nat, n: Parts)
    requires p <= |text| && n.fraction == FractionAt(text, p)
    ensures Occurs(text, p, FractionText(n)) && p + |FractionText(n)| == FractionEnd(text, p)
    ensures n.fraction.Some? ==> SomeDigits(n.fraction.value)
  {
    if FractionEnd(text, p) > p {
      DigitsOccur(text, p + 1);
      OccursParts(text, p, [DOT], n.fraction.value);
    }
  }

  lemma ExponentFound(text: bytes, p: nat, n: Parts)
    requires p <= |text| && n.exponent == ExponentAt(text, p)
    ensures Occurs(text, p, ExponentText(n)) && p + |ExponentText(n)| == ExponentEnd(text, p)
    ensures n.exponent.Some? ==> ValidExponent(n.exponent.value)
  {
    hide DigitsEnd;
    if ExponentEnd(text, p) > p {
      var e := n.exponent.value;
      if DigitAt(text, p + 1) {
        DigitsOccur(text, p + 1);
        OccursParts(text, p, [e.mark] + [], e.digits);
      } else {
        DigitsOccur(text, p + 2);
        assert text[p..p + 2] == [e.mark] + [e.sign.value];
        OccursParts(text, p, [e.mark] + [e.sign.value], e.digits);
      }
    }
  }

  /** A number token is a number of the grammar. */
  lemma TokenIsNumber(text: bytes, p: nat)
    requires p < |text| && (text[p] == MINUS || IsDigit(text[p])) && LexNumber(text, p).kind != ParseError
    ensures var n := PartsAt(text, p);
      ValidParts(n) && Occurs(text, p, Text(n)) && LexNumber(text, p) == Token(KindOf(n), p, p + |Text(n)|)
    ensures !DigitAt(text, LexNumber(text, p).end)
  {
    hide DigitsEnd, FractionEnd, ExponentEnd, FractionText, ExponentText, FractionAt, ExponentAt;
    hide Occurs, Text, SomeDigits, SignText;
    var n := PartsAt(text, p);
    var i := if n.negative then p + 1 else p;
    var intEnd := if CharAt(text, i) == ZERO then i + 1 else DigitsEnd(text, i);
    SignOccurs(text, p, n);
    NoDigitBehind(text, intEnd);
    NoDigitBehind(text, FractionEnd(text, intEnd));
    FractionFound(text, intEnd, n);
    ExponentFound(text, FractionEnd(text, intEnd), n);
    ZeroOrMore(text, i);
    Assembled(text, p, n);
    TextLengths(n);
  }

  /** The text of a number occurs where its parts do. */
  lemma Assembled(text: bytes, p: nat, n: Parts)
    ensures |Text(n)| == |SignText(n)| + |n.integer| + |FractionText(n)| + |ExponentText(n)|
    ensures var i := p + |SignText(n)|;
      Occurs(text, p, Text(n)) <==>
        && Occurs(text, p, SignText(n)) && Occurs(text, i, n.integer)
        && Occurs(text, i + |n.integer|, FractionText(n))
        && Occurs(text, i + |n.integer| + |FractionText(n)|, ExponentText(n))
  {
    hide SignText, FractionText, ExponentText, Occurs;
    var i := p + |SignText(n)|;
    OccursParts(text, p, SignText(n), n.integer + (FractionText(n) + ExponentText(n)));
    OccursParts(text, i, n.integer, FractionText(n) + ExponentText(n));
    OccursParts(text, i + |n.integer|, FractionText(n), ExponentText(n));
  }

  lemma SignOccurs(text: bytes, p: nat, n: Parts)
    requires p < |text| && (n.negative <==> text[p] == MINUS)
    ensures Occurs(text, p, SignText(n)) && |SignText(n)| == if n.negative then 1 else 0
  {
  }

  lemma TextLengths(n: Parts)
    ensures |FractionText(n)| > 0 <==> n.fraction.Some?
    ensures |ExponentText(n)| > 0 <==> n.exponent.Some?
  {
  }

  lemma ZeroOrMore(text: bytes, i: nat)
    requires i < |text| && DigitAt(text, i)
    ensures var intEnd := if text[i] == ZERO then i + 1 else DigitsEnd(text, i);
      && i < intEnd <= |text| && SomeDigits(text[i..intEnd]) && (intEnd - i > 1 ==> text[i] != ZERO)
      && Occurs(text, i, text[i..intEnd])
  {
    hide DigitsEnd;
    DigitsOccur(text, i);
  }

  // ----- numbers are found, as far as they go -----

  /** Digits are scanned completely. */
  lemma {:induction false} DigitsCovered(text: bytes, p: nat, d: bytes)
    requires Occurs(text, p, d) && AllDigits(d)
    ensures p + |d| <= |text| && text[p..p + |d|] == d
    ensures DigitsEnd(text, p) >= p + |d|
    ensures !DigitAt(text, p + |d|) ==> DigitsEnd(text, p) == p + |d|
    decreases |d|
  {
    if d != [] {
      OccursAt(text, p, d, 0);
      assert [d[0]] + d[1..] == d;
      OccursParts(text, p, [d[0]], d[1..]);
      DigitsCovered(text, p + 1, d[1..]);
    }
  }

  /** The byte at `q` cannot continue a number. */
  predicate NumberStops(text: bytes, q: nat) {
    !DigitAt(text, q) && CharAt(text, q) != DOT && !IsExponentMark(CharAt(text, q))
  }

  lemma FractionCovered(text: bytes, p: nat, n: Parts)
    requires ValidParts(n) && Occurs(text, p, FractionText(n))
    ensures FractionEnd(text, p) >= p + |FractionText(n)|
    ensures !DigitAt(text, p + |FractionText(n)|) && CharAt(text, p + |FractionText(n)|) != DOT ==>
      FractionEnd(text, p) == p + |FractionText(n)| && FractionAt(text, p) == n.fraction
  {
    hide DigitsEnd;
    if n.fraction.Some? {
      var digits := n.fraction.value;
      OccursParts(text, p, [DOT], digits);
      OccursAt(text, p, [DOT], 0);
      OccursAt(text, p + 1, digits, 0);
      DigitsCovered(text, p + 1, digits);
    }
  }

  lemma ExponentCovered(text: bytes, p: nat, n: Parts)
    requires ValidParts(n) && Occurs(text, p, ExponentText(n))
    ensures ExponentEnd(text, p) >= p + |ExponentText(n)|
    ensures NumberStops(text, p + |ExponentText(n)|) ==>
      ExponentEnd(text, p) == p + |ExponentText(n)| && ExponentAt(text, p) == n.exponent
  {
    hide DigitsEnd, Occurs;
    if n.exponent.Some? {
      var e := n.exponent.value;
      var head := [e.mark] + match e.sign case Some(s) => [s] case None => [];
      OccursParts(text, p, head, e.digits);
      OccursAt(text, p, head, 0);
      if e.sign.Some? {
        OccursAt(text, p, head, 1);
      }
      OccursAt(text, p + |head|, e.digits, 0);
      DigitsCovered(text, p + |head|, e.digits);
    }
  }

  /** What stands at `i` is a zero that is followed by a digit. */
  predicate LeadingZero(text: bytes, p: nat) {
    var i := if CharAt(text, p) == MINUS then p + 1 else p;
    CharAt(text, i) == ZERO && DigitAt(text, i + 1)
  }

  lemma FirstByte(text: bytes, p: nat, n: Parts)
    requires ValidParts(n) && Occurs(text, p, Text(n))
    ensures p < |text| && (text[p] == MINUS <==> n.negative) && (text[p] == MINUS || IsDigit(text[p]))
    ensures var i := p + |SignText(n)|;
      && i < |text| && text[i] == n.integer[0] && Occurs(text, i, n.integer)
      && Occurs(text, i + |n.integer|, FractionText(n))
      && Occurs(text, i + |n.integer| + |FractionText(n)|, ExponentText(n))
  {
    hide FractionText, ExponentText;
    var i := p + |SignText(n)|;
    Assembled(text, p, n);
    OccursAt(text, i, n.integer, 0);
    if n.negative {
      OccursAt(text, p, SignText(n), 0);
    }
  }

  /** The integer part ends where it should, unless a digit follows and nothing else was expected there. */
  lemma IntegerCovered(text: bytes, i: nat, n: Parts)
    requires ValidParts(n) && Occurs(text, i, n.integer)
    requires !(n.integer[0] == ZERO && DigitAt(text, i + 1))
    ensures CharAt(text, i) == n.integer[0]
    ensures i + |n.integer| <= |text| && text[i..i + |n.integer|] == n.integer
    ensures var intEnd := if CharAt(text, i) == ZERO then i + 1 else DigitsEnd(text, i);
      intEnd >= i + |n.integer| && (!DigitAt(text, i + |n.integer|) ==> intEnd == i + |n.integer|)
  {
    hide DigitsEnd;
    OccursAt(text, i, n.integer, 0);
    DigitsCovered(text, i, n.integer);
  }

  /**
   The number token is the longest prefix that is a number, and there is one unless no number starts
   here; but a leading zero that is followed by a digit is an error.
   */
  lemma LongestNumber(text: bytes, p: nat, n: Parts)
    requires ValidParts(n) && Occurs(text, p, Text(n))
    ensures text[p] == MINUS || IsDigit(text[p])
    ensures LexNumber(text, p).kind == ParseError <==> LeadingZero(text, p)
    ensures !LeadingZero(text, p) ==> LexNumber(text, p).end >= p + |Text(n)|
    ensures !LeadingZero(text, p) && NumberStops(text, p + |Text(n)|) ==>
      LexNumber(text, p) == Token(KindOf(n), p, p + |Text(n)|) && PartsAt(text, p) == n
  {
    hide DigitsEnd, FractionEnd, ExponentEnd, FractionText, ExponentText, FractionAt, ExponentAt, Text, Occurs;
    FirstByte(text, p, n);
    if !LeadingZero(text, p) {
      var i := p + |SignText(n)|;
      var intEnd := if CharAt(text, i) == ZERO then i + 1 else DigitsEnd(text, i);
      var q := i + |n.integer|;
      var r := q + |FractionText(n)|;
      IntegerCovered(text, i, n);
      FractionCovered(text, q, n);
      ExponentCovered(text, r, n);
      Assembled(text, p, n);
      TextLengths(n);
      if n.fraction.Some? {
        FractionStart(text, q, n);
      }
      if n.exponent.Some? {
        ExponentStart(text, r, n);
      }
    }
  }

  lemma FractionStart(text: bytes, q: nat, n: Parts)
    requires Occurs(text, q, FractionText(n)) && n.fraction.Some?
    ensures CharAt(text, q) == DOT
  {
    OccursAt(text, q, FractionText(n), 0);
  }

  lemma ExponentStart(text: bytes, r: nat, n: Parts)
    requires ValidParts(n) && Occurs(text, r, ExponentText(n)) && n.exponent.Some?
    ensures IsExponentMark(CharAt(text, r))
  {
    OccursAt(text, r, ExponentText(n), 0);
  }

  /** Nothing that continues a number follows, so the number does not begin with a zero and a digit. */
  lemma NoLeadingZero(text: bytes, p: nat, n: Parts)
    requires ValidParts(n) && Occurs(text, p, Text(n)) && NumberStops(text, p + |Text(n)|)
    ensures !LeadingZero(text, p)
  {
    hide FractionText, ExponentText;
    FirstByte(text, p, n);
    Assembled(text, p, n);
    var i := p + |SignText(n)|;
    if n.integer[0] == ZERO {
      if n.fraction.Some? {
        FractionStart(text, i + 1, n);
      } else {
        TextLengths(n);
        if n.exponent.Some? {
          ExponentStart(text, i + 1, n);
        }
      }
    }
  }

  // ----- conversion -----

  const UINT64_MAX := 0xFFFF_FFFF_FFFF_FFFF
  const INT64_MIN := -0x8000_0000_0000_0000
  const INT64_MAX := 0x7FFF_FFFF_FFFF_FFFF

  /** The conversion of a float token by the C library; `std::strtod` is a parameter of the model. */
  type Strtod = bytes -> Double.Bits

  /**
   `strtonum::parse` for integers: `std::strtoll` or `std::strtoull` on the memory `s` at the start of the
   token, and the checks behind it.
   */
  function ParseIntegral(s: bytes, len: nat, low: int, high: int): (r: Option<int>)
    ensures r.Some? ==> low <= r.value <= high
  {
    var negative := s != [] && s[0] == MINUS;
    var digits := if negative then s[1..] else s;
    var n := DigitSpan(digits);
    var x: int := if negative then 0 - Number(digits[..n]) else Number(digits[..n]);
    if low <= x <= high && 0 < len && 0 < n && (if negative then n + 1 else n) == len then Some(x) else None
  }

  /** The float that a token stands for; null if it is not finite. */
  function FloatValue(token: bytes, strtod: Strtod): Json {
    FromFloat(strtod(token))
  }

  /** `get_number` for the token of length `len` at the start of `s`. */
  function GetNumber(s: bytes, len: nat, kind: Kind, strtod: Strtod): Json
    requires len <= |s|
  {
    var unsigned := if kind == ValueUnsigned then ParseIntegral(s, len, 0, UINT64_MAX) else None;
    var integer := if kind == ValueInteger then ParseIntegral(s, len, INT64_MIN, INT64_MAX) else None;
    if unsigned.Some? then Uint(unsigned.value)
    else if integer.Some? then Int(integer.value)
    else FloatValue(s[..len], strtod)
  }

  /** What a number stands for: an integer if it looks like one and fits, a float otherwise. */
  function NumberMeaning(n: Parts, strtod: Strtod): Json
    requires ValidParts(n)
  {
    var v: int := Number(n.integer);
    if n.fraction.Some? || n.exponent.Some? then FloatValue(Text(n), strtod)
    else if n.negative then (if 0 - v >= INT64_MIN then Int(0 - v) else FloatValue(Text(n), strtod))
    else if v <= UINT64_MAX then Uint(v)
    else FloatValue(Text(n), strtod)
  }

  lemma OccursBehind(s: bytes, i: nat, w: bytes)
    requires Occurs(s, i, w)
    ensures |w| <= |s[i..]| && s[i..][..|w|] == w
    ensures |w| < |s[i..]| ==> s[i..][|w|] == s[i + |w|]
  {
    assert s[i..][..|w|] == s[i..i + |w|];
  }

  /** `strtoll` finds the digits of an integer token. */
  lemma IntegralParsed(s: bytes, n: Parts, low: int, high: int)
    requires ValidParts(n) && n.fraction.None? && n.exponent.None?
    requires Occurs(s, 0, Text(n)) && !DigitAt(s, |Text(n)|)
    ensures var x: int := if n.negative then 0 - Number(n.integer) else Number(n.integer);
      ParseIntegral(s, |Text(n)|, low, high) == if low <= x <= high then Some(x) else None
  {
    hide Number, DigitSpan, IsDigit;
    FirstByte(s, 0, n);
    assert Text(n) == SignText(n) + n.integer;
    var i, k := |SignText(n)|, |n.integer|;
    var digits := s[i..];
    OccursBehind(s, i, n.integer);
    DigitSpanIs(digits, k);
    assert s[0..] == s;
  }

  /** `get_number` computes what the number stands for. */
  lemma GetNumberMeaning(s: bytes, n: Parts, strtod: Strtod)
    requires ValidParts(n) && Occurs(s, 0, Text(n)) && !DigitAt(s, |Text(n)|)
    ensures GetNumber(s, |Text(n)|, KindOf(n), strtod) == NumberMeaning(n, strtod)
  {
    hide ParseIntegral, Number, Text, DigitAt;
    assert s[..|Text(n)|] == s[0..|Text(n)|];
    if n.fraction.None? && n.exponent.None? {
      IntegralParsed(s, n, 0, UINT64_MAX);
      IntegralParsed(s, n, INT64_MIN, INT64_MAX);
    }
  }

  /** The parts of the text of an integer. */
  function IntegerParts(x: int): Parts {
    Parts(x < 0, Numeral(if x < 0 then -x else x), None, None)
  }

  /** The text that `numtostr` writes for an integer is a number that stands for the same integer. */
  lemma IntegerTextMeaning(x: int, strtod: Strtod)
    requires INT64_MIN <= x <= UINT64_MAX
    ensures ValidParts(IntegerParts(x)) && Text(IntegerParts(x)) == IntegerText(x)
    ensures NumberMeaning(IntegerParts(x), strtod) == if x < 0 then Int(x) else Uint(x)
  {
    NumberOfNumeral(if x < 0 then -x else x);
    assert Numeral(if x < 0 then -x else x) + [] == Numeral(if x < 0 then -x else x);
  }

  /** What `numtostr` writes is scanned as one token and converted back to the same integer. */
  lemma IntegerScansBack(x: int, strtod: Strtod)
    requires INT64_MIN <= x <= UINT64_MAX
    ensures var text := IntegerText(x);
      && text != [] && (text[0] == MINUS || IsDigit(text[0]))
      && LexNumber(text, 0) == Token(if x < 0 then ValueInteger else ValueUnsigned, 0, |text|)
      && GetNumber(text, |text|, LexNumber(text, 0).kind, strtod) == if x < 0 then Int(x) else Uint(x)
  {
    hide GetNumber, Text, NumberMeaning, IntegerText, LexNumber;
    var text, n := IntegerText(x), IntegerParts(x);
    IntegerTextMeaning(x, strtod);
    assert text[0..|text|] == text;
    FirstByte(text, 0, n);
    NoLeadingZero(text, 0, n);
    LongestNumber(text, 0, n);
    GetNumberMeaning(text, n, strtod);
  }
}
