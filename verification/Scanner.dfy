/**
 The scanner as the automaton that re2c generated: one state per `goto` label, with the buffer handling of
 `fill_line_buffer`.
 */
module Scanner {
  import opened Bytes
  import opened Wrappers
  import opened Decimal
  import opened Utf8
  import opened Lexical

  /**
   The labels of the generated code. `Begin` is the head of the loop; label 31 only dispatches on the byte
   that was read before and is the function `Label31`.
   */
  datatype State =
    | Begin | L2 | L4 | L5 | L6 | L9 | L10 | L12 | L13 | L14 | L15 | L17 | L19 | L21 | L23 | L24 | L25 | L26 | L28
    | L30 | L32 | L33 | L35 | L36 | L37 | L38 | L39 | L40 | L41 | L42 | L43 | L44 | L45 | L47 | L48 | L50 | L51
    | L52 | L53 | L54 | L55 | L56 | L58 | L59 | L60 | L62 | L63 | L64 | L65 | L66 | L67 | L69 | L71 | L72 | L74

  /** The label advances the cursor and reads a byte. */
  predicate Reads(s: State) {
    !s.Begin? && !s.L32? && Accepted(s) == None
  }

  /** The label ends the token: its kind, and whether the cursor advances first. */
  function Accepted(s: State): Option<(Kind, bool)> {
    match s
    case L2 => Some((EndOfInput, true))
    case L4 => Some((ParseError, true))
    case L5 => Some((ParseError, false))
    case L10 => Some((ValueSeparator, true))
    case L14 => Some((ValueUnsigned, false))
    case L17 => Some((NameSeparator, true))
    case L19 => Some((BeginArray, true))
    case L21 => Some((EndArray, true))
    case L26 => Some((BeginObject, true))
    case L28 => Some((EndObject, true))
    case L33 => Some((ValueString, true))
    case L44 => Some((ValueInteger, false))
    case L50 => Some((ParseError, false))
    case L58 => Some((ValueFloat, false))
    case L67 => Some((LiteralNull, true))
    case L69 => Some((LiteralTrue, true))
    case L72 => Some((LiteralFalse, true))
    case _ => None
  }

  /** The label stores the cursor in `m_marker` and sets `yyaccept`. */
  function Marks(s: State): Option<nat> {
    match s
    case L9 => Some(0)
    case L13 => Some(1)
    case L15 => Some(1)
    case L23 => Some(0)
    case L24 => Some(0)
    case L25 => Some(0)
    case L43 => Some(2)
    case L45 => Some(2)
    case L56 => Some(3)
    case _ => None
  }

  /** Label 32 continues here after moving the cursor back to the marker. */
  function AfterBacktrack(accept: nat): State {
    if accept <= 1 then (if accept == 0 then L5 else L14)
    else if accept == 2 then L44 else L58
  }

  /** `yybm[yych] & 32`. */
  predicate Bit32(c: byte) {
    IsBlank(c)
  }

  /** `yybm[yych] & 64`. */
  predicate Bit64(c: byte) {
    0x30 <= c <= 0x39
  }

  /** `yybm[yych] & 128`. */
  predicate Bit128(c: byte) {
    0x20 <= c <= 0x7F && c != 0x22 && c != 0x5C
  }

  /** The dispatch on the first byte of a token. */
  function FirstLabel(c: byte): State {
    if Bit32(c) then L6
    else if c <= '[' as int then
      if c <= '-' as int then
        if c <= '\"' as int then (if c <= 0 then L2 else if c <= '!' as int then L4 else L9)
        else if c <= '+' as int then L4 else if c <= ',' as int then L10 else L12
      else if c <= '9' as int then
        (if c <= '/' as int then L4 else if c <= '0' as int then L13 else L15)
      else if c <= ':' as int then L17 else if c <= 'Z' as int then L4 else L19
    else if c <= 'n' as int then
      if c <= 'e' as int then (if c == ']' as int then L21 else L4)
      else if c <= 'f' as int then L23 else if c <= 'm' as int then L4 else L24
    else if c <= 'z' as int then (if c == 't' as int then L25 else L4)
    else if c <= '{' as int then L26 else if c == '}' as int then L28 else L4
  }

  /** The dispatch inside a string. */
  function Label31(c: byte): State {
    if Bit128(c) then L30
    else if c <= 0xE0 then
      if c <= '\\' as int then (if c <= 0x1F then L32 else if c <= '\"' as int then L33 else L35)
      else if c <= 0xC1 then L32 else if c <= 0xDF then L36 else L37
    else if c <= 0xEF then (if c == 0xED then L39 else L38)
    else if c <= 0xF0 then L40 else if c <= 0xF3 then L41 else if c <= 0xF4 then L42 else L32
  }

  function AfterBackslash(c: byte): State {
    if c <= 'e' as int then
      if c <= '/' as int then (if c == '\"' as int then L30 else if c <= '.' as int then L32 else L30)
      else if c <= '\\' as int then (if c <= '[' as int then L32 else L30)
      else if c == 'b' as int then L30 else L32
    else if c <= 'q' as int then
      (if c <= 'f' as int then L30 else if c == 'n' as int then L30 else L32)
    else if c <= 's' as int then (if c <= 'r' as int then L30 else L32)
    else if c <= 't' as int then L30 else if c <= 'u' as int then L55 else L32
  }

  function AfterHex(c: byte, next: State): State {
    if c <= '@' as int then
      (if c <= '/' as int then L32 else if c <= '9' as int then next else L32)
    else if c <= 'F' as int then next else if c <= '`' as int then L32 else if c <= 'f' as int then next else L32
  }

  /** The dispatch behind a leading zero; `other` is the label that ends the number there. */
  function AfterZero(c: byte, other: State): State {
    if c <= '9' as int then (if c == '.' as int then L47 else if c >= '0' as int then L48 else other)
    else if c <= 'E' as int then (if c >= 'E' as int then L51 else other)
    else if c == 'e' as int then L51 else other
  }

  function Within(c: byte, low: byte, high: byte, next: State): State {
    if c < low then L32 else if c <= high then next else L32
  }

  function Letter(c: byte, letter: char, next: State, other: State): State
    requires letter as int < 128
  {
    if c == letter as int then next else other
  }

  /** The label that a reading label jumps to on the byte `c`. */
  function Target(s: State, c: byte): State
    requires Reads(s)
  {
    match s
    case L6 => if Bit32(c) then L6 else Begin
    case L9 =>
      if c <= 0x1F then L5 else if c <= 0x7F then Label31(c) else if c <= 0xC1 then L5
      else if c <= 0xF4 then Label31(c) else L5
    case L12 => if c <= '/' as int then L5 else if c <= '0' as int then L43 else if c <= '9' as int then L45 else L5
    case L13 => AfterZero(c, L14)
    case L15 =>
      if Bit64(c) then L15
      else if c <= 'D' as int then (if c == '.' as int then L47 else L14)
      else if c <= 'E' as int then L51 else if c == 'e' as int then L51 else L14
    case L23 => Letter(c, 'a', L52, L5)
    case L24 => Letter(c, 'u', L53, L5)
    case L25 => Letter(c, 'r', L54, L5)
    case L30 => Label31(c)
    case L35 => AfterBackslash(c)
    case L36 => Within(c, 0x80, 0xBF, L30)
    case L37 => Within(c, 0xA0, 0xBF, L36)
    case L38 => Within(c, 0x80, 0xBF, L36)
    case L39 => Within(c, 0x80, 0x9F, L36)
    case L40 => Within(c, 0x90, 0xBF, L38)
    case L41 => Within(c, 0x80, 0xBF, L38)
    case L42 => Within(c, 0x80, 0x8F, L38)
    case L43 => AfterZero(c, L44)
    case L45 =>
      if c <= '9' as int then (if c == '.' as int then L47 else if c <= '/' as int then L44 else L45)
      else if c <= 'E' as int then (if c <= 'D' as int then L44 else L51)
      else if c == 'e' as int then L51 else L44
    case L47 => if c <= '/' as int then L32 else if c <= '9' as int then L56 else L32
    case L48 => if c <= '/' as int then L50 else if c <= '9' as int then L48 else L50
    case L51 =>
      if c <= ',' as int then (if c == '+' as int then L59 else L32)
      else if c <= '-' as int then L59 else if c <= '/' as int then L32 else if c <= '9' as int then L60 else L32
    case L52 => Letter(c, 'l', L62, L32)
    case L53 => Letter(c, 'l', L63, L32)
    case L54 => Letter(c, 'u', L64, L32)
    case L55 => AfterHex(c, L65)
    case L56 =>
      if c <= 'D' as int then (if c <= '/' as int then L58 else if c <= '9' as int then L56 else L58)
      else if c <= 'E' as int then L51 else if c == 'e' as int then L51 else L58
    case L59 => if c <= '/' as int then L32 else if c >= ':' as int then L32 else L60
    case L60 => if c <= '/' as int then L58 else if c <= '9' as int then L60 else L58
    case L62 => Letter(c, 's', L66, L32)
    case L63 => Letter(c, 'l', L67, L32)
    case L64 => Letter(c, 'e', L69, L32)
    case L65 => AfterHex(c, L71)
    case L66 => Letter(c, 'e', L72, L32)
    case L71 => AfterHex(c, L74)
    case L74 => AfterHex(c, L30)
  }

  /** Nothing is consumed beyond the zero byte that ends the text. */
  lemma ZeroStops(s: State)
    requires Reads(s)
    ensures !Reads(Target(s, 0)) && Target(s, 0) != L2
    ensures Accepted(Target(s, 0)).Some? ==> !Accepted(Target(s, 0)).value.1
  {
    hide Reads, Accepted;
    ZeroTarget(s);
    SafeStops();
  }

  /** The labels where the byte zero leads. */
  predicate SafeStop(s: State) {
    s.Begin? || s.L5? || s.L14? || s.L32? || s.L44? || s.L50? || s.L58?
  }

  lemma ZeroTarget(s: State)
    requires Reads(s)
    ensures SafeStop(Target(s, 0))
  {
  }

  lemma SafeStops()
    ensures forall s :: SafeStop(s) ==> !Reads(s) && (Accepted(s).Some? ==> !Accepted(s).value.1)
  {
  }

  // ----- the automaton on a text -----

  /**
   The token that the automaton finds, started at label `s` with the cursor at `p`. `start`, `accept` and
   `marker` are `m_start`, `yyaccept` and `m_marker`.
   */
  function Run(text: bytes, p: nat, s: State, start: nat, accept: nat, marker: nat): Token
    requires p <= |text| && (Reads(s) ==> p < |text|)
    decreases |text| - p, 1
  {
    if s.Begin? then
      if CharAt(text, p) != 0 && Reads(FirstLabel(CharAt(text, p))) then
        Next(text, p, FirstLabel(CharAt(text, p)), p, 0, marker)
      else Stop(p, FirstLabel(CharAt(text, p)), p)
    else if s.L32? then Stop(marker, AfterBacktrack(accept), start)
    else if Reads(s) then Next(text, p, s, start, accept, marker)
    else Stop(p, s, start)
  }

  /** The end of the token at an accepting label. */
  function Stop(p: nat, s: State, start: nat): Token {
    match Accepted(s)
    case Some((kind, advance)) => Token(kind, start, if advance then p + 1 else p)
    case None => Token(ParseError, start, p)
  }

  /** Advancing the cursor, reading a byte and jumping on. */
  function Next(text: bytes, p: nat, s: State, start: nat, accept: nat, marker: nat): Token
    requires p < |text| && Reads(s)
    decreases |text| - p, 0
  {
    ZeroStops(s);
    var q := p + 1;
    Run(text, q, Target(s, CharAt(text, q)), start,
        if Marks(s).Some? then Marks(s).value else accept, if Marks(s).Some? then q else marker)
  }

  // ----- strings -----

  /** The automaton inside a string, about to dispatch on the byte at `p`. */
  function StringRun(text: bytes, p: nat, start: nat, marker: nat): Token
    requires p <= |text|
  {
    ZeroStops(L30);
    Run(text, p, Label31(CharAt(text, p)), start, 0, marker)
  }

  /** One step at a reading label inside a string. */
  lemma StringStep(text: bytes, p: nat, s: State, start: nat, marker: nat)
    requires p < |text| && Reads(s) && Marks(s) == None
    ensures Reads(Target(s, CharAt(text, p + 1))) ==> p + 1 < |text|
    ensures Run(text, p, s, start, 0, marker) == Run(text, p + 1, Target(s, CharAt(text, p + 1)), start, 0, marker)
  {
    hide Target;
    ZeroStops(s);
  }

  /** Label 30 goes on with the next character. */
  lemma ContinueString(text: bytes, p: nat, start: nat, marker: nat)
    requires p < |text|
    ensures Run(text, p, L30, start, 0, marker) == StringRun(text, p + 1, start, marker)
  {
    hide Run, Label31;
    StringStep(text, p, L30, start, marker);
  }

  /** A failure inside a string goes back to the character behind the quotation mark. */
  lemma FailString(text: bytes, p: nat, start: nat, marker: nat)
    requires p <= |text|
    ensures Run(text, p, L32, start, 0, marker) == Token(ParseError, start, marker)
  {
  }

  /** The labels for the continuation bytes of a multi-byte sequence. */
  lemma TailByte(text: bytes, p: nat, s: State, low: byte, high: byte, next: State, start: nat, marker: nat)
    requires p < |text| && Reads(s) && Marks(s) == None && low > 0
    requires forall c: byte :: Target(s, c) == Within(c, low, high, next)
    ensures low <= CharAt(text, p + 1) <= high ==> p + 1 < |text|
    ensures Reads(next) ==> (Run(text, p, s, start, 0, marker) ==
      if low <= CharAt(text, p + 1) <= high then Run(text, p + 1, next, start, 0, marker)
      else Token(ParseError, start, marker))
  {
    hide Run, Target;
    StringStep(text, p, s, start, marker);
    FailString(text, p + 1, start, marker);
  }

  /** What follows a string character of the given length, or the failure if there is none. */
  function Onward(text: bytes, p: nat, n: nat, start: nat, marker: nat): Token
    requires n > 0 ==> p + n <= |text|
  {
    if n > 0 then StringRun(text, p + n, start, marker) else Token(ParseError, start, marker)
  }

  /** A two-byte sequence, or the last two bytes of a longer one. */
  lemma Run36(text: bytes, p: nat, start: nat, marker: nat)
    requires p < |text|
    ensures Tail(CharAt(text, p + 1)) ==> p + 2 <= |text|
    ensures Run(text, p, L36, start, 0, marker) ==
      Onward(text, p, if Tail(CharAt(text, p + 1)) then 2 else 0, start, marker)
  {
    hide Run, StringRun;
    TailByte(text, p, L36, 0x80, 0xBF, L30, start, marker);
    if Tail(CharAt(text, p + 1)) {
      ContinueString(text, p + 1, start, marker);
    }
  }

  /** A three-byte sequence whose second byte lies between `low` and `high`. */
  lemma Run3(text: bytes, p: nat, s: State, low: byte, high: byte, start: nat, marker: nat)
    requires p < |text| && Reads(s) && Marks(s) == None && low > 0
    requires forall c: byte :: Target(s, c) == Within(c, low, high, L36)
    ensures
      var ok := low <= CharAt(text, p + 1) <= high && Tail(CharAt(text, p + 2));
      (ok ==> p + 3 <= |text|) &&
      Run(text, p, s, start, 0, marker) == Onward(text, p, if ok then 3 else 0, start, marker)
  {
    hide Run, StringRun;
    TailByte(text, p, s, low, high, L36, start, marker);
    if low <= CharAt(text, p + 1) <= high {
      Run36(text, p + 1, start, marker);
    }
  }

  /** A four-byte sequence whose second byte lies between `low` and `high`. */
  lemma Run4(text: bytes, p: nat, s: State, low: byte, high: byte, start: nat, marker: nat)
    requires p < |text| && Reads(s) && Marks(s) == None && low > 0
    requires forall c: byte :: Target(s, c) == Within(c, low, high, L38)
    ensures
      var ok := low <= CharAt(text, p + 1) <= high && Tail(CharAt(text, p + 2)) && Tail(CharAt(text, p + 3));
      (ok ==> p + 4 <= |text|) &&
      Run(text, p, s, start, 0, marker) == Onward(text, p, if ok then 4 else 0, start, marker)
  {
    hide Run, StringRun;
    TailByte(text, p, s, low, high, L38, start, marker);
    if low <= CharAt(text, p + 1) <= high {
      Run3(text, p + 1, L38, 0x80, 0xBF, start, marker);
    }
  }

  lemma MultiByteRun(text: bytes, p: nat, start: nat, marker: nat)
    requires p < |text| && text[p] >= 0x80
    ensures StringRun(text, p, start, marker) == Onward(text, p, CharLength(text, p), start, marker)
  {
    hide Run, CharLength;
    MultiByteLength(text, p);
    var c := text[p];
    if 0xC2 <= c <= 0xDF {
      Run36(text, p, start, marker);
    } else if c == 0xE0 {
      Run3(text, p, L37, 0xA0, 0xBF, start, marker);
    } else if c == 0xED {
      Run3(text, p, L39, 0x80, 0x9F, start, marker);
    } else if 0xE1 <= c <= 0xEF {
      Run3(text, p, L38, 0x80, 0xBF, start, marker);
    } else {
      FourByteRun(text, p, start, marker);
    }
  }

  lemma FourByteRun(text: bytes, p: nat, start: nat, marker: nat)
    requires p < |text| && (0x80 <= text[p] < 0xC2 || text[p] >= 0xF0)
    ensures StringRun(text, p, start, marker) == Onward(text, p, CharLength(text, p), start, marker)
  {
    hide Run, CharLength;
    MultiByteLength(text, p);
    var c := text[p];
    if c == 0xF0 {
      Run4(text, p, L40, 0x90, 0xBF, start, marker);
    } else if 0xF1 <= c <= 0xF3 {
      Run4(text, p, L41, 0x80, 0xBF, start, marker);
    } else if c == 0xF4 {
      Run4(text, p, L42, 0x80, 0x8F, start, marker);
    } else {
      FailString(text, p, start, marker);
    }
  }

  /** The labels for hexadecimal digits. */
  lemma HexDigit(text: bytes, p: nat, s: State, next: State, start: nat, marker: nat)
    requires p < |text| && Reads(s) && Marks(s) == None && Reads(next)
    requires forall c: byte :: Target(s, c) == AfterHex(c, next)
    ensures IsHex(CharAt(text, p + 1)) ==> p + 1 < |text|
    ensures Run(text, p, s, start, 0, marker) ==
      if IsHex(CharAt(text, p + 1)) then Run(text, p + 1, next, start, 0, marker) else Token(ParseError, start, marker)
  {
    hide Run, Target;
    StringStep(text, p, s, start, marker);
    FailString(text, p + 1, start, marker);
  }

  lemma HexRun(text: bytes, p: nat, start: nat, marker: nat)
    requires p < |text|
    ensures HexAt(text, p + 1) ==> p + 5 <= |text|
    ensures Run(text, p, L55, start, 0, marker) == Onward(text, p, if HexAt(text, p + 1) then 5 else 0, start, marker)
  {
    hide Run, StringRun;
    HexDigit(text, p, L55, L65, start, marker);
    if IsHex(CharAt(text, p + 1)) {
      HexDigit(text, p + 1, L65, L71, start, marker);
      if IsHex(CharAt(text, p + 2)) {
        HexDigit(text, p + 2, L71, L74, start, marker);
        if IsHex(CharAt(text, p + 3)) {
          HexDigit(text, p + 3, L74, L30, start, marker);
          if IsHex(CharAt(text, p + 4)) {
            ContinueString(text, p + 4, start, marker);
          }
        }
      }
    }
  }

  lemma EscapeRun(text: bytes, p: nat, start: nat, marker: nat)
    requires p < |text| && text[p] == BACKSLASH
    ensures StringRun(text, p, start, marker) == Onward(text, p, CharLength(text, p), start, marker)
  {
    hide Run;
    StringStep(text, p, L35, start, marker);
    var c := CharAt(text, p + 1);
    if IsShortEscape(c) {
      ContinueString(text, p + 1, start, marker);
    } else if c == 'u' as int {
      HexRun(text, p + 1, start, marker);
    } else {
      FailString(text, p + 1, start, marker);
    }
  }

  /** The automaton and the grammar agree on each character of a string. */
  lemma CharacterRun(text: bytes, p: nat, start: nat, marker: nat)
    requires p <= |text| && CharAt(text, p) != QUOTE
    ensures StringRun(text, p, start, marker) == Onward(text, p, CharLength(text, p), start, marker)
  {
    hide Run;
    var c := CharAt(text, p);
    if IsPlainAscii(c) {
      ContinueString(text, p, start, marker);
    } else if c == BACKSLASH {
      EscapeRun(text, p, start, marker);
    } else if c >= 0x80 {
      MultiByteRun(text, p, start, marker);
    } else {
      FailString(text, p, start, marker);
    }
  }

  /** The string labels recognise exactly the sequences of legal characters up to a quotation mark. */
  lemma {:induction false} StringRunIs(text: bytes, p: nat, start: nat, marker: nat)
    requires p <= |text|
    ensures StringRun(text, p, start, marker) ==
      match StringEnd(text, p) {
        case Some(e) => Token(ValueString, start, e + 1)
        case None => Token(ParseError, start, marker)
      }
    decreases |text| - p
  {
    hide CharLength;
    if CharAt(text, p) == QUOTE {
      assert Label31(QUOTE) == L33;
    } else {
      hide Run;
      CharacterRun(text, p, start, marker);
      if CharLength(text, p) > 0 {
        StringRunIs(text, p + CharLength(text, p), start, marker);
      }
    }
  }

  // ----- numbers -----

  /** One step at a reading label. */
  lemma RunStep(text: bytes, p: nat, s: State, start: nat, accept: nat, marker: nat)
    requires p < |text| && Reads(s)
    ensures Reads(Target(s, CharAt(text, p + 1))) ==> p + 1 < |text|
    ensures Run(text, p, s, start, accept, marker) ==
      Run(text, p + 1, Target(s, CharAt(text, p + 1)), start,
          if Marks(s).Some? then Marks(s).value else accept, if Marks(s).Some? then p + 1 else marker)
  {
    hide Target;
    ZeroStops(s);
  }

  /** The token when a number cannot be continued: back to the marker. */
  function Backtracked(start: nat, accept: nat, marker: nat): Token {
    Stop(marker, AfterBacktrack(accept), start)
  }

  lemma RunBacktrack(text: bytes, p: nat, start: nat, accept: nat, marker: nat)
    requires p <= |text|
    ensures Run(text, p, L32, start, accept, marker) == Backtracked(start, accept, marker)
  {
  }

  lemma RunStop(text: bytes, p: nat, s: State, start: nat, accept: nat, marker: nat)
    requires p <= |text| && Accepted(s).Some?
    ensures Run(text, p, s, start, accept, marker) == Stop(p, s, start)
  {
  }

  lemma {:induction false} Run60(text: bytes, p: nat, start: nat, accept: nat, marker: nat)
    requires p < |text|
    ensures Run(text, p, L60, start, accept, marker) == Token(ValueFloat, start, DigitsEnd(text, p + 1))
    decreases |text| - p
  {
    RunStep(text, p, L60, start, accept, marker);
    if DigitAt(text, p + 1) {
      hide Run;
      Run60(text, p + 1, start, accept, marker);
    }
  }

  /** An exponent whose mark is at `p`. */
  lemma Run51(text: bytes, p: nat, start: nat, accept: nat, marker: nat)
    requires p < |text| && IsExponentMark(text[p])
    ensures Run(text, p, L51, start, accept, marker) ==
      if ExponentEnd(text, p) > p then Token(ValueFloat, start, ExponentEnd(text, p))
      else Backtracked(start, accept, marker)
  {
    hide Run;
    RunStep(text, p, L51, start, accept, marker);
    if DigitAt(text, p + 1) {
      Run60(text, p + 1, start, accept, marker);
    } else if IsSign(CharAt(text, p + 1)) {
      RunStep(text, p + 1, L59, start, accept, marker);
      if DigitAt(text, p + 2) {
        Run60(text, p + 2, start, accept, marker);
      } else {
        RunBacktrack(text, p + 2, start, accept, marker);
      }
    } else {
      RunBacktrack(text, p + 1, start, accept, marker);
    }
  }

  lemma DigitsStep(text: bytes, p: nat)
    requires p <= |text|
    ensures DigitsEnd(text, p) == if DigitAt(text, p) then DigitsEnd(text, p + 1) else p
  {
  }

  lemma NoExponent(text: bytes, p: nat)
    requires !IsExponentMark(CharAt(text, p))
    ensures ExponentEnd(text, p) == p
  {
  }

  /** The digits of a fraction, from the digit at `p` on. */
  lemma {:induction false} Run56(text: bytes, p: nat, start: nat, accept: nat, marker: nat)
    requires p < |text|
    ensures Run(text, p, L56, start, accept, marker) ==
      Token(ValueFloat, start, ExponentEnd(text, DigitsEnd(text, p + 1)))
    decreases |text| - p
  {
    hide Run, DigitsEnd, ExponentEnd;
    RunStep(text, p, L56, start, accept, marker);
    DigitsStep(text, p + 1);
    var c := CharAt(text, p + 1);
    if IsDigit(c) {
      Run56(text, p + 1, start, 3, p + 1);
    } else if IsExponentMark(c) {
      Run51(text, p + 1, start, 3, p + 1);
    } else {
      NoExponent(text, p + 1);
      RunStop(text, p + 1, L58, start, 3, p + 1);
    }
  }

  /** What follows the integer part that ends at `q`. */
  function NumberTail(text: bytes, q: nat, start: nat, kind: Kind): Token {
    var end := ExponentEnd(text, FractionEnd(text, q));
    Token(if end > q then ValueFloat else kind, start, end)
  }

  lemma RunFraction(text: bytes, q: nat, start: nat, accept: nat, kind: Kind)
    requires q < |text| && text[q] == DOT && (accept == 1 || accept == 2)
    requires kind == if accept == 1 then ValueUnsigned else ValueInteger
    ensures Run(text, q, L47, start, accept, q) == NumberTail(text, q, start, kind)
  {
    hide Run;
    RunStep(text, q, L47, start, accept, q);
    if DigitAt(text, q + 1) {
      Run56(text, q + 1, start, accept, q);
    } else {
      RunBacktrack(text, q + 1, start, accept, q);
    }
  }

  lemma RunExponent(text: bytes, q: nat, start: nat, accept: nat, kind: Kind)
    requires q < |text| && IsExponentMark(text[q]) && (accept == 1 || accept == 2)
    requires kind == if accept == 1 then ValueUnsigned else ValueInteger
    ensures Run(text, q, L51, start, accept, q) == NumberTail(text, q, start, kind)
  {
    hide Run;
    Run51(text, q, start, accept, q);
  }

  /** The digits of an integer part, from the digit at `p` on. */
  lemma {:induction false} Run15(text: bytes, p: nat, s: State, start: nat, accept: nat, marker: nat)
    requires p < |text| && (s == L15 || s == L45)
    ensures Run(text, p, s, start, accept, marker) ==
      NumberTail(text, DigitsEnd(text, p + 1), start, if s == L15 then ValueUnsigned else ValueInteger)
    decreases |text| - p
  {
    var q := p + 1;
    var c, a, kind := CharAt(text, q), if s == L15 then 1 else 2, if s == L15 then ValueUnsigned else ValueInteger;
    RunStep(text, p, s, start, accept, marker);
    if IsDigit(c) {
      hide Run;
      Run15(text, q, s, start, a, q);
    } else if c == DOT {
      hide Run;
      RunFraction(text, q, start, a, kind);
    } else if IsExponentMark(c) {
      hide Run;
      RunExponent(text, q, start, a, kind);
    }
  }

  lemma {:induction false} Run48(text: bytes, p: nat, start: nat, accept: nat, marker: nat)
    requires p < |text|
    ensures Run(text, p, L48, start, accept, marker) == Token(ParseError, start, DigitsEnd(text, p + 1))
    decreases |text| - p
  {
    RunStep(text, p, L48, start, accept, marker);
    if DigitAt(text, p + 1) {
      hide Run;
      Run48(text, p + 1, start, accept, marker);
    }
  }

  /** A number whose integer part is the zero at `p`. */
  lemma Run13(text: bytes, p: nat, s: State, start: nat, accept: nat, marker: nat)
    requires p < |text| && (s == L13 || s == L43)
    ensures Run(text, p, s, start, accept, marker) ==
      if DigitAt(text, p + 1) then Token(ParseError, start, DigitsEnd(text, p + 1))
      else NumberTail(text, p + 1, start, if s == L13 then ValueUnsigned else ValueInteger)
  {
    var q := p + 1;
    var c, a, kind := CharAt(text, q), if s == L13 then 1 else 2, if s == L13 then ValueUnsigned else ValueInteger;
    RunStep(text, p, s, start, accept, marker);
    if IsDigit(c) {
      hide Run;
      Run48(text, q, start, a, q);
    } else if c == DOT {
      hide Run;
      RunFraction(text, q, start, a, kind);
    } else if IsExponentMark(c) {
      hide Run;
      RunExponent(text, q, start, a, kind);
    }
  }

  /** The number labels find what the grammar of numbers describes. */
  lemma NumberRun(text: bytes, p: nat, marker: nat)
    requires p < |text| && (text[p] == MINUS || IsDigit(text[p]))
    ensures Reads(FirstLabel(text[p]))
    ensures Run(text, p, FirstLabel(text[p]), p, 0, marker) == LexNumber(text, p)
  {
    hide Run, ExponentEnd, FractionEnd, DigitsEnd;
    if text[p] == MINUS {
      NegativeRun(text, p, marker);
    } else if text[p] == ZERO {
      Run13(text, p, L13, p, 0, marker);
    } else {
      Run15(text, p, L15, p, 0, marker);
      DigitsStep(text, p);
    }
  }

  lemma NegativeRun(text: bytes, p: nat, marker: nat)
    requires p < |text| && text[p] == MINUS
    ensures Run(text, p, L12, p, 0, marker) == LexNumber(text, p)
  {
    hide Run, ExponentEnd, FractionEnd, DigitsEnd;
    RunStep(text, p, L12, p, 0, marker);
    if CharAt(text, p + 1) == ZERO {
      Run13(text, p + 1, L43, p, 0, marker);
    } else if DigitAt(text, p + 1) {
      Run15(text, p + 1, L45, p, 0, marker);
      DigitsStep(text, p + 1);
    } else {
      RunStop(text, p + 1, L5, p, 0, marker);
    }
  }

  // ----- words and whole tokens -----

  /** The label expects one letter; `first` tells whether it is the label behind the first letter of a word. */
  ghost predicate Expects(s: State, letter: char, next: State, first: bool) {
    && 0 < letter as int < 128 && Reads(s) && (Reads(next) || Accepted(next).Some?)
    && Marks(s) == (if first then Some(0) else None)
    && forall c: byte :: Target(s, c) == Letter(c, letter, next, if first then L5 else L32)
  }

  lemma LetterStep(text: bytes, p: nat, s: State, letter: char, next: State, first: bool, start: nat, marker: nat)
    requires p < |text| && Expects(s, letter, next, first) && (if first then p == start else marker == start + 1)
    ensures CharAt(text, p + 1) == letter as int ==> p + 1 < |text|
    ensures Run(text, p, s, start, 0, marker) ==
      if CharAt(text, p + 1) == letter as int then Run(text, p + 1, next, start, 0, start + 1)
      else Token(ParseError, start, start + 1)
  {
    hide Target, Run;
    RunStep(text, p, s, start, 0, marker);
    if CharAt(text, p + 1) != letter as int {
      if first {
        RunStop(text, p + 1, L5, start, 0, start + 1);
      } else {
        RunBacktrack(text, p + 1, start, 0, start + 1);
      }
    }
  }

  /** The labels inside `true`, `false` and `null`. */
  lemma TrueTargets()
    ensures forall c: byte :: Target(L25, c) == Letter(c, 'r', L54, L5)
    ensures forall c: byte :: Target(L54, c) == Letter(c, 'u', L64, L32)
    ensures forall c: byte :: Target(L64, c) == Letter(c, 'e', L69, L32)
  {
  }

  lemma NullTargets()
    ensures forall c: byte :: Target(L24, c) == Letter(c, 'u', L53, L5)
    ensures forall c: byte :: Target(L53, c) == Letter(c, 'l', L63, L32)
    ensures forall c: byte :: Target(L63, c) == Letter(c, 'l', L67, L32)
  {
  }

  lemma FalseTargets()
    ensures forall c: byte :: Target(L23, c) == Letter(c, 'a', L52, L5)
    ensures forall c: byte :: Target(L52, c) == Letter(c, 'l', L62, L32)
    ensures forall c: byte :: Target(L62, c) == Letter(c, 's', L66, L32)
    ensures forall c: byte :: Target(L66, c) == Letter(c, 'e', L72, L32)
  {
  }

  lemma TrueLabels()
    ensures Expects(L25, 'r', L54, true) && Expects(L54, 'u', L64, false) && Expects(L64, 'e', L69, false)
  {
    hide Target, Letter;
    TrueTargets();
  }

  lemma NullLabels()
    ensures Expects(L24, 'u', L53, true) && Expects(L53, 'l', L63, false) && Expects(L63, 'l', L67, false)
  {
    hide Target, Letter;
    NullTargets();
  }

  lemma FalseLabels()
    ensures Expects(L23, 'a', L52, true) && Expects(L52, 'l', L62, false)
    ensures Expects(L62, 's', L66, false) && Expects(L66, 'e', L72, false)
  {
    hide Target, Letter;
    FalseTargets();
  }

  lemma TrueRun(text: bytes, p: nat, marker: nat)
    requires p < |text| && text[p] == 't' as int
    ensures Run(text, p, L25, p, 0, marker) ==
      if Occurs(text, p, TRUE) then Token(LiteralTrue, p, p + 4) else Token(ParseError, p, p + 1)
  {
    hide Run, Occurs, Target, Expects;
    ShortWord(text, p, TRUE);
    TrueLabels();
    LetterStep(text, p, L25, 'r', L54, true, p, marker);
    if CharAt(text, p + 1) == 'r' as int {
      LetterStep(text, p + 1, L54, 'u', L64, false, p, p + 1);
      if CharAt(text, p + 2) == 'u' as int {
        LetterStep(text, p + 2, L64, 'e', L69, false, p, p + 1);
        if CharAt(text, p + 3) == 'e' as int {
          RunStop(text, p + 3, L69, p, 0, p + 1);
        }
      }
    }
  }

  lemma NullRun(text: bytes, p: nat, marker: nat)
    requires p < |text| && text[p] == 'n' as int
    ensures Run(text, p, L24, p, 0, marker) ==
      if Occurs(text, p, NULL) then Token(LiteralNull, p, p + 4) else Token(ParseError, p, p + 1)
  {
    hide Run, Occurs, Target, Expects;
    ShortWord(text, p, NULL);
    NullLabels();
    LetterStep(text, p, L24, 'u', L53, true, p, marker);
    if CharAt(text, p + 1) == 'u' as int {
      LetterStep(text, p + 1, L53, 'l', L63, false, p, p + 1);
      if CharAt(text, p + 2) == 'l' as int {
        LetterStep(text, p + 2, L63, 'l', L67, false, p, p + 1);
        if CharAt(text, p + 3) == 'l' as int {
          RunStop(text, p + 3, L67, p, 0, p + 1);
        }
      }
    }
  }

  lemma FalseRun(text: bytes, p: nat, marker: nat)
    requires p < |text| && text[p] == 'f' as int
    ensures Run(text, p, L23, p, 0, marker) ==
      if Occurs(text, p, FALSE) then Token(LiteralFalse, p, p + 5) else Token(ParseError, p, p + 1)
  {
    hide Run, Occurs, Target, Expects;
    LongWord(text, p, FALSE);
    FalseLabels();
    LetterStep(text, p, L23, 'a', L52, true, p, marker);
    if CharAt(text, p + 1) == 'a' as int {
      LetterStep(text, p + 1, L52, 'l', L62, false, p, p + 1);
      if CharAt(text, p + 2) == 'l' as int {
        LetterStep(text, p + 2, L62, 's', L66, false, p, p + 1);
        if CharAt(text, p + 3) == 's' as int {
          LetterStep(text, p + 3, L66, 'e', L72, false, p, p + 1);
          if CharAt(text, p + 4) == 'e' as int {
            RunStop(text, p + 4, L72, p, 0, p + 1);
          }
        }
      }
    }
  }

  lemma ShortWord(text: bytes, p: nat, word: bytes)
    requires p < |text| && |word| == 4 && word[3] != 0
    ensures Occurs(text, p, word) <==>
      && CharAt(text, p) == word[0] && CharAt(text, p + 1) == word[1] && CharAt(text, p + 2) == word[2]
      && CharAt(text, p + 3) == word[3]
  {
    if p + 4 <= |text| {
      var s := text[p..p + 4];
      assert s == [text[p], text[p + 1], text[p + 2], text[p + 3]];
      assert word == [word[0], word[1], word[2], word[3]];
    }
  }

  lemma LongWord(text: bytes, p: nat, word: bytes)
    requires p < |text| && |word| == 5 && word[4] != 0
    ensures Occurs(text, p, word) <==>
      && CharAt(text, p) == word[0] && CharAt(text, p + 1) == word[1] && CharAt(text, p + 2) == word[2]
      && CharAt(text, p + 3) == word[3] && CharAt(text, p + 4) == word[4]
  {
    if p + 5 <= |text| {
      var s := text[p..p + 5];
      assert s == [text[p], text[p + 1], text[p + 2], text[p + 3], text[p + 4]];
      assert word == [word[0], word[1], word[2], word[3], word[4]];
    }
  }

  /** A quotation mark starts a string token. */
  lemma QuoteRun(text: bytes, p: nat, marker: nat)
    requires p < |text| && text[p] == QUOTE
    ensures Run(text, p, L9, p, 0, marker) == LexAt(text, p)
  {
    hide CharLength;
    RunStep(text, p, L9, p, 0, marker);
    StringRunIs(text, p + 1, p, p + 1);
    var c := CharAt(text, p + 1);
    if c <= 0x1F || 0x80 <= c <= 0xC1 || c > 0xF4 {
      if c >= 0x80 {
        MultiByteLength(text, p + 1);
      } else {
        assert CharLength(text, p + 1) == 0 by { LowCharacter(text, p + 1); }
      }
      assert StringEnd(text, p + 1) == None;
    }
  }

  lemma LowCharacter(text: bytes, p: nat)
    requires CharAt(text, p) <= 0x1F
    ensures CharLength(text, p) == 0
  {
    hide MultiByteAt;
    if MultiByteAt(text, p, 2) {
      LeadByte(text, p, 2);
    }
    if MultiByteAt(text, p, 3) {
      LeadByte(text, p, 3);
    }
    if MultiByteAt(text, p, 4) {
      LeadByte(text, p, 4);
    }
  }

  lemma LeadByte(text: bytes, p: nat, n: nat)
    requires MultiByteAt(text, p, n)
    ensures CharAt(text, p) >= 0xC2
  {
    assert text[p..p + n][0] == text[p];
  }

  /** The automaton finds exactly the tokens of the grammar. */
  lemma TokenRun(text: bytes, p: nat, start: nat, accept: nat, marker: nat)
    requires p <= |text| && !IsBlank(CharAt(text, p))
    ensures Run(text, p, Begin, start, accept, marker) == LexAt(text, p)
  {
    hide Run, LexNumber, Occurs, StringEnd;
    var c := CharAt(text, p);
    BeginRun(text, p, start, accept, marker);
    if p < |text| {
      ShortWord(text, p, TRUE);
      LongWord(text, p, FALSE);
      ShortWord(text, p, NULL);
    }
    if c == QUOTE {
      QuoteRun(text, p, marker);
    } else if c == MINUS || IsDigit(c) {
      NumberRun(text, p, marker);
    } else if c == 't' as int {
      TrueRun(text, p, marker);
    } else if c == 'f' as int {
      FalseRun(text, p, marker);
    } else if c == 'n' as int {
      NullRun(text, p, marker);
    }
  }

  lemma BeginRun(text: bytes, p: nat, start: nat, accept: nat, marker: nat)
    requires p <= |text|
    ensures Reads(FirstLabel(CharAt(text, p))) ==> p < |text|
    ensures Run(text, p, Begin, start, accept, marker) ==
      if Reads(FirstLabel(CharAt(text, p))) then Run(text, p, FirstLabel(CharAt(text, p)), p, 0, marker)
      else Stop(p, FirstLabel(CharAt(text, p)), p)
  {
    hide FirstLabel, Target;
    assert FirstLabel(0) == L2 by { FirstZero(); }
    FirstIsReal(CharAt(text, p));
  }

  lemma FirstZero()
    ensures FirstLabel(0) == L2
  {
  }

  lemma FirstIsReal(c: byte)
    ensures !FirstLabel(c).Begin? && !FirstLabel(c).L32?
  {
  }

  /** Blanks are skipped; then one token of the grammar follows. */
  lemma RunIsLex(text: bytes, p: nat, start: nat, accept: nat, marker: nat)
    requires p <= |text|
    ensures Run(text, p, Begin, start, accept, marker) == Lex(text, p)
  {
    hide Run, LexAt;
    if IsBlank(CharAt(text, p)) {
      BeginRun(text, p, start, accept, marker);
      BlankRun(text, p, p, 0, marker);
    } else {
      TokenRun(text, p, start, accept, marker);
    }
  }

  lemma {:induction false} BlankRun(text: bytes, p: nat, start: nat, accept: nat, marker: nat)
    requires p < |text| && IsBlank(text[p])
    ensures Run(text, p, L6, start, accept, marker) == Lex(text, p)
    decreases |text| - p
  {
    hide Run, LexAt;
    RunStep(text, p, L6, start, accept, marker);
    assert SkipBlanks(text, p) == SkipBlanks(text, p + 1);
    if IsBlank(CharAt(text, p + 1)) {
      BlankRun(text, p + 1, start, accept, marker);
    } else {
      TokenRun(text, p + 1, start, accept, marker);
      assert SkipBlanks(text, p + 1) == p + 1;
    }
  }
}
