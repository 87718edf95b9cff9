/**
 The parser object: `parse` and `parse_internal` on the lexer, without a callback.
 */
module Parser {
  import opened Bytes
  import opened Wrappers
  import opened Decimal
  import opened Value
  import opened Utf8
  import opened Lexical
  import opened Strings
  import opened Numbers
  import opened Grammar
  import opened Syntax
  import opened Tokens
  import L = Lexer

  // ----- what the lexer knows about the last token -----

  /** The last token is a string: `get_string` may be called, and it computes the denotation. */
  lemma StringRead(content: bytes, text: bytes, dropped: nat, start: nat, cursor: nat)
    requires L.Holds(content, text, dropped) && start < cursor <= |content| && dropped + cursor <= |text|
    requires LexAt(text, dropped + start) == Token(ValueString, dropped + start, dropped + cursor)
    ensures cursor - start >= 2 && content[cursor - 1] == QUOTE
    ensures SymbolAt(text, dropped + start).Word? && SymbolAt(text, dropped + start).atom.StringAtom?
    ensures var chs := SymbolAt(text, dropped + start).atom.chs;
      && ValidChars(chs) && Escaped(L.Body(content, start + 1, cursor))
      && Decoded(L.Body(content, start + 1, cursor)) ==
        match StringMeaning(chs) {
          case Some(s) => Ok(s)
          case None => Err(InvalidArgument)
        }
  {
    hide StringEnd, CharsOf, SpellingAll, LexAt, SymbolAt, Escaped, Decoded, Points, EncodePoints;
    var q := dropped + start;
    StringStart(text, q);
    StringToken(text, q);
    var w := SpellingAll(CharsOf(text, q + 1));
    QuotedOccurs(text, q, w);
    HoldsSlice(content, text, dropped, start + 1, cursor - 1);
    L.HoldsByte(content, text, dropped, cursor - 1);
    assert L.Body(content, start + 1, cursor) == w;
    DecodedIsDenotation(CharsOf(text, q + 1));
  }

  lemma StringStart(text: bytes, q: nat)
    requires LexAt(text, q).kind == ValueString
    ensures q < |text| && text[q] == QUOTE && StringEnd(text, q + 1).Some?
  {
    hide StringEnd, LexNumber;
  }

  lemma HoldsSlice(content: bytes, text: bytes, dropped: nat, i: nat, k: nat)
    requires L.Holds(content, text, dropped) && i <= k <= |content| && dropped + k <= |text|
    ensures content[i..k] == text[dropped + i..dropped + k]
  {
    forall n | 0 <= n < k - i ensures content[i..k][n] == text[dropped + i..dropped + k][n] {
      assert content[i + n] == text[dropped + (i + n)];
    }
  }

  predicate IsNumberKind(kind: Kind) {
    kind == ValueUnsigned || kind == ValueInteger || kind == ValueFloat
  }

  /** The last token is a number: `get_number` computes what it stands for. */
  lemma NumberRead(content: bytes, text: bytes, dropped: nat, start: nat, cursor: nat, kind: Kind, strtod: Strtod)
    requires L.Holds(content, text, dropped) && start < cursor <= |content| && dropped + cursor <= |text|
    requires LexAt(text, dropped + start) == Token(kind, dropped + start, dropped + cursor) && IsNumberKind(kind)
    ensures SymbolAt(text, dropped + start).Word? && SymbolAt(text, dropped + start).atom.NumberAtom?
    ensures ValidParts(SymbolAt(text, dropped + start).atom.n)
    ensures GetNumber(content[start..], cursor - start, kind, strtod) ==
      NumberMeaning(SymbolAt(text, dropped + start).atom.n, strtod)
  {
    hide LexAt, SymbolAt, GetNumber, NumberMeaning, Text, PartsAt, LexNumber;
    var q := dropped + start;
    NumberStart(text, q);
    NumberToken(text, q);
    TokenIsNumber(text, q);
    var n := PartsAt(text, q);
    var s, len := content[start..], cursor - start;
    HoldsSlice(content, text, dropped, start, cursor);
    assert s[0..len] == content[start..cursor];
    if len < |s| {
      L.HoldsByte(content, text, dropped, cursor);
      assert s[len] == content[cursor];
    }
    GetNumberMeaning(s, n, strtod);
  }

  lemma NumberStart(text: bytes, q: nat)
    requires IsNumberKind(LexAt(text, q).kind)
    ensures q < |text| && (text[q] == MINUS || IsDigit(text[q])) && LexNumber(text, q) == LexAt(text, q)
  {
    hide StringEnd, LexNumber;
  }

  /** The symbol is a token of the given kind. */
  predicate IsSymbolOf(s: Symbol, kind: Kind) {
    match kind
    case BeginObject => s == OPEN_TABLE
    case EndObject => s == CLOSE_TABLE
    case BeginArray => s == OPEN_LIST
    case EndArray => s == CLOSE_LIST
    case NameSeparator => s == COLON
    case ValueSeparator => s == COMMA
    case EndOfInput => s == EndOfText
    case ParseError => s == Illegal
    case LiteralTrue => s == Word(TrueAtom)
    case LiteralFalse => s == Word(FalseAtom)
    case LiteralNull => s == Word(NullAtom)
    case ValueString => s.Word? && s.atom.StringAtom?
    case _ => s.Word? && s.atom.NumberAtom? && IsNumberKind(kind)
  }

  lemma KindOfSymbol(s: Symbol)
    requires ValidSymbol(s)
    ensures IsSymbolOf(s, SymbolKind(s))
  {
  }

  // ----- the parser -----

  class Parser {
    const lexer: L.Lexer
    const strtod: Strtod
    var lastToken: Kind

    /** The position in the text from which the last token was scanned. */
    ghost var from: nat

    ghost predicate Valid()
      reads this, lexer
    {
      && lexer.Valid() && from <= |lexer.text|
      && lexer.AtToken(Lex(lexer.text, from)) && lastToken == Lex(lexer.text, from).kind
    }

    /** The tokens from the last token on. */
    ghost function Rest(): (syms: seq<Symbol>)
      requires from <= |lexer.text|
      reads this
      ensures ValidSymbols(syms) && syms != []
    {
      Scanned(lexer.text, from)
    }

    /** A parser on a buffer. */
    constructor (buff: bytes, strtod: Strtod)
      ensures fresh(this) && fresh(lexer) && lexer.Valid() && lexer.Position() == 0
      ensures lexer.text == buff && this.strtod == strtod
    {
      lexer := new L.Lexer(buff);
      this.strtod := strtod;
      lastToken := ParseError;
      from := 0;
    }

    /** `get_token` behind a token. */
    method GetToken()
      requires Valid() && Solid(Rest()[0])
      modifies this, lexer
      ensures Valid() && Rest() == old(Rest())[1..]
    {
      hide Lex, LexAt, Scanned, SymbolText, SymbolAt, ValidSymbols;
      LastToken(lexer.text, from);
      lastToken := lexer.Scan();
      from := Lex(lexer.text, from).end;
    }

    /** `last_token` and the tokens that are left. */
    lemma KnownToken()
      requires Valid()
      ensures ValidSymbol(Rest()[0]) && IsSymbolOf(Rest()[0], lastToken) && First(Rest()) == Rest()[0]
      ensures Solid(Rest()[0]) ==> lexer.Position() <= |lexer.text|
      ensures Rest()[0] == SymbolAt(lexer.text, lexer.dropped + lexer.start)
      ensures LexAt(lexer.text, lexer.dropped + lexer.start) ==
        Token(lastToken, lexer.dropped + lexer.start, lexer.dropped + lexer.cursor)
    {
      hide LexAt, SymbolAt, SymbolText, SymbolKind, IsSymbolOf;
      LastToken(lexer.text, from);
      KindOfSymbol(Rest()[0]);
    }

    /** The tokens that the loops look for. */
    lemma Punctuation()
      requires Valid()
      ensures First(Rest()) == Rest()[0]
      ensures lastToken == ValueSeparator <==> Rest()[0] == COMMA
      ensures lastToken == EndArray <==> Rest()[0] == CLOSE_LIST
      ensures lastToken == EndObject <==> Rest()[0] == CLOSE_TABLE
    {
      hide LexAt, SymbolAt, SymbolText, Scanned, Lex, ValidSymbols;
      KnownToken();
    }

    /** `expect`. */
    function Expect(t: Kind): Result<()>
      reads this
    {
      if t != lastToken then Err(InvalidArgument) else Ok(())
    }

    /** `unexpect`. */
    function Unexpect(t: Kind): Result<()>
      reads this
    {
      if t == lastToken then Err(InvalidArgument) else Ok(())
    }

    /** `get_string` for the last token. */
    method TakeString() returns (r: Result<bytes>)
      requires Valid() && Rest()[0].Word? && Rest()[0].atom.StringAtom?
      ensures ValidChars(Rest()[0].atom.chs)
      ensures r == match StringMeaning(Rest()[0].atom.chs) {
        case Some(s) => Ok(s)
        case None => Err(InvalidArgument)
      }
    {
      hide Scanned, LexAt, SymbolAt, StringMeaning, L.Holds, Decoded, Escaped, ValidSymbols, Lex;
      KnownToken();
      StringRead(lexer.content, lexer.text, lexer.dropped, lexer.start, lexer.cursor);
      r := lexer.GetString();
    }

    /** `get_number` for the last token. */
    method TakeNumber() returns (j: Json)
      requires Valid() && Rest()[0].Word? && Rest()[0].atom.NumberAtom?
      ensures ValidParts(Rest()[0].atom.n) && j == NumberMeaning(Rest()[0].atom.n, strtod)
    {
      hide Scanned, LexAt, SymbolAt, NumberMeaning, GetNumber, L.Holds, ValidSymbols, Lex;
      KnownToken();
      NumberRead(lexer.content, lexer.text, lexer.dropped, lexer.start, lexer.cursor, lastToken, strtod);
      j := lexer.GetNumber(lastToken, strtod);
    }

    /** The outcome agrees with the parser on tokens, which leaves the tokens behind the value. */
    ghost predicate Agrees(r: Result<Json>, spec: Parsed)
      requires from <= |lexer.text|
      reads this
    {
      match spec
      case Ok((v, rest)) => r == Ok(v) && Rest() == rest
      case Err(e) => r == Err(e)
    }

    /** `parse_internal`. */
    method ParseInternal() returns (r: Result<Json>)
      requires Valid()
      modifies this, lexer
      ensures Valid() && Agrees(r, ParseValue(old(Rest()), strtod))
      decreases |Rest()|, 1
    {
      hide Scanned, Lex, SymbolKind, ValidSymbols, ParseItems, ParseMembers, StringMeaning, NumberMeaning;
      KnownToken();
      match lastToken
      case BeginObject => r := ParseObject();
      case BeginArray => r := ParseArray();
      case LiteralNull =>
        GetToken();
        r := Ok(Null);
      case ValueString =>
        var s :- TakeString();
        GetToken();
        r := Ok(String(s));
      case LiteralTrue =>
        GetToken();
        r := Ok(Bool(true));
      case LiteralFalse =>
        GetToken();
        r := Ok(Bool(false));
      case ValueUnsigned => r := ParseNumber();
      case ValueInteger => r := ParseNumber();
      case ValueFloat => r := ParseNumber();
      case _ => r := Err(InvalidArgument);
    }

    method ParseNumber() returns (r: Result<Json>)
      requires Valid() && Rest()[0].Word? && Rest()[0].atom.NumberAtom?
      modifies this, lexer
      ensures Valid() && Agrees(r, ParseValue(old(Rest()), strtod))
    {
      hide Scanned, Lex, ValidSymbols, ParseItems, ParseMembers, NumberMeaning;
      var result := TakeNumber();
      GetToken();
      r := Ok(result);
    }

    /** The tokens at which the next element or member starts. */
    ghost function Next(): (syms: seq<Symbol>)
      requires from <= |lexer.text|
      reads this
      ensures ValidSymbols(syms)
    {
      if lastToken == ValueSeparator then Rest()[1..] else Rest()
    }

    /** One round of the element loop: a comma may stand before the element. */
    method NextElement() returns (r: Result<Json>)
      requires Valid()
      modifies this, lexer
      ensures Valid() && Agrees(r, ParseValue(old(Next()), strtod))
      decreases |Rest()|, 2
    {
      hide Scanned, Lex, IsSymbolOf, ValidSymbols, ParseValue, Agrees;
      Punctuation();
      if lastToken == ValueSeparator {
        GetToken();
      }
      r := ParseInternal();
    }

    /** One round of the member loop: the name, the colon and the value. */
    method NextMember() returns (r: Result<(bytes, Json)>)
      requires Valid()
      modifies this, lexer
      ensures Valid()
      ensures match ParseMember(old(Next()), strtod) {
        case Ok((member, rest)) => r == Ok(member) && Rest() == rest
        case Err(e) => r == Err(e)
      }
      decreases |Rest()|, 2
    {
      hide Scanned, Lex, ValidSymbols, ParseValue, StringMeaning, IsSymbolOf;
      Punctuation();
      if lastToken == ValueSeparator {
        GetToken();
      }
      KnownString();
      var _ :- Expect(ValueString);
      var key :- TakeString();
      GetToken();
      KnownColon();
      var _ :- Expect(NameSeparator);
      GetToken();
      var value :- ParseInternal();
      r := Ok((key, value));
    }

    lemma KnownString()
      requires Valid()
      ensures First(Rest()) == Rest()[0]
      ensures lastToken == ValueString <==> Rest()[0].Word? && Rest()[0].atom.StringAtom?
    {
      hide LexAt, SymbolAt, SymbolText, Scanned, Lex, ValidSymbols;
      KnownToken();
    }

    lemma KnownColon()
      requires Valid()
      ensures First(Rest()) == Rest()[0]
      ensures lastToken == NameSeparator <==> Rest()[0] == COLON
    {
      hide LexAt, SymbolAt, SymbolText, Scanned, Lex, ValidSymbols;
      KnownToken();
    }

    /** The case `begin_array` of `parse_internal`. */
    method ParseArray() returns (r: Result<Json>)
      requires Valid() && Rest()[0] == OPEN_LIST
      modifies this, lexer
      ensures Valid() && Agrees(r, ParseValue(old(Rest()), strtod))
      decreases |Rest()|, 0
    {
      hide Scanned, Lex, IsSymbolOf, ValidSymbols, ParseItems, ParseMembers, ParseValue;
      ghost var spec := ParseValue(Rest(), strtod);
      ArrayCase(Rest(), strtod);
      GetToken();
      Punctuation();
      if lastToken == EndArray {
        GetToken();
        return Ok(Array([]));
      }
      var _ :- Unexpect(ValueSeparator);
      var result: seq<Json> := [];
      while true
        invariant Valid() && |Rest()| < old(|Rest()|)
        invariant spec == ParseItems(Next(), result, strtod)
        decreases |Rest()|
      {
        ItemsStep(Next(), result, strtod);
        Punctuation();
        var value :- NextElement();
        Punctuation();
        result := result + [value];
        if lastToken != ValueSeparator {
          break;
        }
      }
      var _ :- Expect(EndArray);
      GetToken();
      r := Ok(Array(result));
    }

    /** The case `begin_object` of `parse_internal`. */
    method ParseObject() returns (r: Result<Json>)
      requires Valid() && Rest()[0] == OPEN_TABLE
      modifies this, lexer
      ensures Valid() && Agrees(r, ParseValue(old(Rest()), strtod))
      decreases |Rest()|, 0
    {
      hide Scanned, Lex, IsSymbolOf, ValidSymbols, ParseItems, ParseMembers, ParseValue, ParseMember;
      ghost var spec := ParseValue(Rest(), strtod);
      ObjectCase(Rest(), strtod);
      GetToken();
      Punctuation();
      if lastToken == EndObject {
        GetToken();
        return Ok(Object(map[]));
      }
      var _ :- Unexpect(ValueSeparator);
      var result: map<bytes, Json> := map[];
      while true
        invariant Valid() && |Rest()| < old(|Rest()|)
        invariant spec == ParseMembers(Next(), result, strtod)
        decreases |Rest()|
      {
        MembersStep(Next(), result, strtod);
        Punctuation();
        var member :- NextMember();
        Punctuation();
        result := result[member.0 := member.1];
        if lastToken != ValueSeparator {
          break;
        }
      }
      var _ :- Expect(EndObject);
      GetToken();
      r := Ok(Object(result));
    }

    /** `parse`. */
    method Parse() returns (r: Result<Json>)
      requires lexer.Valid() && lexer.Position() == 0
      modifies this, lexer
      ensures r == ParseText(lexer.text, strtod)
    {
      hide Scanned, Lex, SymbolKind, ValidSymbols, ParseValue;
      lastToken := lexer.Scan();
      from := 0;
      var result :- ParseInternal();
      KnownToken();
      var _ :- Expect(EndOfInput);
      r := Ok(result);
    }
  }

  /** `basic_json::parse` on a buffer. */
  method ParseBuffer(buff: bytes, strtod: Strtod) returns (r: Result<Json>)
    ensures r == ParseText(buff, strtod)
  {
    var parser := new Parser(buff, strtod);
    r := parser.Parse();
  }

  lemma ArrayCase(syms: seq<Symbol>, strtod: Strtod)
    requires ValidSymbols(syms) && syms != [] && syms[0] == OPEN_LIST
    ensures ParseValue(syms, strtod) ==
      if First(syms[1..]) == CLOSE_LIST then Ok((Array([]), syms[1..][1..]))
      else if First(syms[1..]) == COMMA then Err(InvalidArgument)
      else ParseItems(syms[1..], [], strtod)
  {
    hide ParseItems, ParseMembers;
    if |syms| > 1 {
      assert syms[1..][1..] == syms[2..];
    }
  }

  lemma ObjectCase(syms: seq<Symbol>, strtod: Strtod)
    requires ValidSymbols(syms) && syms != [] && syms[0] == OPEN_TABLE
    ensures ParseValue(syms, strtod) ==
      if First(syms[1..]) == CLOSE_TABLE then Ok((Object(map[]), syms[1..][1..]))
      else if First(syms[1..]) == COMMA then Err(InvalidArgument)
      else ParseMembers(syms[1..], map[], strtod)
  {
    hide ParseItems, ParseMembers;
    if |syms| > 1 {
      assert syms[1..][1..] == syms[2..];
    }
  }

  lemma {:induction false} ItemsStep(syms: seq<Symbol>, a: seq<Json>, strtod: Strtod)
    requires ValidSymbols(syms)
    ensures ParseItems(syms, a, strtod) ==
      match ParseValue(syms, strtod) {
        case Err(e) => Err(e)
        case Ok(parsed) =>
          if First(parsed.1) == COMMA then ParseItems(parsed.1[1..], a + [parsed.0], strtod)
          else if First(parsed.1) == CLOSE_LIST then Ok((Array(a + [parsed.0]), parsed.1[1..]))
          else Err(InvalidArgument)
      }
  {
    hide ParseValue;
  }

  /** One member of an object. */
  function ParseMember(syms: seq<Symbol>, strtod: Strtod): (r: Result<((bytes, Json), seq<Symbol>)>)
    requires ValidSymbols(syms)
    ensures r.Ok? ==> |r.value.1| < |syms| && ValidSymbols(r.value.1)
  {
    match First(syms)
    case Word(StringAtom(chs)) =>
      (match StringMeaning(chs)
       case None => Err(InvalidArgument)
       case Some(key) =>
         if First(syms[1..]) != COLON then Err(InvalidArgument)
         else match ParseValue(syms[1..][1..], strtod) {
           case Err(e) => Err(e)
           case Ok(parsed) => Ok(((key, parsed.0), parsed.1))
         })
    case _ => Err(InvalidArgument)
  }

  lemma {:induction false} MembersStep(syms: seq<Symbol>, m: map<bytes, Json>, strtod: Strtod)
    requires ValidSymbols(syms)
    ensures ParseMembers(syms, m, strtod) ==
      match ParseMember(syms, strtod) {
        case Err(e) => Err(e)
        case Ok((member, rest)) =>
          if First(rest) == COMMA then ParseMembers(rest[1..], m[member.0 := member.1], strtod)
          else if First(rest) == CLOSE_TABLE then Ok((Object(m[member.0 := member.1]), rest[1..]))
          else Err(InvalidArgument)
      }
  {
    hide ParseValue, StringMeaning;
    if |syms| > 1 {
      assert syms[1..][1..] == syms[2..];
    }
  }

  /** The first token and the rest. */
  lemma LastToken(text: bytes, from: nat)
    requires from <= |text|
    ensures var s, t := Scanned(text, from)[0], Lex(text, from);
      && s == SymbolAt(text, t.start) && ValidSymbol(s) && SymbolKind(s) == t.kind && t == LexAt(text, t.start)
      && (Solid(s) ==> t.end <= |text| && Scanned(text, from)[1..] == Scanned(text, t.end))
  {
    hide LexAt, SymbolAt, SymbolText, SymbolKind, ValidSymbols;
    TokenIsSymbol(text, SkipBlanks(text, from));
  }
}
