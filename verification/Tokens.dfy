/**
 From text to tokens and back: the scanner reads a text as the tokens that spell it, and the parser accepts
 exactly the texts of JSON trees.
 */
module Tokens {
  import opened Bytes
  import opened Wrappers
  import opened Decimal
  import opened Value
  import opened Utf8
  import opened Lexical
  import opened Strings
  import opened Numbers
  import opened Grammar
  import opened Syntax

  // ----- one token -----

  /** Not the end of the text and no error. */
  predicate Solid(s: Symbol) {
    s.Structure? || s.Word?
  }

  /** The symbol that `scan` finds at a position that holds no blank. */
  function SymbolAt(text: bytes, p: nat): (s: Symbol)
    requires p <= |text|
  {
    match LexAt(text, p).kind
    case EndOfInput => EndOfText
    case ParseError => Illegal
    case LiteralTrue => Word(TrueAtom)
    case LiteralFalse => Word(FalseAtom)
    case LiteralNull => Word(NullAtom)
    case ValueString => Word(StringAtom(CharsOf(text, p + 1)))
    case ValueUnsigned => Word(NumberAtom(PartsAt(text, p)))
    case ValueInteger => Word(NumberAtom(PartsAt(text, p)))
    case ValueFloat => Word(NumberAtom(PartsAt(text, p)))
    case _ => Structure(text[p])
  }

  /** The kind of token that a symbol is. */
  function SymbolKind(s: Symbol): Kind
    requires ValidSymbol(s)
  {
    match s
    case Structure(c) => Structural(c).value
    case Word(TrueAtom) => LiteralTrue
    case Word(FalseAtom) => LiteralFalse
    case Word(NullAtom) => LiteralNull
    case Word(StringAtom(_)) => ValueString
    case Word(NumberAtom(n)) => KindOf(n)
    case EndOfText => EndOfInput
    case Illegal => ParseError
  }

  /** A token of the scanner is a legal symbol that stands there. */
  lemma TokenIsSymbol(text: bytes, p: nat)
    requires p <= |text|
    ensures var s := SymbolAt(text, p);
      && ValidSymbol(s) && SymbolKind(s) == LexAt(text, p).kind
      && (Solid(s) ==> Occurs(text, p, SymbolText(s)) && LexAt(text, p).end == p + |SymbolText(s)| <= |text|)
  {
    hide StringEnd, CharsOf, LexNumber, PartsAt, Text, SpellingAll, KindOf;
    var c := CharAt(text, p);
    if c == MINUS || IsDigit(c) {
      if LexNumber(text, p).kind != ParseError {
        NumberToken(text, p);
      }
    } else if c == QUOTE {
      if StringEnd(text, p + 1).Some? {
        StringToken(text, p);
      }
    }
  }

  lemma NumberToken(text: bytes, p: nat)
    requires p < |text| && (text[p] == MINUS || IsDigit(text[p])) && LexNumber(text, p).kind != ParseError
    ensures var s := SymbolAt(text, p);
      && s == Word(NumberAtom(PartsAt(text, p)))
      && ValidSymbol(s) && Occurs(text, p, SymbolText(s))
      && LexAt(text, p) == Token(SymbolKind(s), p, p + |SymbolText(s)|)
  {
    hide LexNumber, PartsAt, Text, DigitAt;
    TokenIsNumber(text, p);
  }

  lemma QuoteToken(text: bytes, p: nat)
    requires p < |text| && text[p] == QUOTE && StringEnd(text, p + 1).Some?
    ensures LexAt(text, p) == Token(ValueString, p, StringEnd(text, p + 1).value + 1)
    ensures SymbolAt(text, p) == Word(StringAtom(CharsOf(text, p + 1)))
  {
    hide StringEnd, CharsOf;
  }

  lemma QuotedOccurs(text: bytes, p: nat, w: bytes)
    ensures Occurs(text, p, [QUOTE] + w + [QUOTE]) <==>
      && p < |text| && text[p] == QUOTE && Occurs(text, p + 1, w)
      && p + 1 + |w| < |text| && text[p + 1 + |w|] == QUOTE
  {
    hide Occurs;
    OccursParts(text, p, [QUOTE], w);
    OccursParts(text, p, [QUOTE] + w, [QUOTE]);
    OccursOne(text, p, QUOTE);
    OccursOne(text, p + 1 + |w|, QUOTE);
  }

  lemma StringToken(text: bytes, p: nat)
    requires p < |text| && text[p] == QUOTE && StringEnd(text, p + 1).Some?
    ensures var s := SymbolAt(text, p);
      && s == Word(StringAtom(CharsOf(text, p + 1)))
      && ValidSymbol(s) && Occurs(text, p, SymbolText(s))
      && LexAt(text, p) == Token(ValueString, p, p + |SymbolText(s)|)
  {
    hide StringEnd, CharsOf, SpellingAll, LexAt, SymbolAt, Occurs;
    QuoteToken(text, p);
    StringEndSpelled(text, p + 1);
    QuotedOccurs(text, p, SpellingAll(CharsOf(text, p + 1)));
  }

  /** What stands behind a number does not continue it. */
  predicate Delimited(text: bytes, p: nat, s: Symbol) {
    s.Word? && s.atom.NumberAtom? ==> NumberStops(text, p + |SymbolText(s)|)
  }

  /** The scanner finds every legal symbol. */
  lemma SymbolIsToken(text: bytes, p: nat, s: Symbol)
    requires ValidSymbol(s) && Solid(s) && Occurs(text, p, SymbolText(s)) && Delimited(text, p, s)
    ensures p < |text| && !IsBlank(text[p])
    ensures LexAt(text, p) == Token(SymbolKind(s), p, p + |SymbolText(s)|)
    ensures SymbolAt(text, p) == s
  {
    hide LexAt, SymbolAt, Text, KindOf, NumberStops;
    match s
    case Structure(c) =>
      StructureIsToken(text, p, c);
    case Word(StringAtom(chs)) =>
      StringIsToken(text, p, chs);
    case Word(NumberAtom(n)) =>
      NumberIsToken(text, p, n);
    case Word(a) =>
      LiteralIsToken(text, p, a);
  }

  lemma StructureIsToken(text: bytes, p: nat, c: byte)
    requires Structural(c).Some? && Occurs(text, p, [c])
    ensures p < |text| && !IsBlank(text[p])
    ensures LexAt(text, p) == Token(Structural(c).value, p, p + 1) && SymbolAt(text, p) == Structure(c)
  {
    hide LexNumber, StringEnd, CharsOf, PartsAt;
    OccursOne(text, p, c);
  }

  lemma StringIsToken(text: bytes, p: nat, chs: seq<StrChar>)
    requires ValidChars(chs) && Occurs(text, p, [QUOTE] + SpellingAll(chs) + [QUOTE])
    ensures p < |text| && !IsBlank(text[p])
    ensures LexAt(text, p) == Token(ValueString, p, p + |SpellingAll(chs)| + 2)
    ensures SymbolAt(text, p) == Word(StringAtom(chs))
  {
    hide StringEnd, CharsOf, SpellingAll, LexAt, SymbolAt, Occurs;
    QuotedOccurs(text, p, SpellingAll(chs));
    SpelledStringEnd(text, p + 1, chs);
    QuoteToken(text, p);
  }

  lemma LiteralIsToken(text: bytes, p: nat, a: Atom)
    requires !a.StringAtom? && !a.NumberAtom? && Occurs(text, p, AtomText(a))
    ensures p < |text| && !IsBlank(text[p])
    ensures LexAt(text, p) == Token(SymbolKind(Word(a)), p, p + |AtomText(a)|)
    ensures SymbolAt(text, p) == Word(a)
  {
    hide LexNumber, StringEnd, CharsOf, PartsAt;
    OccursAt(text, p, AtomText(a), 0);
  }

  lemma NumberIsToken(text: bytes, p: nat, n: Parts)
    requires ValidParts(n) && Occurs(text, p, Text(n)) && NumberStops(text, p + |Text(n)|)
    ensures p < |text| && !IsBlank(text[p])
    ensures LexAt(text, p) == Token(KindOf(n), p, p + |Text(n)|)
    ensures SymbolAt(text, p) == Word(NumberAtom(n))
  {
    hide LexNumber, PartsAt, Text;
    NoLeadingZero(text, p, n);
    LongestNumber(text, p, n);
  }

  // ----- all tokens -----

  /** The tokens from `p` on, up to the end of the text or the first error. */
  function Scanned(text: bytes, p: nat): (syms: seq<Symbol>)
    requires p <= |text|
    ensures ValidSymbols(syms) && syms != []
    decreases |text| - p
  {
    var q := SkipBlanks(text, p);
    var s := SymbolAt(text, q);
    TokenIsSymbol(text, q);
    if Solid(s) then [s] + Scanned(text, LexAt(text, q).end) else [s]
  }

  /** No two values stand side by side. */
  predicate Separated(syms: seq<Symbol>) {
    forall i | 0 <= i < |syms| - 1 :: syms[i].Word? ==> syms[i + 1].Structure?
  }

  predicate AllSolid(syms: seq<Symbol>) {
    forall i | 0 <= i < |syms| :: Solid(syms[i])
  }

  lemma SkippedBlanks(text: bytes, p: nat)
    requires p <= |text|
    ensures Blanks(text, p, SkipBlanks(text, p))
    decreases |text| - p
  {
  }

  lemma {:induction false} BlanksSkipped(text: bytes, p: nat, q: nat)
    requires Blanks(text, p, q) && !IsBlank(CharAt(text, q))
    ensures SkipBlanks(text, p) == q
    decreases |text| - p
  {
    if p < q {
      BlanksSkipped(text, p + 1, q);
    }
  }

  /** A text is spelled by its tokens. */
  lemma {:induction false} ScannedSpells(text: bytes, p: nat, syms: seq<Symbol>) returns (end: nat)
    requires p <= |text| && Scanned(text, p) == syms + [EndOfText] && AllSolid(syms)
    ensures end <= |text| && CharAt(text, end) == 0 && Spells(text, p, end, syms)
    decreases |syms|
  {
    hide SymbolAt, LexAt, SymbolText, ValidSymbols, SymbolKind;
    var q := SkipBlanks(text, p);
    SkippedBlanks(text, p);
    TokenIsSymbol(text, q);
    assert (syms + [EndOfText])[0] == SymbolAt(text, q);
    if syms == [] {
      end := q;
      EndOfTextIsZero(text, q);
    } else {
      assert syms + [EndOfText] == [syms[0]] + (syms[1..] + [EndOfText]);
      assert syms[0] == SymbolAt(text, q);
      assert Scanned(text, p)[1..] == syms[1..] + [EndOfText];
      end := ScannedSpells(text, LexAt(text, q).end, syms[1..]);
      assert SpellsFrom(text, p, q, end, syms);
    }
  }

  lemma EndOfTextIsZero(text: bytes, q: nat)
    requires q <= |text| && SymbolAt(text, q) == EndOfText
    ensures CharAt(text, q) == 0
  {
    hide LexNumber, StringEnd, PartsAt, CharsOf;
    TokenIsSymbol(text, q);
  }

  lemma ZeroIsEndOfText(text: bytes, q: nat)
    requires q <= |text| && CharAt(text, q) == 0
    ensures SymbolAt(text, q) == EndOfText
  {
  }

  /** What follows a symbol delimits it. */
  lemma NextDelimits(text: bytes, p: nat, end: nat, syms: seq<Symbol>, s: Symbol)
    requires end <= |text| && CharAt(text, end) == 0 && Spells(text, p, end, syms)
    requires syms != [] ==> syms[0].Structure? && ValidSymbol(syms[0])
    ensures NumberStops(text, p)
  {
    if syms == [] {
      if p < end {
        assert IsBlank(text[p]);
      }
    } else {
      var q: nat :| SpellsFrom(text, p, q, end, syms);
      if p < q {
        assert IsBlank(text[p]);
      } else {
        OccursAt(text, q, SymbolText(syms[0]), 0);
      }
    }
  }

  /** Tokens that spell a text are what the scanner finds. */
  lemma {:induction false} SpelledIsScanned(text: bytes, p: nat, end: nat, syms: seq<Symbol>)
    requires p <= |text| && end <= |text| && CharAt(text, end) == 0 && Spells(text, p, end, syms)
    requires ValidSymbols(syms) && AllSolid(syms) && Separated(syms)
    ensures Scanned(text, p) == syms + [EndOfText]
    decreases |syms|
  {
    hide SymbolAt, LexAt, SymbolText, SymbolKind, NumberStops;
    if syms == [] {
      BlanksSkipped(text, p, end);
      ZeroIsEndOfText(text, end);
    } else {
      var q: nat :| SpellsFrom(text, p, q, end, syms);
      var s, rest := syms[0], syms[1..];
      var r := q + |SymbolText(s)|;
      assert rest != [] ==> rest[0] == syms[1];
      if s.Word? {
        NextDelimits(text, r, end, rest, s);
      }
      SymbolIsToken(text, q, s);
      BlanksSkipped(text, p, q);
      SpelledIsScanned(text, r, end, rest);
      assert syms + [EndOfText] == [s] + (rest + [EndOfText]);
    }
  }

  // ----- trees -----

  lemma SeparatedConcat(a: seq<Symbol>, b: seq<Symbol>)
    requires Separated(a) && Separated(b) && AllSolid(a) && AllSolid(b)
    requires (a != [] && a[|a| - 1].Structure?) || (b != [] && b[0].Structure?)
    ensures Separated(a + b) && AllSolid(a + b)
  {
  }

  lemma {:induction false} TreeSeparated(t: Tree)
    requires ValidTree(t)
    ensures Separated(Symbols(t)) && AllSolid(Symbols(t))
    decreases t
  {
    hide ItemSymbols, MemberSymbols;
    match t
    case Leaf(_) =>
    case List(items) =>
      ItemsSeparated(items);
      SeparatedConcat([OPEN_LIST], ItemSymbols(items));
      SeparatedConcat([OPEN_LIST] + ItemSymbols(items), [CLOSE_LIST]);
    case Table(members) =>
      MembersSeparated(members);
      SeparatedConcat([OPEN_TABLE], MemberSymbols(members));
      SeparatedConcat([OPEN_TABLE] + MemberSymbols(members), [CLOSE_TABLE]);
  }

  lemma {:induction false} ItemsSeparated(items: Items)
    requires ValidItems(items)
    ensures Separated(ItemSymbols(items)) && AllSolid(ItemSymbols(items))
    decreases items
  {
    hide Symbols;
    if items.Item? {
      TreeSeparated(items.head);
      if items.tail.Item? {
        ItemsSeparated(items.tail);
        SeparatedConcat([COMMA], ItemSymbols(items.tail));
        SeparatedConcat(Symbols(items.head), [COMMA] + ItemSymbols(items.tail));
      } else {
        assert ItemSymbols(items) == Symbols(items.head);
      }
    }
  }

  lemma {:induction false} MembersSeparated(members: Members)
    requires ValidMembers(members)
    ensures Separated(MemberSymbols(members)) && AllSolid(MemberSymbols(members))
    decreases members
  {
    hide Symbols;
    if members.Member? {
      var head := [Word(StringAtom(members.key)), COLON];
      var value := Symbols(members.value);
      TreeSeparated(members.value);
      SeparatedConcat(head, value);
      if members.rest.Member? {
        MembersSeparated(members.rest);
        SeparatedConcat([COMMA], MemberSymbols(members.rest));
        SeparatedConcat(head + value, [COMMA] + MemberSymbols(members.rest));
      } else {
        assert MemberSymbols(members) == head + value;
      }
    }
  }

  // ----- the language of the parser -----

  /** `basic_json::parse` on a buffer, without a callback. */
  function ParseText(text: bytes, strtod: Strtod): Result<Json> {
    Parse(Scanned(text, 0), strtod)
  }

  /** Up to `end`, where it ends or a zero byte stands, the text is spelled by the tree. */
  ghost predicate IsTextOf(text: bytes, end: nat, t: Tree) {
    ValidTree(t) && end <= |text| && CharAt(text, end) == 0 && Spells(text, 0, end, Symbols(t))
  }

  lemma TextOfTreeParsed(text: bytes, end: nat, t: Tree, strtod: Strtod)
    requires IsTextOf(text, end, t)
    ensures ParseText(text, strtod) ==
      match Meaning(t, strtod) {
        case Some(v) => Ok(v)
        case None => Err(InvalidArgument)
      }
  {
    hide Scanned, Meaning, Symbols, ParseValue, Spells, Separated, AllSolid;
    TreeSymbolsValid(t);
    TreeSeparated(t);
    SpelledIsScanned(text, 0, end, Symbols(t));
    TreeParsed(t, [EndOfText], strtod);
  }

  lemma ParsedTextIsTree(text: bytes, strtod: Strtod) returns (end: nat, t: Tree)
    requires ParseText(text, strtod).Ok?
    ensures IsTextOf(text, end, t) && Meaning(t, strtod) == Some(ParseText(text, strtod).value)
  {
    hide Scanned, Meaning, Symbols, ParseValue, Spells, Separated, AllSolid;
    var syms := Scanned(text, 0);
    t := ParsedTree(syms, strtod);
    var rest := ParseValue(syms, strtod).value.1;
    TreeSeparated(t);
    EndIsLast(text, 0, Symbols(t), rest);
    end := ScannedSpells(text, 0, Symbols(t));
  }

  /** Nothing follows the end of the text. */
  lemma {:induction false} EndIsLast(text: bytes, p: nat, a: seq<Symbol>, rest: seq<Symbol>)
    requires p <= |text| && Scanned(text, p) == a + rest && First(rest) == EndOfText && AllSolid(a)
    ensures rest == [EndOfText]
    decreases |a|
  {
    hide SymbolAt, LexAt, SymbolText, ValidSymbols, SymbolKind;
    var q := SkipBlanks(text, p);
    TokenIsSymbol(text, q);
    if a != [] {
      assert (a + rest)[0] == a[0] && (a + rest)[1..] == a[1..] + rest;
      EndIsLast(text, LexAt(text, q).end, a[1..], rest);
    } else {
      assert a + rest == rest;
    }
  }

  /**
   The parser accepts a buffer, and returns `v`, exactly when the buffer is a JSON text, sections 2 to 7 of
   RFC 7159, that denotes `v`; it denotes no value if a surrogate is not paired. Text behind a zero byte
   outside of all tokens is ignored.
   */
  lemma ParseIff(text: bytes, v: Json, strtod: Strtod)
    ensures ParseText(text, strtod) == Ok(v) <==>
      exists end: nat, t: Tree :: IsTextOf(text, end, t) && Meaning(t, strtod) == Some(v)
  {
    hide ParseText, Meaning;
    if ParseText(text, strtod) == Ok(v) {
      var end, t := ParsedTextIsTree(text, strtod);
    }
    if end: nat, t: Tree :| IsTextOf(text, end, t) && Meaning(t, strtod) == Some(v) {
      TextOfTreeParsed(text, end, t, strtod);
    }
  }

  /** Without a zero byte the whole buffer must be the text. */
  lemma WholeText(text: bytes, end: nat, t: Tree)
    requires IsTextOf(text, end, t) && forall i | 0 <= i < |text| :: text[i] != 0
    ensures end == |text|
  {
  }

  // ----- zero bytes -----

  predicate ZeroFree(s: bytes) {
    forall i | 0 <= i < |s| :: s[i] != 0
  }

  /** The position of the first zero byte, or the length. */
  function FirstZero(text: bytes): (z: nat)
    ensures z <= |text| && ZeroFree(text[..z]) && (z < |text| ==> text[z] == 0)
  {
    if text == [] || text[0] == 0 then 0
    else
      var z := 1 + FirstZero(text[1..]);
      assert text[..z] == [text[0]] + text[1..][..z - 1];
      z
  }

  lemma {:induction false} SpellingZeroFree(chs: seq<StrChar>)
    requires ValidChars(chs)
    ensures ZeroFree(SpellingAll(chs))
  {
    hide Spelling;
    if chs != [] {
      CharZeroFree(chs[0]);
      SpellingZeroFree(chs[1..]);
    }
  }

  lemma CharZeroFree(ch: StrChar)
    requires ValidChar(ch)
    ensures ZeroFree(Spelling(ch))
  {
    hide EncodePoint;
    if ch.Plain? {
      PlainBytes(ch.cp);
    }
  }

  lemma NumberZeroFree(n: Parts)
    requires ValidParts(n)
    ensures ZeroFree(Text(n))
  {
    assert ZeroFree(SignText(n)) && ZeroFree(n.integer) && ZeroFree(FractionText(n)) && ZeroFree(ExponentText(n));
  }

  /** No token holds a zero byte. */
  lemma SymbolZeroFree(s: Symbol)
    requires ValidSymbol(s) && Solid(s)
    ensures ZeroFree(SymbolText(s))
  {
    hide Text, SpellingAll, ValidParts;
    match s
    case Word(StringAtom(chs)) => SpellingZeroFree(chs);
    case Word(NumberAtom(n)) => NumberZeroFree(n);
    case _ =>
  }

  /** The part of a text that tokens spell holds no zero byte, so it may be cut off behind it. */
  lemma {:induction false} SpellsCut(text: bytes, z: nat, p: nat, end: nat, syms: seq<Symbol>)
    requires ValidSymbols(syms) && AllSolid(syms) && z == FirstZero(text) && p <= z
    ensures Spells(text, p, end, syms) <==> end <= z && Spells(text[..z], p, end, syms)
    decreases |syms|
  {
    hide SymbolText, FirstZero;
    if syms == [] {
      BlanksCut(text, z, p, end);
    } else {
      forall q: nat ensures SpellsFrom(text, p, q, end, syms) <==> end <= z && SpellsFrom(text[..z], p, q, end, syms) {
        SpellsFromCut(text, z, p, q, end, syms);
      }
    }
  }

  lemma {:induction false} SpellsFromCut(text: bytes, z: nat, p: nat, q: nat, end: nat, syms: seq<Symbol>)
    requires ValidSymbols(syms) && AllSolid(syms) && z == FirstZero(text) && p <= z && syms != []
    ensures SpellsFrom(text, p, q, end, syms) <==> end <= z && SpellsFrom(text[..z], p, q, end, syms)
    decreases |syms|, 0
  {
    hide SymbolText, FirstZero, Occurs, Blanks, Spells;
    BlanksCut(text, z, p, q);
    var r := q + |SymbolText(syms[0])|;
    if q <= z {
      SymbolZeroFree(syms[0]);
      OccursCut(text, z, q, SymbolText(syms[0]));
      if r <= z {
        SpellsCut(text, z, r, end, syms[1..]);
      }
    }
  }

  lemma BlanksCut(text: bytes, z: nat, p: nat, q: nat)
    requires z == FirstZero(text) && p <= z
    ensures Blanks(text, p, q) <==> Blanks(text[..z], p, q)
    ensures Blanks(text, p, q) ==> q <= z
  {
  }

  lemma OccursOnlyIf(text: bytes, p: nat, w: bytes, i: nat)
    requires i < |w|
    ensures Occurs(text, p, w) ==> p + i < |text| && text[p + i] == w[i]
  {
    if Occurs(text, p, w) {
      OccursAt(text, p, w, i);
    }
  }

  lemma OccursCut(text: bytes, z: nat, p: nat, w: bytes)
    requires z == FirstZero(text) && p <= z && ZeroFree(w)
    ensures Occurs(text, p, w) <==> Occurs(text[..z], p, w)
    ensures Occurs(text, p, w) ==> p + |w| <= z
  {
    hide FirstZero;
    if z < p + |w| {
      OccursOnlyIf(text, p, w, z - p);
    }
    if p + |w| <= z {
      assert text[..z][p..p + |w|] == text[p..p + |w|];
    }
  }

  /** A text that is cut off at its first zero byte has the same trees. */
  lemma TextCut(text: bytes, end: nat, t: Tree)
    ensures IsTextOf(text, end, t) <==> end == FirstZero(text) && IsTextOf(text[..FirstZero(text)], end, t)
  {
    hide Symbols, Spells, FirstZero, Scanned;
    var z := FirstZero(text);
    if ValidTree(t) {
      TreeSymbolsValid(t);
      TreeSeparated(t);
      SpellsCut(text, z, 0, end, Symbols(t));
    }
  }

  /** The parser behaves as if the buffer ended at its first zero byte. */
  lemma CutAtZero(text: bytes, strtod: Strtod)
    ensures ParseText(text, strtod) == ParseText(text[..FirstZero(text)], strtod)
  {
    hide IsTextOf, Meaning, ParseText, FirstZero;
    var cut := text[..FirstZero(text)];
    FailureKind(text, strtod);
    FailureKind(cut, strtod);
    if ParseText(text, strtod).Ok? {
      var end, t := ParsedTextIsTree(text, strtod);
      TextCut(text, end, t);
      TextOfTreeParsed(cut, end, t, strtod);
    } else if ParseText(cut, strtod).Ok? {
      var end, t := ParsedTextIsTree(cut, strtod);
      CutEnd(text, end, t);
      TextCut(text, end, t);
      TextOfTreeParsed(text, end, t, strtod);
    }
  }

  lemma CutEnd(text: bytes, end: nat, t: Tree)
    requires IsTextOf(text[..FirstZero(text)], end, t)
    ensures end == FirstZero(text)
  {
    hide FirstZero, Spells;
  }

  lemma FailureKind(text: bytes, strtod: Strtod)
    ensures ParseText(text, strtod).Err? ==> ParseText(text, strtod) == Err(InvalidArgument)
  {
    hide Scanned, ParseValue;
  }

  /** The whole buffer is a JSON text by sections 2 to 7 of RFC 7159, with a value. */
  ghost predicate IsJsonText(text: bytes, strtod: Strtod) {
    exists t :: IsTextOf(text, |text|, t) && Meaning(t, strtod).Some?
  }

  /**
   The parser accepts a buffer that is no JSON text exactly when the buffer has a zero byte and what stands
   before the first one is a JSON text.
   */
  lemma WronglyAccepted(text: bytes, strtod: Strtod)
    ensures ParseText(text, strtod).Ok? && !IsJsonText(text, strtod) <==>
      FirstZero(text) < |text| && IsJsonText(text[..FirstZero(text)], strtod)
    ensures IsJsonText(text, strtod) ==> ParseText(text, strtod).Ok?
  {
    hide IsTextOf, Meaning, ParseText, FirstZero;
    var z := FirstZero(text);
    CutAtZero(text, strtod);
    AcceptedZeroFree(text[..z], strtod);
    if z == |text| {
      assert text[..z] == text;
    } else {
      ZeroIsNoText(text, strtod);
    }
  }

  lemma AcceptedZeroFree(text: bytes, strtod: Strtod)
    requires ZeroFree(text)
    ensures ParseText(text, strtod).Ok? <==> IsJsonText(text, strtod)
  {
    hide Meaning, ParseText, Spells, Symbols;
    if ParseText(text, strtod).Ok? {
      var end, t := ParsedTextIsTree(text, strtod);
      WholeText(text, end, t);
    }
    if IsJsonText(text, strtod) {
      var t :| IsTextOf(text, |text|, t) && Meaning(t, strtod).Some?;
      TextOfTreeParsed(text, |text|, t, strtod);
    }
  }

  lemma ZeroIsNoText(text: bytes, strtod: Strtod)
    requires FirstZero(text) < |text|
    ensures !IsJsonText(text, strtod)
  {
    hide IsTextOf, FirstZero;
    forall t ensures !IsTextOf(text, |text|, t) {
      TextCut(text, |text|, t);
    }
  }

  /** The buffer `1`, zero byte, `x` is accepted as the number 1, although it is no JSON text. */
  lemma ZeroByteAccepted(strtod: Strtod)
    ensures
      var text: bytes := ['1' as int, 0, 'x' as int];
      ParseText(text, strtod) == Ok(Uint(1)) && !IsJsonText(text, strtod)
  {
    hide ParseText, IsJsonText, Meaning, IsTextOf, FirstZero;
    var text: bytes := ['1' as int, 0, 'x' as int];
    ZeroAt(text, 1);
    ZeroIsNoText(text, strtod);
    var t := Leaf(NumberAtom(IntegerParts(1)));
    OneIsText(text, strtod);
    TextOfTreeParsed(text, 1, t, strtod);
  }

  lemma ZeroAt(text: bytes, z: nat)
    requires z < |text| && text[z] == 0
    ensures FirstZero(text) <= z
  {
    hide FirstZero;
  }

  lemma OneIsText(text: bytes, strtod: Strtod)
    requires |text| > 1 && text[0] == '1' as int && text[1] == 0
    ensures var t := Leaf(NumberAtom(IntegerParts(1)));
      IsTextOf(text, 1, t) && Meaning(t, strtod) == Some(Uint(1))
  {
    hide Text, NumberMeaning, IntegerParts, ValidParts;
    IntegerTextMeaning(1, strtod);
    var s := Word(NumberAtom(IntegerParts(1)));
    assert IntegerText(1) == ['1' as int];
    OccursOne(text, 0, '1' as int);
    assert Spells(text, 1, 1, []);
    assert [s][1..] == [];
    assert SpellsFrom(text, 0, 0, 1, [s]);
  }
}
