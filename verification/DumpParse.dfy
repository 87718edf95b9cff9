/**
 Parsing what `dump` wrote gives the value back.
 */
module DumpParse {
  import opened Bytes
  import opened Wrappers
  import opened Value
  import opened Utf8
  import opened Lexical
  import opened Strings
  import opened Escape
  import opened Numbers
  import opened Grammar
  import opened Tokens
  import opened Dump

  /** No number in the value is a float. */
  predicate FloatFree(j: Json)
  {
    match j
    case Float(_) => false
    case Array(a) => forall i | 0 <= i < |a| :: FloatFree(a[i])
    case Object(m) => forall k | k in m :: FloatFree(m[k])
    case _ => true
  }

  /** Every string and every member name in the value is well-formed UTF-8. */
  ghost predicate AllUtf8(j: Json)
  {
    match j
    case String(s) => WellFormed(s)
    case Array(a) => forall i | 0 <= i < |a| :: AllUtf8(a[i])
    case Object(m) => forall k | k in m :: WellFormed(k) && AllUtf8(m[k])
    case _ => true
  }

  // ----- the tree that dump writes -----

  ghost function PointsOf(s: bytes): (cps: seq<Scalar>)
    requires WellFormed(s)
    ensures s == EncodePoints(cps)
  {
    var cps: seq<Scalar> :| s == EncodePoints(cps);
    cps
  }

  ghost function CharsOfString(s: bytes): (chs: seq<StrChar>)
    requires WellFormed(s)
    ensures ValidChars(chs)
  {
    CharsFor(PointsOf(s))
  }

  ghost function TreeOf(j: Json): Tree
    requires FloatFree(j) && AllUtf8(j)
    decreases j, 1
  {
    match j
    case Null => Leaf(NullAtom)
    case Bool(b) => Leaf(if b then TrueAtom else FalseAtom)
    case Int(i) => Leaf(NumberAtom(IntegerParts(i)))
    case Uint(u) => Leaf(NumberAtom(IntegerParts(u)))
    case String(s) => Leaf(StringAtom(CharsOfString(s)))
    case Array(a) => List(ItemsOf(j, 0))
    case Object(m) => Table(MembersOf(j, SortedKeys(m.Keys)))
  }

  ghost function ItemsOf(j: Json, i: nat): Items
    requires FloatFree(j) && AllUtf8(j) && j.Array? && i <= |j.a|
    decreases j, 0, |j.a| - i
  {
    if i == |j.a| then NoItems else Item(TreeOf(j.a[i]), ItemsOf(j, i + 1))
  }

  ghost function MembersOf(j: Json, ks: seq<bytes>): Members
    requires FloatFree(j) && AllUtf8(j) && j.Object? && forall k :: k in ks ==> k in j.m
    decreases j, 0, |ks|
  {
    if ks == [] then NoMembers else Member(CharsOfString(ks[0]), TreeOf(j.m[ks[0]]), MembersOf(j, ks[1..]))
  }

  lemma StringTree(s: bytes)
    requires WellFormed(s)
    ensures StringMeaning(CharsOfString(s)) == Some(s)
    ensures AtomText(StringAtom(CharsOfString(s))) == Quoted(s)
  {
    hide CharsFor, EscapeText, SpellingAll, Points;
    EscapeSpelled(PointsOf(s));
  }

  /** The tree denotes the value, up to the signedness of non-negative numbers. */
  lemma {:induction false} TreeMeaning(j: Json, strtod: Strtod)
    requires FloatFree(j) && AllUtf8(j)
    ensures ValidTree(TreeOf(j)) && Meaning(TreeOf(j), strtod) == Some(Rebuilt(j))
    decreases j, 1
  {
    hide ItemsOf, MembersOf, ItemsMeaning, MembersMeaning, StringMeaning, NumberMeaning, CharsOfString, IntegerParts;
    match j
    case Int(i) => IntegerTextMeaning(i, strtod);
    case Uint(u) => IntegerTextMeaning(u, strtod);
    case String(s) => StringTree(s);
    case Array(a) => ArrayMeaning(j, strtod);
    case Object(m) => ObjectMeaning(j, strtod);
    case _ =>
  }

  lemma {:induction false} ArrayMeaning(j: Json, strtod: Strtod)
    requires FloatFree(j) && AllUtf8(j) && j.Array?
    ensures ValidTree(TreeOf(j)) && Meaning(TreeOf(j), strtod) == Some(Rebuilt(j))
    decreases j, 0, |j.a| + 1
  {
    hide ItemsOf, ItemsMeaning, FloatFree, AllUtf8;
    ItemsOfMeaning(j, 0, strtod);
    assert ItemsMeaning(ItemsOf(j, 0), strtod).value == Rebuilt(j).a;
  }

  lemma {:induction false} ObjectMeaning(j: Json, strtod: Strtod)
    requires FloatFree(j) && AllUtf8(j) && j.Object?
    ensures ValidTree(TreeOf(j)) && Meaning(TreeOf(j), strtod) == Some(Rebuilt(j))
    decreases j, 1, 0
  {
    hide MembersOf, MembersMeaning, FloatFree, AllUtf8, SortedKeys;
    var ks := SortedKeys(j.m.Keys);
    MembersOfMeaning(j, ks, strtod);
    var n := MembersMeaning(MembersOf(j, ks), strtod).value;
    assert n.Keys == j.m.Keys;
    assert n == Rebuilt(j).m;
  }

  lemma {:induction false} ItemsOfMeaning(j: Json, i: nat, strtod: Strtod)
    requires FloatFree(j) && AllUtf8(j) && j.Array? && i <= |j.a|
    ensures ValidItems(ItemsOf(j, i))
    ensures var b := ItemsMeaning(ItemsOf(j, i), strtod);
      b.Some? && |b.value| == |j.a| - i && forall k | 0 <= k < |j.a| - i :: b.value[k] == Rebuilt(j.a[i + k])
    decreases j, 0, |j.a| - i
  {
    hide TreeOf, Meaning, Rebuilt;
    if i < |j.a| {
      TreeMeaning(j.a[i], strtod);
      ItemsOfMeaning(j, i + 1, strtod);
      var b, c := ItemsMeaning(ItemsOf(j, i), strtod).value, ItemsMeaning(ItemsOf(j, i + 1), strtod).value;
      assert b == [Rebuilt(j.a[i])] + c;
      forall k | 0 <= k < |j.a| - i ensures b[k] == Rebuilt(j.a[i + k]) {
        if k > 0 {
          assert b[k] == c[k - 1] == Rebuilt(j.a[i + 1 + (k - 1)]);
        }
      }
    }
  }

  lemma {:induction false} MembersOfMeaning(j: Json, ks: seq<bytes>, strtod: Strtod)
    requires FloatFree(j) && AllUtf8(j) && j.Object? && forall k :: k in ks ==> k in j.m
    ensures ValidMembers(MembersOf(j, ks))
    ensures var n := MembersMeaning(MembersOf(j, ks), strtod);
      n.Some? && (forall k :: k in n.value <==> k in ks) && forall k | k in ks :: n.value[k] == Rebuilt(j.m[k])
    decreases j, 0, |ks|
  {
    hide TreeOf, Meaning, Rebuilt, StringMeaning, CharsOfString;
    if ks != [] {
      StringTree(ks[0]);
      TreeMeaning(j.m[ks[0]], strtod);
      MembersOfMeaning(j, ks[1..], strtod);
      var n, r := MembersMeaning(MembersOf(j, ks), strtod).value, MembersMeaning(MembersOf(j, ks[1..]), strtod).value;
      assert n == map[ks[0] := Rebuilt(j.m[ks[0]])] + r;
      forall k ensures k in n <==> k in ks {
        assert k in ks <==> k == ks[0] || k in ks[1..];
      }
    }
  }

  // ----- the text of the tree -----

  lemma {:induction false} SpellsConcat(text: bytes, p: nat, m: nat, end: nat, u: seq<Symbol>, v: seq<Symbol>)
    requires Spells(text, p, m, u) && Spells(text, m, end, v)
    ensures Spells(text, p, end, u + v)
    decreases |u|
  {
    hide Occurs, SymbolText;
    if u == [] {
      assert u + v == v;
      if v != [] {
        var q: nat :| SpellsFrom(text, m, q, end, v);
        assert SpellsFrom(text, p, q, end, v);
      }
    } else {
      var q: nat :| SpellsFrom(text, p, q, m, u);
      assert (u + v)[1..] == u[1..] + v;
      SpellsConcat(text, q + |SymbolText(u[0])|, m, end, u[1..], v);
      assert SpellsFrom(text, p, q, end, u + v);
    }
  }

  /** One token without blanks around it. */
  lemma SpellsOne(text: bytes, p: nat, s: Symbol)
    requires Occurs(text, p, SymbolText(s))
    ensures Spells(text, p, p + |SymbolText(s)|, [s])
  {
    hide SymbolText, Occurs;
    var end := p + |SymbolText(s)|;
    OccursWithin(text, p, SymbolText(s));
    assert Spells(text, end, end, []);
    assert [s][1..] == [];
    assert SpellsFrom(text, p, p, end, [s]);
  }

  lemma OccursWithin(text: bytes, p: nat, w: bytes)
    requires Occurs(text, p, w)
    ensures p + |w| <= |text|
  {
  }

  predicate AllBlank(s: bytes) {
    forall i | 0 <= i < |s| :: IsBlank(s[i])
  }

  lemma SpellsBlanks(text: bytes, p: nat, s: bytes)
    requires Occurs(text, p, s) && AllBlank(s)
    ensures Spells(text, p, p + |s|, [])
  {
    forall i | p <= i < p + |s| ensures IsBlank(text[i]) {
      OccursAt(text, p, s, i - p);
    }
  }

  lemma FormatBlanks(fmt: Format, n: nat)
    ensures AllBlank(LineBreak(fmt)) && AllBlank(Spaces(n)) && AllBlank(Closing(fmt, n))
    ensures AllBlank(Separator(true, fmt, n))
    ensures AllBlank(if fmt.pretty then [0x20] else [])
    ensures Separator(false, fmt, n) == [',' as int] + (LineBreak(fmt) + Spaces(n))
    ensures AllBlank(LineBreak(fmt) + Spaces(n))
  {
  }

  /** What stands before an element: blanks, and a comma unless it is the first. */
  lemma SeparatorSpells(text: bytes, p: nat, first: bool, fmt: Format, n: nat)
    requires Occurs(text, p, Separator(first, fmt, n))
    ensures Spells(text, p, p + |Separator(first, fmt, n)|, if first then [] else [COMMA])
  {
    hide Separator, LineBreak, Spaces, Occurs, Spells, AllBlank;
    FormatBlanks(fmt, n);
    if first {
      SpellsBlanks(text, p, Separator(true, fmt, n));
    } else {
      var blanks := LineBreak(fmt) + Spaces(n);
      OccursParts(text, p, [',' as int], blanks);
      SpellsOne(text, p, COMMA);
      SpellsBlanks(text, p + 1, blanks);
      SpellsConcat(text, p, p + 1, p + 1 + |blanks|, [COMMA], []);
      assert [COMMA] + [] == [COMMA];
    }
  }

  lemma KeySpells(text: bytes, p: nat, key: bytes, fmt: Format)
    requires WellFormed(key) && Occurs(text, p, KeyText(key, fmt))
    ensures Spells(text, p, p + |KeyText(key, fmt)|, [Word(StringAtom(CharsOfString(key))), COLON])
  {
    hide Quoted, Occurs, Spells, AllBlank, CharsOfString, AtomText;
    var gap: bytes := if fmt.pretty then [0x20] else [];
    var word := Word(StringAtom(CharsOfString(key)));
    StringTree(key);
    FormatBlanks(fmt, 0);
    OccursParts(text, p, Quoted(key) + [':' as int], gap);
    OccursParts(text, p, Quoted(key), [':' as int]);
    var q := p + |Quoted(key)|;
    SpellsOne(text, p, word);
    SpellsOne(text, q, COLON);
    SpellsBlanks(text, q + 1, gap);
    SpellsConcat(text, p, q, q + 1, [word], [COLON]);
    SpellsConcat(text, p, q + 1, q + 1 + |gap|, [word] + [COLON], []);
    assert [word] + [COLON] + [] == [word, COLON];
  }

  /** The text that `dump` writes spells the tree. */
  lemma {:induction false} DumpSpells(text: bytes, p: nat, j: Json, fmt: Format, indent: nat, pf: FloatText)
    requires FloatFree(j) && AllUtf8(j) && Occurs(text, p, DumpText(j, fmt, indent, pf))
    ensures Spells(text, p, p + |DumpText(j, fmt, indent, pf)|, Symbols(TreeOf(j)))
    decreases j, 2
  {
    hide Occurs, Spells, Symbols, DumpText, TreeOf, FloatFree, AllUtf8;
    match j
    case Array(_) => ArraySpells(text, p, j, fmt, indent, pf);
    case Object(_) => ObjectSpells(text, p, j, fmt, indent, pf);
    case String(s) => StringSpells(text, p, j, fmt, indent, pf);
    case _ => ScalarSpells(text, p, j, fmt, indent, pf);
  }

  lemma StringSpells(text: bytes, p: nat, j: Json, fmt: Format, indent: nat, pf: FloatText)
    requires FloatFree(j) && AllUtf8(j) && j.String? && Occurs(text, p, DumpText(j, fmt, indent, pf))
    ensures Spells(text, p, p + |DumpText(j, fmt, indent, pf)|, Symbols(TreeOf(j)))
  {
    hide Occurs, Spells, CharsOfString, Quoted, AtomText, StringMeaning, ItemsOf, MembersOf, DumpElements, DumpMembers,
      ItemSymbols, MemberSymbols;
    StringTree(j.s);
    SpellsOne(text, p, Word(StringAtom(CharsOfString(j.s))));
  }

  lemma ScalarSpells(text: bytes, p: nat, j: Json, fmt: Format, indent: nat, pf: FloatText)
    requires FloatFree(j) && AllUtf8(j) && !j.String? && !j.Array? && !j.Object?
    requires Occurs(text, p, DumpText(j, fmt, indent, pf))
    ensures Spells(text, p, p + |DumpText(j, fmt, indent, pf)|, Symbols(TreeOf(j)))
  {
    hide Occurs, Spells, IntegerParts, Text, NumberMeaning;
    match j
    case Null => SpellsOne(text, p, Word(NullAtom));
    case Bool(b) => SpellsOne(text, p, Word(if b then TrueAtom else FalseAtom));
    case Int(i) =>
      IntegerTextMeaning(i, _ => 0);
      SpellsOne(text, p, Word(NumberAtom(IntegerParts(i))));
    case Uint(u) =>
      IntegerTextMeaning(u, _ => 0);
      SpellsOne(text, p, Word(NumberAtom(IntegerParts(u))));
  }

  lemma {:induction false} ArraySpells(text: bytes, p: nat, j: Json, fmt: Format, indent: nat, pf: FloatText)
    requires FloatFree(j) && AllUtf8(j) && j.Array? && Occurs(text, p, DumpText(j, fmt, indent, pf))
    ensures Spells(text, p, p + |DumpText(j, fmt, indent, pf)|, Symbols(TreeOf(j)))
    decreases j, 2, 0
  {
    hide Occurs, Spells, ItemSymbols, MemberSymbols, DumpElements, DumpMembers, LineBreak, Closing, ItemsOf, MembersOf,
      FloatFree, AllUtf8;
    if j.a == [] {
      NoElements(j);
      BracketsSpell(text, p, OPEN_LIST, CLOSE_LIST);
    } else {
      var inner := DumpElements(j, 0, fmt, Deeper(fmt, indent), pf);
      EnclosedOccurs(text, p, '[' as int, LineBreak(fmt), inner, Closing(fmt, indent), ']' as int);
      ElementsSpell(text, p + 1 + |LineBreak(fmt)|, j, 0, fmt, Deeper(fmt, indent), pf);
      EnclosedSpells(text, p, OPEN_LIST, fmt, |inner|, indent, CLOSE_LIST, ItemSymbols(ItemsOf(j, 0)));
    }
  }

  lemma {:induction false} ObjectSpells(text: bytes, p: nat, j: Json, fmt: Format, indent: nat, pf: FloatText)
    requires FloatFree(j) && AllUtf8(j) && j.Object? && Occurs(text, p, DumpText(j, fmt, indent, pf))
    ensures Spells(text, p, p + |DumpText(j, fmt, indent, pf)|, Symbols(TreeOf(j)))
    decreases j, 2, 0
  {
    hide Occurs, Spells, ItemSymbols, MemberSymbols, DumpElements, DumpMembers, LineBreak, Closing, ItemsOf, MembersOf,
      FloatFree, AllUtf8, SortedKeys;
    var ks := SortedKeys(j.m.Keys);
    if j.m == map[] {
      assert |ks| == |j.m.Keys| == 0;
      NoKeys(j, ks);
      BracketsSpell(text, p, OPEN_TABLE, CLOSE_TABLE);
    } else {
      var inner := DumpMembers(j, ks, true, fmt, Deeper(fmt, indent), pf);
      EnclosedOccurs(text, p, '{' as int, LineBreak(fmt), inner, Closing(fmt, indent), '}' as int);
      MembersSpell(text, p + 1 + |LineBreak(fmt)|, j, ks, true, fmt, Deeper(fmt, indent), pf);
      EnclosedSpells(text, p, OPEN_TABLE, fmt, |inner|, indent, CLOSE_TABLE, MemberSymbols(MembersOf(j, ks)));
    }
  }

  lemma NoElements(j: Json)
    requires FloatFree(j) && AllUtf8(j) && j.Array? && j.a == []
    ensures [OPEN_LIST] + ItemSymbols(ItemsOf(j, 0)) + [CLOSE_LIST] == [OPEN_LIST, CLOSE_LIST]
  {
  }

  lemma NoKeys(j: Json, ks: seq<bytes>)
    requires FloatFree(j) && AllUtf8(j) && j.Object? && ks == []
    ensures [OPEN_TABLE] + MemberSymbols(MembersOf(j, ks)) + [CLOSE_TABLE] == [OPEN_TABLE, CLOSE_TABLE]
  {
  }

  lemma BracketsSpell(text: bytes, p: nat, open: Symbol, close: Symbol)
    requires open.Structure? && close.Structure? && Occurs(text, p, [open.c, close.c])
    ensures Spells(text, p, p + 2, [open, close])
  {
    hide Occurs, Spells;
    assert [open.c, close.c] == [open.c] + [close.c];
    OccursParts(text, p, [open.c], [close.c]);
    SpellsOne(text, p, open);
    SpellsOne(text, p + 1, close);
    SpellsConcat(text, p, p + 1, p + 2, [open], [close]);
    assert [open] + [close] == [open, close];
  }

  lemma EnclosedOccurs(text: bytes, p: nat, open: byte, a: bytes, b: bytes, c: bytes, close: byte)
    requires Occurs(text, p, [open] + (a + (b + (c + [close]))))
    ensures Occurs(text, p, [open]) && Occurs(text, p + 1, a) && Occurs(text, p + 1 + |a|, b)
    ensures Occurs(text, p + 1 + |a| + |b|, c) && Occurs(text, p + 1 + |a| + |b| + |c|, [close])
  {
    hide Occurs;
    OccursParts(text, p, [open], a + (b + (c + [close])));
    OccursParts(text, p + 1, a, b + (c + [close]));
    OccursParts(text, p + 1 + |a|, b, c + [close]);
    OccursParts(text, p + 1 + |a| + |b|, c, [close]);
  }

  lemma EnclosedSpells(text: bytes, p: nat, open: Symbol, fmt: Format, n: nat, indent: nat, close: Symbol,
                       syms: seq<Symbol>)
    requires open.Structure? && close.Structure?
    requires Occurs(text, p, [open.c]) && Occurs(text, p + 1, LineBreak(fmt))
    requires Spells(text, p + 1 + |LineBreak(fmt)|, p + 1 + |LineBreak(fmt)| + n, syms)
    requires Occurs(text, p + 1 + |LineBreak(fmt)| + n, Closing(fmt, indent))
    requires Occurs(text, p + 1 + |LineBreak(fmt)| + n + |Closing(fmt, indent)|, [close.c])
    ensures Spells(text, p, p + 1 + |LineBreak(fmt)| + n + |Closing(fmt, indent)| + 1, [open] + syms + [close])
  {
    hide Occurs, Spells, AllBlank, LineBreak, Closing;
    FormatBlanks(fmt, indent);
    var q := p + 1 + |LineBreak(fmt)|;
    var r := q + n;
    var s := r + |Closing(fmt, indent)|;
    SpellsOne(text, p, open);
    SpellsBlanks(text, p + 1, LineBreak(fmt));
    SpellsConcat(text, p, p + 1, q, [open], []);
    SpellsConcat(text, p, q, r, [open] + [], syms);
    SpellsBlanks(text, r, Closing(fmt, indent));
    SpellsConcat(text, p, r, s, [open] + [] + syms, []);
    SpellsOne(text, s, close);
    SpellsConcat(text, p, s, s + 1, [open] + [] + syms + [], [close]);
    assert [open] + [] + syms + [] + [close] == [open] + syms + [close];
  }

  /** The tokens of the elements from index `i` on, with the comma before them. */
  ghost function ElementSymbols(j: Json, i: nat): seq<Symbol>
    requires FloatFree(j) && AllUtf8(j) && j.Array? && i <= |j.a|
  {
    (if i == 0 || i == |j.a| then [] else [COMMA]) + ItemSymbols(ItemsOf(j, i))
  }

  lemma {:induction false} ElementsSpell(text: bytes, p: nat, j: Json, i: nat, fmt: Format, inner: nat, pf: FloatText)
    requires FloatFree(j) && AllUtf8(j) && j.Array? && i <= |j.a| && (i < |j.a| || 0 < i)
    requires Occurs(text, p, DumpElements(j, i, fmt, inner, pf))
    ensures Spells(text, p, p + |DumpElements(j, i, fmt, inner, pf)|, ElementSymbols(j, i))
    ensures i == 0 ==> ElementSymbols(j, 0) == ItemSymbols(ItemsOf(j, 0))
    decreases j, 1, |j.a| - i
  {
    hide Occurs, Spells, TreeOf, Symbols, DumpText, Separator;
    if i == |j.a| {
      assert ElementSymbols(j, i) == [];
      NothingSpells(text, p);
    } else {
      var sep, value := Separator(i == 0, fmt, inner), DumpText(j.a[i], fmt, inner, pf);
      var rest := DumpElements(j, i + 1, fmt, inner, pf);
      OccursParts(text, p, sep, value + rest);
      OccursParts(text, p + |sep|, value, rest);
      SeparatorSpells(text, p, i == 0, fmt, inner);
      DumpSpells(text, p + |sep|, j.a[i], fmt, inner, pf);
      ElementsSpell(text, p + |sep| + |value|, j, i + 1, fmt, inner, pf);
      var q, r := p + |sep| + |value|, p + |sep| + |value| + |rest|;
      SpellsConcat(text, p + |sep|, q, r, Symbols(TreeOf(j.a[i])), ElementSymbols(j, i + 1));
      SpellsConcat(text, p, p + |sep|, r, if i == 0 then [] else [COMMA],
                   Symbols(TreeOf(j.a[i])) + ElementSymbols(j, i + 1));
    }
  }

  lemma NothingSpells(text: bytes, p: nat)
    requires Occurs(text, p, [])
    ensures Spells(text, p, p, [])
  {
  }

  /** The tokens of the members with the given keys, with the comma before them. */
  ghost function KeyedSymbols(j: Json, ks: seq<bytes>, first: bool): seq<Symbol>
    requires FloatFree(j) && AllUtf8(j) && j.Object? && forall k :: k in ks ==> k in j.m
  {
    (if first || ks == [] then [] else [COMMA]) + MemberSymbols(MembersOf(j, ks))
  }

  lemma KeyedSymbolsStep(j: Json, ks: seq<bytes>, first: bool)
    requires FloatFree(j) && AllUtf8(j) && j.Object? && (forall k :: k in ks ==> k in j.m) && ks != []
    ensures KeyedSymbols(j, ks, first) ==
      (if first then [] else [COMMA])
      + ([Word(StringAtom(CharsOfString(ks[0]))), COLON]
        + (Symbols(TreeOf(j.m[ks[0]])) + KeyedSymbols(j, ks[1..], false)))
  {
    hide Symbols, TreeOf, CharsOfString;
  }

  lemma {:induction false} MembersSpell(text: bytes, p: nat, j: Json, ks: seq<bytes>, first: bool, fmt: Format,
                                        inner: nat, pf: FloatText)
    requires FloatFree(j) && AllUtf8(j) && j.Object? && forall k :: k in ks ==> k in j.m
    requires Occurs(text, p, DumpMembers(j, ks, first, fmt, inner, pf))
    ensures Spells(text, p, p + |DumpMembers(j, ks, first, fmt, inner, pf)|, KeyedSymbols(j, ks, first))
    ensures first ==> KeyedSymbols(j, ks, first) == MemberSymbols(MembersOf(j, ks))
    decreases j, 1, |ks|
  {
    hide Occurs, Spells, TreeOf, Symbols, DumpText, Separator, KeyText, CharsOfString;
    if ks == [] {
      assert KeyedSymbols(j, ks, first) == [];
      NothingSpells(text, p);
    } else {
      var k := ks[0];
      var sep, key, value := Separator(first, fmt, inner), KeyText(k, fmt), DumpText(j.m[k], fmt, inner, pf);
      var rest := DumpMembers(j, ks[1..], false, fmt, inner, pf);
      OccursParts(text, p, sep, key + (value + rest));
      OccursParts(text, p + |sep|, key, value + rest);
      OccursParts(text, p + |sep| + |key|, value, rest);
      SeparatorSpells(text, p, first, fmt, inner);
      KeySpells(text, p + |sep|, k, fmt);
      DumpSpells(text, p + |sep| + |key|, j.m[k], fmt, inner, pf);
      MembersSpell(text, p + |sep| + |key| + |value|, j, ks[1..], false, fmt, inner, pf);
      var a := p + |sep|;
      var b := a + |key|;
      var c := b + |value|;
      var d := c + |rest|;
      var keySymbols := [Word(StringAtom(CharsOfString(k))), COLON];
      var more := Symbols(TreeOf(j.m[k])) + KeyedSymbols(j, ks[1..], false);
      SpellsConcat(text, b, c, d, Symbols(TreeOf(j.m[k])), KeyedSymbols(j, ks[1..], false));
      SpellsConcat(text, a, b, d, keySymbols, more);
      SpellsConcat(text, p, a, d, if first then [] else [COMMA], keySymbols + more);
      KeyedSymbolsStep(j, ks, first);
    }
  }

  // ----- the round trip -----

  /** Whatever the indentation, parsing the text of a value gives an equal value. */
  lemma DumpThenParse(j: Json, fmt: Format, pf: FloatText, strtod: Strtod)
    requires FloatFree(j) && AllUtf8(j)
    ensures ParseText(DumpText(j, fmt, 0, pf), strtod) == Ok(Rebuilt(j))
  {
    hide DumpText, TreeOf, Meaning, Spells, Symbols, ParseText, ValidTree, Rebuilt;
    var text := DumpText(j, fmt, 0, pf);
    assert text[0..0 + |text|] == text;
    DumpSpells(text, 0, j, fmt, 0, pf);
    TreeMeaning(j, strtod);
    TextOfTreeParsed(text, |text|, TreeOf(j), strtod);
  }

  /** The parser builds well-formed strings only. */
  lemma {:induction false} MeaningUtf8(t: Tree, strtod: Strtod)
    requires ValidTree(t) && Meaning(t, strtod).Some?
    ensures AllUtf8(Meaning(t, strtod).value)
    decreases t
  {
    hide EncodePoints, Points, NumberMeaning;
    match t
    case Leaf(StringAtom(chs)) =>
      assert WellFormed(EncodePoints(Points(chs).value));
    case Leaf(NumberAtom(n)) => NumberIsNumber(n, strtod);
    case Leaf(_) =>
    case List(items) => ItemsUtf8(items, strtod);
    case Table(members) => MembersUtf8(members, strtod);
  }

  lemma NumberIsNumber(n: Parts, strtod: Strtod)
    requires ValidParts(n)
    ensures AllUtf8(NumberMeaning(n, strtod))
  {
  }

  lemma {:induction false} ItemsUtf8(items: Items, strtod: Strtod)
    requires ValidItems(items) && ItemsMeaning(items, strtod).Some?
    ensures forall i | 0 <= i < |ItemsMeaning(items, strtod).value| :: AllUtf8(ItemsMeaning(items, strtod).value[i])
    decreases items
  {
    hide Meaning, AllUtf8;
    if items.Item? {
      MeaningUtf8(items.head, strtod);
      ItemsUtf8(items.tail, strtod);
    }
  }

  lemma {:induction false} MembersUtf8(members: Members, strtod: Strtod)
    requires ValidMembers(members) && MembersMeaning(members, strtod).Some?
    ensures forall k | k in MembersMeaning(members, strtod).value ::
      WellFormed(k) && AllUtf8(MembersMeaning(members, strtod).value[k])
    decreases members
  {
    hide Meaning, AllUtf8, EncodePoints, Points;
    if members.Member? {
      assert WellFormed(StringMeaning(members.key).value);
      MeaningUtf8(members.value, strtod);
      MembersUtf8(members.rest, strtod);
    }
  }

  lemma {:induction false} EqUtf8(x: Json, y: Json)
    requires Eq(x, y) && AllUtf8(x)
    ensures AllUtf8(y)
  {
    match y
    case Array(b) =>
      forall i | 0 <= i < |b| ensures AllUtf8(b[i]) { EqUtf8(x.a[i], b[i]); }
    case Object(n) =>
      forall k | k in n ensures WellFormed(k) && AllUtf8(n[k]) { EqUtf8(x.m[k], n[k]); }
    case _ =>
  }

  /**
   For every value without floats and every indentation, the text of the value parses to an equal value
   exactly when its strings and member names are well-formed UTF-8.
   */
  lemma DumpParseRoundTrip(j: Json, indent: int, pf: FloatText, strtod: Strtod)
    requires FloatFree(j)
    ensures var r := ParseText(DumpText(j, FormatOf(indent), 0, pf), strtod);
      (r.Ok? && Eq(r.value, j)) <==> AllUtf8(j)
  {
    hide ParseText, DumpText, AllUtf8, Eq, FloatFree, Meaning, IsTextOf;
    var text := DumpText(j, FormatOf(indent), 0, pf);
    var r := ParseText(text, strtod);
    if AllUtf8(j) {
      DumpThenParse(j, FormatOf(indent), pf, strtod);
      FloatFreeFinite(j);
      RebuiltEq(j);
    }
    if r.Ok? && Eq(r.value, j) {
      var end, t := ParsedTextIsTree(text, strtod);
      TextTreeValid(text, end, t);
      MeaningUtf8(t, strtod);
      EqUtf8(r.value, j);
    }
  }

  lemma TextTreeValid(text: bytes, end: nat, t: Tree)
    requires IsTextOf(text, end, t)
    ensures ValidTree(t)
  {
  }

  lemma {:induction false} FloatFreeFinite(j: Json)
    requires FloatFree(j)
    ensures AllFinite(j)
  {
    match j
    case Array(a) =>
      forall i | 0 <= i < |a| ensures AllFinite(a[i]) { FloatFreeFinite(a[i]); }
    case Object(m) =>
      forall k | k in m ensures AllFinite(m[k]) { FloatFreeFinite(m[k]); }
    case _ =>
  }
}
