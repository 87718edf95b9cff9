/**
 JSON text as concrete syntax (sections 2 to 7 of RFC 7159) and the value that it denotes.
 */
module Grammar {
  import opened Bytes
  import opened Wrappers
  import opened Utf8
  import opened Value
  import opened Lexical
  import opened Strings
  import opened Numbers

  /** A token that is a value. */
  datatype Atom = TrueAtom | FalseAtom | NullAtom | StringAtom(chs: seq<StrChar>) | NumberAtom(n: Parts)

  /** A token, the end of the text, or something that is no token. */
  datatype Symbol = Structure(c: byte) | Word(atom: Atom) | EndOfText | Illegal

  /** A JSON text as a tree. */
  datatype Tree = Leaf(atom: Atom) | List(items: Items) | Table(members: Members)
  datatype Items = NoItems | Item(head: Tree, tail: Items)
  datatype Members = NoMembers | Member(key: seq<StrChar>, value: Tree, rest: Members)

  const OPEN_LIST: Symbol := Structure('[' as int)
  const CLOSE_LIST: Symbol := Structure(']' as int)
  const OPEN_TABLE: Symbol := Structure('{' as int)
  const CLOSE_TABLE: Symbol := Structure('}' as int)
  const COLON: Symbol := Structure(':' as int)
  const COMMA: Symbol := Structure(',' as int)

  // ----- well-formedness -----

  predicate ValidAtom(a: Atom) {
    match a
    case StringAtom(chs) => ValidChars(chs)
    case NumberAtom(n) => ValidParts(n)
    case _ => true
  }

  predicate ValidSymbol(s: Symbol) {
    match s
    case Structure(c) => Structural(c).Some?
    case Word(a) => ValidAtom(a)
    case _ => true
  }

  predicate ValidTree(t: Tree) {
    match t
    case Leaf(a) => ValidAtom(a)
    case List(items) => ValidItems(items)
    case Table(members) => ValidMembers(members)
  }

  predicate ValidItems(items: Items) {
    match items
    case NoItems => true
    case Item(t, rest) => ValidTree(t) && ValidItems(rest)
  }

  predicate ValidMembers(members: Members) {
    match members
    case NoMembers => true
    case Member(key, t, rest) => ValidChars(key) && ValidTree(t) && ValidMembers(rest)
  }

  // ----- the tokens of a tree -----

  function Symbols(t: Tree): seq<Symbol> {
    match t
    case Leaf(a) => [Word(a)]
    case List(items) => [OPEN_LIST] + ItemSymbols(items) + [CLOSE_LIST]
    case Table(members) => [OPEN_TABLE] + MemberSymbols(members) + [CLOSE_TABLE]
  }

  function ItemSymbols(items: Items): seq<Symbol> {
    match items
    case NoItems => []
    case Item(t, rest) => Symbols(t) + (if rest.NoItems? then [] else [COMMA] + ItemSymbols(rest))
  }

  function MemberSymbols(members: Members): seq<Symbol> {
    match members
    case NoMembers => []
    case Member(key, t, rest) =>
      [Word(StringAtom(key)), COLON] + Symbols(t) + (if rest.NoMembers? then [] else [COMMA] + MemberSymbols(rest))
  }

  // ----- the value of a tree -----

  /** The string that characters denote, in UTF-8; none if a surrogate is not paired. */
  function StringMeaning(chs: seq<StrChar>): Option<bytes>
    requires ValidChars(chs)
  {
    match Points(chs)
    case Some(cps) => Some(EncodePoints(cps))
    case None => None
  }

  function AtomMeaning(a: Atom, strtod: Strtod): Option<Json>
    requires ValidAtom(a)
  {
    match a
    case TrueAtom => Some(Bool(true))
    case FalseAtom => Some(Bool(false))
    case NullAtom => Some(Null)
    case StringAtom(chs) => (match StringMeaning(chs) case Some(s) => Some(String(s)) case None => None)
    case NumberAtom(n) => Some(NumberMeaning(n, strtod))
  }

  /** The value that a tree denotes; of members with the same name the last one counts. */
  function Meaning(t: Tree, strtod: Strtod): Option<Json>
    requires ValidTree(t)
    decreases t
  {
    match t
    case Leaf(a) => AtomMeaning(a, strtod)
    case List(items) => (match ItemsMeaning(items, strtod) case Some(a) => Some(Array(a)) case None => None)
    case Table(members) => (match MembersMeaning(members, strtod) case Some(m) => Some(Object(m)) case None => None)
  }

  function ItemsMeaning(items: Items, strtod: Strtod): Option<seq<Json>>
    requires ValidItems(items)
    decreases items
  {
    match items
    case NoItems => Some([])
    case Item(t, rest) =>
      var v, a := Meaning(t, strtod), ItemsMeaning(rest, strtod);
      if v.Some? && a.Some? then Some([v.value] + a.value) else None
  }

  function MembersMeaning(members: Members, strtod: Strtod): Option<map<bytes, Json>>
    requires ValidMembers(members)
    decreases members
  {
    match members
    case NoMembers => Some(map[])
    case Member(key, t, rest) =>
      var k, v, m := StringMeaning(key), Meaning(t, strtod), MembersMeaning(rest, strtod);
      if k.Some? && v.Some? && m.Some? then Some(map[k.value := v.value] + m.value) else None
  }

  // ----- the text of a sequence of tokens -----

  function AtomText(a: Atom): bytes {
    match a
    case TrueAtom => TRUE
    case FalseAtom => FALSE
    case NullAtom => NULL
    case StringAtom(chs) => [QUOTE] + SpellingAll(chs) + [QUOTE]
    case NumberAtom(n) => Text(n)
  }

  function SymbolText(s: Symbol): bytes {
    match s
    case Structure(c) => [c]
    case Word(a) => AtomText(a)
    case _ => []
  }

  predicate Blanks(text: bytes, p: nat, q: nat) {
    p <= q <= |text| && forall i | p <= i < q :: IsBlank(text[i])
  }

  /** From `p` to `end` the text consists of these tokens, with blanks before, between and after them. */
  ghost predicate Spells(text: bytes, p: nat, end: nat, symbols: seq<Symbol>)
    decreases |symbols|, 1
  {
    if symbols == [] then Blanks(text, p, end)
    else exists q: nat :: SpellsFrom(text, p, q, end, symbols)
  }

  ghost predicate SpellsFrom(text: bytes, p: nat, q: nat, end: nat, symbols: seq<Symbol>)
    requires symbols != []
    decreases |symbols|, 0
  {
    && Blanks(text, p, q) && Occurs(text, q, SymbolText(symbols[0]))
    && Spells(text, q + |SymbolText(symbols[0])|, end, symbols[1..])
  }
}
