/**
 The recursive descent parser on a sequence of tokens: what it accepts and what it builds.
 */
module Syntax {
  import opened Bytes
  import opened Wrappers
  import opened Value
  import opened Strings
  import opened Numbers
  import opened Grammar

  /** A value and the tokens behind it; the first of them is `last_token`. */
  type Parsed = Result<(Json, seq<Symbol>)>

  /** The value of a token, as `get_string` and `get_number` compute it. */
  function AtomValue(a: Atom, strtod: Strtod): Result<Json>
    requires ValidAtom(a)
  {
    match AtomMeaning(a, strtod)
    case Some(v) => Ok(v)
    case None => Err(InvalidArgument)
  }

  ghost predicate ValidSymbols(syms: seq<Symbol>) {
    forall i | 0 <= i < |syms| :: ValidSymbol(syms[i])
  }

  /** The first token of the rest, `last_token`. */
  function First(syms: seq<Symbol>): Symbol {
    if syms == [] then Illegal else syms[0]
  }

  /** `parse_internal`. */
  function ParseValue(syms: seq<Symbol>, strtod: Strtod): (r: Parsed)
    requires ValidSymbols(syms)
    ensures r.Ok? ==> |r.value.1| < |syms| && ValidSymbols(r.value.1)
    ensures r.Err? ==> r.error == InvalidArgument
    decreases |syms|, 1
  {
    match First(syms)
    case Structure(c) =>
      if c == '{' as int then
        if First(syms[1..]) == CLOSE_TABLE then Ok((Object(map[]), syms[2..]))
        else if First(syms[1..]) == COMMA then Err(InvalidArgument)
        else ParseMembers(syms[1..], map[], strtod)
      else if c == '[' as int then
        if First(syms[1..]) == CLOSE_LIST then Ok((Array([]), syms[2..]))
        else if First(syms[1..]) == COMMA then Err(InvalidArgument)
        else ParseItems(syms[1..], [], strtod)
      else Err(InvalidArgument)
    case Word(a) => (match AtomValue(a, strtod) case Ok(v) => Ok((v, syms[1..])) case Err(e) => Err(e))
    case _ => Err(InvalidArgument)
  }

  /** The loop over the elements of an array; `a` holds the elements so far. */
  function ParseItems(syms: seq<Symbol>, a: seq<Json>, strtod: Strtod): (r: Parsed)
    requires ValidSymbols(syms)
    ensures r.Ok? ==> |r.value.1| < |syms| && ValidSymbols(r.value.1)
    ensures r.Err? ==> r.error == InvalidArgument
    decreases |syms|, 2
  {
    match ParseValue(syms, strtod)
    case Err(e) => Err(e)
    case Ok((v, rest)) =>
      if First(rest) == COMMA then ParseItems(rest[1..], a + [v], strtod)
      else if First(rest) == CLOSE_LIST then Ok((Array(a + [v]), rest[1..]))
      else Err(InvalidArgument)
  }

  /** The loop over the members of an object; `m` holds the members so far. */
  function ParseMembers(syms: seq<Symbol>, m: map<bytes, Json>, strtod: Strtod): (r: Parsed)
    requires ValidSymbols(syms)
    ensures r.Ok? ==> |r.value.1| < |syms| && ValidSymbols(r.value.1)
    ensures r.Err? ==> r.error == InvalidArgument
    decreases |syms|, 2
  {
    match First(syms)
    case Word(StringAtom(chs)) =>
      (match StringMeaning(chs)
       case None => Err(InvalidArgument)
       case Some(key) =>
         if First(syms[1..]) != COLON then Err(InvalidArgument)
         else match ParseValue(syms[2..], strtod) {
           case Err(e) => Err(e)
           case Ok((v, rest)) =>
             if First(rest) == COMMA then ParseMembers(rest[1..], m[key := v], strtod)
             else if First(rest) == CLOSE_TABLE then Ok((Object(m[key := v]), rest[1..]))
             else Err(InvalidArgument)
         })
    case _ => Err(InvalidArgument)
  }

  /** `parse`: a value and nothing behind it. */
  function Parse(syms: seq<Symbol>, strtod: Strtod): Result<Json>
    requires ValidSymbols(syms)
  {
    match ParseValue(syms, strtod)
    case Err(e) => Err(e)
    case Ok((v, rest)) => if First(rest) == EndOfText then Ok(v) else Err(InvalidArgument)
  }

  // ----- every tree is parsed -----

  /** The outcome that belongs to the meaning of a tree. */
  function Outcome(v: Option<Json>, rest: seq<Symbol>): Parsed {
    match v
    case Some(j) => Ok((j, rest))
    case None => Err(InvalidArgument)
  }

  lemma {:induction false} TreeSymbolsValid(t: Tree)
    requires ValidTree(t)
    ensures ValidSymbols(Symbols(t)) && Symbols(t) != []
    ensures First(Symbols(t)) != CLOSE_LIST && First(Symbols(t)) != COMMA
    decreases t
  {
    match t
    case Leaf(_) =>
    case List(items) => ItemSymbolsValid(items);
    case Table(members) => MemberSymbolsValid(members);
  }

  lemma {:induction false} ItemSymbolsValid(items: Items)
    requires ValidItems(items)
    ensures ValidSymbols(ItemSymbols(items))
    ensures !items.NoItems? ==> ItemSymbols(items) != []
    ensures !items.NoItems? ==> First(ItemSymbols(items)) != CLOSE_LIST && First(ItemSymbols(items)) != COMMA
    decreases items
  {
    if items.Item? {
      TreeSymbolsValid(items.head);
      ItemSymbolsValid(items.tail);
    }
  }

  lemma {:induction false} MemberSymbolsValid(members: Members)
    requires ValidMembers(members)
    ensures ValidSymbols(MemberSymbols(members))
    decreases members
  {
    if members.Member? {
      TreeSymbolsValid(members.value);
      MemberSymbolsValid(members.rest);
    }
  }

  lemma Peeled(x: Symbol, s: seq<Symbol>, rest: seq<Symbol>)
    ensures ([x] + s + rest)[1..] == s + rest && First([x] + s + rest) == x
    ensures ([x] + s)[1..] == s && First([x] + s) == x
  {
  }

  lemma Grouped(a: seq<Symbol>, b: seq<Symbol>, c: seq<Symbol>)
    ensures a + b + c == a + (b + c)
  {
  }

  lemma ValidConcat(a: seq<Symbol>, b: seq<Symbol>)
    ensures ValidSymbols(a + b) <==> ValidSymbols(a) && ValidSymbols(b)
  {
    if ValidSymbols(a + b) {
      forall i | 0 <= i < |a| ensures ValidSymbol(a[i]) { assert (a + b)[i] == a[i]; }
      forall i | 0 <= i < |b| ensures ValidSymbol(b[i]) { assert (a + b)[|a| + i] == b[i]; }
    }
  }

  /** The parser turns the tokens of a tree into its meaning and stops behind them. */
  lemma {:induction false} TreeParsed(t: Tree, rest: seq<Symbol>, strtod: Strtod)
    requires ValidTree(t) && ValidSymbols(rest)
    ensures ValidSymbols(Symbols(t) + rest)
    ensures ParseValue(Symbols(t) + rest, strtod) == Outcome(Meaning(t, strtod), rest)
    decreases t
  {
    hide ItemsMeaning, MembersMeaning, AtomMeaning, ParseItems, ParseMembers, ItemSymbols, MemberSymbols, ValidSymbols;
    TreeSymbolsValid(t);
    ValidConcat(Symbols(t), rest);
    match t
    case Leaf(a) =>
      Peeled(Word(a), [], rest);
      assert [] + rest == rest;
    case List(items) =>
      var inner := ItemSymbols(items);
      Grouped([OPEN_LIST] + inner, [CLOSE_LIST], rest);
      Peeled(OPEN_LIST, inner, [CLOSE_LIST] + rest);
      if items.NoItems? {
        EmptyListParsed(rest, strtod);
      } else {
        ItemSymbolsValid(items);
        ItemsParsed(items, [], rest, strtod);
        assert First(inner + ([CLOSE_LIST] + rest)) == First(inner);
        if ItemsMeaning(items, strtod).Some? {
          assert [] + ItemsMeaning(items, strtod).value == ItemsMeaning(items, strtod).value;
        }
      }
    case Table(members) =>
      var inner := MemberSymbols(members);
      Grouped([OPEN_TABLE] + inner, [CLOSE_TABLE], rest);
      Peeled(OPEN_TABLE, inner, [CLOSE_TABLE] + rest);
      if members.NoMembers? {
        EmptyTableParsed(rest, strtod);
      } else {
        MembersParsed(members, map[], rest, strtod);
        FirstMember(members, [CLOSE_TABLE] + rest);
        if MembersMeaning(members, strtod).Some? {
          assert map[] + MembersMeaning(members, strtod).value == MembersMeaning(members, strtod).value;
        }
      }
  }

  lemma EmptyListParsed(rest: seq<Symbol>, strtod: Strtod)
    requires ValidSymbols(rest)
    ensures ItemSymbols(NoItems) == [] && ItemsMeaning(NoItems, strtod) == Some([])
    ensures ([] + ([CLOSE_LIST] + rest))[1..] == rest
  {
  }

  lemma EmptyTableParsed(rest: seq<Symbol>, strtod: Strtod)
    requires ValidSymbols(rest)
    ensures MemberSymbols(NoMembers) == [] && MembersMeaning(NoMembers, strtod) == Some(map[])
    ensures ([] + ([CLOSE_TABLE] + rest))[1..] == rest
  {
  }

  lemma FirstMember(members: Members, rest: seq<Symbol>)
    requires members.Member?
    ensures First(MemberSymbols(members) + rest) == Word(StringAtom(members.key))
  {
  }

  /** The tokens of one element and what follows it. */
  lemma ItemsCut(t: Tree, tail: Items, end: seq<Symbol>)
    ensures ItemSymbols(Item(t, tail)) + end ==
      Symbols(t) + (if tail.NoItems? then end else [COMMA] + (ItemSymbols(tail) + end))
  {
    hide Symbols;
  }

  lemma MembersCut(key: seq<StrChar>, t: Tree, tail: Members, end: seq<Symbol>)
    ensures MemberSymbols(Member(key, t, tail)) + end ==
      [Word(StringAtom(key)), COLON]
        + (Symbols(t) + (if tail.NoMembers? then end else [COMMA] + (MemberSymbols(tail) + end)))
  {
    hide Symbols;
  }

  lemma OneMore(m: map<bytes, Json>, k: bytes, v: Json, n: map<bytes, Json>)
    ensures m[k := v] + n == m + (map[k := v] + n)
  {
  }

  /** The element loop, with the elements `a` before it. */
  lemma {:induction false} ItemsParsed(items: Items, a: seq<Json>, rest: seq<Symbol>, strtod: Strtod)
    requires ValidItems(items) && items.Item? && ValidSymbols(rest)
    ensures ValidSymbols(ItemSymbols(items) + ([CLOSE_LIST] + rest))
    ensures ParseItems(ItemSymbols(items) + ([CLOSE_LIST] + rest), a, strtod) ==
      match ItemsMeaning(items, strtod) {
        case Some(b) => Ok((Array(a + b), rest))
        case None => Err(InvalidArgument)
      }
    decreases items
  {
    hide Symbols, ItemSymbols, Meaning, ParseValue, ValidSymbols;
    var t, tail := items.head, items.tail;
    var end := [CLOSE_LIST] + rest;
    EndValid(CLOSE_LIST, rest);
    if tail.NoItems? {
      ItemsCut(t, tail, end);
      TreeParsed(t, end, strtod);
      Peeled(CLOSE_LIST, rest, []);
      if Meaning(t, strtod).Some? {
        assert [Meaning(t, strtod).value] + [] == [Meaning(t, strtod).value];
      }
    } else {
      var more := ItemSymbols(tail) + end;
      ItemSymbolsValid(tail);
      ValidConcat(ItemSymbols(tail), end);
      EndValid(COMMA, more);
      ItemsCut(t, tail, end);
      TreeParsed(t, [COMMA] + more, strtod);
      Peeled(COMMA, more, []);
      if Meaning(t, strtod).Some? {
        var v := Meaning(t, strtod).value;
        ItemsParsed(tail, a + [v], rest, strtod);
        if ItemsMeaning(tail, strtod).Some? {
          assert a + [v] + ItemsMeaning(tail, strtod).value == a + ([v] + ItemsMeaning(tail, strtod).value);
        }
      }
    }
  }

  lemma EndValid(s: Symbol, rest: seq<Symbol>)
    requires ValidSymbol(s) && ValidSymbols(rest)
    ensures ValidSymbols([s] + rest)
  {
  }

  /** The member loop, with the members `m` before it. */
  lemma {:induction false} MembersParsed(members: Members, m: map<bytes, Json>, rest: seq<Symbol>, strtod: Strtod)
    requires ValidMembers(members) && members.Member? && ValidSymbols(rest)
    ensures ValidSymbols(MemberSymbols(members) + ([CLOSE_TABLE] + rest))
    ensures ParseMembers(MemberSymbols(members) + ([CLOSE_TABLE] + rest), m, strtod) ==
      match MembersMeaning(members, strtod) {
        case Some(n) => Ok((Object(m + n), rest))
        case None => Err(InvalidArgument)
      }
    decreases members
  {
    hide Symbols, MemberSymbols, Meaning, ParseValue, ValidSymbols, StringMeaning;
    var key, t, tail := members.key, members.value, members.rest;
    var end := [CLOSE_TABLE] + rest;
    EndValid(CLOSE_TABLE, rest);
    var more := if tail.NoMembers? then end else [COMMA] + (MemberSymbols(tail) + end);
    if tail.Member? {
      MemberSymbolsValid(tail);
      ValidConcat(MemberSymbols(tail), end);
      EndValid(COMMA, MemberSymbols(tail) + end);
      Peeled(COMMA, MemberSymbols(tail) + end, []);
    } else {
      Peeled(CLOSE_TABLE, rest, []);
    }
    TreeParsed(t, more, strtod);
    var syms := [Word(StringAtom(key)), COLON] + (Symbols(t) + more);
    MembersCut(key, t, tail, end);
    EndValid(COLON, Symbols(t) + more);
    EndValid(Word(StringAtom(key)), [COLON] + (Symbols(t) + more));
    assert syms == [Word(StringAtom(key))] + ([COLON] + (Symbols(t) + more));
    assert syms[1..] == [COLON] + (Symbols(t) + more) && syms[2..] == Symbols(t) + more;
    if Meaning(t, strtod).Some? && StringMeaning(key).Some? {
      var k, v := StringMeaning(key).value, Meaning(t, strtod).value;
      if tail.NoMembers? {
        OneMore(m, k, v, map[]);
        assert m[k := v] + map[] == m[k := v];
      } else {
        MembersParsed(tail, m[k := v], rest, strtod);
        if MembersMeaning(tail, strtod).Some? {
          OneMore(m, k, v, MembersMeaning(tail, strtod).value);
        }
      }
    }
  }

  // ----- everything that is parsed is a tree -----

  /** `t` is a tree for the tokens of `syms` before `rest`, and it denotes `v`. */
  ghost predicate IsTreeOf(t: Tree, syms: seq<Symbol>, v: Json, rest: seq<Symbol>, strtod: Strtod) {
    ValidTree(t) && syms == Symbols(t) + rest && Meaning(t, strtod) == Some(v)
  }

  /** What the parser returns is denoted by a tree of the tokens that it consumed. */
  lemma {:induction false} ParsedTree(syms: seq<Symbol>, strtod: Strtod) returns (t: Tree)
    requires ValidSymbols(syms) && ParseValue(syms, strtod).Ok?
    ensures var (v, rest) := ParseValue(syms, strtod).value; IsTreeOf(t, syms, v, rest, strtod)
    decreases |syms|, 1
  {
    hide ItemsMeaning, MembersMeaning, AtomMeaning, ParseItems, ParseMembers, ItemSymbols, MemberSymbols, ValidSymbols;
    var inner := syms[1..];
    InnerValid(syms);
    assert syms == [syms[0]] + inner;
    match syms[0]
    case Word(a) =>
      t := Leaf(a);
    case Structure(c) =>
      if c == '[' as int {
        if First(inner) == CLOSE_LIST {
          t := List(NoItems);
          EmptyListParsed([], strtod);
          assert syms == [OPEN_LIST] + [] + [CLOSE_LIST] + syms[2..];
        } else {
          var items := ParsedItems(inner, [], strtod);
          t := List(items);
          var rest := ParseValue(syms, strtod).value.1;
          assert [OPEN_LIST] + (ItemSymbols(items) + ([CLOSE_LIST] + rest)) == Symbols(t) + rest;
          assert [] + ItemsMeaning(items, strtod).value == ItemsMeaning(items, strtod).value;
        }
      } else {
        if First(inner) == CLOSE_TABLE {
          t := Table(NoMembers);
          EmptyTableParsed([], strtod);
          assert syms == [OPEN_TABLE] + [] + [CLOSE_TABLE] + syms[2..];
        } else {
          var members := ParsedMembers(inner, map[], strtod);
          t := Table(members);
          var rest := ParseValue(syms, strtod).value.1;
          assert [OPEN_TABLE] + (MemberSymbols(members) + ([CLOSE_TABLE] + rest)) == Symbols(t) + rest;
          assert map[] + MembersMeaning(members, strtod).value == MembersMeaning(members, strtod).value;
        }
      }
  }

  lemma InnerValid(syms: seq<Symbol>)
    requires ValidSymbols(syms) && syms != []
    ensures ValidSymbols(syms[1..]) && ValidSymbol(syms[0])
  {
  }

  lemma {:induction false} ParsedItems(syms: seq<Symbol>, a: seq<Json>, strtod: Strtod) returns (items: Items)
    requires ValidSymbols(syms) && ParseItems(syms, a, strtod).Ok?
    ensures ValidItems(items) && items.Item? && ItemsMeaning(items, strtod).Some?
    ensures var (v, rest) := ParseItems(syms, a, strtod).value;
      syms == ItemSymbols(items) + ([CLOSE_LIST] + rest) && v == Array(a + ItemsMeaning(items, strtod).value)
    decreases |syms|, 2
  {
    hide Symbols, ItemSymbols, Meaning, ParseValue, ValidSymbols;
    var t := ParsedTree(syms, strtod);
    var (v, rest) := ParseValue(syms, strtod).value;
    assert rest == [rest[0]] + rest[1..];
    if First(rest) == COMMA {
      InnerValid(rest);
      var tail := ParsedItems(rest[1..], a + [v], strtod);
      items := Item(t, tail);
      ItemsCut(t, tail, [CLOSE_LIST] + ParseItems(syms, a, strtod).value.1);
      assert a + [v] + ItemsMeaning(tail, strtod).value == a + ([v] + ItemsMeaning(tail, strtod).value);
    } else {
      items := Item(t, NoItems);
      ItemsCut(t, NoItems, [CLOSE_LIST] + rest[1..]);
    }
  }

  lemma {:induction false} ParsedMembers(syms: seq<Symbol>, m: map<bytes, Json>, strtod: Strtod)
    returns (members: Members)
    requires ValidSymbols(syms) && ParseMembers(syms, m, strtod).Ok?
    ensures ValidMembers(members) && members.Member? && MembersMeaning(members, strtod).Some?
    ensures var (v, rest) := ParseMembers(syms, m, strtod).value;
      syms == MemberSymbols(members) + ([CLOSE_TABLE] + rest) && v == Object(m + MembersMeaning(members, strtod).value)
    decreases |syms|, 2
  {
    hide Symbols, MemberSymbols, Meaning, ParseValue, ValidSymbols, StringMeaning;
    InnerValid(syms);
    var key := syms[0].atom.chs;
    InnerValid(syms[1..]);
    assert syms[1..][1..] == syms[2..];
    assert syms == [Word(StringAtom(key)), COLON] + syms[2..];
    var t := ParsedTree(syms[2..], strtod);
    var (v, rest) := ParseValue(syms[2..], strtod).value;
    var k := StringMeaning(key).value;
    assert rest == [rest[0]] + rest[1..];
    if First(rest) == COMMA {
      InnerValid(rest);
      var tail := ParsedMembers(rest[1..], m[k := v], strtod);
      members := Member(key, t, tail);
      MembersCut(key, t, tail, [CLOSE_TABLE] + ParseMembers(syms, m, strtod).value.1);
      OneMore(m, k, v, MembersMeaning(tail, strtod).value);
    } else {
      members := Member(key, t, NoMembers);
      MembersCut(key, t, NoMembers, [CLOSE_TABLE] + rest[1..]);
      OneMore(m, k, v, map[]);
    }
  }
}
