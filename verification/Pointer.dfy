/**
 JSON pointers (RFC 6901): escaping of reference tokens, splitting and printing.
 */
module Pointer {
  import opened Bytes
  import opened Wrappers

  const TILDE: byte := '~' as int
  const SLASH: byte := '/' as int
  const D0: byte := '0' as int
  const D1: byte := '1' as int

  /** `std::string::npos`. */
  const NPOS := 0xFFFF_FFFF_FFFF_FFFF

  predicate StartsWith(s: bytes, f: bytes) {
    |f| <= |s| && forall k | 0 <= k < |f| :: s[k] == f[k]
  }

  /** All occurrences of `f` in `s`, taken from left to right, replaced with `t`. */
  function Replaced(s: bytes, f: bytes, t: bytes): bytes
    requires f != []
  {
    if s == [] then []
    else if StartsWith(s, f) then t + Replaced(s[|f|..], f, t)
    else [s[0]] + Replaced(s[1..], f, t)
  }

  /** `s.find(f, from)`, or `|s|` when there is no occurrence. */
  method Find(s: bytes, f: bytes, from: nat) returns (pos: nat)
    requires f != [] && from <= |s|
    ensures from <= pos <= |s|
    ensures forall k | from <= k < pos :: !StartsWith(s[k..], f)
    ensures pos < |s| ==> StartsWith(s[pos..], f)
  {
    pos := from;
    while pos < |s| && !StartsWith(s[pos..], f)
      invariant from <= pos <= |s|
      invariant forall k | from <= k < pos :: !StartsWith(s[k..], f)
    {
      pos := pos + 1;
    }
  }

  lemma {:induction false} ReplacedSkip(s: bytes, from: nat, to: nat, f: bytes, t: bytes)
    requires f != [] && from <= to <= |s|
    requires forall k | from <= k < to :: !StartsWith(s[k..], f)
    ensures Replaced(s[from..], f, t) == s[from..to] + Replaced(s[to..], f, t)
    decreases |s| - from
  {
    if from < to {
      ReplacedSkip(s, from + 1, to, f, t);
      assert s[from..][1..] == s[from + 1..];
      assert s[from..to] == [s[from]] + s[from + 1..to];
    } else {
      assert s[from..to] == [];
    }
  }

  lemma ReplacedMatch(f: bytes, rest: bytes, t: bytes)
    requires f != []
    ensures Replaced(f + rest, f, t) == t + Replaced(rest, f, t)
  {
    assert (f + rest)[|f|..] == rest;
  }

  lemma ReplacedMismatch(c: byte, rest: bytes, f: bytes, t: bytes)
    requires f != []
    requires c != f[0] || (|f| > 1 && (rest == [] || rest[0] != f[1]))
    ensures Replaced([c] + rest, f, t) == [c] + Replaced(rest, f, t)
  {
    assert ([c] + rest)[1..] == rest;
  }

  /** One replacement at the first occurrence after `from`. */
  lemma ReplaceStep(s: bytes, from: nat, pos: nat, f: bytes, t: bytes, next: bytes)
    requires f != [] && from <= pos < |s| && StartsWith(s[pos..], f)
    requires forall k | from <= k < pos :: !StartsWith(s[k..], f)
    requires next == s[..pos] + t + s[pos + |f|..]
    ensures s[..from] + Replaced(s[from..], f, t) == next[..pos + |t|] + Replaced(next[pos + |t|..], f, t)
  {
    var rest := s[pos + |f|..];
    var skipped := s[from..pos];
    ReplacedSkip(s, from, pos, f, t);
    assert s[pos..] == f + rest;
    ReplacedMatch(f, rest, t);
    assert next[pos + |t|..] == rest;
    assert s[..pos] == s[..from] + skipped;
    assert next[..pos + |t|] == s[..pos] + t;
    RegroupFour(s[..from], skipped, t, Replaced(rest, f, t));
  }

  /** The last round: nothing is found any more. */
  lemma ReplaceDone(s: bytes, from: nat, f: bytes, t: bytes)
    requires f != [] && from <= |s|
    requires forall k | from <= k < |s| :: !StartsWith(s[k..], f)
    ensures s[..from] + Replaced(s[from..], f, t) == s
  {
    ReplacedSkip(s, from, |s|, f, t);
    assert s[from..|s|] + [] == s[from..];
  }

  lemma RegroupFour(a: bytes, b: bytes, c: bytes, d: bytes)
    ensures a + (b + (c + d)) == a + b + c + d
  {
  }

  /** A string variable that is edited in place. */
  class StringCell {
    var s: bytes

    constructor (s: bytes)
      ensures this.s == s
    {
      this.s := s;
    }

    /** `replace_substring`. */
    method ReplaceSubstring(f: bytes, t: bytes)
      requires f != []
      modifies this
      ensures s == Replaced(old(s), f, t)
    {
      hide Replaced;
      ghost var from := 0;
      var pos := Find(s, f, 0);
      assert s[0..] == s;
      while pos < |s|
        invariant 0 <= from <= pos <= |s|
        invariant forall k | from <= k < pos :: !StartsWith(s[k..], f)
        invariant pos < |s| ==> StartsWith(s[pos..], f)
        invariant Replaced(old(s), f, t) == s[..from] + Replaced(s[from..], f, t)
        decreases |s| - from
      {
        ghost var before := s;
        s := s[..pos] + t + s[pos + |f|..];
        ReplaceStep(before, from, pos, f, t, s);
        from := pos + |t|;
        pos := Find(s, f, pos + |t|);
      }
      ReplaceDone(s, from, f, t);
    }

    /** `unescape`: first `~1`, then `~0`. */
    method Unescape()
      modifies this
      ensures s == TwoPassUnescaped(old(s))
    {
      ReplaceSubstring([TILDE, D1], [SLASH]);
      ReplaceSubstring([TILDE, D0], [TILDE]);
    }
  }

  /** `escape`: first `~`, then `/`. */
  method Escape(token: bytes) returns (escaped: bytes)
    ensures escaped == Escaped(token)
  {
    var cell := new StringCell(token);
    cell.ReplaceSubstring([TILDE], [TILDE, D0]);
    cell.ReplaceSubstring([SLASH], [TILDE, D1]);
    TwoPassEscape(token);
    escaped := cell.s;
  }

  function TwoPassUnescaped(s: bytes): bytes {
    Replaced(Replaced(s, [TILDE, D1], [SLASH]), [TILDE, D0], [TILDE])
  }

  /** The escaped form of a reference token, by one pass over its characters. */
  function Escaped(s: bytes): bytes {
    if s == [] then []
    else (if s[0] == TILDE then [TILDE, D0] else if s[0] == SLASH then [TILDE, D1] else [s[0]]) + Escaped(s[1..])
  }

  /** Every tilde is followed by 0 or 1. */
  predicate ProperlyEscaped(s: bytes) {
    forall i | 0 <= i < |s| :: s[i] == TILDE ==> i + 1 < |s| && (s[i + 1] == D0 || s[i + 1] == D1)
  }

  /** The token that a properly escaped string stands for, by one pass over its characters. */
  function Unescaped(s: bytes): bytes {
    if s == [] then []
    else if s[0] == TILDE && |s| > 1 then [if s[1] == D1 then SLASH else TILDE] + Unescaped(s[2..])
    else [s[0]] + Unescaped(s[1..])
  }

  lemma {:induction false} TwoPassEscape(s: bytes)
    ensures Replaced(Replaced(s, [TILDE], [TILDE, D0]), [SLASH], [TILDE, D1]) == Escaped(s)
  {
    hide Replaced;
    if s == [] {
      NothingReplaced([TILDE], [TILDE, D0]);
      NothingReplaced([SLASH], [TILDE, D1]);
    } else {
      var c, tail := s[0], s[1..];
      TwoPassEscape(tail);
      var rest := Replaced(tail, [TILDE], [TILDE, D0]);
      assert s == [c] + tail;
      if c == TILDE {
        ReplacedMatch([TILDE], tail, [TILDE, D0]);
        assert [TILDE, D0] + rest == [TILDE] + ([D0] + rest);
        ReplacedMismatch(TILDE, [D0] + rest, [SLASH], [TILDE, D1]);
        ReplacedMismatch(D0, rest, [SLASH], [TILDE, D1]);
      } else {
        ReplacedMismatch(c, tail, [TILDE], [TILDE, D0]);
        if c == SLASH {
          ReplacedMatch([SLASH], rest, [TILDE, D1]);
        } else {
          ReplacedMismatch(c, rest, [SLASH], [TILDE, D1]);
        }
      }
    }
  }

  lemma NothingReplaced(f: bytes, t: bytes)
    requires f != []
    ensures Replaced([], f, t) == []
  {
  }

  /** The two replacement passes decode like a single pass; `~01` becomes `~1`, not `/`. */
  lemma {:induction false} TwoPassUnescape(s: bytes)
    requires ProperlyEscaped(s)
    ensures TwoPassUnescaped(s) == Unescaped(s)
  {
    if s != [] {
      if s[0] == TILDE {
        var rest := s[2..];
        var once := Replaced(rest, [TILDE, D1], [SLASH]);
        TwoPassUnescape(rest);
        if s[1] == D1 {
          assert s == [TILDE, D1] + rest;
          ReplacedMatch([TILDE, D1], rest, [SLASH]);
          ReplacedMismatch(SLASH, once, [TILDE, D0], [TILDE]);
        } else {
          assert s == [TILDE] + ([D0] + rest);
          ReplacedMismatch(TILDE, [D0] + rest, [TILDE, D1], [SLASH]);
          ReplacedMismatch(D0, rest, [TILDE, D1], [SLASH]);
          assert [TILDE] + ([D0] + once) == [TILDE, D0] + once;
          ReplacedMatch([TILDE, D0], once, [TILDE]);
        }
      } else {
        var rest := s[1..];
        TwoPassUnescape(rest);
        assert s == [s[0]] + rest;
        ReplacedMismatch(s[0], rest, [TILDE, D1], [SLASH]);
        ReplacedMismatch(s[0], Replaced(rest, [TILDE, D1], [SLASH]), [TILDE, D0], [TILDE]);
      }
    }
  }

  lemma {:induction false} EscapedIsProper(s: bytes)
    ensures ProperlyEscaped(Escaped(s))
    ensures SLASH !in Escaped(s)
  {
    if s != [] {
      EscapedIsProper(s[1..]);
    }
  }

  lemma {:induction false} UnescapeEscaped(s: bytes)
    ensures Unescaped(Escaped(s)) == s
  {
    if s != [] {
      UnescapeEscaped(s[1..]);
      var rest := Escaped(s[1..]);
      if s[0] == TILDE {
        assert ([TILDE, D0] + rest)[2..] == rest;
      } else if s[0] == SLASH {
        assert ([TILDE, D1] + rest)[2..] == rest;
      } else {
        assert ([s[0]] + rest)[1..] == rest;
      }
    }
  }

  lemma {:induction false} EscapeUnescaped(s: bytes)
    requires ProperlyEscaped(s) && SLASH !in s
    ensures Escaped(Unescaped(s)) == s
  {
    if s != [] {
      if s[0] == TILDE {
        EscapeUnescaped(s[2..]);
        var rest := Unescaped(s[2..]);
        var c := if s[1] == D1 then SLASH else TILDE;
        assert ([c] + rest)[1..] == rest;
        assert s == [TILDE, s[1]] + s[2..];
      } else {
        EscapeUnescaped(s[1..]);
        assert ([s[0]] + Unescaped(s[1..]))[1..] == Unescaped(s[1..]);
        assert s == [s[0]] + s[1..];
      }
    }
  }

  /** Strings without tildes and slashes stay as they are. */
  lemma {:induction false} EscapedPlain(s: bytes)
    requires TILDE !in s && SLASH !in s
    ensures Escaped(s) == s
  {
    if s != [] {
      EscapedPlain(s[1..]);
      assert s == [s[0]] + s[1..];
    }
  }

  /** `to_string`. */
  function ToString(tokens: seq<bytes>): bytes {
    if tokens == [] then []
    else ToString(tokens[..|tokens| - 1]) + [SLASH] + Escaped(tokens[|tokens| - 1])
  }

  lemma ToStringAppend(tokens: seq<bytes>, token: bytes)
    ensures ToString(tokens + [token]) == ToString(tokens) + [SLASH] + Escaped(token)
  {
    assert (tokens + [token])[..|tokens|] == tokens;
  }

  /** The printed form begins with the first token. */
  lemma {:induction false} ToStringFirst(tokens: seq<bytes>)
    requires tokens != []
    ensures ToString(tokens) == [SLASH] + Escaped(tokens[0]) + ToString(tokens[1..])
  {
    var n := |tokens| - 1;
    if n == 0 {
      assert ToString(tokens[..0]) == [];
    } else {
      ToStringFirst(tokens[..n]);
      assert tokens[..n][1..] == tokens[1..][..n - 1];
      assert tokens[1..][n - 1] == tokens[n];
    }
  }

  lemma ToStringCons(token: bytes, rest: seq<bytes>)
    ensures ToString([token] + rest) == [SLASH] + Escaped(token) + ToString(rest)
  {
    ToStringFirst([token] + rest);
    assert ([token] + rest)[1..] == rest;
  }

  /** Position of the first slash, or the length of the string. */
  function SlashIndex(s: bytes): (n: nat)
    ensures n <= |s| && SLASH !in s[..n]
    ensures n < |s| ==> s[n] == SLASH
  {
    if s == [] || s[0] == SLASH then 0
    else
      var n := 1 + SlashIndex(s[1..]);
      assert s[..n] == [s[0]] + s[1..][..n - 1];
      n
  }

  /** The tokens of the part of a pointer that follows its first slash. */
  function Tokens(s: bytes): Result<seq<bytes>>
    decreases |s|
  {
    var n := SlashIndex(s);
    if !ProperlyEscaped(s[..n]) then Err(DomainError)
    else if n == |s| then Ok([Unescaped(s)])
    else
      var rest :- Tokens(s[n + 1..]);
      Ok([Unescaped(s[..n])] + rest)
  }

  /** What the constructor `json_pointer(s)` stores, or the exception it throws. */
  function Split(s: bytes): Result<seq<bytes>> {
    if s == [] then Ok([])
    else if s[0] != SLASH then Err(DomainError)
    else Tokens(s[1..])
  }

  /** `s.find_first_of(c, from)`. */
  method FindFirstOf(s: bytes, c: byte, from: nat) returns (pos: nat)
    requires |s| < NPOS
    ensures pos == NPOS || from <= pos < |s|
    ensures pos == NPOS ==> forall k | from <= k < |s| :: s[k] != c
    ensures pos != NPOS ==> s[pos] == c && forall k | from <= k < pos :: s[k] != c
  {
    var i := from;
    while i < |s|
      invariant from <= i
      invariant forall k | from <= k < i && k < |s| :: s[k] != c
    {
      if s[i] == c {
        return i;
      }
      i := i + 1;
    }
    return NPOS;
  }

  /** The escape check of one reference token. */
  method CheckEscapes(token: bytes) returns (ok: bool)
    requires |token| < NPOS
    ensures ok == ProperlyEscaped(token)
  {
    var pos := FindFirstOf(token, TILDE, 0);
    ghost var from := 0;
    while pos != NPOS
      invariant from <= |token|
      invariant pos == NPOS || from <= pos < |token|
      invariant pos == NPOS ==> forall k | from <= k < |token| :: token[k] != TILDE
      invariant pos != NPOS ==> token[pos] == TILDE && forall k | from <= k < pos :: token[k] != TILDE
      invariant forall k | 0 <= k < from :: token[k] == TILDE ==>
        k + 1 < |token| && (token[k + 1] == D0 || token[k + 1] == D1)
      decreases |token| - from
    {
      if pos == |token| - 1 || (token[pos + 1] != D0 && token[pos + 1] != D1) {
        return false;
      }
      from := pos + 1;
      pos := FindFirstOf(token, TILDE, pos + 1);
    }
    return true;
  }

  /** `unescape` on a fresh copy of a checked token. */
  method UnescapeToken(token: bytes) returns (unescaped: bytes)
    requires ProperlyEscaped(token)
    ensures unescaped == Unescaped(token)
  {
    var cell := new StringCell(token);
    cell.Unescape();
    TwoPassUnescape(token);
    unescaped := cell.s;
  }

  /** `slash` is what `find_first_of('/', start)` returns. */
  ghost predicate NextSlash(s: bytes, start: nat, slash: nat) {
    && (slash == NPOS ==> forall k | start <= k < |s| :: s[k] != SLASH)
    && (slash != NPOS ==> start <= slash < |s| && s[slash] == SLASH && forall k | start <= k < slash :: s[k] != SLASH)
  }

  /** The token between `start` and `slash`. */
  function TokenAt(s: bytes, start: nat, slash: nat): bytes
    requires start <= |s| && (slash == NPOS || start <= slash <= |s|)
  {
    if slash == NPOS then s[start..] else s[start..slash]
  }

  /** `start` for the next iteration; `npos + 1` wraps to 0. */
  function NextStart(slash: nat): nat {
    if slash == NPOS then 0 else slash + 1
  }

  /** The tokens in `result` and those from `start` on make up `all`; no more follow for 0. */
  ghost predicate SplitSoFar(all: Result<seq<bytes>>, s: bytes, start: nat, result: seq<bytes>)
    requires start <= |s|
  {
    all == if start == 0 then Ok(result) else Prepend(result, Tokens(s[start..]))
  }

  lemma TokensAt(s: bytes, start: nat, slash: nat)
    requires |s| < NPOS && start <= |s| && NextSlash(s, start, slash)
    ensures
      var token := TokenAt(s, start, slash);
      Tokens(s[start..]) ==
      if !ProperlyEscaped(token) then Err(DomainError)
      else if slash == NPOS then Ok([Unescaped(token)])
      else Prepend([Unescaped(token)], Tokens(s[slash + 1..]))
  {
    hide ProperlyEscaped, Unescaped;
    var rest, token := s[start..], TokenAt(s, start, slash);
    assert rest[..|token|] == token;
    if slash != NPOS {
      assert rest[|token| + 1..] == s[slash + 1..];
    }
  }

  /** One iteration of the loop of `split`. */
  lemma SplitStep(all: Result<seq<bytes>>, s: bytes, start: nat, slash: nat, result: seq<bytes>)
    requires |s| < NPOS && 0 < start <= |s| && NextSlash(s, start, slash) && SplitSoFar(all, s, start, result)
    ensures
      var token := TokenAt(s, start, slash);
      if !ProperlyEscaped(token) then all == Err(DomainError)
      else NextStart(slash) <= |s| && SplitSoFar(all, s, NextStart(slash), result + [Unescaped(token)])
    ensures NextStart(slash) == 0 || start < NextStart(slash)
  {
    TokensAt(s, start, slash);
    if slash != NPOS {
      PrependAssociative(result, Unescaped(TokenAt(s, start, slash)), Tokens(s[slash + 1..]));
    }
  }

  /** `split`, with the wrap-around of `npos + 1` that ends its loop. */
  method SplitPointer(s: bytes) returns (r: Result<seq<bytes>>)
    requires |s| < NPOS
    ensures r == Split(s)
  {
    if s == [] {
      return Ok([]);
    }
    if s[0] != SLASH {
      return Err(DomainError);
    }
    var result: seq<bytes> := [];
    var slash: nat := FindFirstOf(s, SLASH, 1);
    var start: nat := 1;
    PrependNothing(Tokens(s[1..]));
    while start != 0
      invariant start <= |s| && SplitSoFar(Split(s), s, start, result)
      invariant start != 0 ==> NextSlash(s, start, slash)
      decreases if start == 0 then 0 else |s| + 1 - start
    {
      SplitStep(Split(s), s, start, slash, result);
      var token := TokenAt(s, start, slash);
      var ok := CheckEscapes(token);
      if !ok {
        return Err(DomainError);
      }
      var unescaped := UnescapeToken(token);
      result := result + [unescaped];
      start := NextStart(slash);
      slash := FindFirstOf(s, SLASH, start);
    }
    r := Ok(result);
  }

  lemma PrependNothing(c: Result<seq<bytes>>)
    ensures Prepend([], c) == c
  {
    if c.Ok? {
      assert [] + c.value == c.value;
    }
  }

  ghost function Prepend(head: seq<bytes>, tail: Result<seq<bytes>>): Result<seq<bytes>> {
    if tail.Ok? then Ok(head + tail.value) else tail
  }

  lemma PrependAssociative(a: seq<bytes>, b: bytes, c: Result<seq<bytes>>)
    ensures Prepend(a, Prepend([b], c)) == Prepend(a + [b], c)
  {
    if c.Ok? {
      assert a + ([b] + c.value) == a + [b] + c.value;
    }
  }

  /** Splitting off one token. */
  lemma TokensStep(e: bytes, rest: bytes)
    requires SLASH !in e && ProperlyEscaped(e) && (rest == [] || rest[0] == SLASH)
    ensures Tokens(e + rest) == if rest == [] then Ok([Unescaped(e)]) else Prepend([Unescaped(e)], Tokens(rest[1..]))
  {
    var s := e + rest;
    assert s[..|e|] == e;
    assert |e| < |s| ==> s[|e|] == rest[0];
    if rest == [] {
      assert s == e;
    } else {
      assert s[|e| + 1..] == rest[1..];
    }
  }

  /** Parsing a printed pointer gives the pointer back. */
  lemma {:induction false} SplitToString(tokens: seq<bytes>)
    ensures Split(ToString(tokens)) == Ok(tokens)
    ensures tokens != [] ==> ToString(tokens) != [] && ToString(tokens)[0] == SLASH
  {
    if tokens != [] {
      var token, tail := tokens[0], tokens[1..];
      var e, rest := Escaped(token), ToString(tail);
      assert tokens == [token] + tail;
      ToStringCons(token, tail);
      EscapedIsProper(token);
      UnescapeEscaped(token);
      SplitToString(tail);
      SplitCons(e, rest);
    }
  }

  lemma SplitCons(e: bytes, rest: bytes)
    requires SLASH !in e && ProperlyEscaped(e) && (rest == [] || rest[0] == SLASH)
    ensures Split([SLASH] + e + rest) == Prepend([Unescaped(e)], Split(rest))
  {
    assert ([SLASH] + e + rest)[1..] == e + rest;
    assert [Unescaped(e)] + [] == [Unescaped(e)];
    TokensStep(e, rest);
  }

  /** The first token of a parsed string and the rest of it. */
  lemma FirstToken(s: bytes)
    requires Tokens(s).Ok?
    ensures var n := SlashIndex(s);
      && n <= |s| && Escaped(Unescaped(s[..n])) == s[..n]
      && (n < |s| ==> s[n] == SLASH && Tokens(s[n + 1..]).Ok?)
      && Tokens(s).value == [Unescaped(s[..n])] + (if n < |s| then Tokens(s[n + 1..]).value else [])
  {
    hide Escaped, Unescaped, ProperlyEscaped, SlashIndex;
    var n := SlashIndex(s);
    EscapeUnescaped(s[..n]);
    if n == |s| {
      assert s[..n] == s;
      assert [Unescaped(s)] + [] == [Unescaped(s)];
    }
  }

  lemma {:induction false} ToStringTokens(s: bytes)
    requires Tokens(s).Ok?
    ensures ToString(Tokens(s).value) == [SLASH] + s
    decreases |s|
  {
    hide ToString, Escaped, Unescaped, ProperlyEscaped, Tokens, SlashIndex;
    var n := SlashIndex(s);
    FirstToken(s);
    if n < |s| {
      ToStringTokens(s[n + 1..]);
      assert s == s[..n] + ([SLASH] + s[n + 1..]);
      PrintedCons(s[..n], [SLASH] + s[n + 1..], Tokens(s[n + 1..]).value);
    } else {
      assert s == s[..n] + [];
      NothingPrinted();
      PrintedCons(s[..n], [], []);
    }
  }

  lemma NothingPrinted()
    ensures ToString([]) == []
  {
  }

  lemma PrintedCons(e: bytes, rest: bytes, tail: seq<bytes>)
    requires Escaped(Unescaped(e)) == e && ToString(tail) == rest
    ensures ToString([Unescaped(e)] + tail) == [SLASH] + (e + rest)
  {
    ToStringCons(Unescaped(e), tail);
    assert [SLASH] + e + rest == [SLASH] + (e + rest);
  }

  /** Printing a parsed pointer gives the string back. */
  lemma ToStringSplit(s: bytes)
    requires Split(s).Ok?
    ensures ToString(Split(s).value) == s
  {
    if s != [] {
      ToStringTokens(s[1..]);
    }
  }

  lemma {:induction false} TokensAccepts(s: bytes)
    ensures Tokens(s).Ok? <==> ProperlyEscaped(s)
    decreases |s|
  {
    var n := SlashIndex(s);
    if n < |s| {
      TokensAccepts(s[n + 1..]);
      assert forall i | 0 <= i < n :: s[..n][i] == s[i];
      assert forall i | n < i < |s| :: s[n + 1..][i - n - 1] == s[i];
    } else {
      assert s[..n] == s;
    }
  }

  /** The accepted strings are those of section 3 of RFC 6901. */
  lemma SplitAccepts(s: bytes)
    ensures Split(s).Ok? <==> s == [] || (s[0] == SLASH && ProperlyEscaped(s))
  {
    if s != [] && s[0] == SLASH {
      TokensAccepts(s[1..]);
      assert forall i | 1 <= i < |s| :: s[1..][i - 1] == s[i];
    }
  }
}
