/**
 The lexer object: the generated scanner on its buffer, `get_string` and `get_number`.
 */
module Lexer {
  import opened Bytes
  import opened Wrappers
  import opened Value
  import opened Utf8
  import opened Lexical
  import opened Scanner
  import opened Strings
  import opened Numbers
  import Double

  // ----- how much of the buffer each label needs -----

  /** The argument of the `fill_line_buffer` call behind the label; 0 if there is none. */
  function Fill(s: State): nat {
    match s
    case Begin => 5
    case L15 => 3
    case L45 => 3
    case L56 => 3
    case L6 => 1
    case L30 => 1
    case L35 => 1
    case L36 => 1
    case L37 => 1
    case L38 => 1
    case L39 => 1
    case L40 => 1
    case L41 => 1
    case L42 => 1
    case L48 => 1
    case L55 => 1
    case L60 => 1
    case L65 => 1
    case L71 => 1
    case L74 => 1
    case _ => 0
  }

  /** The number of bytes that are available from the cursor on whenever the label is reached. */
  function Slack(s: State): nat {
    match s
    case L12 => 5
    case L23 => 5
    case L13 => 4
    case L43 => 4
    case L24 => 4
    case L25 => 4
    case L52 => 4
    case L51 => 3
    case L53 => 3
    case L54 => 3
    case L62 => 3
    case L9 => 2
    case L47 => 2
    case L59 => 2
    case L63 => 2
    case L64 => 2
    case L66 => 2
    case Begin => 0
    case L5 => 0
    case L14 => 0
    case L32 => 0
    case L44 => 0
    case L50 => 0
    case L58 => 0
    case _ => 1
  }

  /** Reading never leaves the buffer, and what remains suffices for the next label. */
  lemma SlackStep(s: State, c: byte)
    requires Reads(s)
    ensures Slack(s) >= if Fill(s) > 0 then 1 else 2
    ensures Slack(Target(s, c)) <= if Fill(s) > 0 then Fill(s) else Slack(s) - 1
  {
    hide Target, Slack, Fill;
    if Fill(s) > 0 {
      SlackFilled(s, c);
    } else {
      SlackUnfilled(s, c);
    }
  }

  lemma SlackFilled(s: State, c: byte)
    requires Reads(s) && Fill(s) > 0
    ensures Slack(s) >= 1 && Slack(Target(s, c)) <= Fill(s)
  {
  }

  lemma SlackUnfilled(s: State, c: byte)
    requires Reads(s) && Fill(s) == 0
    ensures Slack(s) >= 2 && Slack(Target(s, c)) <= Slack(s) - 1
  {
  }

  lemma SlackFirst(c: byte)
    ensures Slack(FirstLabel(c)) <= 5
  {
  }

  lemma SlackAccepted(s: State)
    requires Accepted(s).Some? && Accepted(s).value.1
    ensures Slack(s) >= 1
  {
  }

  /** The labels from which the automaton may go back to the marker. */
  predicate NeedsMarker(s: State) {
    match s
    case L30 => true
    case L32 => true
    case L33 => true
    case L35 => true
    case L36 => true
    case L37 => true
    case L38 => true
    case L39 => true
    case L40 => true
    case L41 => true
    case L42 => true
    case L47 => true
    case L51 => true
    case L52 => true
    case L53 => true
    case L54 => true
    case L55 => true
    case L59 => true
    case L60 => true
    case L62 => true
    case L63 => true
    case L64 => true
    case L65 => true
    case L66 => true
    case L67 => true
    case L69 => true
    case L71 => true
    case L72 => true
    case L74 => true
    case _ => false
  }

  /** A marker is set before it can be needed. */
  lemma MarkerStep(s: State, c: byte)
    requires Reads(s) && NeedsMarker(Target(s, c))
    ensures NeedsMarker(s) || Marks(s).Some?
  {
  }

  lemma MarkerFirst(c: byte)
    ensures !NeedsMarker(FirstLabel(c))
  {
  }

  // ----- one step of the automaton -----

  /** The head of the loop dispatches on the byte at the cursor. */
  lemma FirstStep(text: bytes, p: nat, start: nat, accept: nat, mark: nat)
    requires p <= |text|
    ensures var s := FirstLabel(CharAt(text, p));
      && (Reads(s) ==> p < |text|) && Slack(s) <= 5 && !NeedsMarker(s) && !s.Begin?
      && Run(text, p, s, p, 0, mark) == Run(text, p, Begin, start, accept, mark)
  {
    hide Run, FirstLabel, Slack, NeedsMarker;
    var s := FirstLabel(CharAt(text, p));
    BeginRun(text, p, start, accept, mark);
    FirstIsReal(CharAt(text, p));
    SlackFirst(CharAt(text, p));
    MarkerFirst(CharAt(text, p));
    if !Reads(s) {
      RunStop(text, p, s, p, 0, mark);
    }
  }

  /** Label 32 goes back to the marker, where the token ends. */
  lemma BackStep(text: bytes, p: nat, start: nat, accept: nat, mark: nat)
    requires p <= |text| && mark <= |text|
    ensures var s := AfterBacktrack(accept);
      && Accepted(s).Some? && !Accepted(s).value.1 && Slack(s) == 0 && !NeedsMarker(s) && !Reads(s)
      && Run(text, mark, s, start, accept, mark) == Run(text, p, L32, start, accept, mark)
  {
    RunBacktrack(text, p, start, accept, mark);
    RunStop(text, mark, AfterBacktrack(accept), start, accept, mark);
  }

  /** A reading label needs bytes, and leaves enough of them for the next label. */
  lemma ReadStep(text: bytes, p: nat, s: State, start: nat, accept: nat, mark: nat)
    requires p < |text| && Reads(s)
    ensures var c := CharAt(text, p + 1);
      var t := Target(s, c);
      var a, m := if Marks(s).Some? then Marks(s).value else accept, if Marks(s).Some? then p + 1 else mark;
      && (Reads(t) ==> p + 1 < |text|)
      && Run(text, p + 1, t, start, a, m) == Run(text, p, s, start, accept, mark)
      && Slack(s) >= (if Fill(s) > 0 then 1 else 2)
      && Slack(t) <= (if Fill(s) > 0 then Fill(s) else Slack(s) - 1)
      && (NeedsMarker(t) ==> NeedsMarker(s) || Marks(s).Some?)
  {
    hide Run, Target, Slack, Fill, NeedsMarker, Marks, Reads;
    var t := Target(s, CharAt(text, p + 1));
    RunStep(text, p, s, start, accept, mark);
    SlackStep(s, CharAt(text, p + 1));
    if NeedsMarker(t) {
      MarkerStep(s, CharAt(text, p + 1));
    }
  }

  /** An accepting label ends the token. */
  lemma LastStep(text: bytes, p: nat, s: State, start: nat, accept: nat, mark: nat)
    requires p <= |text| && Accepted(s).Some?
    ensures !Reads(s)
    ensures var (kind, advance) := Accepted(s).value;
      && (advance ==> Slack(s) >= 1)
      && Run(text, p, s, start, accept, mark) == Token(kind, start, if advance then p + 1 else p)
  {
    hide Slack;
    RunStop(text, p, s, start, accept, mark);
    if Accepted(s).value.1 {
      SlackAccepted(s);
    }
  }

  // ----- the buffer -----

  /** The buffer holds what is left of the text and then, if it goes on, a zero byte. */
  ghost predicate Holds(content: bytes, text: bytes, dropped: nat) {
    && dropped <= |text| && |text| - dropped <= |content|
    && (forall i | 0 <= i < |text| - dropped :: content[i] == text[dropped + i])
    && (|text| - dropped < |content| ==> content[|text| - dropped] == 0)
  }

  lemma HoldsByte(content: bytes, text: bytes, dropped: nat, i: nat)
    requires Holds(content, text, dropped) && i < |content| && dropped + i <= |text|
    ensures content[i] == CharAt(text, dropped + i)
  {
  }

  /** What is left of a string token at `i`, without the closing quotation mark. */
  function Body(content: bytes, i: nat, cursor: nat): bytes
    requires i < cursor <= |content|
  {
    content[i..cursor - 1]
  }

  // ----- the lexer -----

  class Lexer {
    /** The bytes from `m_content` up to `m_limit`; the other fields are offsets from `m_content`. */
    var content: bytes
    var start: nat
    var cursor: nat
    var marker: Option<nat>

    /** The text to scan, and how much of it the buffer no longer holds. */
    ghost const text: bytes
    ghost var dropped: nat

    ghost predicate Valid()
      reads this
    {
      && start <= cursor <= |content|
      && (marker.Some? ==> start <= marker.value <= |content|)
      && Holds(content, text, dropped)
    }

    /** The position in the text of the next byte. */
    ghost function Position(): nat
      reads this
    {
      dropped + cursor
    }

    /** The last token has this extent in the text. */
    ghost predicate AtToken(t: Token)
      reads this
    {
      dropped + start == t.start && dropped + cursor == t.end
    }

    /** A lexer on a buffer. */
    constructor (buff: bytes)
      ensures Valid() && Position() == 0 && text == buff
    {
      content := buff;
      start := 0;
      cursor := 0;
      marker := None;
      text := buff;
      dropped := 0;
    }

    /**
     `fill_line_buffer`, reading from contiguous storage: the processed bytes are dropped, a zero byte and
     further padding are added, and all pointers keep their place in the text.
     */
    method FillLineBuffer(n: nat)
      requires Valid() && dropped + start <= |text|
      modifies this
      ensures Valid() && dropped == old(dropped + start)
      ensures start == 0 && cursor == old(cursor - start)
      ensures marker == Some(if old(marker).Some? then old(marker).value - old(start) else 0)
      ensures |content| == old(|content| - start) + (if n > 0 then n else 1)
    {
      var offsetMarker := if marker.None? then 0 else marker.value - start;
      var offsetCursor := cursor - start;
      var padding: bytes := [0];
      if n > 0 {
        padding := padding + seq(n - 1, _ => 1);
      }
      content := content[start..] + padding;
      dropped := dropped + start;
      start := 0;
      marker := Some(offsetMarker);
      cursor := offsetCursor;
    }

    /** Makes sure that `n` bytes are available, if `n` is not 0, and reads the byte at the cursor. */
    method ReadByte(n: nat) returns (yych: byte)
      requires Valid() && Position() <= |text| && (n == 0 ==> cursor < |content|)
      modifies this
      ensures Valid() && Position() == old(Position()) && dropped + start == old(dropped + start)
      ensures old(marker).Some? ==> marker.Some? && dropped + marker.value == old(dropped + marker.value)
      ensures |content| - cursor >= n && |content| - cursor >= old(|content| - cursor)
      ensures yych == CharAt(text, Position())
    {
      hide Holds;
      if |content| - cursor < n {
        FillLineBuffer(n);
      }
      HoldsByte(content, text, dropped, cursor);
      yych := content[cursor];
    }

    /** What the code at a label does that advances the cursor. */
    method Advance(s: State, accept: nat) returns (next: State, nextAccept: nat)
      requires Valid() && Position() < |text| && Reads(s) && Slack(s) <= |content| - cursor
      requires Slack(s) >= if Fill(s) > 0 then 1 else 2
      modifies this
      ensures Valid() && Position() == old(Position()) + 1 && dropped + start == old(dropped + start)
      ensures next == Target(s, CharAt(text, Position()))
      ensures nextAccept == if Marks(s).Some? then Marks(s).value else accept
      ensures Marks(s).Some? ==> marker.Some? && dropped + marker.value == Position()
      ensures Marks(s).None? && old(marker).Some? ==>
        marker.Some? && dropped + marker.value == old(dropped + marker.value)
      ensures |content| - cursor >= if Fill(s) > 0 then Fill(s) else Slack(s) - 1
    {
      hide Holds, Target, Slack, Fill, Marks, Reads, CharAt;
      nextAccept := accept;
      cursor := cursor + 1;
      if Marks(s).Some? {
        nextAccept := Marks(s).value;
        marker := Some(cursor);
      }
      var yych := ReadByte(Fill(s));
      next := Target(s, yych);
    }

    /** `scan`: finds the next token of the text. Every byte that is read lies inside the buffer. */
    method Scan() returns (kind: Kind)
      requires Valid() && Position() <= |text|
      modifies this
      ensures Valid()
      ensures kind == Lex(text, old(Position())).kind && AtToken(Lex(text, old(Position())))
    {
      hide Run, Lex, Holds, Target, FirstLabel, Slack, Fill, NeedsMarker, AfterBacktrack, Accepted, Marks, Stop, CharAt;
      var s, accept: nat := Begin, 0;
      ghost var pos, first, mark: nat := Position(), dropped + start, 0;
      ghost var token := Lex(text, pos);
      RunIsLex(text, pos, first, 0, 0);
      LabelFacts();
      while Accepted(s) == None
        invariant Valid() && pos == Position() <= |text| && first == dropped + start
        invariant Reads(s) ==> pos < |text|
        invariant Run(text, pos, s, first, accept, mark) == token
        invariant Slack(s) <= |content| - cursor
        invariant NeedsMarker(s) ==> marker.Some? && dropped + marker.value == mark <= |text|
        decreases Accepted(s) == None, |text| - pos, s.Begin?
      {
        if s.Begin? {
          FirstStep(text, pos, first, accept, mark);
          marker := None;
          start := cursor;
          first := pos;
          accept := 0;
          var yych := ReadByte(5);
          s := FirstLabel(yych);
        } else if s.L32? {
          BackStep(text, pos, first, accept, mark);
          cursor := marker.value;
          pos := mark;
          s := AfterBacktrack(accept);
        } else {
          ReadStep(text, pos, s, first, accept, mark);
          pos := pos + 1;
          if Marks(s).Some? {
            mark := pos;
          }
          s, accept := Advance(s, accept);
        }
      }
      LastStep(text, pos, s, first, accept, mark);
      kind := Accepted(s).value.0;
      if Accepted(s).value.1 {
        cursor := cursor + 1;
      }
    }

    /** The case `u` of `get_string`: what the escape at `i` adds to the result, and how far to go on. */
    method GetUnicode(i: nat) returns (r: Result<(bytes, nat)>)
      requires 1 <= i < cursor - 1 && cursor <= |content| && content[cursor - 1] == QUOTE
      requires content[i - 1] == BACKSLASH && content[i] == 'u' as int && Escaped(Body(content, i - 1, cursor))
      ensures r.Err? ==> Decoded(Body(content, i - 1, cursor)) == Err(r.error)
      ensures r.Ok? ==>
        && i + r.value.1 < cursor - 1 && Escaped(Body(content, i + r.value.1 + 1, cursor))
        && Decoded(Body(content, i - 1, cursor)) ==
           Prepend(r.value.0, Decoded(Body(content, i + r.value.1 + 1, cursor)))
    {
      hide Escaped, Decoded, HexValue, ToUnicode;
      ghost var rest := content[i - 1..cursor - 1];
      EscapeStep(rest);
      Slice(content, i - 1, cursor - 1, 2, 6);
      Slice(content, i - 1, cursor - 1, 6, 6);
      var codepoint := HexValue(content[i + 1..i + 5]);
      if IsHigh(codepoint) {
        PairStep(rest, content, i, cursor);
        if i + 6 >= |content| || content[i + 5] != BACKSLASH || content[i + 6] != 'u' as int {
          return Err(InvalidArgument);
        }
        var codepoint2 := HexValue(content[i + 7..i + 11]);
        var u :- ToUnicode(codepoint, codepoint2);
        r := Ok((u, 10));
      } else if IsLow(codepoint) {
        r := Err(InvalidArgument);
      } else {
        var u :- ToUnicode(codepoint, 0);
        r := Ok((u, 4));
      }
    }

    /** `get_string`; the caller is the parser behind a string token. */
    method GetString() returns (r: Result<bytes>)
      requires Valid() && cursor - start >= 2 && content[cursor - 1] == QUOTE
      requires Escaped(Body(content, start + 1, cursor))
      ensures r == Decoded(Body(content, start + 1, cursor))
    {
      hide Escaped, Decoded, Holds, Prepend, Body;
      var result: bytes := [];
      var i := start + 1;
      ghost var value := Decoded(Body(content, i, cursor));
      NothingPrepended(value);
      while i < cursor - 1
        invariant start + 1 <= i <= cursor - 1
        invariant Escaped(Body(content, i, cursor))
        invariant value == Prepend(result, Decoded(Body(content, i, cursor)))
      {
        var e := i;
        while e < cursor - 1 && content[e] != BACKSLASH
          invariant i <= e <= cursor - 1
          invariant forall k | i <= k < e :: content[k] != BACKSLASH
        {
          e := e + 1;
        }
        if e != i {
          PlainBody(content, i, e, cursor);
          PrependTwice(result, content[i..e], Decoded(Body(content, e, cursor)));
          result := result + content[i..e];
          i := e - 1;
        } else {
          EscapeBody(content, i, cursor);
          i := i + 1;
          if content[i] == 'u' as int {
            var u := GetUnicode(i);
            if u.Err? {
              PrependError(result, u.error);
              return Err(u.error);
            }
            PrependTwice(result, u.value.0, Decoded(Body(content, i + u.value.1 + 1, cursor)));
            result := result + u.value.0;
            i := i + u.value.1;
          } else {
            PrependTwice(result, [ShortValue(content[i])], Decoded(Body(content, i + 1, cursor)));
            result := result + [ShortValue(content[i])];
          }
        }
        i := i + 1;
      }
      EmptyBody(content, i, cursor);
      PrependNothing(result);
      r := Ok(result);
    }

    /** `get_number` on the last token. */
    method GetNumber(kind: Kind, strtod: Strtod) returns (j: Json)
      requires Valid() && start < cursor
      ensures j == Numbers.GetNumber(content[start..], cursor - start, kind, strtod)
    {
      var s, len := content[start..], cursor - start;
      match kind {
        case ValueUnsigned =>
          var val := ParseIntegral(s, len, 0, UINT64_MAX);
          if val.Some? {
            return Uint(val.value);
          }
        case ValueInteger =>
          var val := ParseIntegral(s, len, INT64_MIN, INT64_MAX);
          if val.Some? {
            return Int(val.value);
          }
        case _ =>
      }
      var val := strtod(s[..len]);
      j := if Double.IsFinite(val) then Float(val) else Null;
    }
  }

  /** What the loop of `scan` starts with, and what label 32 needs. */
  lemma LabelFacts()
    ensures Accepted(Begin) == None && Slack(Begin) == 0 && !NeedsMarker(Begin) && NeedsMarker(L32)
    ensures Accepted(L32) == None
  {
  }

  // ----- get_string, step by step -----

  lemma NothingPrepended(r: Result<bytes>)
    ensures Prepend([], r) == r
  {
    if r.Ok? {
      assert [] + r.value == r.value;
    }
  }

  lemma PrependNothing(s: bytes)
    ensures Prepend(s, Decoded([])) == Ok(s)
  {
    assert s + [] == s;
  }

  lemma PrependError(s: bytes, e: Error)
    ensures Prepend(s, Err(e)) == Err(e)
  {
  }

  lemma PrependTwice(s: bytes, t: bytes, r: Result<bytes>)
    ensures Prepend(s, Prepend(t, r)) == Prepend(s + t, r)
  {
    if r.Ok? {
      Regroup(s, t, r.value);
    }
  }

  lemma {:induction false} PlainStep(s: bytes, n: nat)
    requires Escaped(s) && n <= |s| && forall k | 0 <= k < n :: s[k] != BACKSLASH
    ensures Escaped(s[n..]) && Decoded(s) == Prepend(s[..n], Decoded(s[n..]))
  {
    hide Decoded, IsShortEscape, IsHexWord;
    EscapedSuffix(s, n);
    CopiedBytes(s[..n], s[n..]);
    assert s == s[..n] + s[n..];
  }

  lemma {:induction false} EscapedSuffix(s: bytes, n: nat)
    requires Escaped(s) && n <= |s| && forall k | 0 <= k < n :: s[k] != BACKSLASH
    ensures Escaped(s[n..])
  {
    if n > 0 {
      EscapedSuffix(s[1..], n - 1);
      assert s[1..][n - 1..] == s[n..];
    } else {
      assert s[0..] == s;
    }
  }

  lemma PlainBody(content: bytes, i: nat, e: nat, cursor: nat)
    requires i <= e < cursor <= |content| && forall k | i <= k < e :: content[k] != BACKSLASH
    requires Escaped(Body(content, i, cursor))
    ensures Escaped(Body(content, e, cursor))
    ensures Decoded(Body(content, i, cursor)) == Prepend(content[i..e], Decoded(Body(content, e, cursor)))
  {
    hide Decoded, Escaped;
    Slice(content, i, cursor - 1, e - i, e - i);
    Slice(content, i, cursor - 1, 0, e - i);
    PlainStep(Body(content, i, cursor), e - i);
  }

  lemma EscapeBody(content: bytes, i: nat, cursor: nat)
    requires i < cursor - 1 && cursor <= |content| && content[i] == BACKSLASH
    requires Escaped(Body(content, i, cursor))
    ensures i + 1 < cursor - 1
    ensures content[i + 1] != 'u' as int ==>
      && Escaped(Body(content, i + 2, cursor))
      && Decoded(Body(content, i, cursor)) ==
         Prepend([ShortValue(content[i + 1])], Decoded(Body(content, i + 2, cursor)))
  {
    hide Decoded, Escaped;
    EscapeStep(Body(content, i, cursor));
    Slice(content, i, cursor - 1, 2, 2);
  }

  lemma EmptyBody(content: bytes, i: nat, cursor: nat)
    requires i + 1 == cursor <= |content|
    ensures Body(content, i, cursor) == []
  {
  }

  /** What follows a backslash. */
  lemma EscapeStep(s: bytes)
    requires Escaped(s) && s != [] && s[0] == BACKSLASH
    ensures |s| >= 2
    ensures s[1] == 'u' as int ==> |s| >= 6 && IsHexWord(s[2..6]) && Escaped(s[6..])
    ensures s[1] != 'u' as int ==> Escaped(s[2..]) && Decoded(s) == Prepend([ShortValue(s[1])], Decoded(s[2..]))
    ensures s[1] == 'u' as int && IsLow(HexValue(s[2..6])) ==> Decoded(s) == Err(InvalidArgument)
    ensures s[1] == 'u' as int && !IsSurrogate(HexValue(s[2..6])) ==>
      Decoded(s) == match ToUnicode(HexValue(s[2..6]), 0) {
        case Ok(u) => Prepend(u, Decoded(s[6..]))
        case Err(e) => Err(e)
      }
  {
    hide HexValue, ToUnicode;
  }

  lemma Slice(content: bytes, a: nat, b: nat, x: nat, y: nat)
    requires a <= b <= |content| && x <= y <= b - a
    ensures content[a..b][x..y] == content[a + x..a + y]
    ensures content[a..b][x..] == content[a + x..b]
  {
    forall k | 0 <= k < y - x ensures content[a..b][x..y][k] == content[a + x..a + y][k] {
    }
    forall k | 0 <= k < b - a - x ensures content[a..b][x..][k] == content[a + x..b][k] {
    }
  }

  /** The test for the second half of a pair stays inside the token. */
  lemma PairStep(s: bytes, content: bytes, i: nat, cursor: nat)
    requires 1 <= i < cursor - 1 && cursor <= |content| && content[cursor - 1] == QUOTE
    requires s == content[i - 1..cursor - 1]
    requires Escaped(s) && |s| >= 6 && s[0] == BACKSLASH && s[1] == 'u' as int
    requires IsHexWord(s[2..6]) && IsHigh(HexValue(s[2..6]))
    ensures i + 5 < |content|
    ensures
      if i + 6 >= |content| || content[i + 5] != BACKSLASH || content[i + 6] != 'u' as int then
        Decoded(s) == Err(InvalidArgument)
      else
        && i + 11 <= cursor - 1 && IsHexWord(content[i + 7..i + 11]) && Escaped(content[i + 11..cursor - 1])
        && Decoded(s) == match ToUnicode(HexValue(s[2..6]), HexValue(content[i + 7..i + 11])) {
          case Ok(u) => Prepend(u, Decoded(content[i + 11..cursor - 1]))
          case Err(e) => Err(e)
        }
  {
    hide HexValue, ToUnicode, IsHexWord;
    var t := s[6..];
    Slice(content, i - 1, cursor - 1, 6, 6);
    if |t| >= 2 {
      assert t[0] == content[i + 5] && t[1] == content[i + 6];
      if t[0] == BACKSLASH && t[1] == 'u' as int {
        Slice(content, i + 5, cursor - 1, 2, 6);
        Slice(content, i + 5, cursor - 1, 6, 6);
      }
    } else if |t| == 1 {
      assert t[0] == content[i + 5];
    }
  }
}
