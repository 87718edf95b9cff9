/**
 Serialization: the text that `dump` writes.
 */
module Dump {
  import opened Bytes
  import opened Decimal
  import opened Value
  import opened Lexical
  import opened Escape
  import Double

  /** The conversion of floats by the C library; a parameter of the model. */
  type FloatText = Double.Bits -> bytes

  /** `pretty_print` and `indent_step`. */
  datatype Format = Format(pretty: bool, step: nat)

  const UINT_MODULUS := 0x1_0000_0000

  /** `new_indent += indent_step` on `unsigned int`. */
  function Deeper(fmt: Format, indent: nat): nat {
    if fmt.pretty then (indent + fmt.step) % UINT_MODULUS else indent
  }

  function Spaces(n: nat): bytes {
    seq(n, _ => 0x20)
  }

  function LineBreak(fmt: Format): bytes {
    if fmt.pretty then [0x0A] else []
  }

  /** What stands before an element, with the comma unless it is the first. */
  function Separator(first: bool, fmt: Format, inner: nat): bytes {
    (if first then [] else [',' as int] + LineBreak(fmt)) + Spaces(inner)
  }

  /** What stands before the closing bracket. */
  function Closing(fmt: Format, indent: nat): bytes {
    LineBreak(fmt) + Spaces(indent)
  }

  function Quoted(s: bytes): bytes {
    [QUOTE] + EscapeText(s) + [QUOTE]
  }

  function KeyText(key: bytes, fmt: Format): bytes {
    Quoted(key) + [':' as int] + (if fmt.pretty then [0x20] else [])
  }

  /** The text that `dump` writes. */
  function DumpText(j: Json, fmt: Format, indent: nat, pf: FloatText): bytes
    decreases j, 1
  {
    match j
    case Null => NULL
    case Bool(b) => if b then TRUE else FALSE
    case Int(i) => IntegerText(i)
    case Uint(u) => IntegerText(u)
    case Float(f) => pf(f)
    case String(s) => Quoted(s)
    case Array(a) =>
      if a == [] then ['[' as int, ']' as int]
      else
        ['[' as int] + (LineBreak(fmt) + (DumpElements(j, 0, fmt, Deeper(fmt, indent), pf)
          + (Closing(fmt, indent) + [']' as int])))
    case Object(m) =>
      if m == map[] then ['{' as int, '}' as int]
      else
        ['{' as int] + (LineBreak(fmt) + (DumpMembers(j, SortedKeys(m.Keys), true, fmt, Deeper(fmt, indent), pf)
          + (Closing(fmt, indent) + ['}' as int])))
  }

  /** The elements from index `i` on. */
  function DumpElements(j: Json, i: nat, fmt: Format, inner: nat, pf: FloatText): bytes
    requires j.Array? && i <= |j.a|
    decreases j, 0, |j.a| - i
  {
    if i == |j.a| then []
    else Separator(i == 0, fmt, inner) + (DumpText(j.a[i], fmt, inner, pf) + DumpElements(j, i + 1, fmt, inner, pf))
  }

  /** The members with the given keys. */
  function DumpMembers(j: Json, ks: seq<bytes>, first: bool, fmt: Format, inner: nat, pf: FloatText): bytes
    requires j.Object? && forall k :: k in ks ==> k in j.m
    decreases j, 0, |ks|
  {
    if ks == [] then []
    else
      Separator(first, fmt, inner) + (KeyText(ks[0], fmt)
        + (DumpText(j.m[ks[0]], fmt, inner, pf) + DumpMembers(j, ks[1..], false, fmt, inner, pf)))
  }

  // ----- the original, which writes to a stream -----

  class Stream {
    var text: bytes

    constructor ()
      ensures text == []
    {
      text := [];
    }

    /** `operator<<`. */
    method Put(s: bytes)
      modifies this
      ensures text == old(text) + s
    {
      text := text + s;
    }
  }

  /** `dump` on a stream. */
  method Write(o: Stream, j: Json, fmt: Format, indent: nat, pf: FloatText)
    requires indent < UINT_MODULUS && fmt.step < UINT_MODULUS
    modifies o
    ensures o.text == old(o.text) + DumpText(j, fmt, indent, pf)
    decreases j, 1
  {
    hide DumpElements, DumpMembers;
    match j
    case Object(m) =>
      if m == map[] {
        o.Put(['{' as int, '}' as int]);
        return;
      }
      WriteObject(o, j, fmt, indent, pf);
    case Array(a) =>
      if a == [] {
        o.Put(['[' as int, ']' as int]);
        return;
      }
      WriteArray(o, j, fmt, indent, pf);
    case String(s) => WriteQuoted(o, s);
    case Bool(b) => o.Put(if b then TRUE else FALSE);
    case Int(i) =>
      var text := NumToStr(i);
      o.Put(text);
    case Uint(u) =>
      var text := NumToStr(u);
      o.Put(text);
    case Float(f) => o.Put(pf(f));
    case Null => o.Put(NULL);
  }

  method WriteQuoted(o: Stream, s: bytes)
    modifies o
    ensures o.text == old(o.text) + Quoted(s)
  {
    var escaped := EscapeString(s);
    o.Put([QUOTE] + escaped + [QUOTE]);
  }

  method WriteArray(o: Stream, j: Json, fmt: Format, indent: nat, pf: FloatText)
    requires j.Array? && j.a != [] && indent < UINT_MODULUS && fmt.step < UINT_MODULUS
    modifies o
    ensures o.text == old(o.text) + (['[' as int] + (LineBreak(fmt) + (DumpElements(j, 0, fmt, Deeper(fmt, indent), pf)
      + (Closing(fmt, indent) + [']' as int]))))
    decreases j, 0
  {
    hide DumpText, Separator, LineBreak, Spaces;
    var newIndent := indent;
    o.Put(['[' as int]);
    if fmt.pretty {
      newIndent := (newIndent + fmt.step) % UINT_MODULUS;
    }
    o.Put(LineBreak(fmt));
    ghost var start, inner := o.text, Deeper(fmt, indent);
    for i := 0 to |j.a|
      invariant newIndent == inner
      invariant o.text + DumpElements(j, i, fmt, inner, pf) == start + DumpElements(j, 0, fmt, inner, pf)
    {
      ghost var before := o.text;
      o.Put(Separator(i == 0, fmt, newIndent));
      Write(o, j.a[i], fmt, newIndent, pf);
      Append3(before, Separator(i == 0, fmt, inner), DumpText(j.a[i], fmt, inner, pf),
              DumpElements(j, i + 1, fmt, inner, pf));
    }
    assert o.text + [] == o.text;
    if fmt.pretty {
      newIndent := if newIndent >= fmt.step then newIndent - fmt.step else newIndent + UINT_MODULUS - fmt.step;
    }
    assert newIndent == indent;
    o.Put(Closing(fmt, newIndent));
    o.Put([']' as int]);
    Append5(old(o.text), ['[' as int], LineBreak(fmt), DumpElements(j, 0, fmt, inner, pf), Closing(fmt, indent),
            [']' as int]);
  }

  /** The text of the members from the key at `i` on. */
  ghost function MembersFrom(j: Json, ks: seq<bytes>, i: nat, fmt: Format, inner: nat, pf: FloatText): bytes
    requires j.Object? && i <= |ks| && forall k :: k in ks ==> k in j.m
  {
    DumpMembers(j, ks[i..], i == 0, fmt, inner, pf)
  }

  lemma MemberText(j: Json, ks: seq<bytes>, i: nat, fmt: Format, inner: nat, pf: FloatText)
    requires j.Object? && i < |ks| && forall k :: k in ks ==> k in j.m
    ensures MembersFrom(j, ks, i, fmt, inner, pf) ==
      Separator(i == 0, fmt, inner) + (KeyText(ks[i], fmt)
        + (DumpText(j.m[ks[i]], fmt, inner, pf) + MembersFrom(j, ks, i + 1, fmt, inner, pf)))
  {
    hide Separator, KeyText, DumpText;
    assert ks[i..][1..] == ks[i + 1..];
  }

  lemma MemberTextEnds(j: Json, ks: seq<bytes>, fmt: Format, inner: nat, pf: FloatText)
    requires j.Object? && forall k :: k in ks ==> k in j.m
    ensures MembersFrom(j, ks, 0, fmt, inner, pf) == DumpMembers(j, ks, true, fmt, inner, pf)
    ensures MembersFrom(j, ks, |ks|, fmt, inner, pf) == []
  {
    hide Separator, KeyText, DumpText;
    assert ks[0..] == ks;
  }

  method WriteObject(o: Stream, j: Json, fmt: Format, indent: nat, pf: FloatText)
    requires j.Object? && j.m != map[] && indent < UINT_MODULUS && fmt.step < UINT_MODULUS
    modifies o
    ensures o.text == old(o.text) + (['{' as int] + (LineBreak(fmt)
      + (DumpMembers(j, SortedKeys(j.m.Keys), true, fmt, Deeper(fmt, indent), pf)
        + (Closing(fmt, indent) + ['}' as int]))))
    decreases j, 0
  {
    hide DumpText, DumpMembers, MembersFrom, Separator, LineBreak, Spaces, SortedKeys, KeyText, Quoted;
    var newIndent := indent;
    var ks := SortedKeys(j.m.Keys);
    o.Put(['{' as int]);
    if fmt.pretty {
      newIndent := (newIndent + fmt.step) % UINT_MODULUS;
    }
    o.Put(LineBreak(fmt));
    ghost var start, inner := o.text, Deeper(fmt, indent);
    for i := 0 to |ks|
      invariant newIndent == inner
      invariant o.text + MembersFrom(j, ks, i, fmt, inner, pf) == start + MembersFrom(j, ks, 0, fmt, inner, pf)
    {
      ghost var before := o.text;
      MemberText(j, ks, i, fmt, inner, pf);
      o.Put(Separator(i == 0, fmt, newIndent));
      WriteKey(o, ks[i], fmt);
      Write(o, j.m[ks[i]], fmt, newIndent, pf);
      Append4(before, Separator(i == 0, fmt, inner), KeyText(ks[i], fmt), DumpText(j.m[ks[i]], fmt, inner, pf),
              MembersFrom(j, ks, i + 1, fmt, inner, pf));
    }
    MemberTextEnds(j, ks, fmt, inner, pf);
    assert o.text + [] == o.text;
    if fmt.pretty {
      newIndent := if newIndent >= fmt.step then newIndent - fmt.step else newIndent + UINT_MODULUS - fmt.step;
    }
    assert newIndent == indent;
    o.Put(Closing(fmt, newIndent));
    o.Put(['}' as int]);
    Append5(old(o.text), ['{' as int], LineBreak(fmt), DumpMembers(j, ks, true, fmt, inner, pf), Closing(fmt, indent),
            ['}' as int]);
  }

  method WriteKey(o: Stream, key: bytes, fmt: Format)
    modifies o
    ensures o.text == old(o.text) + KeyText(key, fmt)
  {
    hide Quoted;
    WriteQuoted(o, key);
    o.Put([':' as int]);
    o.Put(if fmt.pretty then [0x20] else []);
    Append3(old(o.text), Quoted(key), [':' as int], if fmt.pretty then [0x20] else []);
    Regroup(Quoted(key), [':' as int], if fmt.pretty then [0x20] else []);
  }

  lemma Append3(a: bytes, b: bytes, c: bytes, d: bytes)
    ensures a + b + c + d == a + (b + (c + d))
  {
  }

  lemma Append4(a: bytes, b: bytes, c: bytes, d: bytes, e: bytes)
    ensures a + b + c + d + e == a + (b + (c + (d + e)))
  {
    Append3(a + b, c, d, e);
    Regroup(a, b, c + (d + e));
  }

  lemma Append5(a: bytes, b: bytes, c: bytes, d: bytes, e: bytes, f: bytes)
    ensures a + b + c + d + e + f == a + (b + (c + (d + (e + f))))
  {
    Append4(a + b, c, d, e, f);
    Regroup(a, b, c + (d + (e + f)));
  }

  /** The format for the argument of the public `dump`. */
  function FormatOf(indent: int): Format {
    if indent >= 0 then Format(true, indent) else Format(false, 0)
  }

  /** `dump(indent)`. */
  method Serialize(j: Json, indent: int, pf: FloatText) returns (text: bytes)
    requires -0x8000_0000 <= indent < 0x8000_0000
    ensures text == DumpText(j, FormatOf(indent), 0, pf)
  {
    var ss := new Stream();
    if indent >= 0 {
      Write(ss, j, Format(true, indent), 0, pf);
    } else {
      Write(ss, j, Format(false, 0), 0, pf);
    }
    assert [] + DumpText(j, FormatOf(indent), 0, pf) == DumpText(j, FormatOf(indent), 0, pf);
    text := ss.text;
  }
}
