/**
 `escape_string` and `extra_space`: how strings are written.
 */
module Escape {
  import opened Bytes
  import opened Wrappers
  import opened Utf8
  import opened Lexical
  import opened Strings

  /** The bytes that get a two-character escape, with the second character. */
  function ShortFor(c: byte): Option<byte> {
    if c == 0x22 then Some('\"' as int)
    else if c == 0x5C then Some('\\' as int)
    else if c == 0x08 then Some('b' as int)
    else if c == 0x0C then Some('f' as int)
    else if c == 0x0A then Some('n' as int)
    else if c == 0x0D then Some('r' as int)
    else if c == 0x09 then Some('t' as int)
    else None
  }

  /** `hexify`. */
  function Hexify(d: nat): byte
    requires d < 16
  {
    if d < 10 then '0' as int + d else 'a' as int + d - 10
  }

  /** How a byte is written inside a string. */
  function EscapeByte(c: byte): (s: bytes)
    ensures |s| == 1 || |s| == 2 || |s| == 6
  {
    if ShortFor(c).Some? then [BACKSLASH, ShortFor(c).value]
    else if c <= 0x1F then [BACKSLASH, 'u' as int, ZERO, ZERO, Hexify(c / 16), Hexify(c % 16)]
    else [c]
  }

  const ZERO: byte := '0' as int

  function EscapeText(s: bytes): bytes {
    if s == [] then [] else EscapeByte(s[0]) + EscapeText(s[1..])
  }

  lemma {:induction false} EscapeTextConcat(s: bytes, t: bytes)
    ensures EscapeText(s + t) == EscapeText(s) + EscapeText(t)
  {
    hide EscapeByte;
    if s == [] {
      assert s + t == t;
    } else {
      EscapeTextConcat(s[1..], t);
      assert (s + t)[1..] == s[1..] + t;
      Regroup(EscapeByte(s[0]), EscapeText(s[1..]), EscapeText(t));
    }
  }

  /** `extra_space`: a fold over the string. */
  function ExtraSpace(s: bytes): (n: nat) {
    if s == [] then 0
    else
      var c, res := s[|s| - 1], ExtraSpace(s[..|s| - 1]);
      if ShortFor(c).Some? then res + 1
      else if c <= 0x1F then res + 5
      else res
  }

  /** The space computed in advance is exactly what escaping adds. */
  lemma {:induction false} ExtraSpaceIsExact(s: bytes)
    ensures |EscapeText(s)| == |s| + ExtraSpace(s)
    ensures ExtraSpace(s) == 0 ==> EscapeText(s) == s
  {
    if s != [] {
      var init, last := s[..|s| - 1], s[|s| - 1];
      assert s == init + [last];
      ExtraSpaceIsExact(init);
      EscapeTextConcat(init, [last]);
      assert EscapeText([last]) == EscapeByte(last) + [];
    }
  }

  /** Whatever was written before a prefix was written, the rest still fits. */
  lemma PrefixFits(s: bytes, i: nat)
    requires i < |s|
    ensures EscapeText(s[..i + 1]) == EscapeText(s[..i]) + EscapeByte(s[i])
    ensures |EscapeText(s[..i])| + |EscapeByte(s[i])| <= |EscapeText(s)|
  {
    hide EscapeByte;
    assert s[..i + 1] == s[..i] + [s[i]] && s == s[..i + 1] + s[i + 1..];
    EscapeTextConcat(s[..i], [s[i]]);
    EscapeTextConcat(s[..i + 1], s[i + 1..]);
    assert EscapeText([s[i]]) == EscapeByte(s[i]) + [];
  }

  /** The part of the result that is not written yet holds backslashes. */
  ghost predicate Filled(result: seq<byte>, written: bytes) {
    && |written| <= |result|
    && result[..|written|] == written
    && forall k | |written| <= k < |result| :: result[k] == BACKSLASH
  }

  /**
   The loop of `escape_string`: the buffer of `s.size() + extra_space(s)` backslashes is filled exactly, with
   every write in bounds.
   */
  method FillEscaped(result: array<byte>, s: bytes) returns (pos: nat)
    requires result.Length == |s| + ExtraSpace(s)
    requires forall k | 0 <= k < result.Length :: result[k] == BACKSLASH
    modifies result
    ensures pos == |s| + ExtraSpace(s)
    ensures result[..] == EscapeText(s)
  {
    hide EscapeText, ExtraSpace, EscapeByte;
    ExtraSpaceIsExact(s);
    pos := 0;
    var i := 0;
    EscapeEmpty();
    assert s[..0] == [];
    while i < |s|
      invariant 0 <= i <= |s|
      invariant pos == |EscapeText(s[..i])|
      invariant Filled(result[..], EscapeText(s[..i]))
    {
      PrefixFits(s, i);
      pos := WriteByte(result, pos, s[i]);
      i := i + 1;
    }
    assert s[..i] == s;
    AllWritten(result[..], EscapeText(s));
  }

  lemma AllWritten(result: seq<byte>, written: bytes)
    requires Filled(result, written) && |result| == |written|
    ensures result == written
  {
    assert result[..|written|] == result;
  }

  /** The body of the loop: the backslashes are there already. */
  method WriteByte(result: array<byte>, at: nat, c: byte) returns (pos: nat)
    requires at + |EscapeByte(c)| <= result.Length
    requires forall k | at <= k < result.Length :: result[k] == BACKSLASH
    modifies result
    ensures pos == at + |EscapeByte(c)|
    ensures forall k | 0 <= k < result.Length ::
      result[k] == if at <= k < at + |EscapeByte(c)| then EscapeByte(c)[k - at] else old(result[k])
  {
    pos := at;
    if c == 0x5C {
      pos := pos + 2;
    } else if ShortFor(c).Some? {
      result[pos + 1] := ShortFor(c).value;
      pos := pos + 2;
    } else if c <= 0x1F {
      var hex := ['u' as int, ZERO, ZERO, Hexify(c / 16), Hexify(c % 16)];
      var m := 0;
      while m < 5
        invariant 0 <= m <= 5 && pos == at + m
        invariant forall k | 0 <= k < result.Length ::
          result[k] == if at < k <= at + m then hex[k - at - 1] else old(result[k])
      {
        pos := pos + 1;
        result[pos] := hex[m];
        m := m + 1;
      }
      pos := pos + 1;
    } else {
      result[pos] := c;
      pos := pos + 1;
    }
  }

  /** `escape_string`. */
  method EscapeString(s: bytes) returns (r: bytes)
    ensures r == EscapeText(s)
  {
    var space := ExtraSpace(s);
    ExtraSpaceIsExact(s);
    if space == 0 {
      return s;
    }
    var result := new byte[|s| + space](_ => BACKSLASH);
    var pos := FillEscaped(result, s);
    r := result[..];
  }

  // ----- reading back -----

  lemma HexifyValue(d: nat)
    requires d < 16
    ensures IsHex(Hexify(d)) && HexDigitValue(Hexify(d)) == d
  {
  }

  lemma ControlHex(c: byte)
    requires c <= 0x1F
    ensures var hex := [ZERO, ZERO, Hexify(c / 16), Hexify(c % 16)];
      IsHexWord(hex) && HexValue(hex) == c && EncodePoint(c) == [c]
  {
    HexifyValue(c / 16);
    HexifyValue(c % 16);
  }

  /** The string character that a byte below U+0080 is written as. */
  function AsciiChar(c: byte): (ch: StrChar)
    requires c < 0x80
    ensures ValidChar(ch) && Spelling(ch) == EscapeByte(c)
  {
    if ShortFor(c).Some? then Short(ShortFor(c).value)
    else if c <= 0x1F then
      ControlHex(c);
      Unicode([ZERO, ZERO, Hexify(c / 16), Hexify(c % 16)])
    else
      assert EncodePoint(c as Scalar) == [c];
      Plain(c as Scalar)
  }

  /** The code point that a character alone stands for; none for a surrogate. */
  function Point(ch: StrChar): Option<Scalar>
    requires ValidChar(ch)
  {
    match ch
    case Plain(cp) => Some(cp)
    case Short(c) => Some(ShortValue(c))
    case Unicode(hex) => if IsSurrogate(HexValue(hex)) then None else Some(HexValue(hex))
  }

  lemma AsciiPoint(c: byte)
    requires c < 0x80
    ensures Point(AsciiChar(c)) == Some(c as Scalar)
  {
    hide HexValue;
    if c <= 0x1F {
      ControlHex(c);
    }
  }

  /** `get_string` undoes `escape_string` on every byte string, control bytes and zero bytes included. */
  lemma {:induction false} DecodedEscape(s: bytes)
    ensures Escaped(EscapeText(s)) && Decoded(EscapeText(s)) == Ok(s)
  {
    hide Decoded, Escaped, EscapeByte, HexValue;
    if s == [] {
      EmptyDecoded();
      assert EncodePoints([]) == [];
    } else {
      DecodedEscape(s[1..]);
      DecodedEscapeByte(s[0], EscapeText(s[1..]));
      assert [s[0]] + s[1..] == s;
    }
  }

  lemma DecodedEscapeByte(c: byte, t: bytes)
    requires Escaped(t)
    ensures Escaped(EscapeByte(c) + t) && Decoded(EscapeByte(c) + t) == Prepend([c], Decoded(t))
  {
    hide Decoded, Escaped, HexValue;
    if ShortFor(c).Some? {
      ShortDecoded(ShortFor(c).value, t);
    } else if c <= 0x1F {
      var hex := [ZERO, ZERO, Hexify(c / 16), Hexify(c % 16)];
      ControlHex(c);
      SingleDecoded(hex, t);
      assert EscapeByte(c) + t == [BACKSLASH, 'u' as int] + hex + t;
    } else {
      CopiedBytes([c], t);
    }
  }

  /** The characters that a sequence of code points is written as. */
  function CharsFor(cps: seq<Scalar>): (chs: seq<StrChar>)
    ensures ValidChars(chs)
  {
    if cps == [] then []
    else [if cps[0] < 0x80 then AsciiChar(cps[0]) else Plain(cps[0])] + CharsFor(cps[1..])
  }

  /** A well-formed string is written as legal characters with the same code points. */
  lemma {:induction false} EscapeSpelled(cps: seq<Scalar>)
    ensures EscapeText(EncodePoints(cps)) == SpellingAll(CharsFor(cps))
    ensures Points(CharsFor(cps)) == Some(cps)
  {
    hide AsciiChar, EncodePoint, EscapeByte, EscapeText, Spelling;
    if cps == [] {
      assert EscapeText([]) == [] by { EscapeEmpty(); }
    } else {
      var cp, rest := cps[0], cps[1..];
      EscapeSpelled(rest);
      EscapeTextConcat(EncodePoint(cp), EncodePoints(rest));
      EscapePoint(cp);
      assert CharsFor(cps)[1..] == CharsFor(rest);
      if cp < 0x80 {
        AsciiPoint(cp);
      }
      assert cps == [cp] + rest;
    }
  }

  lemma EscapeEmpty()
    ensures EscapeText([]) == []
  {
  }

  lemma EscapePoint(cp: Scalar)
    ensures EscapeText(EncodePoint(cp)) == Spelling(if cp < 0x80 then AsciiChar(cp) else Plain(cp))
  {
    if cp < 0x80 {
      assert EncodePoint(cp) == [cp];
      assert EscapeText([cp]) == EscapeByte(cp) + [];
    } else {
      EncodedIsMultiByte(cp);
      HighBytesKept(EncodePoint(cp));
    }
  }

  lemma {:induction false} HighBytesKept(s: bytes)
    requires forall i | 0 <= i < |s| :: s[i] >= 0x80
    ensures EscapeText(s) == s
  {
    if s != [] {
      HighBytesKept(s[1..]);
      assert EscapeByte(s[0]) == [s[0]];
    }
  }

  /** The written form of a string is legal exactly when the string is well-formed UTF-8. */
  lemma EscapeLegal(s: bytes)
    ensures (exists chs :: ValidChars(chs) && EscapeText(s) == SpellingAll(chs)) <==> WellFormed(s)
  {
    DecodedEscape(s);
    if chs :| ValidChars(chs) && EscapeText(s) == SpellingAll(chs) {
      DecodedIsDenotation(chs);
      assert s == EncodePoints(Points(chs).value);
    }
    if WellFormed(s) {
      var cps: seq<Scalar> :| s == EncodePoints(cps);
      EscapeSpelled(cps);
    }
  }
}
