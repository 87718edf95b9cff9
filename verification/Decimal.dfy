/**
 Decimal numerals: `std::to_string`, `std::stoi` and the integer printer `numtostr`.
 */
module Decimal {
  import opened Bytes
  import opened Wrappers

  const INT_MAX := 0x7FFF_FFFF
  const MINUS: byte := '-' as int
  const PLUS: byte := '+' as int
  const ZERO: byte := '0' as int

  predicate IsDigit(c: byte) {
    '0' as int <= c <= '9' as int
  }

  predicate AllDigits(s: bytes) {
    forall i | 0 <= i < |s| :: IsDigit(s[i])
  }

  /** `std::to_string` of an unsigned number. */
  function Numeral(n: nat): (s: bytes)
    ensures s != [] && AllDigits(s)
    ensures |s| > 1 ==> s[0] != ZERO
    ensures s[0] == ZERO ==> n == 0
  {
    if n < 10 then [n + '0' as int] else Numeral(n / 10) + [n % 10 + '0' as int]
  }

  /** The number that a string of digits stands for. */
  function Number(s: bytes): nat
    requires AllDigits(s)
  {
    if s == [] then 0 else 10 * Number(s[..|s| - 1]) + s[|s| - 1] - '0' as int
  }

  lemma {:induction false} NumberOfNumeral(n: nat)
    ensures Number(Numeral(n)) == n
  {
    if n >= 10 {
      NumberOfNumeral(n / 10);
      assert Numeral(n)[..|Numeral(n)| - 1] == Numeral(n / 10);
    } else {
      assert Numeral(n)[..0] == [];
    }
  }

  lemma {:induction false} NumeralOfNumber(s: bytes)
    requires s != [] && AllDigits(s) && (|s| > 1 ==> s[0] != ZERO)
    ensures Numeral(Number(s)) == s
    ensures |s| > 1 ==> Number(s) >= 10
  {
    var init, last := s[..|s| - 1], s[|s| - 1];
    assert s == init + [last];
    if |s| > 1 {
      if |init| == 1 {
        assert init[..0] == [];
        assert Number(init) == init[0] - '0' as int;
      }
      NumeralOfNumber(init);
    } else {
      assert Number(init) == 0;
    }
  }

  lemma NumeralInjective(a: nat, b: nat)
    requires Numeral(a) == Numeral(b)
    ensures a == b
  {
    NumberOfNumeral(a);
    NumberOfNumeral(b);
  }

  /** `isspace` in the C locale. */
  predicate IsSpace(c: byte) {
    c == 0x20 || 0x09 <= c <= 0x0D
  }

  function SkipSpaces(s: bytes): bytes {
    if s != [] && IsSpace(s[0]) then SkipSpaces(s[1..]) else s
  }

  /** Length of the longest prefix made of digits. */
  function DigitSpan(s: bytes): (n: nat)
    ensures n <= |s| && AllDigits(s[..n])
    ensures n < |s| ==> !IsDigit(s[n])
  {
    if s == [] || !IsDigit(s[0]) then 0
    else
      var n := 1 + DigitSpan(s[1..]);
      assert s[..n] == [s[0]] + s[1..][..n - 1];
      n
  }

  lemma {:induction false} DigitSpanIs(s: bytes, n: nat)
    requires n <= |s| && AllDigits(s[..n]) && (n < |s| ==> !IsDigit(s[n]))
    ensures DigitSpan(s) == n
  {
    if n > 0 {
      assert s[..n][0] == s[0];
      assert s[1..][..n - 1] == s[..n][1..];
      DigitSpanIs(s[1..], n - 1);
    }
  }

  /** `std::stoi`: blanks, a sign, the longest run of digits; what follows is ignored. */
  function Stoi(s: bytes): (r: Result<int>)
    ensures r.Ok? ==> -INT_MAX - 1 <= r.value <= INT_MAX
  {
    var t := SkipSpaces(s);
    var signed := t != [] && (t[0] == MINUS || t[0] == PLUS);
    var u := if signed then t[1..] else t;
    var n := DigitSpan(u);
    if n == 0 then Err(InvalidArgument)
    else
      var v: int := if signed && t[0] == MINUS then 0 - Number(u[..n]) else Number(u[..n]);
      if -INT_MAX - 1 <= v <= INT_MAX then Ok(v) else Err(OutOfRange)
  }

  /** Array indices survive printing and reading as long as they fit into an `int`. */
  lemma StoiNumeral(n: nat)
    ensures Stoi(Numeral(n)) == if n <= INT_MAX then Ok(n) else Err(OutOfRange)
  {
    var s := Numeral(n);
    assert !IsSpace(s[0]);
    assert s[..|s|] == s;
    DigitSpanIs(s, |s|);
    NumberOfNumeral(n);
  }

  /** The text of a signed or unsigned 64-bit number. */
  function IntegerText(x: int): bytes {
    if x < 0 then [MINUS] + Numeral(-x) else Numeral(x)
  }

  /** The digits of `n`, lowest first; none for 0. */
  function LowDigits(n: nat): (s: bytes)
    ensures AllDigits(s)
  {
    if n == 0 then [] else [n % 10 + '0' as int] + LowDigits(n / 10)
  }

  function Reversed<T>(s: seq<T>): (r: seq<T>)
    ensures |r| == |s|
    ensures forall i | 0 <= i < |s| :: r[i] == s[|s| - 1 - i]
  {
    if s == [] then [] else Reversed(s[1..]) + [s[0]]
  }

  lemma {:induction false} ReversedLowDigits(n: nat)
    requires n > 0
    ensures Reversed(LowDigits(n)) == Numeral(n)
  {
    if n >= 10 {
      ReversedLowDigits(n / 10);
    } else {
      assert LowDigits(n / 10) == [];
    }
  }

  function Pow10(k: nat): nat {
    if k == 0 then 1 else 10 * Pow10(k - 1)
  }

  lemma {:induction false} LowDigitsCount(n: nat, k: nat)
    requires n < Pow10(k)
    ensures |LowDigits(n)| <= k
  {
    if n > 0 {
      LowDigitsCount(n / 10, k - 1);
    }
  }

  lemma UnsignedDigits(n: nat)
    requires n < 0x1_0000_0000_0000_0000
    ensures |LowDigits(n)| <= 20
    ensures n <= 0x8000_0000_0000_0000 ==> |LowDigits(n)| <= 19
  {
    assert Pow10(10) == 10_000_000_000;
    assert Pow10(19) == 1_000_000_000 * Pow10(10);
    if n <= 0x8000_0000_0000_0000 {
      LowDigitsCount(n, 19);
    }
    LowDigitsCount(n, 20);
  }

  /** The integer text has at most 20 characters. */
  lemma IntegerTextLength(x: int)
    requires -0x8000_0000_0000_0000 <= x < 0x1_0000_0000_0000_0000
    ensures 0 < |IntegerText(x)| <= 20
  {
    if x != 0 {
      var m := if x < 0 then -x else x;
      UnsignedDigits(m);
      ReversedLowDigits(m);
    }
  }

  /** C++ `%` by ten: the sign of the result is the sign of the dividend. */
  function Rem10(x: int): int {
    if x < 0 then -((-x) % 10) else x % 10
  }

  /** C++ `/` by ten: truncates toward zero. */
  function Quot10(x: int): int {
    if x < 0 then -((-x) / 10) else x / 10
  }

  function Abs(x: int): nat {
    if x < 0 then -x else x
  }

  /** `std::reverse` of the first `n` elements. */
  method ReversePrefix(buf: array<byte>, n: nat)
    requires n <= buf.Length
    modifies buf
    ensures buf[..] == Reversed(old(buf[..])[..n]) + old(buf[..])[n..]
  {
    var lo, hi := 0, n;
    while lo < hi
      invariant 0 <= lo <= n && hi == n - lo && lo <= hi + 1
      invariant forall k | 0 <= k < lo :: buf[k] == old(buf[n - 1 - k]) && buf[n - 1 - k] == old(buf[k])
      invariant forall k | lo <= k < hi :: buf[k] == old(buf[k])
      invariant forall k | n <= k < buf.Length :: buf[k] == old(buf[k])
    {
      hi := hi - 1;
      buf[lo], buf[hi] := buf[hi], buf[lo];
      lo := lo + 1;
    }
    ReversedPrefixIs(old(buf[..]), n, buf[..]);
  }

  lemma ReversedPrefixIs(was: bytes, n: nat, now: bytes)
    requires n <= |was| == |now|
    requires forall k | 0 <= k < n :: now[k] == was[n - 1 - k]
    requires forall k | n <= k < |was| :: now[k] == was[k]
    ensures now == Reversed(was[..n]) + was[n..]
  {
  }

  /** The loop of `x_write`: the digits of `x0`, lowest first. */
  method WriteLowDigits(buf: array<byte>, x0: int) returns (i: nat)
    requires -0x8000_0000_0000_0000 <= x0 < 0x1_0000_0000_0000_0000 && x0 != 0
    requires buf.Length == 64 && forall k | 0 <= k < 64 :: buf[k] == 0
    modifies buf
    ensures i == |LowDigits(Abs(x0))| <= 20
    ensures buf[..] == LowDigits(Abs(x0)) + Zeros(64 - i)
  {
    var x := x0;
    i := 0;
    ghost var all := LowDigits(Abs(x0));
    UnsignedDigits(Abs(x0));
    while x != 0 && i < buf.Length - 1
      invariant 0 <= i <= |all| && (x0 < 0 ==> x <= 0) && (x0 > 0 ==> x >= 0)
      invariant all[i..] == LowDigits(Abs(x))
      invariant buf[..] == all[..i] + Zeros(64 - i)
      decreases Abs(x)
    {
      var digit := Abs(Rem10(x));
      LowDigitsStep(x);
      assert all[i..][0] == all[i] && all[i..][1..] == all[i + 1..];
      buf[i] := digit + '0' as int;
      i := i + 1;
      x := Quot10(x);
    }
    assert x == 0;
    assert all[..i] == all;
  }

  /** What `x_write` puts into the buffer before it reverses it: the digits and the sign. */
  method WriteReversed(buf: array<byte>, x: int) returns (i: nat)
    requires -0x8000_0000_0000_0000 <= x < 0x1_0000_0000_0000_0000 && x != 0
    requires buf.Length == 64 && forall k | 0 <= k < 64 :: buf[k] == 0
    modifies buf
    ensures i == |Digits(x)| <= 64
    ensures buf[..] == Digits(x) + Zeros(64 - i)
  {
    hide LowDigits;
    i := WriteLowDigits(buf, x);
    UnsignedDigits(Abs(x));
    if x < 0 {
      assert i < buf.Length - 2;
      OverwriteZero(LowDigits(Abs(x)), 64 - i, MINUS);
      ghost var written := buf[..];
      buf[i] := MINUS;
      assert buf[..] == written[i := MINUS];
      i := i + 1;
    } else {
      assert LowDigits(Abs(x)) + [] == LowDigits(Abs(x));
    }
  }

  /**
   `numtostr::x_write` for integral types: the zero-filled buffer holds the text of `x`, followed by
   zeros. Both assertions of the original hold.
   */
  method XWrite(buf: array<byte>, x: int)
    requires -0x8000_0000_0000_0000 <= x < 0x1_0000_0000_0000_0000
    requires buf.Length == 64 && forall k | 0 <= k < 64 :: buf[k] == 0
    modifies buf
    ensures |IntegerText(x)| <= 20
    ensures buf[..] == IntegerText(x) + Zeros(64 - |IntegerText(x)|)
  {
    hide LowDigits, Reversed, Digits;
    IntegerTextLength(x);
    if x == 0 {
      ZeroText();
      OverwriteZero([], 64, ZERO);
      assert buf[..] == [] + Zeros(64);
      buf[0] := ZERO;
      return;
    }
    hide IntegerText;
    var i := WriteReversed(buf, x);
    SignedDigits(x);
    SplitAt(Digits(x), Zeros(64 - i));
    ReversePrefix(buf, i);
  }

  lemma ZeroText()
    ensures IntegerText(0) == [] + [ZERO]
  {
  }

  function Zeros(n: nat): bytes {
    seq(n, _ => 0)
  }

  lemma OverwriteZero(s: bytes, n: nat, c: byte)
    requires n > 0
    ensures (s + Zeros(n))[|s| := c] == s + [c] + Zeros(n - 1)
  {
  }

  lemma SplitAt(a: bytes, b: bytes)
    ensures (a + b)[..|a|] == a && (a + b)[|a|..] == b
  {
  }

  /** What the buffer holds before it is reversed. */
  ghost function Digits(x: int): bytes {
    LowDigits(Abs(x)) + if x < 0 then [MINUS] else []
  }

  lemma SignedDigits(x: int)
    requires x != 0
    ensures Reversed(Digits(x)) == IntegerText(x) && |Digits(x)| == |IntegerText(x)|
  {
    ReversedLowDigits(Abs(x));
    ReversedAppend(LowDigits(Abs(x)), MINUS);
    assert LowDigits(Abs(x)) + [] == LowDigits(Abs(x));
  }

  lemma {:induction false} ReversedAppend<T>(s: seq<T>, x: T)
    ensures Reversed(s + [x]) == [x] + Reversed(s)
  {
    if s != [] {
      assert (s + [x])[1..] == s[1..] + [x];
      ReversedAppend(s[1..], x);
    }
  }

  /** One round of the digit loop, on truncating division. */
  lemma LowDigitsStep(x: int)
    requires x != 0
    ensures LowDigits(Abs(x)) == [Abs(Rem10(x)) + '0' as int] + LowDigits(Abs(Quot10(x)))
    ensures 0 <= Abs(Rem10(x)) < 10 && Abs(Quot10(x)) < Abs(x)
    ensures (x < 0 ==> Quot10(x) <= 0) && (x > 0 ==> Quot10(x) >= 0)
  {
  }

  /** `numtostr(x).c_str()` as a string: the characters before the first zero byte. */
  method NumToStr(x: int) returns (text: bytes)
    requires -0x8000_0000_0000_0000 <= x < 0x1_0000_0000_0000_0000
    ensures text == IntegerText(x) && 0 < |text| <= 20
  {
    var buf := new byte[64](_ => 0);
    XWrite(buf, x);
    ghost var size := |IntegerText(x)|;
    assert forall k | 0 <= k < size :: buf[k] == buf[..][k] == IntegerText(x)[k] != 0;
    var n := 0;
    while n < buf.Length && buf[n] != 0
      invariant 0 <= n <= size
    {
      n := n + 1;
    }
    assert n == size;
    IntegerTextLength(x);
    text := buf[..n];
  }
}
