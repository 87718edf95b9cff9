/**
 Big-endian integers in byte vectors, as the binary formats use them.
 */
module Wire {
  import opened Bytes
  import opened Wrappers
  import opened Value

  /** `std::vector<uint8_t>::max_size()`. */
  const MAX_SIZE := 0x7FFF_FFFF_FFFF_FFFF
  const SIZE_T := 0x1_0000_0000_0000_0000

  /** A decoded item and the index behind it. */
  datatype Decoded<+T> = Decoded(value: T, next: nat)

  /** The lowest `k` bytes of a number in two's complement, highest byte first. */
  function BigEndian(n: int, k: nat): (s: bytes)
    ensures |s| == k
    decreases k
  {
    if k == 0 then [] else BigEndian(n / 256, k - 1) + [n % 256]
  }

  /** The unsigned number with the given bytes, highest byte first. */
  function FromBigEndian(s: bytes): nat {
    if s == [] then 0 else 256 * FromBigEndian(s[..|s| - 1]) + s[|s| - 1]
  }

  function Pow256(k: nat): (p: nat)
    ensures p > 0
  {
    if k == 0 then 1 else 256 * Pow256(k - 1)
  }

  lemma Pow256Values()
    ensures Pow256(1) == 0x100 && Pow256(2) == 0x1_0000 && Pow256(4) == 0x1_0000_0000 && Pow256(8) == SIZE_T
  {
    assert Pow256(4) == 256 * Pow256(3) == 65536 * Pow256(2);
    assert Pow256(8) == 256 * Pow256(7) == 65536 * Pow256(6);
    assert Pow256(6) == 256 * Pow256(5) == 65536 * Pow256(4);
  }

  lemma {:induction false} FromBigEndianBound(s: bytes)
    ensures FromBigEndian(s) < Pow256(|s|)
  {
    if s != [] {
      FromBigEndianBound(s[..|s| - 1]);
    }
  }

  /** Reading back what was written. */
  lemma {:induction false} BigEndianRoundTrip(n: nat, k: nat)
    requires n < Pow256(k)
    ensures FromBigEndian(BigEndian(n, k)) == n
  {
    if k > 0 {
      BigEndianRoundTrip(n / 256, k - 1);
      assert BigEndian(n, k)[..k - 1] == BigEndian(n / 256, k - 1);
    }
  }

  /** A negative number reads back as its two's complement. */
  lemma {:induction false} BigEndianNegative(n: int, k: nat)
    requires n < 0 <= n + Pow256(k)
    ensures FromBigEndian(BigEndian(n, k)) == n + Pow256(k)
    decreases k
  {
    if k > 0 {
      BigEndianNegative(n / 256, k - 1);
      assert BigEndian(n, k)[..k - 1] == BigEndian(n / 256, k - 1);
    }
  }

  /** `(number >> shift) & 0xff`; the divisor is the power of two. */
  function ByteOf(n: int, divisor: int): byte
    requires divisor > 0
  {
    (n / divisor) % 256
  }

  lemma DivDiv(n: int, d: int)
    requires d > 0
    ensures (n / 256) / d == n / (256 * d)
  {
    var q := (n / 256) / d;
    var r1, r2 := n % 256, (n / 256) % d;
    assert n == 256 * (d * q + r2) + r1;
    assert 256 * (d * q + r2) == (256 * d) * q + 256 * r2;
    var r := 256 * r2 + r1;
    assert 0 <= r < 256 * d;
    QuotientUnique(n, 256 * d, q, r);
  }

  lemma QuotientUnique(n: int, d: int, q: int, r: int)
    requires d > 0 && n == d * q + r && 0 <= r < d
    ensures n / d == q
  {
    var q', r' := n / d, n % d;
    assert n == d * q' + r';
    assert (q - q') * d == r' - r;
    if q > q' {
      Multiple(q - q', d);
    } else if q' > q {
      Multiple(q' - q, d);
    }
  }

  lemma Multiple(x: int, d: int)
    requires x > 0 && d > 0
    ensures x * d >= d
  {
  }

  lemma {:induction false} BigEndianAt(n: int, k: nat, i: nat)
    requires i < k
    ensures BigEndian(n, k)[i] == ByteOf(n, Pow256(k - 1 - i))
    decreases k
  {
    if i < k - 1 {
      BigEndianAt(n / 256, k - 1, i);
      DivDiv(n, Pow256(k - 2 - i));
    }
  }

  lemma BigEndian8(n: int)
    ensures BigEndian(n, 8) ==
      [ByteOf(n, 0x100_0000_0000_0000), ByteOf(n, 0x1_0000_0000_0000), ByteOf(n, 0x100_0000_0000),
       ByteOf(n, 0x1_0000_0000), ByteOf(n, 0x100_0000), ByteOf(n, 0x1_0000), ByteOf(n, 0x100), ByteOf(n, 1)]
  {
    var s := BigEndian(n, 8);
    Pow256Values();
    assert Pow256(7) == 0x100_0000_0000_0000 && Pow256(6) == 0x1_0000_0000_0000 && Pow256(5) == 0x100_0000_0000;
    assert Pow256(3) == 0x100_0000 && Pow256(0) == 1;
    BigEndianAt(n, 8, 0);
    BigEndianAt(n, 8, 1);
    BigEndianAt(n, 8, 2);
    BigEndianAt(n, 8, 3);
    BigEndianAt(n, 8, 4);
    BigEndianAt(n, 8, 5);
    BigEndianAt(n, 8, 6);
    BigEndianAt(n, 8, 7);
  }

  /** The byte vector that an encoder appends to. */
  class ByteVector {
    var v: bytes

    constructor ()
      ensures v == []
    {
      v := [];
    }

    method PushBack(b: byte)
      modifies this
      ensures v == old(v) + [b]
    {
      v := v + [b];
    }

    method Append(s: bytes)
      modifies this
      ensures v == old(v) + s
    {
      v := v + s;
    }

    /** `add_to_vector`. */
    method AddToVector(size: nat, number: int)
      requires size == 1 || size == 2 || size == 4 || size == 8
      modifies this
      ensures v == old(v) + BigEndian(number, size)
    {
      match size {
        case 8 =>
          v := v + [ByteOf(number, 0x100_0000_0000_0000)];
          v := v + [ByteOf(number, 0x1_0000_0000_0000)];
          v := v + [ByteOf(number, 0x100_0000_0000)];
          v := v + [ByteOf(number, 0x1_0000_0000)];
          v := v + [ByteOf(number, 0x100_0000)];
          v := v + [ByteOf(number, 0x1_0000)];
          v := v + [ByteOf(number, 0x100)];
          v := v + [ByteOf(number, 1)];
          BigEndian8(number);
        case 4 =>
          v := v + [ByteOf(number, 0x100_0000)];
          v := v + [ByteOf(number, 0x1_0000)];
          v := v + [ByteOf(number, 0x100)];
          v := v + [ByteOf(number, 1)];
        case 2 =>
          v := v + [ByteOf(number, 0x100)];
          v := v + [ByteOf(number, 1)];
        case _ =>
          v := v + [ByteOf(number, 1)];
          BigEndianAt(number, 1, 0);
      }
    }
  }

  /** `get_from_vector` for an unsigned type of the given size: the bytes behind `index`. */
  function GetUnsigned(v: bytes, index: nat, size: nat): (r: Result<nat>)
    ensures r.Ok? ==> index + size < |v| && r.value < Pow256(size)
  {
    if index + size + 1 > |v| then Err(OutOfRange)
    else
      FromBigEndianBound(v[index + 1..index + 1 + size]);
      Ok(FromBigEndian(v[index + 1..index + 1 + size]))
  }

  /** The signed number with the same bytes. */
  function SignedOf(n: nat, size: nat): int
    requires size > 0
  {
    if n < Pow256(size) / 2 then n else n - Pow256(size)
  }

  /** `check_length`. */
  function CheckLength(size: nat, len: nat, offset: nat): Result<()> {
    if len > size || offset > size then Err(OutOfRange)
    else if size > SIZE_T - 1 - offset then Err(OutOfRange)
    else if len + offset > size then Err(OutOfRange)
    else Ok(())
  }

  /** `check_length` succeeds exactly when the bytes are there. */
  lemma CheckLengthExact(size: nat, len: nat, offset: nat)
    requires size <= MAX_SIZE
    ensures CheckLength(size, len, offset).Ok? <==> offset + len <= size
  {
  }

  /** The bytes `s` lie in `v` from `index` on. */
  ghost predicate At(v: bytes, index: nat, s: bytes) {
    index + |s| <= |v| && forall k | 0 <= k < |s| :: s[k] == v[index + k]
  }

  lemma AtSlice(v: bytes, index: nat, s: bytes)
    requires At(v, index, s)
    ensures v[index..index + |s|] == s
  {
  }

  lemma AtSplit(v: bytes, index: nat, a: bytes, b: bytes)
    requires At(v, index, a + b)
    ensures At(v, index, a) && At(v, index + |a|, b)
  {
    forall k | 0 <= k < |a| ensures a[k] == v[index + k] {
      assert (a + b)[k] == a[k];
    }
    forall k | 0 <= k < |b| ensures b[k] == v[index + |a| + k] {
      assert (a + b)[|a| + k] == b[k];
    }
  }

  lemma AtFirst(v: bytes, index: nat, b: byte, s: bytes)
    requires At(v, index, [b] + s)
    ensures index < |v| && v[index] == b && At(v, index + 1, s)
  {
    AtSplit(v, index, [b], s);
    assert [b][0] == v[index + 0];
  }

  /** Framing: an encoding keeps its place between any bytes. */
  lemma AtFramed(before: bytes, s: bytes, after: bytes)
    ensures At(before + s + after, |before|, s)
  {
  }

  lemma GetWritten(v: bytes, index: nat, n: nat, size: nat)
    requires n < Pow256(size) && At(v, index + 1, BigEndian(n, size))
    ensures GetUnsigned(v, index, size) == Ok(n)
  {
    BigEndianRoundTrip(n, size);
    AtSlice(v, index + 1, BigEndian(n, size));
  }

  /** The number of bytes that are left at `idx`. */
  function Left(v: bytes, idx: nat): nat {
    if idx < |v| then |v| - idx else 0
  }

  /** The string of `len` bytes at `offset`; `idx` is computed modulo 2^64 before the check. */
  function TakeString(v: bytes, len: nat, offset: nat): (r: Result<Decoded<bytes>>)
    requires |v| <= MAX_SIZE
    ensures r.Ok? ==> offset <= r.value.next <= |v| && r.value.value == v[offset..r.value.next]
  {
    var next := WrapAdd(offset, len);
    var checked :- CheckLength(|v|, len, offset);
    CheckLengthExact(|v|, len, offset);
    Ok(Decoded(v[offset..offset + len], next))
  }

  /** Addition of `size_t`. */
  function WrapAdd(a: nat, b: nat): (c: nat)
    ensures a + b < SIZE_T ==> c == a + b
  {
    if a + b < SIZE_T then a + b else (a + b) % SIZE_T
  }

  /** The value as a `std::string`; other types throw. */
  function AsString(j: Json): Result<bytes> {
    if j.String? then Ok(j.s) else Err(DomainError)
  }

  /** The variable behind the reference parameter `idx`. */
  class Index {
    var i: nat

    constructor (i: nat)
      ensures this.i == i
    {
      this.i := i;
    }

    /** The call returned the value and left the index behind it, or threw. */
    ghost predicate Outcome<T>(expected: Result<Decoded<T>>, r: Result<T>)
      reads this
    {
      if expected.Ok? then r == Ok(expected.value.value) && i == expected.value.next else r == Err(expected.error)
    }
  }

  lemma TakeWritten(v: bytes, offset: nat, s: bytes)
    requires |v| <= MAX_SIZE && At(v, offset, s)
    ensures TakeString(v, |s|, offset) == Ok(Decoded(s, offset + |s|))
  {
    CheckLengthExact(|v|, |s|, offset);
    AtSlice(v, offset, s);
  }

  ghost function RebuiltElements(a: seq<Json>, i: nat): seq<Json>
    requires i <= |a|
    decreases |a| - i
  {
    if i == |a| then [] else [Rebuilt(a[i])] + RebuiltElements(a, i + 1)
  }

  lemma {:induction false} RebuiltElementsAre(a: seq<Json>, i: nat)
    requires i <= |a|
    ensures RebuiltElements(a, i) == Rebuilt(Array(a)).a[i..]
    decreases |a| - i
  {
    if i < |a| {
      RebuiltElementsAre(a, i + 1);
    }
  }

  lemma RebuiltArray(j: Json)
    requires j.Array?
    ensures Rebuilt(j) == Array(RebuiltElements(j.a, 0))
  {
    RebuiltElementsAre(j.a, 0);
  }

  /** `acc` with the given members of the object added. */
  ghost function Extended(acc: map<bytes, Json>, j: Json, ks: seq<bytes>): map<bytes, Json>
    requires j.Object? && forall k :: k in ks ==> k in j.m
  {
    acc + map k | k in ks :: Rebuilt(j.m[k])
  }

  lemma {:induction false} ExtendedAll(j: Json)
    requires j.Object?
    ensures Object(Extended(map[], j, SortedKeys(j.m.Keys))) == Rebuilt(j)
  {
    hide SortedKeys;
    var ks, rebuilt := SortedKeys(j.m.Keys), Rebuilt(j).m;
    hide Rebuilt;
    assert Extended(map[], j, ks) == rebuilt;
  }

  lemma ExtendedFirst(acc: map<bytes, Json>, j: Json, ks: seq<bytes>)
    requires j.Object? && ks != [] && forall k :: k in ks ==> k in j.m
    ensures Extended(acc[ks[0] := Rebuilt(j.m[ks[0]])], j, ks[1..]) == Extended(acc, j, ks)
  {
    assert ks == [ks[0]] + ks[1..];
  }
}
