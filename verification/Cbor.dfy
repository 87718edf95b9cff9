/**
 CBOR (RFC 7049): the encoder, the decoder and their round trip.
 */
module Cbor {
  import opened Bytes
  import opened Wrappers
  import opened Value
  import opened Wire
  import Double

  // ----- encoding -----

  /** The initial byte of an item with the argument `n`, and the bytes of the argument. */
  function Head(base: byte, n: nat): bytes
    requires base <= 0xA0
  {
    if n <= 0x17 then [base + n]
    else if n <= 0xFF then [base + 0x18] + BigEndian(n, 1)
    else if n <= 0xFFFF then [base + 0x19] + BigEndian(n, 2)
    else if n <= 0xFFFF_FFFF then [base + 0x1A] + BigEndian(n, 4)
    else [base + 0x1B] + BigEndian(n, 8)
  }

  /** The bytes that `to_cbor_internal` appends. */
  function Encode(j: Json): bytes
    decreases j, 1
  {
    match j
    case Null => [0xF6]
    case Bool(b) => [if b then 0xF5 else 0xF4]
    case Int(i) => if i >= 0 then Head(0x00, i) else Head(0x20, -1 - i)
    case Uint(u) => Head(0x00, u)
    case Float(f) => [0xFB] + BigEndian(f, 8)
    case String(s) => EncodeString(s)
    case Array(a) => Head(0x80, |a|) + EncodeElements(j, 0)
    case Object(m) => Head(0xA0, |m|) + EncodeMembers(j, SortedKeys(m.Keys))
  }

  function EncodeString(s: bytes): bytes {
    Head(0x60, |s|) + s
  }

  /** The elements from index `i` on. */
  function EncodeElements(j: Json, i: nat): bytes
    requires j.Array? && i <= |j.a|
    decreases j, 0, |j.a| - i
  {
    if i == |j.a| then [] else Encode(j.a[i]) + EncodeElements(j, i + 1)
  }

  /** The members with the given keys. */
  function EncodeMembers(j: Json, ks: seq<bytes>): bytes
    requires j.Object? && forall k :: k in ks ==> k in j.m
    decreases j, 0, |ks|
  {
    if ks == [] then []
    else EncodeString(ks[0]) + Encode(j.m[ks[0]]) + EncodeMembers(j, ks[1..])
  }

  method WriteHead(out: ByteVector, base: byte, n: nat)
    requires base <= 0xA0
    modifies out
    ensures out.v == old(out.v) + Head(base, n)
  {
    hide BigEndian;
    if n <= 0x17 {
      out.PushBack(base + n);
    } else if n <= 0xFF {
      out.PushBack(base + 0x18);
      out.AddToVector(1, n);
    } else if n <= 0xFFFF {
      out.PushBack(base + 0x19);
      out.AddToVector(2, n);
    } else if n <= 0xFFFF_FFFF {
      out.PushBack(base + 0x1A);
      out.AddToVector(4, n);
    } else {
      out.PushBack(base + 0x1B);
      out.AddToVector(8, n);
    }
  }

  /** `to_cbor_internal`. */
  method ToCbor(j: Json, out: ByteVector)
    modifies out
    ensures out.v == old(out.v) + Encode(j)
    decreases j, 1
  {
    hide Head, BigEndian, EncodeElements, EncodeMembers, SortedKeys;
    match j
    case Null => out.PushBack(0xF6);
    case Bool(b) => out.PushBack(if b then 0xF5 else 0xF4);
    case Int(i) =>
      if i >= 0 {
        WriteHead(out, 0x00, i);
      } else {
        WriteHead(out, 0x20, -1 - i);
      }
    case Uint(u) => WriteHead(out, 0x00, u);
    case Float(f) =>
      out.PushBack(0xFB);
      out.AddToVector(8, f);
      Regroup(old(out.v), [0xFB], BigEndian(f, 8));
    case String(s) => WriteString(s, out);
    case Array(a) => WriteArray(j, out);
    case Object(m) => WriteObject(j, out);
  }

  method WriteString(s: bytes, out: ByteVector)
    modifies out
    ensures out.v == old(out.v) + EncodeString(s)
  {
    WriteHead(out, 0x60, |s|);
    out.Append(s);
  }

  method WriteArray(j: Json, out: ByteVector)
    requires j.Array?
    modifies out
    ensures out.v == old(out.v) + (Head(0x80, |j.a|) + EncodeElements(j, 0))
    decreases j, 0
  {
    hide Encode, Head;
    ghost var total := old(out.v) + (Head(0x80, |j.a|) + EncodeElements(j, 0));
    WriteHead(out, 0x80, |j.a|);
    Regroup(old(out.v), Head(0x80, |j.a|), EncodeElements(j, 0));
    for i := 0 to |j.a|
      invariant out.v + EncodeElements(j, i) == total
    {
      Regroup(out.v, Encode(j.a[i]), EncodeElements(j, i + 1));
      ToCbor(j.a[i], out);
    }
    assert out.v + [] == out.v;
  }

  method WriteObject(j: Json, out: ByteVector)
    requires j.Object?
    modifies out
    ensures out.v == old(out.v) + (Head(0xA0, |j.m|) + EncodeMembers(j, SortedKeys(j.m.Keys)))
    decreases j, 0
  {
    hide Encode, EncodeString, Head, SortedKeys;
    var ks := SortedKeys(j.m.Keys);
    ghost var total := old(out.v) + (Head(0xA0, |j.m|) + EncodeMembers(j, ks));
    WriteHead(out, 0xA0, |j.m|);
    Regroup(old(out.v), Head(0xA0, |j.m|), EncodeMembers(j, ks));
    assert ks[0..] == ks;
    for i := 0 to |ks|
      invariant out.v + EncodeMembers(j, ks[i..]) == total
    {
      assert ks[i..][1..] == ks[i + 1..];
      Regroup(out.v, EncodeString(ks[i]) + Encode(j.m[ks[i]]), EncodeMembers(j, ks[i + 1..]));
      Regroup(out.v, EncodeString(ks[i]), Encode(j.m[ks[i]]));
      WriteString(ks[i], out);
      ToCbor(j.m[ks[i]], out);
    }
    assert out.v + [] == out.v;
  }

  /** `to_cbor`. */
  method Serialize(j: Json) returns (v: bytes)
    ensures v == Encode(j)
  {
    var out := new ByteVector();
    ToCbor(j, out);
    v := out.v;
  }

  // ----- decoding -----

  /** The number of argument bytes that the low bits 0x18 to 0x1B announce. */
  function Width(low: int): (k: nat)
    requires 0x18 <= low <= 0x1B
    ensures k == 1 || k == 2 || k == 4 || k == 8
  {
    if low == 0x18 then 1 else if low == 0x19 then 2 else if low == 0x1A then 4 else 8
  }

  /** The argument of a string, array or map header: in the initial byte or behind it. */
  function Argument(v: bytes, idx: nat, low: int): (r: Result<Decoded<nat>>)
    requires idx < |v| && 0 <= low <= 0x1B
    ensures r.Ok? ==> idx < r.value.next <= |v|
  {
    if low <= 0x17 then Ok(Decoded(low, idx + 1))
    else
      var n :- GetUnsigned(v, idx, Width(low));
      Ok(Decoded(n, idx + 1 + Width(low)))
  }

  /** The initial bytes of arrays, maps and indefinite-length strings. */
  predicate IsCompound(b: byte) {
    b == 0x7F || 0x80 <= b <= 0x9B || b == 0x9F || 0xA0 <= b <= 0xBB || b == 0xBF
  }

  /** The cases of `from_cbor_internal` that do not call it again. */
  function DecodeScalar(v: bytes, idx: nat): (r: Result<Decoded<Json>>)
    requires |v| <= MAX_SIZE && idx < |v|
    ensures r.Ok? ==> idx < r.value.next <= |v|
  {
    var b := v[idx];
    if b <= 0x1B then
      var n :- Argument(v, idx, b);
      Pow256Values();
      Ok(Decoded(Uint(n.value), n.next))
    else if 0x20 <= b <= 0x37 then Ok(Decoded(Int(0x20 - 1 - b as int), idx + 1))
    else if 0x38 <= b <= 0x3B then
      var n :- Argument(v, idx, b - 0x20);
      Pow256Values();
      Ok(Decoded(Int(-1 - ToSigned(n.value)), n.next))
    else if 0x60 <= b <= 0x7B then
      var n :- Argument(v, idx, b - 0x60);
      var s :- TakeString(v, n.value, n.next);
      Ok(Decoded(String(s.value), s.next))
    else if b == 0xF4 then Ok(Decoded(Bool(false), idx + 1))
    else if b == 0xF5 then Ok(Decoded(Bool(true), idx + 1))
    else if b == 0xF6 then Ok(Decoded(Null, idx + 1))
    else if b == 0xF9 then
      var half :- GetUnsigned(v, idx, 2);
      Pow256Values();
      Ok(Decoded(FromFloat(Double.OfHalf(half)), idx + 3))
    else if b == 0xFA then
      var single :- GetUnsigned(v, idx, 4);
      Pow256Values();
      Ok(Decoded(FromFloat(Double.OfSingle(single)), idx + 5))
    else if b == 0xFB then
      var bits :- GetUnsigned(v, idx, 8);
      Pow256Values();
      Ok(Decoded(FromFloat(bits), idx + 9))
    else Err(InvalidArgument)
  }

  /** What `from_cbor_internal` returns, and the index that it leaves behind. */
  function Decode(v: bytes, idx: nat): (r: Result<Decoded<Json>>)
    requires |v| <= MAX_SIZE
    ensures r.Ok? ==> idx < r.value.next <= |v|
    decreases Left(v, idx), 0, 0
  {
    if idx >= |v| then Err(OutOfRange)
    else if !IsCompound(v[idx]) then DecodeScalar(v, idx)
    else if v[idx] == 0x7F then
      var s :- DecodeChunks(v, idx + 1, []);
      Ok(Decoded(String(s.value), s.next))
    else if v[idx] == 0x9F then
      var a :- DecodeItemsToBreak(v, idx + 1, []);
      Ok(Decoded(Array(a.value), a.next))
    else if v[idx] == 0xBF then
      var m :- DecodePairsToBreak(v, idx + 1, map[]);
      Ok(Decoded(Object(m.value), m.next))
    else if v[idx] <= 0x9B then
      var n :- Argument(v, idx, v[idx] - 0x80);
      var a :- DecodeItems(v, n.next, n.value, []);
      Ok(Decoded(Array(a.value), a.next))
    else
      var n :- Argument(v, idx, v[idx] - 0xA0);
      var m :- DecodePairs(v, n.next, n.value, map[]);
      Ok(Decoded(Object(m.value), m.next))
  }

  /** `n` items after those in `acc`. */
  function DecodeItems(v: bytes, idx: nat, n: nat, acc: seq<Json>): (r: Result<Decoded<seq<Json>>>)
    requires |v| <= MAX_SIZE && idx <= |v|
    ensures r.Ok? ==> idx <= r.value.next <= |v|
    decreases Left(v, idx), 1, n
  {
    if n == 0 then Ok(Decoded(acc, idx))
    else
      var x :- Decode(v, idx);
      DecodeItems(v, x.next, n - 1, acc + [x.value])
  }

  /** Items up to the break byte. */
  function DecodeItemsToBreak(v: bytes, idx: nat, acc: seq<Json>): (r: Result<Decoded<seq<Json>>>)
    requires |v| <= MAX_SIZE && idx <= |v|
    ensures r.Ok? ==> idx < r.value.next <= |v|
    decreases Left(v, idx), 1, 0
  {
    if idx >= |v| then Err(OutOfRange)
    else if v[idx] == 0xFF then Ok(Decoded(acc, idx + 1))
    else
      var x :- Decode(v, idx);
      DecodeItemsToBreak(v, x.next, acc + [x.value])
  }

  /** A key and its value. */
  function DecodePair(v: bytes, idx: nat): (r: Result<Decoded<(bytes, Json)>>)
    requires |v| <= MAX_SIZE
    ensures r.Ok? ==> idx < r.value.next <= |v|
    decreases Left(v, idx), 1, 0
  {
    var k :- Decode(v, idx);
    var key :- AsString(k.value);
    var x :- Decode(v, k.next);
    Ok(Decoded((key, x.value), x.next))
  }

  /** `n` pairs added to `acc`; a later pair replaces an earlier one with the same key. */
  function DecodePairs(v: bytes, idx: nat, n: nat, acc: map<bytes, Json>): (r: Result<Decoded<map<bytes, Json>>>)
    requires |v| <= MAX_SIZE && idx <= |v|
    ensures r.Ok? ==> idx <= r.value.next <= |v|
    decreases Left(v, idx), 2, n
  {
    if n == 0 then Ok(Decoded(acc, idx))
    else
      var p :- DecodePair(v, idx);
      DecodePairs(v, p.next, n - 1, acc[p.value.0 := p.value.1])
  }

  function DecodePairsToBreak(v: bytes, idx: nat, acc: map<bytes, Json>): (r: Result<Decoded<map<bytes, Json>>>)
    requires |v| <= MAX_SIZE && idx <= |v|
    ensures r.Ok? ==> idx < r.value.next <= |v|
    decreases Left(v, idx), 2, 0
  {
    if idx >= |v| then Err(OutOfRange)
    else if v[idx] == 0xFF then Ok(Decoded(acc, idx + 1))
    else
      var p :- DecodePair(v, idx);
      DecodePairsToBreak(v, p.next, acc[p.value.0 := p.value.1])
  }

  /** The chunks of an indefinite-length string. */
  function DecodeChunks(v: bytes, idx: nat, acc: bytes): (r: Result<Decoded<bytes>>)
    requires |v| <= MAX_SIZE && idx <= |v|
    ensures r.Ok? ==> idx < r.value.next <= |v|
    decreases Left(v, idx), 1, 0
  {
    if idx >= |v| then Err(OutOfRange)
    else if v[idx] == 0xFF then Ok(Decoded(acc, idx + 1))
    else
      var x :- Decode(v, idx);
      var s :- AsString(x.value);
      DecodeChunks(v, x.next, acc + s)
  }

  // ----- the decoder with its index passed by reference -----

  /** `from_cbor_internal`. */
  method FromCbor(v: bytes, idx: Index) returns (r: Result<Json>)
    requires |v| <= MAX_SIZE
    modifies idx
    ensures idx.Outcome(Decode(v, old(idx.i)), r)
    decreases Left(v, idx.i), 0, 0
  {
    var current := idx.i;
    if current >= |v| {
      return Err(OutOfRange);
    }
    idx.i := current + 1;
    var b := v[current];
    if !IsCompound(b) {
      var x :- DecodeScalar(v, current);
      idx.i := x.next;
      return Ok(x.value);
    } else if b == 0x7F {
      var s := ReadChunks(v, idx);
      return if s.Ok? then Ok(String(s.value)) else Err(s.error);
    } else if b == 0x9F {
      var a := ReadItemsToBreak(v, idx);
      return if a.Ok? then Ok(Array(a.value)) else Err(a.error);
    } else if b == 0xBF {
      var m := ReadPairsToBreak(v, idx);
      return if m.Ok? then Ok(Object(m.value)) else Err(m.error);
    } else if b <= 0x9B {
      var n :- Argument(v, current, b - 0x80);
      idx.i := n.next;
      var a := ReadItems(v, idx, n.value);
      return if a.Ok? then Ok(Array(a.value)) else Err(a.error);
    } else {
      var n :- Argument(v, current, b - 0xA0);
      idx.i := n.next;
      var m := ReadPairs(v, idx, n.value);
      return if m.Ok? then Ok(Object(m.value)) else Err(m.error);
    }
  }

  method ReadItems(v: bytes, idx: Index, len: nat) returns (r: Result<seq<Json>>)
    requires |v| <= MAX_SIZE && idx.i <= |v|
    modifies idx
    ensures idx.Outcome(DecodeItems(v, old(idx.i), len, []), r)
    decreases Left(v, idx.i), 1, 0
  {
    var result: seq<Json> := [];
    for i := 0 to len
      invariant old(idx.i) <= idx.i <= |v|
      invariant DecodeItems(v, idx.i, len - i, result) == DecodeItems(v, old(idx.i), len, [])
    {
      var x :- FromCbor(v, idx);
      result := result + [x];
    }
    r := Ok(result);
  }

  method ReadItemsToBreak(v: bytes, idx: Index) returns (r: Result<seq<Json>>)
    requires |v| <= MAX_SIZE && idx.i <= |v|
    modifies idx
    ensures idx.Outcome(DecodeItemsToBreak(v, old(idx.i), []), r)
    decreases Left(v, idx.i), 1, 0
  {
    var result: seq<Json> := [];
    while idx.i < |v| && v[idx.i] != 0xFF
      invariant old(idx.i) <= idx.i <= |v|
      invariant DecodeItemsToBreak(v, idx.i, result) == DecodeItemsToBreak(v, old(idx.i), [])
      decreases |v| - idx.i
    {
      var x :- FromCbor(v, idx);
      result := result + [x];
    }
    if idx.i >= |v| {
      return Err(OutOfRange);
    }
    idx.i := idx.i + 1;
    r := Ok(result);
  }

  method ReadPair(v: bytes, idx: Index) returns (r: Result<(bytes, Json)>)
    requires |v| <= MAX_SIZE
    modifies idx
    ensures idx.Outcome(DecodePair(v, old(idx.i)), r)
    decreases Left(v, idx.i), 1, 0
  {
    var k :- FromCbor(v, idx);
    var key :- AsString(k);
    var x :- FromCbor(v, idx);
    r := Ok((key, x));
  }

  method ReadPairs(v: bytes, idx: Index, len: nat) returns (r: Result<map<bytes, Json>>)
    requires |v| <= MAX_SIZE && idx.i <= |v|
    modifies idx
    ensures idx.Outcome(DecodePairs(v, old(idx.i), len, map[]), r)
    decreases Left(v, idx.i), 2, 0
  {
    var result: map<bytes, Json> := map[];
    for i := 0 to len
      invariant old(idx.i) <= idx.i <= |v|
      invariant DecodePairs(v, idx.i, len - i, result) == DecodePairs(v, old(idx.i), len, map[])
    {
      var p :- ReadPair(v, idx);
      result := result[p.0 := p.1];
    }
    r := Ok(result);
  }

  method ReadPairsToBreak(v: bytes, idx: Index) returns (r: Result<map<bytes, Json>>)
    requires |v| <= MAX_SIZE && idx.i <= |v|
    modifies idx
    ensures idx.Outcome(DecodePairsToBreak(v, old(idx.i), map[]), r)
    decreases Left(v, idx.i), 2, 0
  {
    var result: map<bytes, Json> := map[];
    while idx.i < |v| && v[idx.i] != 0xFF
      invariant old(idx.i) <= idx.i <= |v|
      invariant DecodePairsToBreak(v, idx.i, result) == DecodePairsToBreak(v, old(idx.i), map[])
      decreases |v| - idx.i
    {
      var p :- ReadPair(v, idx);
      result := result[p.0 := p.1];
    }
    if idx.i >= |v| {
      return Err(OutOfRange);
    }
    idx.i := idx.i + 1;
    r := Ok(result);
  }

  method ReadChunks(v: bytes, idx: Index) returns (r: Result<bytes>)
    requires |v| <= MAX_SIZE && idx.i <= |v|
    modifies idx
    ensures idx.Outcome(DecodeChunks(v, old(idx.i), []), r)
    decreases Left(v, idx.i), 1, 0
  {
    var result: bytes := [];
    while idx.i < |v| && v[idx.i] != 0xFF
      invariant old(idx.i) <= idx.i <= |v|
      invariant DecodeChunks(v, idx.i, result) == DecodeChunks(v, old(idx.i), [])
      decreases |v| - idx.i
    {
      var x :- FromCbor(v, idx);
      var s :- AsString(x);
      result := result + s;
    }
    if idx.i >= |v| {
      return Err(OutOfRange);
    }
    idx.i := idx.i + 1;
    r := Ok(result);
  }

  // ----- round trip -----

  /** The low bits of the initial byte that `Head` chooses. */
  function Low(n: nat): int {
    if n <= 0x17 then n else if n <= 0xFF then 0x18 else if n <= 0xFFFF then 0x19
    else if n <= 0xFFFF_FFFF then 0x1A else 0x1B
  }

  lemma HeadRead(v: bytes, idx: nat, base: byte, n: nat)
    requires base <= 0xA0 && n < SIZE_T && At(v, idx, Head(base, n))
    ensures idx < |v| && v[idx] == base + Low(n)
    ensures Argument(v, idx, Low(n)) == Ok(Decoded(n, idx + |Head(base, n)|))
  {
    Pow256Values();
    if n <= 0x17 {
      AtFirst(v, idx, base + n, []);
    } else {
      var k := Width(Low(n));
      AtFirst(v, idx, base + Low(n), BigEndian(n, k));
      GetWritten(v, idx, n, k);
    }
  }

  lemma {:induction false} ElementsLength(j: Json, i: nat)
    requires j.Array? && i <= |j.a|
    ensures |EncodeElements(j, i)| >= |j.a| - i
    decreases |j.a| - i
  {
    if i < |j.a| {
      ElementsLength(j, i + 1);
    }
  }

  lemma {:induction false} MembersLength(j: Json, ks: seq<bytes>)
    requires j.Object? && forall k :: k in ks ==> k in j.m
    ensures |EncodeMembers(j, ks)| >= |ks|
    decreases |ks|
  {
    if ks != [] {
      MembersLength(j, ks[1..]);
    }
  }

  lemma ScalarRead(v: bytes, idx: nat)
    requires |v| <= MAX_SIZE && idx < |v| && !IsCompound(v[idx])
    ensures Decode(v, idx) == DecodeScalar(v, idx)
  {
  }

  lemma StringRead(v: bytes, idx: nat, s: bytes)
    requires |v| <= MAX_SIZE && At(v, idx, EncodeString(s))
    ensures Decode(v, idx) == Ok(Decoded(String(s), idx + |EncodeString(s)|))
  {
    hide Decode, Head, Argument, TakeString;
    AtSplit(v, idx, Head(0x60, |s|), s);
    HeadRead(v, idx, 0x60, |s|);
    ScalarRead(v, idx);
    TakeWritten(v, idx + |Head(0x60, |s|)|, s);
  }

  lemma PrimitiveRead(v: bytes, idx: nat, j: Json)
    requires j.IsPrimitive() && !j.String? && |v| <= MAX_SIZE && At(v, idx, Encode(j))
    ensures Decode(v, idx) == Ok(Decoded(Rebuilt(j), idx + |Encode(j)|))
  {
    hide Decode, Head, BigEndian;
    match j
    case Null => SimpleRead(v, idx, 0xF6);
    case Bool(b) => SimpleRead(v, idx, if b then 0xF5 else 0xF4);
    case Int(i) => IntegerRead(v, idx, i);
    case Uint(u) => IntegerRead(v, idx, u);
    case Float(f) =>
      FloatRead(v, idx, f);
  }

  lemma SimpleRead(v: bytes, idx: nat, b: byte)
    requires |v| <= MAX_SIZE && 0xF4 <= b <= 0xF6 && At(v, idx, [b])
    ensures Decode(v, idx) == Ok(Decoded(if b == 0xF6 then Null else Bool(b == 0xF5), idx + 1))
  {
    hide Decode, Argument;
    assert [b] == [b] + [];
    AtFirst(v, idx, b, []);
    ScalarRead(v, idx);
  }

  lemma FloatRead(v: bytes, idx: nat, f: Double.Bits)
    requires |v| <= MAX_SIZE && At(v, idx, [0xFB] + BigEndian(f, 8))
    ensures Decode(v, idx) == Ok(Decoded(FromFloat(f), idx + 9))
  {
    hide Decode, BigEndian;
    Pow256Values();
    AtFirst(v, idx, 0xFB, BigEndian(f, 8));
    GetWritten(v, idx, f, 8);
    ScalarRead(v, idx);
  }

  lemma IntegerRead(v: bytes, idx: nat, i: int)
    requires -0x8000_0000_0000_0000 <= i < SIZE_T && |v| <= MAX_SIZE
    requires At(v, idx, if i >= 0 then Head(0x00, i) else Head(0x20, -1 - i))
    ensures i >= 0 ==> Decode(v, idx) == Ok(Decoded(Uint(i), idx + |Head(0x00, i)|))
    ensures i < 0 ==> Decode(v, idx) == Ok(Decoded(Int(i), idx + |Head(0x20, -1 - i)|))
  {
    hide Decode, Head;
    if i >= 0 {
      NaturalRead(v, idx, i);
    } else {
      NegativeRead(v, idx, -1 - i);
    }
  }

  lemma NaturalRead(v: bytes, idx: nat, n: nat)
    requires n < SIZE_T && |v| <= MAX_SIZE && At(v, idx, Head(0x00, n))
    ensures Decode(v, idx) == Ok(Decoded(Uint(n), idx + |Head(0x00, n)|))
  {
    hide Decode, Head, Argument, TakeString;
    HeadRead(v, idx, 0x00, n);
    ScalarRead(v, idx);
  }

  lemma NegativeRead(v: bytes, idx: nat, n: nat)
    requires n < 0x8000_0000_0000_0000 && |v| <= MAX_SIZE && At(v, idx, Head(0x20, n))
    ensures Decode(v, idx) == Ok(Decoded(Int(-1 - n), idx + |Head(0x20, n)|))
  {
    hide Decode, Head, GetUnsigned, Width, TakeString;
    HeadRead(v, idx, 0x20, n);
    ScalarRead(v, idx);
  }

  lemma ArrayHeader(v: bytes, idx: nat, n: nat, next: nat)
    requires |v| <= MAX_SIZE && idx < |v| && 0x80 <= v[idx] <= 0x9B
    requires Argument(v, idx, v[idx] - 0x80) == Ok(Decoded(n, next))
    ensures Decode(v, idx) ==
      if DecodeItems(v, next, n, []).Ok?
      then Ok(Decoded(Array(DecodeItems(v, next, n, []).value.value), DecodeItems(v, next, n, []).value.next))
      else Err(DecodeItems(v, next, n, []).error)
  {
  }

  lemma ObjectHeader(v: bytes, idx: nat, n: nat, next: nat)
    requires |v| <= MAX_SIZE && idx < |v| && 0xA0 <= v[idx] <= 0xBB
    requires Argument(v, idx, v[idx] - 0xA0) == Ok(Decoded(n, next))
    ensures Decode(v, idx) ==
      if DecodePairs(v, next, n, map[]).Ok?
      then Ok(Decoded(Object(DecodePairs(v, next, n, map[]).value.value), DecodePairs(v, next, n, map[]).value.next))
      else Err(DecodePairs(v, next, n, map[]).error)
  {
  }

  lemma NextItem(v: bytes, idx: nat, n: nat, acc: seq<Json>, x: Decoded<Json>)
    requires |v| <= MAX_SIZE && n > 0 && idx <= |v| && Decode(v, idx) == Ok(x)
    ensures x.next <= |v| && DecodeItems(v, idx, n, acc) == DecodeItems(v, x.next, n - 1, acc + [x.value])
  {
  }

  lemma NextPair(v: bytes, idx: nat, n: nat, acc: map<bytes, Json>, p: Decoded<(bytes, Json)>)
    requires |v| <= MAX_SIZE && n > 0 && idx <= |v| && DecodePair(v, idx) == Ok(p)
    ensures p.next <= |v| && DecodePairs(v, idx, n, acc) == DecodePairs(v, p.next, n - 1, acc[p.value.0 := p.value.1])
  {
  }

  /** Decoding at the start of an encoding gives the value back and stops exactly at its end. */
  lemma {:induction false} DecodeEncoded(v: bytes, idx: nat, j: Json)
    requires |v| <= MAX_SIZE && At(v, idx, Encode(j))
    ensures Decode(v, idx) == Ok(Decoded(Rebuilt(j), idx + |Encode(j)|))
    decreases j, 1
  {
    match j
    case String(s) => StringRead(v, idx, s);
    case Array(_) => ArrayRead(v, idx, j);
    case Object(_) => ObjectRead(v, idx, j);
    case _ => PrimitiveRead(v, idx, j);
  }

  lemma {:induction false} ArrayRead(v: bytes, idx: nat, j: Json)
    requires j.Array? && |v| <= MAX_SIZE && At(v, idx, Encode(j))
    ensures Decode(v, idx) == Ok(Decoded(Rebuilt(j), idx + |Encode(j)|))
    decreases j, 0, |j.a| + 1
  {
    hide Decode, DecodeItems, EncodeElements, Head, Argument, Rebuilt, RebuiltElements;
    var head := Head(0x80, |j.a|);
    AtSplit(v, idx, head, EncodeElements(j, 0));
    ElementsLength(j, 0);
    HeadRead(v, idx, 0x80, |j.a|);
    ArrayHeader(v, idx, |j.a|, idx + |head|);
    ItemsRead(v, idx + |head|, j, 0, []);
    RebuiltArray(j);
    assert [] + RebuiltElements(j.a, 0) == RebuiltElements(j.a, 0);
  }

  lemma {:induction false} ItemsRead(v: bytes, idx: nat, j: Json, i: nat, acc: seq<Json>)
    requires j.Array? && i <= |j.a| && |v| <= MAX_SIZE && At(v, idx, EncodeElements(j, i))
    ensures DecodeItems(v, idx, |j.a| - i, acc) ==
            Ok(Decoded(acc + RebuiltElements(j.a, i), idx + |EncodeElements(j, i)|))
    decreases j, 0, |j.a| - i
  {
    hide Decode, Encode, Rebuilt;
    if i < |j.a| {
      var x, first := Rebuilt(j.a[i]), Encode(j.a[i]);
      AtSplit(v, idx, first, EncodeElements(j, i + 1));
      DecodeEncoded(v, idx, j.a[i]);
      NextItem(v, idx, |j.a| - i, acc, Decoded(x, idx + |first|));
      ItemsRead(v, idx + |first|, j, i + 1, acc + [x]);
      assert acc + [x] + RebuiltElements(j.a, i + 1) == acc + RebuiltElements(j.a, i);
    } else {
      assert acc + RebuiltElements(j.a, i) == acc;
    }
  }

  lemma {:induction false} ObjectRead(v: bytes, idx: nat, j: Json)
    requires j.Object? && |v| <= MAX_SIZE && At(v, idx, Encode(j))
    ensures Decode(v, idx) == Ok(Decoded(Rebuilt(j), idx + |Encode(j)|))
    decreases j, 0, |SortedKeys(j.m.Keys)| + 1
  {
    hide Decode, DecodePairs, EncodeMembers, Head, Argument, Rebuilt, Extended;
    var head, ks := Head(0xA0, |j.m|), SortedKeys(j.m.Keys);
    AtSplit(v, idx, head, EncodeMembers(j, ks));
    MembersLength(j, ks);
    assert |ks| == |j.m.Keys| == |j.m|;
    HeadRead(v, idx, 0xA0, |j.m|);
    ObjectHeader(v, idx, |j.m|, idx + |head|);
    PairsRead(v, idx + |head|, j, ks, map[]);
    ExtendedAll(j);
  }

  lemma {:induction false} PairRead(v: bytes, idx: nat, j: Json, k: bytes)
    requires j.Object? && k in j.m && |v| <= MAX_SIZE && At(v, idx, EncodeString(k) + Encode(j.m[k]))
    ensures DecodePair(v, idx) == Ok(Decoded((k, Rebuilt(j.m[k])), idx + |EncodeString(k) + Encode(j.m[k])|))
    decreases j, 0, 0
  {
    hide Decode, Encode, EncodeString;
    AtSplit(v, idx, EncodeString(k), Encode(j.m[k]));
    StringRead(v, idx, k);
    DecodeEncoded(v, idx + |EncodeString(k)|, j.m[k]);
  }

  lemma {:induction false} PairsRead(v: bytes, idx: nat, j: Json, ks: seq<bytes>, acc: map<bytes, Json>)
    requires j.Object? && |v| <= MAX_SIZE && (forall k :: k in ks ==> k in j.m)
    requires At(v, idx, EncodeMembers(j, ks))
    ensures DecodePairs(v, idx, |ks|, acc) ==
            Ok(Decoded(Extended(acc, j, ks), idx + |EncodeMembers(j, ks)|))
    decreases j, 0, |ks|
  {
    hide Decode, DecodePair, Encode, EncodeString;
    if ks == [] {
      assert Extended(acc, j, ks) == acc;
    } else {
      var k, x := ks[0], Rebuilt(j.m[ks[0]]);
      var first := EncodeString(k) + Encode(j.m[k]);
      AtSplit(v, idx, first, EncodeMembers(j, ks[1..]));
      PairRead(v, idx, j, k);
      NextPair(v, idx, |ks|, acc, Decoded((k, x), idx + |first|));
      PairsRead(v, idx + |first|, j, ks[1..], acc[k := x]);
      ExtendedFirst(acc, j, ks);
    }
  }

  /**
   For every value and any bytes around its encoding, decoding leaves the index at the end of the encoding
   and returns the value with its non-finite floats replaced by null; it is equal to the original exactly when
   there are none.
   */
  lemma RoundTrip(before: bytes, j: Json, after: bytes)
    requires |before + Encode(j) + after| <= MAX_SIZE
    ensures
      var r := Decode(before + Encode(j) + after, |before|);
      r == Ok(Decoded(Rebuilt(j), |before| + |Encode(j)|)) && (Eq(r.value.value, j) <==> AllFinite(j))
  {
    hide Decode, Encode, Rebuilt, Eq, AllFinite;
    AtFramed(before, Encode(j), after);
    DecodeEncoded(before + Encode(j) + after, |before|, j);
    RebuiltEq(j);
  }

  /** An infinity does not survive: it is decoded as null. */
  lemma InfinityLost()
    ensures
      var j := Float(Double.INFINITY);
      Decode(Encode(j), 0) == Ok(Decoded(Null, |Encode(j)|)) && !Eq(Null, j)
  {
    hide Decode, Encode;
    var j := Float(Double.INFINITY);
    FloatLength(Double.INFINITY);
    DecodeEncoded(Encode(j), 0, j);
  }

  lemma FloatLength(f: Double.Bits)
    ensures |Encode(Float(f))| == 9
  {
  }
}
