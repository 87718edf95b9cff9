/**
 MessagePack: the encoder, the decoder and their round trip.
 */
module MsgPack {
  import opened Bytes
  import opened Wrappers
  import opened Value
  import opened Wire
  import Double

  // ----- encoding -----

  /** A tag byte followed by a number of the given size. */
  function Tagged(tag: byte, n: int, size: nat): bytes {
    [tag] + BigEndian(n, size)
  }

  function EncodeUnsigned(n: nat): bytes {
    if n < 128 then BigEndian(n, 1)
    else if n <= 0xFF then Tagged(0xCC, n, 1)
    else if n <= 0xFFFF then Tagged(0xCD, n, 2)
    else if n <= 0xFFFF_FFFF then Tagged(0xCE, n, 4)
    else Tagged(0xCF, n, 8)
  }

  function EncodeNegative(i: int): bytes
    requires i < 0
  {
    if i >= -32 then BigEndian(i, 1)
    else if i >= -0x80 then Tagged(0xD0, i, 1)
    else if i >= -0x8000 then Tagged(0xD1, i, 2)
    else if i >= -0x8000_0000 then Tagged(0xD2, i, 4)
    else Tagged(0xD3, i, 8)
  }

  /** The header of a string; there is none for 2^32 bytes and more. */
  function StringHead(n: nat): bytes {
    if n <= 31 then [0xA0 + n]
    else if n <= 0xFF then Tagged(0xD9, n, 1)
    else if n <= 0xFFFF then Tagged(0xDA, n, 2)
    else if n <= 0xFFFF_FFFF then Tagged(0xDB, n, 4)
    else []
  }

  /** The header of an array or map with the tags of the fixed, 16-bit and 32-bit form. */
  function ContainerHead(fixed: byte, tag16: byte, n: nat): bytes
    requires fixed <= 0x90 && tag16 < 0xFF
  {
    if n <= 15 then [fixed + n]
    else if n <= 0xFFFF then Tagged(tag16, n, 2)
    else if n <= 0xFFFF_FFFF then Tagged(tag16 + 1, n, 4)
    else []
  }

  /** The bytes that `to_msgpack_internal` appends. */
  function Encode(j: Json): bytes
    decreases j, 1
  {
    match j
    case Null => [0xC0]
    case Bool(b) => [if b then 0xC3 else 0xC2]
    case Int(i) => if i >= 0 then EncodeUnsigned(i) else EncodeNegative(i)
    case Uint(u) => EncodeUnsigned(u)
    case Float(f) => Tagged(0xCB, f, 8)
    case String(s) => EncodeString(s)
    case Array(a) => ContainerHead(0x90, 0xDC, |a|) + EncodeElements(j, 0)
    case Object(m) => ContainerHead(0x80, 0xDE, |m|) + EncodeMembers(j, SortedKeys(m.Keys))
  }

  function EncodeString(s: bytes): bytes {
    StringHead(|s|) + s
  }

  /** The elements from index `i` on. */
  function EncodeElements(j: Json, i: nat): bytes
    requires j.Array? && i <= |j.a|
    decreases j, 0, |j.a| - i
  {
    if i == |j.a| then [] else Encode(j.a[i]) + EncodeElements(j, i + 1)
  }

  /** The members with the given keys. */
  function EncodeMembers(j: Json, ks: seq<bytes>): bytes
    requires j.Object? && forall k :: k in ks ==> k in j.m
    decreases j, 0, |ks|
  {
    if ks == [] then []
    else EncodeString(ks[0]) + Encode(j.m[ks[0]]) + EncodeMembers(j, ks[1..])
  }

  method WriteTagged(out: ByteVector, tag: byte, n: int, size: nat)
    requires size == 1 || size == 2 || size == 4 || size == 8
    modifies out
    ensures out.v == old(out.v) + Tagged(tag, n, size)
  {
    hide BigEndian;
    out.PushBack(tag);
    out.AddToVector(size, n);
  }

  method WriteUnsigned(out: ByteVector, n: nat)
    modifies out
    ensures out.v == old(out.v) + EncodeUnsigned(n)
  {
    hide BigEndian, Tagged;
    if n < 128 {
      out.AddToVector(1, n);
    } else if n <= 0xFF {
      WriteTagged(out, 0xCC, n, 1);
    } else if n <= 0xFFFF {
      WriteTagged(out, 0xCD, n, 2);
    } else if n <= 0xFFFF_FFFF {
      WriteTagged(out, 0xCE, n, 4);
    } else {
      WriteTagged(out, 0xCF, n, 8);
    }
  }

  method WriteNegative(out: ByteVector, i: int)
    requires i < 0
    modifies out
    ensures out.v == old(out.v) + EncodeNegative(i)
  {
    hide BigEndian, Tagged;
    if i >= -32 {
      out.AddToVector(1, i);
    } else if i >= -0x80 {
      WriteTagged(out, 0xD0, i, 1);
    } else if i >= -0x8000 {
      WriteTagged(out, 0xD1, i, 2);
    } else if i >= -0x8000_0000 {
      WriteTagged(out, 0xD2, i, 4);
    } else {
      WriteTagged(out, 0xD3, i, 8);
    }
  }

  method WriteContainerHead(out: ByteVector, fixed: byte, tag16: byte, n: nat)
    requires fixed <= 0x90 && tag16 < 0xFF
    modifies out
    ensures out.v == old(out.v) + ContainerHead(fixed, tag16, n)
  {
    hide BigEndian, Tagged;
    if n <= 15 {
      out.PushBack(fixed + n);
    } else if n <= 0xFFFF {
      WriteTagged(out, tag16, n, 2);
    } else if n <= 0xFFFF_FFFF {
      WriteTagged(out, tag16 + 1, n, 4);
    } else {
      assert out.v + [] == out.v;
    }
  }

  /** `to_msgpack_internal`. */
  method ToMsgPack(j: Json, out: ByteVector)
    modifies out
    ensures out.v == old(out.v) + Encode(j)
    decreases j, 1
  {
    hide EncodeUnsigned, EncodeNegative, EncodeString, EncodeElements, EncodeMembers, Tagged, ContainerHead;
    match j
    case Null => out.PushBack(0xC0);
    case Bool(b) => out.PushBack(if b then 0xC3 else 0xC2);
    case Int(i) =>
      if i >= 0 {
        WriteUnsigned(out, i);
      } else {
        WriteNegative(out, i);
      }
    case Uint(u) => WriteUnsigned(out, u);
    case Float(f) => WriteTagged(out, 0xCB, f, 8);
    case String(s) => WriteString(s, out);
    case Array(_) => WriteArray(j, out);
    case Object(_) => WriteObject(j, out);
  }

  method WriteString(s: bytes, out: ByteVector)
    modifies out
    ensures out.v == old(out.v) + EncodeString(s)
  {
    hide BigEndian, Tagged;
    if |s| <= 31 {
      out.PushBack(0xA0 + |s|);
    } else if |s| <= 0xFF {
      WriteTagged(out, 0xD9, |s|, 1);
    } else if |s| <= 0xFFFF {
      WriteTagged(out, 0xDA, |s|, 2);
    } else if |s| <= 0xFFFF_FFFF {
      WriteTagged(out, 0xDB, |s|, 4);
    } else {
      assert out.v + [] == out.v;
    }
    out.Append(s);
  }

  method WriteArray(j: Json, out: ByteVector)
    requires j.Array?
    modifies out
    ensures out.v == old(out.v) + (ContainerHead(0x90, 0xDC, |j.a|) + EncodeElements(j, 0))
    decreases j, 0
  {
    hide Encode, ContainerHead;
    ghost var total := old(out.v) + (ContainerHead(0x90, 0xDC, |j.a|) + EncodeElements(j, 0));
    WriteContainerHead(out, 0x90, 0xDC, |j.a|);
    Regroup(old(out.v), ContainerHead(0x90, 0xDC, |j.a|), EncodeElements(j, 0));
    for i := 0 to |j.a|
      invariant out.v + EncodeElements(j, i) == total
    {
      Regroup(out.v, Encode(j.a[i]), EncodeElements(j, i + 1));
      ToMsgPack(j.a[i], out);
    }
    assert out.v + [] == out.v;
  }

  method WriteObject(j: Json, out: ByteVector)
    requires j.Object?
    modifies out
    ensures out.v == old(out.v) + (ContainerHead(0x80, 0xDE, |j.m|) + EncodeMembers(j, SortedKeys(j.m.Keys)))
    decreases j, 0
  {
    hide Encode, EncodeString, ContainerHead, SortedKeys;
    var ks := SortedKeys(j.m.Keys);
    ghost var total := old(out.v) + (ContainerHead(0x80, 0xDE, |j.m|) + EncodeMembers(j, ks));
    WriteContainerHead(out, 0x80, 0xDE, |j.m|);
    Regroup(old(out.v), ContainerHead(0x80, 0xDE, |j.m|), EncodeMembers(j, ks));
    assert ks[0..] == ks;
    for i := 0 to |ks|
      invariant out.v + EncodeMembers(j, ks[i..]) == total
    {
      assert ks[i..][1..] == ks[i + 1..];
      Regroup(out.v, EncodeString(ks[i]) + Encode(j.m[ks[i]]), EncodeMembers(j, ks[i + 1..]));
      Regroup(out.v, EncodeString(ks[i]), Encode(j.m[ks[i]]));
      WriteString(ks[i], out);
      ToMsgPack(j.m[ks[i]], out);
    }
    assert out.v + [] == out.v;
  }

  /** `to_msgpack`. */
  method Serialize(j: Json) returns (v: bytes)
    ensures v == Encode(j)
  {
    var out := new ByteVector();
    ToMsgPack(j, out);
    v := out.v;
  }

  // ----- decoding -----

  /** A number that follows its tag byte. */
  function Operand(v: bytes, idx: nat, size: nat): (r: Result<Decoded<nat>>)
    requires idx < |v|
    ensures r.Ok? ==> idx < r.value.next <= |v| && r.value.value < Pow256(size)
  {
    var n :- GetUnsigned(v, idx, size);
    Ok(Decoded(n, idx + 1 + size))
  }

  /** The length of a string, array or map, and the index behind the header. */
  function Length(v: bytes, idx: nat): (r: Result<Decoded<nat>>)
    requires idx < |v|
    ensures r.Ok? ==> idx < r.value.next <= |v| && r.value.value < 0x1_0000_0000
  {
    var b := v[idx];
    Pow256Values();
    if b <= 0x9F then Ok(Decoded(b as int % 16, idx + 1))
    else if b <= 0xBF then Ok(Decoded(b as int % 32, idx + 1))
    else if b == 0xD9 then Operand(v, idx, 1)
    else if b == 0xDA || b == 0xDC || b == 0xDE then Operand(v, idx, 2)
    else Operand(v, idx, 4)
  }

  predicate IsArray(b: byte) {
    0x90 <= b <= 0x9F || b == 0xDC || b == 0xDD
  }

  predicate IsMap(b: byte) {
    0x80 <= b <= 0x8F || b == 0xDE || b == 0xDF
  }

  predicate IsString(b: byte) {
    0xA0 <= b <= 0xBF || b == 0xD9 || b == 0xDA || b == 0xDB
  }

  function UnsignedValue(v: bytes, idx: nat, size: nat): (r: Result<Decoded<Json>>)
    requires idx < |v| && size <= 8
    ensures r.Ok? ==> idx < r.value.next <= |v|
  {
    var n :- Operand(v, idx, size);
    Pow256Monotone(size, 8);
    Pow256Values();
    Ok(Decoded(Uint(n.value), n.next))
  }

  function SignedValue(v: bytes, idx: nat, size: nat): (r: Result<Decoded<Json>>)
    requires idx < |v| && 0 < size <= 8
    ensures r.Ok? ==> idx < r.value.next <= |v|
  {
    var n :- Operand(v, idx, size);
    Pow256Monotone(size, 8);
    Pow256Values();
    Ok(Decoded(Int(SignedOf(n.value, size)), n.next))
  }

  lemma {:induction false} Pow256Monotone(a: nat, b: nat)
    requires a <= b
    ensures Pow256(a) <= Pow256(b)
    decreases b
  {
    if a < b {
      Pow256Monotone(a, b - 1);
    }
  }

  /** The cases of `from_msgpack_internal` that do not call it again. */
  function DecodeScalar(v: bytes, idx: nat): (r: Result<Decoded<Json>>)
    requires |v| <= MAX_SIZE && idx < |v|
    ensures r.Ok? ==> idx < r.value.next <= |v|
  {
    var b := v[idx];
    if b <= 0x7F then Ok(Decoded(Uint(b), idx + 1))
    else if b >= 0xE0 then Ok(Decoded(Int(b as int - 0x100), idx + 1))
    else if IsString(b) then
      var n :- Length(v, idx);
      var s :- TakeString(v, n.value, n.next);
      Ok(Decoded(String(s.value), s.next))
    else if b == 0xC0 then Ok(Decoded(Null, idx + 1))
    else if b == 0xC2 then Ok(Decoded(Bool(false), idx + 1))
    else if b == 0xC3 then Ok(Decoded(Bool(true), idx + 1))
    else if b == 0xCA then
      var single :- Operand(v, idx, 4);
      Pow256Values();
      Ok(Decoded(FromFloat(Double.OfSingle(single.value)), single.next))
    else if b == 0xCB then
      var bits :- Operand(v, idx, 8);
      Pow256Values();
      Ok(Decoded(FromFloat(bits.value), bits.next))
    else if b == 0xCC then UnsignedValue(v, idx, 1)
    else if b == 0xCD then UnsignedValue(v, idx, 2)
    else if b == 0xCE then UnsignedValue(v, idx, 4)
    else if b == 0xCF then UnsignedValue(v, idx, 8)
    else if b == 0xD0 then SignedValue(v, idx, 1)
    else if b == 0xD1 then SignedValue(v, idx, 2)
    else if b == 0xD2 then SignedValue(v, idx, 4)
    else if b == 0xD3 then SignedValue(v, idx, 8)
    else Err(InvalidArgument)
  }

  /** What `from_msgpack_internal` returns, and the index that it leaves behind. */
  function Decode(v: bytes, idx: nat): (r: Result<Decoded<Json>>)
    requires |v| <= MAX_SIZE
    ensures r.Ok? ==> idx < r.value.next <= |v|
    decreases Left(v, idx), 0, 0
  {
    var checked :- CheckLength(|v|, 1, idx);
    if IsArray(v[idx]) then
      var n :- Length(v, idx);
      var a :- DecodeItems(v, n.next, n.value, []);
      Ok(Decoded(Array(a.value), a.next))
    else if IsMap(v[idx]) then
      var n :- Length(v, idx);
      var m :- DecodePairs(v, n.next, n.value, map[]);
      Ok(Decoded(Object(m.value), m.next))
    else DecodeScalar(v, idx)
  }

  /** `n` items after those in `acc`. */
  function DecodeItems(v: bytes, idx: nat, n: nat, acc: seq<Json>): (r: Result<Decoded<seq<Json>>>)
    requires |v| <= MAX_SIZE && idx <= |v|
    ensures r.Ok? ==> idx <= r.value.next <= |v|
    decreases Left(v, idx), 1, n
  {
    if n == 0 then Ok(Decoded(acc, idx))
    else
      var x :- Decode(v, idx);
      DecodeItems(v, x.next, n - 1, acc + [x.value])
  }

  /** A key and its value. */
  function DecodePair(v: bytes, idx: nat): (r: Result<Decoded<(bytes, Json)>>)
    requires |v| <= MAX_SIZE
    ensures r.Ok? ==> idx < r.value.next <= |v|
    decreases Left(v, idx), 1, 0
  {
    var k :- Decode(v, idx);
    var key :- AsString(k.value);
    var x :- Decode(v, k.next);
    Ok(Decoded((key, x.value), x.next))
  }

  /** `n` pairs added to `acc`; a later pair replaces an earlier one with the same key. */
  function DecodePairs(v: bytes, idx: nat, n: nat, acc: map<bytes, Json>): (r: Result<Decoded<map<bytes, Json>>>)
    requires |v| <= MAX_SIZE && idx <= |v|
    ensures r.Ok? ==> idx <= r.value.next <= |v|
    decreases Left(v, idx), 2, n
  {
    if n == 0 then Ok(Decoded(acc, idx))
    else
      var p :- DecodePair(v, idx);
      DecodePairs(v, p.next, n - 1, acc[p.value.0 := p.value.1])
  }

  /** `from_msgpack_internal`. */
  method FromMsgPack(v: bytes, idx: Index) returns (r: Result<Json>)
    requires |v| <= MAX_SIZE
    modifies idx
    ensures idx.Outcome(Decode(v, old(idx.i)), r)
    decreases Left(v, idx.i), 0, 0
  {
    hide DecodeScalar, DecodeItems, DecodePairs, Length;
    var checked :- CheckLength(|v|, 1, idx.i);
    var current := idx.i;
    idx.i := current + 1;
    if IsArray(v[current]) {
      var n :- Length(v, current);
      idx.i := n.next;
      var a := ReadItems(v, idx, n.value);
      return if a.Ok? then Ok(Array(a.value)) else Err(a.error);
    } else if IsMap(v[current]) {
      var n :- Length(v, current);
      idx.i := n.next;
      var m := ReadPairs(v, idx, n.value);
      return if m.Ok? then Ok(Object(m.value)) else Err(m.error);
    } else {
      var x :- DecodeScalar(v, current);
      idx.i := x.next;
      return Ok(x.value);
    }
  }

  method ReadItems(v: bytes, idx: Index, len: nat) returns (r: Result<seq<Json>>)
    requires |v| <= MAX_SIZE && idx.i <= |v|
    modifies idx
    ensures idx.Outcome(DecodeItems(v, old(idx.i), len, []), r)
    decreases Left(v, idx.i), 1, 0
  {
    hide Decode;
    var result: seq<Json> := [];
    for i := 0 to len
      invariant old(idx.i) <= idx.i <= |v|
      invariant DecodeItems(v, idx.i, len - i, result) == DecodeItems(v, old(idx.i), len, [])
    {
      var x :- FromMsgPack(v, idx);
      result := result + [x];
    }
    r := Ok(result);
  }

  method ReadPair(v: bytes, idx: Index) returns (r: Result<(bytes, Json)>)
    requires |v| <= MAX_SIZE
    modifies idx
    ensures idx.Outcome(DecodePair(v, old(idx.i)), r)
    decreases Left(v, idx.i), 1, 0
  {
    hide Decode;
    var k :- FromMsgPack(v, idx);
    var key :- AsString(k);
    var x :- FromMsgPack(v, idx);
    r := Ok((key, x));
  }

  method ReadPairs(v: bytes, idx: Index, len: nat) returns (r: Result<map<bytes, Json>>)
    requires |v| <= MAX_SIZE && idx.i <= |v|
    modifies idx
    ensures idx.Outcome(DecodePairs(v, old(idx.i), len, map[]), r)
    decreases Left(v, idx.i), 2, 0
  {
    hide Decode, DecodePair;
    var result: map<bytes, Json> := map[];
    for i := 0 to len
      invariant old(idx.i) <= idx.i <= |v|
      invariant DecodePairs(v, idx.i, len - i, result) == DecodePairs(v, old(idx.i), len, map[])
    {
      var p :- ReadPair(v, idx);
      result := result[p.0 := p.1];
    }
    r := Ok(result);
  }

  // ----- round trip -----

  /** Strings, keys, arrays and objects have fewer than 2^32 bytes, elements and members. */
  predicate Sized(j: Json) {
    match j
    case String(s) => |s| < 0x1_0000_0000
    case Array(a) => |a| < 0x1_0000_0000 && forall i | 0 <= i < |a| :: Sized(a[i])
    case Object(m) => |m| < 0x1_0000_0000 && forall k | k in m :: |k| < 0x1_0000_0000 && Sized(m[k])
    case _ => true
  }

  lemma TaggedRead(v: bytes, idx: nat, tag: byte, n: nat, size: nat)
    requires n < Pow256(size) && At(v, idx, Tagged(tag, n, size))
    ensures idx < |v| && v[idx] == tag && Operand(v, idx, size) == Ok(Decoded(n, idx + 1 + size))
  {
    hide BigEndian;
    AtFirst(v, idx, tag, BigEndian(n, size));
    GetWritten(v, idx, n, size);
  }

  lemma NegativeRead(v: bytes, idx: nat, tag: byte, i: int, size: nat)
    requires size > 0 && i < 0 && Pow256(size) / 2 <= i + Pow256(size) && At(v, idx, Tagged(tag, i, size))
    ensures idx < |v| && v[idx] == tag
    ensures Operand(v, idx, size) == Ok(Decoded(i + Pow256(size), idx + 1 + size))
    ensures SignedOf(i + Pow256(size), size) == i
  {
    hide BigEndian;
    AtFirst(v, idx, tag, BigEndian(i, size));
    BigEndianNegative(i, size);
    AtSlice(v, idx + 1, BigEndian(i, size));
  }

  lemma ScalarRead(v: bytes, idx: nat)
    requires |v| <= MAX_SIZE && idx < |v| && !IsArray(v[idx]) && !IsMap(v[idx])
    ensures Decode(v, idx) == DecodeScalar(v, idx)
  {
    hide DecodeScalar;
    CheckLengthExact(|v|, 1, idx);
  }

  lemma UnsignedRead(v: bytes, idx: nat, n: nat)
    requires n < SIZE_T && |v| <= MAX_SIZE && At(v, idx, EncodeUnsigned(n))
    ensures Decode(v, idx) == Ok(Decoded(Uint(n), idx + |EncodeUnsigned(n)|))
  {
    hide Decode, Tagged, Operand;
    Pow256Values();
    if n < 128 {
      assert BigEndian(n, 1) == [n];
      assert [n] == [n] + [];
      AtFirst(v, idx, n, []);
    } else {
      var size := if n <= 0xFF then 1 else if n <= 0xFFFF then 2 else if n <= 0xFFFF_FFFF then 4 else 8;
      var tag := if size == 1 then 0xCC else if size == 2 then 0xCD else if size == 4 then 0xCE else 0xCF;
      TaggedRead(v, idx, tag, n, size);
      TaggedLength(n, size);
    }
    ScalarRead(v, idx);
  }

  lemma TaggedLength(n: int, size: nat)
    ensures forall tag: byte :: |Tagged(tag, n, size)| == 1 + size
  {
  }

  lemma SmallNegativeRead(v: bytes, idx: nat, i: int)
    requires -32 <= i < 0 && |v| <= MAX_SIZE && At(v, idx, BigEndian(i, 1))
    ensures Decode(v, idx) == Ok(Decoded(Int(i), idx + 1))
  {
    hide Decode;
    assert i % 256 == i + 0x100;
    assert BigEndian(i, 1) == [i + 0x100];
    assert [i + 0x100] == [i + 0x100] + [];
    AtFirst(v, idx, i + 0x100, []);
    ScalarRead(v, idx);
  }

  lemma NegativeNumberRead(v: bytes, idx: nat, i: int)
    requires -0x8000_0000_0000_0000 <= i < 0 && |v| <= MAX_SIZE && At(v, idx, EncodeNegative(i))
    ensures Decode(v, idx) == Ok(Decoded(Int(i), idx + |EncodeNegative(i)|))
  {
    hide Decode, Tagged, Operand, SignedOf;
    if i >= -32 {
      SmallNegativeRead(v, idx, i);
    } else {
      Pow256Values();
      var size := if i >= -0x80 then 1 else if i >= -0x8000 then 2 else if i >= -0x8000_0000 then 4 else 8;
      var tag := if size == 1 then 0xD0 else if size == 2 then 0xD1 else if size == 4 then 0xD2 else 0xD3;
      NegativeRead(v, idx, tag, i, size);
      TaggedLength(i, size);
      ScalarRead(v, idx);
    }
  }

  lemma FloatRead(v: bytes, idx: nat, f: Double.Bits)
    requires |v| <= MAX_SIZE && At(v, idx, Tagged(0xCB, f, 8))
    ensures Decode(v, idx) == Ok(Decoded(FromFloat(f), idx + |Tagged(0xCB, f, 8)|))
  {
    hide Decode, Tagged, Operand;
    Pow256Values();
    TaggedRead(v, idx, 0xCB, f, 8);
    TaggedLength(f, 8);
    ScalarRead(v, idx);
  }

  lemma SimpleRead(v: bytes, idx: nat, b: byte)
    requires |v| <= MAX_SIZE && (b == 0xC0 || b == 0xC2 || b == 0xC3) && At(v, idx, [b])
    ensures Decode(v, idx) == Ok(Decoded(if b == 0xC0 then Null else Bool(b == 0xC3), idx + 1))
  {
    hide Decode, Operand;
    assert [b] == [b] + [];
    AtFirst(v, idx, b, []);
    ScalarRead(v, idx);
  }

  lemma StringHeadRead(v: bytes, idx: nat, n: nat)
    requires n < 0x1_0000_0000 && At(v, idx, StringHead(n))
    ensures idx < |v| && IsString(v[idx]) && Length(v, idx) == Ok(Decoded(n, idx + |StringHead(n)|))
  {
    hide Tagged, Operand;
    Pow256Values();
    if n <= 31 {
      assert [0xA0 + n] == [0xA0 + n] + [];
      AtFirst(v, idx, 0xA0 + n, []);
    } else {
      var size := if n <= 0xFF then 1 else if n <= 0xFFFF then 2 else 4;
      TaggedRead(v, idx, if size == 1 then 0xD9 else if size == 2 then 0xDA else 0xDB, n, size);
      TaggedLength(n, size);
    }
  }

  lemma ContainerHeadRead(v: bytes, idx: nat, fixed: byte, tag16: byte, n: nat)
    requires (fixed == 0x90 && tag16 == 0xDC) || (fixed == 0x80 && tag16 == 0xDE)
    requires n < 0x1_0000_0000 && At(v, idx, ContainerHead(fixed, tag16, n))
    ensures idx < |v| && (if fixed == 0x90 then IsArray(v[idx]) else IsMap(v[idx]))
    ensures Length(v, idx) == Ok(Decoded(n, idx + |ContainerHead(fixed, tag16, n)|))
  {
    hide Tagged, Operand;
    Pow256Values();
    if n <= 15 {
      assert [fixed + n] == [fixed + n] + [];
      AtFirst(v, idx, fixed + n, []);
    } else {
      var size := if n <= 0xFFFF then 2 else 4;
      TaggedRead(v, idx, if size == 2 then tag16 else tag16 + 1, n, size);
      TaggedLength(n, size);
    }
  }

  lemma StringRead(v: bytes, idx: nat, s: bytes)
    requires |s| < 0x1_0000_0000 && |v| <= MAX_SIZE && At(v, idx, EncodeString(s))
    ensures Decode(v, idx) == Ok(Decoded(String(s), idx + |EncodeString(s)|))
  {
    hide Decode, StringHead, Length, TakeString;
    AtSplit(v, idx, StringHead(|s|), s);
    StringHeadRead(v, idx, |s|);
    ScalarRead(v, idx);
    TakeWritten(v, idx + |StringHead(|s|)|, s);
  }

  lemma ArrayHeader(v: bytes, idx: nat, n: nat, next: nat)
    requires |v| <= MAX_SIZE && idx < |v| && IsArray(v[idx]) && Length(v, idx) == Ok(Decoded(n, next))
    ensures Decode(v, idx) ==
      if DecodeItems(v, next, n, []).Ok?
      then Ok(Decoded(Array(DecodeItems(v, next, n, []).value.value), DecodeItems(v, next, n, []).value.next))
      else Err(DecodeItems(v, next, n, []).error)
  {
    hide DecodeItems, DecodePairs, DecodeScalar, Length;
    CheckLengthExact(|v|, 1, idx);
  }

  lemma ObjectHeader(v: bytes, idx: nat, n: nat, next: nat)
    requires |v| <= MAX_SIZE && idx < |v| && IsMap(v[idx]) && Length(v, idx) == Ok(Decoded(n, next))
    ensures Decode(v, idx) ==
      if DecodePairs(v, next, n, map[]).Ok?
      then Ok(Decoded(Object(DecodePairs(v, next, n, map[]).value.value), DecodePairs(v, next, n, map[]).value.next))
      else Err(DecodePairs(v, next, n, map[]).error)
  {
    hide DecodeItems, DecodePairs, DecodeScalar, Length;
    CheckLengthExact(|v|, 1, idx);
  }

  lemma NextItem(v: bytes, idx: nat, n: nat, acc: seq<Json>, x: Decoded<Json>)
    requires |v| <= MAX_SIZE && n > 0 && idx <= |v| && Decode(v, idx) == Ok(x)
    ensures x.next <= |v| && DecodeItems(v, idx, n, acc) == DecodeItems(v, x.next, n - 1, acc + [x.value])
  {
    hide Decode;
  }

  lemma NextPair(v: bytes, idx: nat, n: nat, acc: map<bytes, Json>, p: Decoded<(bytes, Json)>)
    requires |v| <= MAX_SIZE && n > 0 && idx <= |v| && DecodePair(v, idx) == Ok(p)
    ensures p.next <= |v| && DecodePairs(v, idx, n, acc) == DecodePairs(v, p.next, n - 1, acc[p.value.0 := p.value.1])
  {
    hide DecodePair;
  }

  /** Decoding at the start of an encoding gives the value back and stops exactly at its end. */
  lemma {:induction false} DecodeEncoded(v: bytes, idx: nat, j: Json)
    requires Sized(j) && |v| <= MAX_SIZE && At(v, idx, Encode(j))
    ensures Decode(v, idx) == Ok(Decoded(Rebuilt(j), idx + |Encode(j)|))
    decreases j, 1
  {
    hide Decode, EncodeUnsigned, EncodeNegative, Tagged, EncodeString, EncodeElements, EncodeMembers, ContainerHead;
    match j
    case Null => SimpleRead(v, idx, 0xC0);
    case Bool(b) => SimpleRead(v, idx, if b then 0xC3 else 0xC2);
    case Int(i) =>
      if i >= 0 {
        UnsignedRead(v, idx, i);
      } else {
        NegativeNumberRead(v, idx, i);
      }
    case Uint(u) => UnsignedRead(v, idx, u);
    case Float(f) => FloatRead(v, idx, f);
    case String(s) => StringRead(v, idx, s);
    case Array(_) => ArrayRead(v, idx, j);
    case Object(_) => ObjectRead(v, idx, j);
  }

  lemma {:induction false} ArrayRead(v: bytes, idx: nat, j: Json)
    requires j.Array? && Sized(j) && |v| <= MAX_SIZE && At(v, idx, Encode(j))
    ensures Decode(v, idx) == Ok(Decoded(Rebuilt(j), idx + |Encode(j)|))
    decreases j, 0, |j.a| + 1
  {
    hide Decode, DecodeItems, EncodeElements, ContainerHead, Rebuilt, RebuiltElements;
    var head := ContainerHead(0x90, 0xDC, |j.a|);
    AtSplit(v, idx, head, EncodeElements(j, 0));
    ContainerHeadRead(v, idx, 0x90, 0xDC, |j.a|);
    ArrayHeader(v, idx, |j.a|, idx + |head|);
    ItemsRead(v, idx + |head|, j, 0, []);
    RebuiltArray(j);
    assert [] + RebuiltElements(j.a, 0) == RebuiltElements(j.a, 0);
  }

  lemma {:induction false} ItemsRead(v: bytes, idx: nat, j: Json, i: nat, acc: seq<Json>)
    requires j.Array? && i <= |j.a| && Sized(j) && |v| <= MAX_SIZE && At(v, idx, EncodeElements(j, i))
    ensures DecodeItems(v, idx, |j.a| - i, acc) ==
            Ok(Decoded(acc + RebuiltElements(j.a, i), idx + |EncodeElements(j, i)|))
    decreases j, 0, |j.a| - i
  {
    hide Decode, Encode, Rebuilt;
    if i < |j.a| {
      var x, first := Rebuilt(j.a[i]), Encode(j.a[i]);
      AtSplit(v, idx, first, EncodeElements(j, i + 1));
      DecodeEncoded(v, idx, j.a[i]);
      NextItem(v, idx, |j.a| - i, acc, Decoded(x, idx + |first|));
      ItemsRead(v, idx + |first|, j, i + 1, acc + [x]);
      assert acc + [x] + RebuiltElements(j.a, i + 1) == acc + RebuiltElements(j.a, i);
    } else {
      assert acc + RebuiltElements(j.a, i) == acc;
    }
  }

  lemma {:induction false} ObjectRead(v: bytes, idx: nat, j: Json)
    requires j.Object? && Sized(j) && |v| <= MAX_SIZE && At(v, idx, Encode(j))
    ensures Decode(v, idx) == Ok(Decoded(Rebuilt(j), idx + |Encode(j)|))
    decreases j, 0, |SortedKeys(j.m.Keys)| + 1
  {
    hide Decode, DecodePairs, EncodeMembers, ContainerHead, Rebuilt, Extended, SortedKeys, Sized;
    var head, ks := ContainerHead(0x80, 0xDE, |j.m|), SortedKeys(j.m.Keys);
    AtSplit(v, idx, head, EncodeMembers(j, ks));
    MemberCount(j);
    ContainerHeadRead(v, idx, 0x80, 0xDE, |j.m|);
    ObjectHeader(v, idx, |j.m|, idx + |head|);
    PairsRead(v, idx + |head|, j, ks, map[]);
    ExtendedAll(j);
  }

  lemma MemberCount(j: Json)
    requires j.Object? && Sized(j)
    ensures |SortedKeys(j.m.Keys)| == |j.m| < 0x1_0000_0000
  {
    assert |j.m.Keys| == |j.m|;
  }

  lemma {:induction false} PairRead(v: bytes, idx: nat, j: Json, k: bytes)
    requires j.Object? && Sized(j) && k in j.m && |v| <= MAX_SIZE && At(v, idx, EncodeString(k) + Encode(j.m[k]))
    ensures DecodePair(v, idx) == Ok(Decoded((k, Rebuilt(j.m[k])), idx + |EncodeString(k) + Encode(j.m[k])|))
    decreases j, 0, 0
  {
    hide Decode, Encode, EncodeString;
    AtSplit(v, idx, EncodeString(k), Encode(j.m[k]));
    StringRead(v, idx, k);
    DecodeEncoded(v, idx + |EncodeString(k)|, j.m[k]);
  }

  lemma {:induction false} PairsRead(v: bytes, idx: nat, j: Json, ks: seq<bytes>, acc: map<bytes, Json>)
    requires j.Object? && Sized(j) && |v| <= MAX_SIZE && (forall k :: k in ks ==> k in j.m)
    requires At(v, idx, EncodeMembers(j, ks))
    ensures DecodePairs(v, idx, |ks|, acc) ==
            Ok(Decoded(Extended(acc, j, ks), idx + |EncodeMembers(j, ks)|))
    decreases j, 0, |ks|
  {
    hide Decode, DecodePair, Encode, EncodeString, Rebuilt, Sized;
    if ks == [] {
      assert Extended(acc, j, ks) == acc;
    } else {
      var k, x := ks[0], Rebuilt(j.m[ks[0]]);
      var first := EncodeString(k) + Encode(j.m[k]);
      AtSplit(v, idx, first, EncodeMembers(j, ks[1..]));
      PairRead(v, idx, j, k);
      NextPair(v, idx, |ks|, acc, Decoded((k, x), idx + |first|));
      PairsRead(v, idx + |first|, j, ks[1..], acc[k := x]);
      ExtendedFirst(acc, j, ks);
    }
  }

  // ----- values that are too large -----

  /** No decoded container or string reaches 2^32 elements or bytes. */
  lemma {:induction false} DecodedSized(v: bytes, idx: nat)
    requires |v| <= MAX_SIZE && Decode(v, idx).Ok?
    ensures Sized(Decode(v, idx).value.value)
    decreases Left(v, idx), 0, 0
  {
    hide DecodeScalar, DecodeItems, DecodePairs, Length;
    CheckLengthExact(|v|, 1, idx);
    if IsArray(v[idx]) {
      var n := Length(v, idx).value;
      ItemsSized(v, n.next, n.value, []);
    } else if IsMap(v[idx]) {
      var n := Length(v, idx).value;
      PairsSized(v, n.next, n.value, map[]);
    } else {
      ScalarSized(v, idx);
    }
  }

  lemma ScalarSized(v: bytes, idx: nat)
    requires |v| <= MAX_SIZE && idx < |v| && DecodeScalar(v, idx).Ok?
    ensures Sized(DecodeScalar(v, idx).value.value)
  {
    hide Length;
  }

  ghost predicate AllSized(a: seq<Json>) {
    forall i | 0 <= i < |a| :: Sized(a[i])
  }

  ghost predicate MembersSized(m: map<bytes, Json>) {
    forall k | k in m :: |k| < 0x1_0000_0000 && Sized(m[k])
  }

  lemma {:induction false} ItemsSized(v: bytes, idx: nat, n: nat, acc: seq<Json>)
    requires |v| <= MAX_SIZE && idx <= |v| && AllSized(acc) && DecodeItems(v, idx, n, acc).Ok?
    ensures var a := DecodeItems(v, idx, n, acc).value.value; AllSized(a) && |a| == |acc| + n
    decreases Left(v, idx), 1, n
  {
    hide Decode;
    if n > 0 {
      var x := Decode(v, idx).value;
      DecodedSized(v, idx);
      ItemsSized(v, x.next, n - 1, acc + [x.value]);
    }
  }

  lemma {:induction false} PairsSized(v: bytes, idx: nat, n: nat, acc: map<bytes, Json>)
    requires |v| <= MAX_SIZE && idx <= |v| && MembersSized(acc) && DecodePairs(v, idx, n, acc).Ok?
    ensures var m := DecodePairs(v, idx, n, acc).value.value; MembersSized(m) && |m| <= |acc| + n
    decreases Left(v, idx), 2, n
  {
    hide Decode;
    if n > 0 {
      DecodedSized(v, idx);
      var k := Decode(v, idx).value;
      DecodedSized(v, k.next);
      var p := DecodePair(v, idx).value;
      PairsSized(v, p.next, n - 1, acc[p.value.0 := p.value.1]);
    }
  }

  lemma {:induction false} EqSized(x: Json, y: Json)
    requires Eq(x, y) && Sized(x)
    ensures Sized(y)
  {
    match (x, y)
    case (Array(a), Array(b)) =>
      forall i | 0 <= i < |a| ensures Sized(b[i]) { EqSized(a[i], b[i]); }
    case (Object(m), Object(n)) =>
      assert |m| == |m.Keys| && |n| == |n.Keys|;
      forall k | k in m ensures Sized(n[k]) { EqSized(m[k], n[k]); }
    case _ =>
  }

  /**
   Decoding an encoding, with any bytes around it, returns an equal value and leaves the index at its end
   exactly when nothing in the value reaches 2^32 bytes, elements or members, and every float is finite.
   */
  lemma RoundTrip(before: bytes, j: Json, after: bytes)
    requires |before + Encode(j) + after| <= MAX_SIZE
    ensures
      var r := Decode(before + Encode(j) + after, |before|);
      r.Ok? && r.value.next == |before| + |Encode(j)| && Eq(r.value.value, j) <==> Sized(j) && AllFinite(j)
    ensures Sized(j) ==>
      Decode(before + Encode(j) + after, |before|) == Ok(Decoded(Rebuilt(j), |before| + |Encode(j)|))
  {
    hide Decode, Encode;
    var v := before + Encode(j) + after;
    var r := Decode(v, |before|);
    if Sized(j) {
      AtFramed(before, Encode(j), after);
      DecodeEncoded(v, |before|, j);
      RebuiltEq(j);
    } else if r.Ok? && Eq(r.value.value, j) {
      DecodedSized(v, |before|);
      EqSized(r.value.value, j);
    }
  }

  /** An infinity does not survive: it is decoded as null. */
  lemma InfinityLost()
    ensures
      var j := Float(Double.INFINITY);
      Decode(Encode(j), 0) == Ok(Decoded(Null, |Encode(j)|)) && !Eq(Null, j)
  {
    hide Decode, Encode;
    var j := Float(Double.INFINITY);
    FloatLength(Double.INFINITY);
    DecodeEncoded(Encode(j), 0, j);
  }

  lemma FloatLength(f: Double.Bits)
    ensures |Encode(Float(f))| == 9
  {
  }
}
