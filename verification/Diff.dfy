/**
 Creating a JSON patch (RFC 6902) from two values.
 */
module Diff {
  import opened Bytes
  import opened Value
  import opened Decimal
  import opened Pointer
  import opened Patch

  // ----- diff -----

  function ReplaceOp(path: bytes, v: Json): Json {
    Object(map[OP := String(REPLACE), PATH := String(path), VALUE := v])
  }

  function AddOp(path: bytes, v: Json): Json {
    Object(map[OP := String(ADD), PATH := String(path), VALUE := v])
  }

  function RemoveOp(path: bytes): Json {
    Object(map[OP := String(REMOVE), PATH := String(path)])
  }

  function IndexPath(path: bytes, i: nat): bytes {
    path + [SLASH] + Numeral(i)
  }

  function KeyPath(path: bytes, key: bytes): bytes {
    path + [SLASH] + Escaped(key)
  }

  function Min(a: nat, b: nat): nat {
    if a < b then a else b
  }

  /** The operations that `diff` emits for two values at `path`. */
  function DiffOps(s: Json, t: Json, path: bytes): seq<Json>
    decreases s, 1
  {
    if Eq(s, t) then []
    else if !SameType(s, t) then [ReplaceOp(path, t)]
    else
      match s
      case Array(a) =>
        DiffElements(s, t, path, Min(|a|, |t.a|)) + Removes(path, |t.a|, |a|) + Adds(path, t.a, |a|)
      case Object(m) =>
        DiffMembers(s, t, path, SortedKeys(m.Keys)) + AddMembers(s, t, path, SortedKeys(t.m.Keys))
      case _ => [ReplaceOp(path, t)]
  }

  /** The operations for the first `n` elements that both arrays have. */
  function DiffElements(s: Json, t: Json, path: bytes, n: nat): seq<Json>
    requires s.Array? && t.Array? && n <= |s.a| && n <= |t.a|
    decreases s, 0, n
  {
    if n == 0 then []
    else DiffElements(s, t, path, n - 1) + DiffOps(s.a[n - 1], t.a[n - 1], IndexPath(path, n - 1))
  }

  /** The removal of the elements from `from` to `to`, last first. */
  function Removes(path: bytes, from: nat, to: nat): seq<Json>
    decreases to
  {
    if to <= from then [] else [RemoveOp(IndexPath(path, to - 1))] + Removes(path, from, to - 1)
  }

  /** The addition of the elements of `a` from index `from` on. */
  function Adds(path: bytes, a: seq<Json>, from: nat): seq<Json>
    decreases |a| - from
  {
    if |a| <= from then [] else [AddOp(IndexPath(path, from), a[from])] + Adds(path, a, from + 1)
  }

  /** The operations of the first pass over an object, for the given keys of the source. */
  function DiffMembers(s: Json, t: Json, path: bytes, ks: seq<bytes>): seq<Json>
    requires s.Object? && t.Object? && forall k :: k in ks ==> k in s.m
    decreases s, 0, |ks|
  {
    if ks == [] then []
    else
      var k := ks[|ks| - 1];
      DiffMembers(s, t, path, ks[..|ks| - 1]) +
      if k in t.m then DiffOps(s.m[k], t.m[k], KeyPath(path, k)) else [RemoveOp(KeyPath(path, k))]
  }

  /** The operations of the second pass over an object, for the given keys of the target. */
  function AddMembers(s: Json, t: Json, path: bytes, ks: seq<bytes>): seq<Json>
    requires s.Object? && t.Object? && forall k :: k in ks ==> k in t.m
    decreases |ks|
  {
    if ks == [] then []
    else
      var k := ks[|ks| - 1];
      AddMembers(s, t, path, ks[..|ks| - 1]) +
      if k in s.m then [] else [AddOp(KeyPath(path, k), t.m[k])]
  }

  /** `diff`. */
  method DiffValues(s: Json, t: Json, path: bytes) returns (result: seq<Json>)
    ensures result == DiffOps(s, t, path)
    decreases s, 1
  {
    if Eq(s, t) {
      return [];
    }
    if !SameType(s, t) {
      return [ReplaceOp(path, t)];
    }
    match s
    case Array(_) => result := DiffArrays(s, t, path);
    case Object(_) => result := DiffObjects(s, t, path);
    case _ => result := [ReplaceOp(path, t)];
  }

  method DiffArrays(s: Json, t: Json, path: bytes) returns (result: seq<Json>)
    requires s.Array? && t.Array?
    ensures result == DiffElements(s, t, path, Min(|s.a|, |t.a|)) + Removes(path, |t.a|, |s.a|) + Adds(path, t.a, |s.a|)
    decreases s, 0
  {
    result := [];
    var i := 0;
    while i < |s.a| && i < |t.a|
      invariant i <= Min(|s.a|, |t.a|)
      invariant result == DiffElements(s, t, path, i)
    {
      var ops := DiffValues(s.a[i], t.a[i], path + [SLASH] + Numeral(i));
      result := result + ops;
      i := i + 1;
    }
    result := RemoveRest(result, path, i, |t.a|, |s.a|);
    result := AddRest(result, path, t.a, |s.a|);
  }

  /** Each removal goes in front of the ones before it, so that the indices stay valid. */
  method RemoveRest(before: seq<Json>, path: bytes, start: nat, from: nat, to: nat) returns (result: seq<Json>)
    requires start == Min(from, to)
    ensures result == before + Removes(path, from, to)
  {
    result := before;
    var endIndex := |result|;
    var i := start;
    while i < to
      invariant start <= i && (i <= to || i == start)
      invariant result == before + Removes(path, from, i)
    {
      assert result[..endIndex] == before && result[endIndex..] == Removes(path, from, i);
      result := result[..endIndex] + [RemoveOp(path + [SLASH] + Numeral(i))] + result[endIndex..];
      i := i + 1;
    }
  }

  method AddRest(before: seq<Json>, path: bytes, a: seq<Json>, start: nat) returns (result: seq<Json>)
    ensures result == before + Adds(path, a, start)
  {
    result := before;
    var i := start;
    while i < |a|
      invariant start <= i
      invariant result + Adds(path, a, i) == before + Adds(path, a, start)
    {
      ghost var rest := Adds(path, a, i + 1);
      assert result + ([AddOp(IndexPath(path, i), a[i])] + rest) == result + [AddOp(IndexPath(path, i), a[i])] + rest;
      result := result + [AddOp(path + [SLASH] + Numeral(i), a[i])];
      i := i + 1;
    }
    assert result + [] == result;
  }

  lemma DiffMembersStep(s: Json, t: Json, path: bytes, ks: seq<bytes>, i: nat)
    requires s.Object? && t.Object? && i < |ks| && forall k :: k in ks ==> k in s.m
    ensures DiffMembers(s, t, path, ks[..i + 1]) ==
      DiffMembers(s, t, path, ks[..i]) +
      if ks[i] in t.m then DiffOps(s.m[ks[i]], t.m[ks[i]], KeyPath(path, ks[i])) else [RemoveOp(KeyPath(path, ks[i]))]
  {
    hide DiffOps, KeyPath, RemoveOp;
    assert ks[..i + 1][..i] == ks[..i];
  }

  method DiffObjects(s: Json, t: Json, path: bytes) returns (result: seq<Json>)
    requires s.Object? && t.Object?
    ensures result ==
      DiffMembers(s, t, path, SortedKeys(s.m.Keys)) + AddMembers(s, t, path, SortedKeys(t.m.Keys))
    decreases s, 0
  {
    hide DiffOps, AddMembers, RemoveOp, SortedKeys, Escaped;
    result := [];
    var ks := SortedKeys(s.m.Keys);
    for i := 0 to |ks|
      invariant result == DiffMembers(s, t, path, ks[..i])
    {
      DiffMembersStep(s, t, path, ks, i);
      var key := Pointer.Escape(ks[i]);
      if ks[i] in t.m {
        var ops := DiffValues(s.m[ks[i]], t.m[ks[i]], path + [SLASH] + key);
        result := result + ops;
      } else {
        result := result + [RemoveOp(path + [SLASH] + key)];
      }
    }
    assert ks[..|ks|] == ks;
    result := AddMissing(result, s, t, path);
  }

  lemma AddMembersStep(s: Json, t: Json, path: bytes, ks: seq<bytes>, i: nat)
    requires s.Object? && t.Object? && i < |ks| && forall k :: k in ks ==> k in t.m
    ensures AddMembers(s, t, path, ks[..i + 1]) ==
      AddMembers(s, t, path, ks[..i]) + if ks[i] in s.m then [] else [AddOp(KeyPath(path, ks[i]), t.m[ks[i]])]
  {
    assert ks[..i + 1][..i] == ks[..i];
  }

  /** The second pass: members that only the target has. */
  method AddMissing(before: seq<Json>, s: Json, t: Json, path: bytes) returns (result: seq<Json>)
    requires s.Object? && t.Object?
    ensures result == before + AddMembers(s, t, path, SortedKeys(t.m.Keys))
  {
    var ks := SortedKeys(t.m.Keys);
    var added: seq<Json> := [];
    for i := 0 to |ks|
      invariant added == AddMembers(s, t, path, ks[..i])
    {
      AddMembersStep(s, t, path, ks, i);
      if ks[i] !in s.m {
        var key := Pointer.Escape(ks[i]);
        added := added + [AddOp(path + [SLASH] + key, t.m[ks[i]])];
      }
    }
    assert ks[..|ks|] == ks;
    result := before + added;
  }
}
