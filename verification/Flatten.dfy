/**
 `flatten` and `unflatten`: a value as an object that maps JSON pointers to primitive values.
 */
module Flatten {
  import opened Bytes
  import opened Wrappers
  import opened Value
  import opened Decimal
  import opened Pointer
  import opened Access

  // ----- flatten -----

  /** The entries that `flatten` adds for `j` below the pointer string `path`. */
  function FlatMap(path: bytes, j: Json): map<bytes, Json>
    decreases j, 1
  {
    match j
    case Array(a) => if a == [] then map[path := Null] else FlatElements(path, j, |a|)
    case Object(m) => if m == map[] then map[path := Null] else FlatMembers(path, j, SortedKeys(m.Keys))
    case _ => map[path := j]
  }

  /** The entries for the first `n` elements of an array. */
  function FlatElements(path: bytes, j: Json, n: nat): map<bytes, Json>
    requires j.Array? && n <= |j.a|
    decreases j, 0, n
  {
    if n == 0 then map[]
    else FlatElements(path, j, n - 1) + FlatMap(path + [SLASH] + Numeral(n - 1), j.a[n - 1])
  }

  /** The entries for the members with the given keys. */
  function FlatMembers(path: bytes, j: Json, ks: seq<bytes>): map<bytes, Json>
    requires j.Object? && forall k :: k in ks ==> k in j.m
    decreases j, 0, |ks|
  {
    if ks == [] then map[]
    else
      FlatMembers(path, j, ks[..|ks| - 1]) +
      FlatMap(path + [SLASH] + Escaped(ks[|ks| - 1]), j.m[ks[|ks| - 1]])
  }

  /** The object that `flatten` fills. */
  class FlatObject {
    var m: map<bytes, Json>

    constructor ()
      ensures m == map[]
    {
      m := map[];
    }

    /** `json_pointer::flatten`. */
    method Flatten(path: bytes, j: Json)
      modifies this
      ensures m == old(m) + FlatMap(path, j)
      decreases j, 1
    {
      match j
      case Array(a) =>
        if a == [] {
          m := m[path := Null];
        } else {
          FlattenElements(path, j);
        }
      case Object(o) =>
        if o == map[] {
          m := m[path := Null];
        } else {
          FlattenMembers(path, j);
        }
      case _ => m := m[path := j];
    }

    method FlattenElements(path: bytes, j: Json)
      requires j.Array?
      modifies this
      ensures m == old(m) + FlatElements(path, j, |j.a|)
      decreases j, 0
    {
      hide FlatMap, Numeral;
      for i := 0 to |j.a|
        invariant m == old(m) + FlatElements(path, j, i)
      {
        Flatten(path + [SLASH] + Numeral(i), j.a[i]);
        MapPlusAssociative(old(m), FlatElements(path, j, i), FlatMap(path + [SLASH] + Numeral(i), j.a[i]));
      }
    }

    method FlattenMembers(path: bytes, j: Json)
      requires j.Object?
      modifies this
      ensures m == old(m) + FlatMembers(path, j, SortedKeys(j.m.Keys))
      decreases j, 0
    {
      hide FlatMap, SortedKeys;
      var ks := SortedKeys(j.m.Keys);
      for i := 0 to |ks|
        invariant m == old(m) + FlatMembers(path, j, ks[..i])
      {
        var key := Pointer.Escape(ks[i]);
        Flatten(path + [SLASH] + key, j.m[ks[i]]);
        assert ks[..i + 1][..i] == ks[..i];
        MapPlusAssociative(old(m), FlatMembers(path, j, ks[..i]), FlatMap(path + [SLASH] + key, j.m[ks[i]]));
      }
      assert ks[..|ks|] == ks;
    }
  }

  lemma MapPlusAssociative<K, V>(a: map<K, V>, b: map<K, V>, c: map<K, V>)
    ensures a + b + c == a + (b + c)
  {
  }

  /** `j.flatten()`. */
  method FlattenValue(j: Json) returns (r: Json)
    ensures r == Object(FlatMap([], j))
  {
    var result := new FlatObject();
    result.Flatten([], j);
    assert map[] + FlatMap([], j) == FlatMap([], j);
    r := Object(result.m);
  }

  // ----- unflatten -----

  /** The assignment through `get_and_create`. */
  function CreateSet(j: Json, ptr: seq<bytes>, v: Json): Result<Json>
    decreases |ptr|
  {
    if ptr == [] then Ok(v)
    else
      match j
      case Null =>
        if ptr[0] == INDEX0 then
          var child :- CreateSet(Null, ptr[1..], v);
          Ok(Array([child]))
        else
          var child :- CreateSet(Null, ptr[1..], v);
          Ok(Object(map[ptr[0] := child]))
      case Object(m) =>
        var child :- CreateSet(Member(m, ptr[0]), ptr[1..], v);
        Ok(Object(m[ptr[0] := child]))
      case Array(a) =>
        var i :- Stoi(ptr[0]);
        if i < 0 then Err(LengthError)
        else
          var child :- CreateSet(Element(a, i), ptr[1..], v);
          Ok(Array(Filled(a, i)[i := child]))
      case _ => Err(DomainError)
  }

  /** One round of the loop of `unflatten`. */
  function UnflattenStep(j: Json, key: bytes, v: Json): Result<Json> {
    if !v.IsPrimitive() then Err(DomainError)
    else
      var ptr :- Split(key);
      CreateSet(j, ptr, v)
  }

  /** The loop of `unflatten` over the given keys. */
  function UnflattenKeys(j: Json, ks: seq<bytes>, m: map<bytes, Json>): Result<Json>
    requires forall k :: k in ks ==> k in m
    decreases |ks|
  {
    if ks == [] then Ok(j)
    else
      var next :- UnflattenStep(j, ks[0], m[ks[0]]);
      UnflattenKeys(next, ks[1..], m)
  }

  /** `j.unflatten()`. */
  function Unflatten(j: Json): Result<Json> {
    if !j.Object? then Err(DomainError) else UnflattenKeys(Null, SortedKeys(j.m.Keys), j.m)
  }

  method UnflattenValue(j: Json) returns (r: Result<Json>)
    requires j.Object? ==> forall k :: k in j.m ==> |k| < NPOS
    ensures r == Unflatten(j)
  {
    if !j.Object? {
      return Err(DomainError);
    }
    var ks := SortedKeys(j.m.Keys);
    var result := Null;
    assert ks[0..] == ks;
    for i := 0 to |ks|
      invariant Unflatten(j) == UnflattenKeys(result, ks[i..], j.m)
    {
      assert ks[i..][1..] == ks[i + 1..];
      var v := j.m[ks[i]];
      if !v.IsPrimitive() {
        return Err(DomainError);
      }
      var ptr := SplitPointer(ks[i]);
      if ptr.Err? {
        return Err(ptr.error);
      }
      var next := CreateSet(result, ptr.value, v);
      if next.Err? {
        return next;
      }
      result := next.value;
    }
    r := Ok(result);
  }

  // ----- the places of primitive values -----

  /** What `flatten` stores for the place that `ptr` leads to, if it stores anything there. */
  function Leaf(j: Json, ptr: seq<bytes>): Option<Json>
    decreases |ptr|
  {
    match j
    case Array(a) =>
      if a == [] then (if ptr == [] then Some(Null) else None)
      else if ptr != [] && CanonicalIndex(ptr[0]) && Number(ptr[0]) < |a| then Leaf(a[Number(ptr[0])], ptr[1..])
      else None
    case Object(m) =>
      if m == map[] then (if ptr == [] then Some(Null) else None)
      else if ptr != [] && ptr[0] in m then Leaf(m[ptr[0]], ptr[1..])
      else None
    case _ => if ptr == [] then Some(j) else None
  }

  ghost predicate Composite(j: Json) {
    (j.Array? && j.a != []) || (j.Object? && j.m != map[])
  }

  lemma {:induction false} LeafPrimitive(j: Json, ptr: seq<bytes>)
    requires Leaf(j, ptr).Some?
    ensures Leaf(j, ptr).value.IsPrimitive()
    decreases |ptr|
  {
    if Composite(j) {
      LeafPrimitive(if j.Array? then j.a[Number(ptr[0])] else j.m[ptr[0]], ptr[1..]);
    }
  }

  /** Every value has a leaf. */
  lemma {:induction false} LeafExists(j: Json) returns (ptr: seq<bytes>)
    ensures Leaf(j, ptr).Some?
  {
    ptr := [];
    if j.Array? && j.a != [] {
      var rest := LeafExists(j.a[0]);
      NumberOfNumeral(0);
      ptr := [Numeral(0)] + rest;
      assert ptr[1..] == rest;
    } else if j.Object? && j.m != map[] {
      var k :| k in j.m;
      var rest := LeafExists(j.m[k]);
      ptr := [k] + rest;
      assert ptr[1..] == rest;
    }
  }

  /** `m` holds the leaves of `j` below `path`, and nothing else. */
  ghost predicate HoldsLeaves(m: map<bytes, Json>, path: seq<bytes>, j: Json)
  {
    && (forall ptr :: Leaf(j, ptr).Some? ==> ToString(path + ptr) in m && m[ToString(path + ptr)] == Leaf(j, ptr).value)
    && (forall key :: key in m ==> exists ptr :: Leaf(j, ptr).Some? && key == ToString(path + ptr))
  }

  lemma ToStringInjective(p: seq<bytes>, q: seq<bytes>)
    requires ToString(p) == ToString(q)
    ensures p == q
  {
    SplitToString(p);
    SplitToString(q);
  }

  /** `ptr` is the place of a leaf and begins with one of the tokens. */
  ghost predicate LeafAmong(j: Json, ptr: seq<bytes>, tokens: set<bytes>) {
    Leaf(j, ptr).Some? && ptr != [] && ptr[0] in tokens
  }

  /** `m` holds the leaves of `j` below `path` that begin with one of the tokens, and nothing else. */
  ghost predicate HoldsLeavesOf(m: map<bytes, Json>, path: seq<bytes>, j: Json, tokens: set<bytes>)
  {
    && (forall ptr :: LeafAmong(j, ptr, tokens) ==>
          ToString(path + ptr) in m && m[ToString(path + ptr)] == Leaf(j, ptr).value)
    && (forall key :: key in m ==> exists ptr :: LeafAmong(j, ptr, tokens) && key == ToString(path + ptr))
  }

  /** The child of a composite value that a leaf path leads into first. */
  ghost function SubValue(j: Json, token: bytes): Json
    requires Composite(j)
    requires if j.Array? then CanonicalIndex(token) && Number(token) < |j.a| else token in j.m
  {
    if j.Array? then j.a[Number(token)] else j.m[token]
  }

  ghost predicate IsChildToken(j: Json, token: bytes)
    requires Composite(j)
  {
    if j.Array? then CanonicalIndex(token) && Number(token) < |j.a| else token in j.m
  }

  lemma LeafStep(j: Json, token: bytes, p: seq<bytes>)
    requires Composite(j) && IsChildToken(j, token)
    ensures Leaf(j, [token] + p) == Leaf(SubValue(j, token), p)
  {
    assert ([token] + p)[1..] == p;
  }

  lemma LeafSplit(j: Json, ptr: seq<bytes>)
    requires Composite(j) && Leaf(j, ptr).Some?
    ensures ptr != [] && IsChildToken(j, ptr[0]) && ptr == [ptr[0]] + ptr[1..]
    ensures Leaf(SubValue(j, ptr[0]), ptr[1..]) == Leaf(j, ptr)
  {
  }

  lemma HoldsLeavesAdd(
      m: map<bytes, Json>, path: seq<bytes>, j: Json, tokens: set<bytes>, token: bytes, add: map<bytes, Json>)
    requires Composite(j) && token !in tokens && IsChildToken(j, token)
    requires HoldsLeavesOf(m, path, j, tokens)
    requires HoldsLeaves(add, path + [token], SubValue(j, token))
    ensures HoldsLeavesOf(m + add, path, j, tokens + {token})
  {
    hide Leaf, ToString;
    forall ptr | LeafAmong(j, ptr, tokens + {token})
      ensures ToString(path + ptr) in m + add && (m + add)[ToString(path + ptr)] == Leaf(j, ptr).value
    {
      LeafKept(m, path, j, tokens, token, add, ptr);
    }
    forall key | key in m + add
      ensures exists ptr :: LeafAmong(j, ptr, tokens + {token}) && key == ToString(path + ptr)
    {
      if key in add {
        var ptr := AddedKey(path, j, token, add, key);
        assert LeafAmong(j, ptr, tokens + {token});
      } else {
        var ptr :| LeafAmong(j, ptr, tokens) && key == ToString(path + ptr);
        assert LeafAmong(j, ptr, tokens + {token});
      }
    }
  }

  lemma LeafKept(
      m: map<bytes, Json>, path: seq<bytes>, j: Json, tokens: set<bytes>, token: bytes, add: map<bytes, Json>,
      ptr: seq<bytes>)
    requires Composite(j) && token !in tokens && IsChildToken(j, token)
    requires HoldsLeavesOf(m, path, j, tokens)
    requires HoldsLeaves(add, path + [token], SubValue(j, token))
    requires LeafAmong(j, ptr, tokens + {token})
    ensures ToString(path + ptr) in m + add && (m + add)[ToString(path + ptr)] == Leaf(j, ptr).value
  {
    hide Leaf, ToString;
    LeafSplit(j, ptr);
    if ptr[0] == token {
      assert path + ptr == path + [token] + ptr[1..];
    } else {
      NotBelow(add, path, token, SubValue(j, token), ptr);
      assert LeafAmong(j, ptr, tokens);
    }
  }

  /** A key that was added for the child is the place of a leaf below it. */
  lemma AddedKey(path: seq<bytes>, j: Json, token: bytes, add: map<bytes, Json>, key: bytes) returns (ptr: seq<bytes>)
    requires Composite(j) && IsChildToken(j, token)
    requires HoldsLeaves(add, path + [token], SubValue(j, token))
    requires key in add
    ensures LeafAmong(j, ptr, {token}) && key == ToString(path + ptr)
  {
    hide Leaf, ToString;
    var p :| Leaf(SubValue(j, token), p).Some? && key == ToString(path + [token] + p);
    LeafStep(j, token, p);
    ptr := [token] + p;
    assert path + ptr == path + [token] + p;
  }

  lemma AppendInjective(path: seq<bytes>, ptr: seq<bytes>, token: bytes, p: seq<bytes>)
    requires path + ptr == path + [token] + p
    ensures ptr == [token] + p
  {
    assert (path + ptr)[|path|..] == ptr;
    assert path + [token] + p == path + ([token] + p);
    assert (path + ([token] + p))[|path|..] == [token] + p;
  }

  lemma NotBelow(add: map<bytes, Json>, path: seq<bytes>, token: bytes, child: Json, ptr: seq<bytes>)
    requires HoldsLeaves(add, path + [token], child) && ptr != [] && ptr[0] != token
    ensures ToString(path + ptr) !in add
  {
    hide Leaf, ToString;
    var key := ToString(path + ptr);
    if key in add {
      var p :| Leaf(child, p).Some? && key == ToString(path + [token] + p);
      ToStringInjective(path + ptr, path + [token] + p);
      AppendInjective(path, ptr, token, p);
      assert false;
    }
  }

  /** `flatten` stores exactly the leaves, under their pointers. */
  lemma {:induction false} FlatMapHolds(path: seq<bytes>, j: Json)
    ensures HoldsLeaves(FlatMap(ToString(path), j), path, j)
    decreases j, 2
  {
    if !Composite(j) {
      SingleLeaf(path, j);
    } else if j.Array? {
      ArrayHolds(path, j);
    } else {
      ObjectHolds(path, j);
    }
  }

  lemma {:induction false} ArrayHolds(path: seq<bytes>, j: Json)
    requires j.Array? && j.a != []
    ensures HoldsLeaves(FlatMap(ToString(path), j), path, j)
    decreases j, 1
  {
    FlatElementsHold(path, j, |j.a|);
    AllTokens(FlatElements(ToString(path), j, |j.a|), path, j, Indices(|j.a|));
  }

  lemma {:induction false} ObjectHolds(path: seq<bytes>, j: Json)
    requires j.Object? && j.m != map[]
    ensures HoldsLeaves(FlatMap(ToString(path), j), path, j)
    decreases j, 1
  {
    var ks := SortedKeys(j.m.Keys);
    FlatMembersHold(path, j, ks, |ks|);
    assert ks[..|ks|] == ks;
    assert KeySet(ks) == j.m.Keys;
    AllTokens(FlatMembers(ToString(path), j, ks), path, j, j.m.Keys);
  }

  lemma SingleLeaf(path: seq<bytes>, j: Json)
    requires !Composite(j)
    ensures HoldsLeaves(FlatMap(ToString(path), j), path, j)
  {
    assert path + [] == path;
    assert Leaf(j, []).Some?;
  }

  /** The tokens of the indices below `n`. */
  ghost function Indices(n: nat): set<bytes> {
    set i | 0 <= i < n :: Numeral(i)
  }

  lemma AllTokens(m: map<bytes, Json>, path: seq<bytes>, j: Json, tokens: set<bytes>)
    requires Composite(j) && HoldsLeavesOf(m, path, j, tokens)
    requires if j.Array? then tokens == Indices(|j.a|) else tokens == j.m.Keys
    ensures HoldsLeaves(m, path, j)
  {
    forall ptr | Leaf(j, ptr).Some? ensures LeafAmong(j, ptr, tokens) {
      LeafSplit(j, ptr);
      if j.Array? {
        NumeralOfNumber(ptr[0]);
      }
    }
  }

  lemma {:induction false} FlatElementsHold(path: seq<bytes>, j: Json, n: nat)
    requires j.Array? && j.a != [] && n <= |j.a|
    ensures HoldsLeavesOf(FlatElements(ToString(path), j, n), path, j, Indices(n))
    decreases j, 0, n
  {
    hide FlatMap, Numeral, ToString, HoldsLeaves, HoldsLeavesOf, Escaped, Number;
    if n == 0 {
      NothingHolds(path, j);
      assert Indices(0) == {};
    } else {
      var token := Numeral(n - 1);
      FlatElementsHold(path, j, n - 1);
      NumberOfNumeral(n - 1);
      PlainNumeral(n - 1);
      ToStringAppend(path, token);
      FlatMapHolds(path + [token], j.a[n - 1]);
      if token in Indices(n - 1) {
        var i :| 0 <= i < n - 1 && token == Numeral(i);
        NumeralInjective(i, n - 1);
        assert false;
      }
      HoldsLeavesAdd(FlatElements(ToString(path), j, n - 1), path, j, Indices(n - 1), token,
                     FlatMap(ToString(path + [token]), j.a[n - 1]));
      assert Indices(n) == Indices(n - 1) + {token};
    }
  }

  lemma NothingHolds(path: seq<bytes>, j: Json)
    ensures HoldsLeavesOf(map[], path, j, {})
  {
  }

  lemma PlainNumeral(n: nat)
    ensures Escaped(Numeral(n)) == Numeral(n)
  {
    assert forall c :: c in Numeral(n) ==> IsDigit(c);
    EscapedPlain(Numeral(n));
  }

  lemma {:induction false} FlatMembersHold(path: seq<bytes>, j: Json, ks: seq<bytes>, n: nat)
    requires j.Object? && j.m != map[] && ks == SortedKeys(j.m.Keys) && n <= |ks|
    ensures HoldsLeavesOf(FlatMembers(ToString(path), j, ks[..n]), path, j, KeySet(ks[..n]))
    decreases j, 0, n
  {
    hide FlatMap, ToString, HoldsLeaves, HoldsLeavesOf, Escaped, SortedKeys;
    if n == 0 {
      NothingHolds(path, j);
      assert KeySet(ks[..0]) == {};
    } else {
      var token := ks[n - 1];
      FlatMembersHold(path, j, ks, n - 1);
      FlatMapHolds(path + [token], j.m[token]);
      ToStringAppend(path, token);
      LastKey(ks, n);
      HoldsLeavesAdd(FlatMembers(ToString(path), j, ks[..n - 1]), path, j, KeySet(ks[..n - 1]), token,
                     FlatMap(ToString(path + [token]), j.m[token]));
    }
  }

  lemma LastKey(ks: seq<bytes>, n: nat)
    requires Ascending(ks) && 0 < n <= |ks|
    ensures ks[n - 1] !in KeySet(ks[..n - 1])
    ensures KeySet(ks[..n]) == KeySet(ks[..n - 1]) + {ks[n - 1]}
    ensures ks[..n][..n - 1] == ks[..n - 1]
  {
    hide Less;
    assert ks[..n][..n - 1] == ks[..n - 1];
    KeySetLast(ks[..n]);
  }
}
