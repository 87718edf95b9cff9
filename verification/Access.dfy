/**
 Following JSON pointers through a value: checked, unchecked and creating access.

 A C++ reference that is assigned through is modelled by the pair "value at the place" and
 "whole value after the assignment".
 */
module Access {
  import opened Bytes
  import opened Wrappers
  import opened Value
  import opened Decimal

  const DASH: bytes := ['-' as int]
  const INDEX0: bytes := ['0' as int]

  // ----- checked access -----

  /** The index that a reference token denotes for a bounds-checked array access. */
  function ArrayIndex(token: bytes): Result<int> {
    if token == DASH then Err(OutOfRange)
    else if |token| > 1 && token[0] == ZERO then Err(DomainError)
    else Stoi(token)
  }

  /** One step of `get_checked`. */
  function Child(j: Json, token: bytes): (r: Result<Json>)
    ensures r.Ok? ==> j.Array? || j.Object?
  {
    match j
    case Object(m) => if token in m then Ok(m[token]) else Err(OutOfRange)
    case Array(a) =>
      var i :- ArrayIndex(token);
      if 0 <= i < |a| then Ok(a[i]) else Err(OutOfRange)
    case _ => Err(OutOfRange)
  }

  /** The value with the child at `token` replaced. */
  function WithChild(j: Json, token: bytes, child: Json): Json
    requires Child(j, token).Ok?
  {
    if j.Object? then Object(j.m[token := child]) else Array(j.a[ArrayIndex(token).value := child])
  }

  /** `at(ptr)`, for reading. */
  function Get(j: Json, ptr: seq<bytes>): Result<Json> {
    if ptr == [] then Ok(j)
    else
      var child :- Child(j, ptr[0]);
      Get(child, ptr[1..])
  }

  /** `at(ptr) = v`. */
  function Set(j: Json, ptr: seq<bytes>, v: Json): Result<Json> {
    if ptr == [] then Ok(v)
    else
      var child :- Child(j, ptr[0]);
      var child' :- Set(child, ptr[1..], v);
      Ok(WithChild(j, ptr[0], child'))
  }

  /** `get_checked` for reading. */
  method GetChecked(j: Json, ptr: seq<bytes>) returns (r: Result<Json>)
    ensures r == Get(j, ptr)
  {
    var here := j;
    var i := 0;
    assert ptr[0..] == ptr;
    while i < |ptr|
      invariant 0 <= i <= |ptr|
      invariant Get(j, ptr) == Get(here, ptr[i..])
    {
      var child := Child(here, ptr[i]);
      assert ptr[i..][1..] == ptr[i + 1..];
      if child.Err? {
        return child;
      }
      here := child.value;
      i := i + 1;
    }
    r := Ok(here);
  }

  lemma ChildWithChild(j: Json, token: bytes, v: Json)
    requires Child(j, token).Ok?
    ensures Child(WithChild(j, token, v), token) == Ok(v)
    ensures forall w :: WithChild(WithChild(j, token, v), token, w) == WithChild(j, token, w)
    ensures WithChild(j, token, Child(j, token).value) == j
  {
  }

  /** Assigning and reading back through a pointer that resolves. */
  lemma {:induction false} GetSet(j: Json, ptr: seq<bytes>, v: Json)
    ensures Set(j, ptr, v).Ok? <==> Get(j, ptr).Ok?
    ensures Get(j, ptr).Err? ==> Set(j, ptr, v) == Err(Get(j, ptr).error)
    ensures Set(j, ptr, v).Ok? ==> Get(Set(j, ptr, v).value, ptr) == Ok(v)
    ensures Get(j, ptr).Ok? ==> Set(j, ptr, Get(j, ptr).value) == Ok(j)
  {
    if ptr != [] && Child(j, ptr[0]).Ok? {
      var child := Child(j, ptr[0]).value;
      GetSet(child, ptr[1..], v);
      if Set(j, ptr, v).Ok? {
        ChildWithChild(j, ptr[0], Set(child, ptr[1..], v).value);
      }
    }
  }

  /** The second assignment to a place wins. */
  lemma {:induction false} SetSet(j: Json, ptr: seq<bytes>, v: Json, w: Json)
    requires Get(j, ptr).Ok?
    ensures Set(j, ptr, v).Ok? && Set(Set(j, ptr, v).value, ptr, w) == Set(j, ptr, w)
  {
    GetSet(j, ptr, v);
    if ptr != [] {
      var child := Child(j, ptr[0]).value;
      SetSet(child, ptr[1..], v, w);
      GetSet(child, ptr[1..], w);
      ChildWithChild(j, ptr[0], Set(child, ptr[1..], v).value);
    }
  }

  /** Reading through a pointer, one token at a time from its end. */
  lemma {:induction false} GetAppend(j: Json, ptr: seq<bytes>, token: bytes)
    ensures Get(j, ptr + [token]) == if Get(j, ptr).Ok? then Child(Get(j, ptr).value, token) else Get(j, ptr)
  {
    if ptr == [] {
      assert ptr + [token] == [token];
    } else {
      assert (ptr + [token])[1..] == ptr[1..] + [token];
      if Child(j, ptr[0]).Ok? {
        GetAppend(Child(j, ptr[0]).value, ptr[1..], token);
      }
    }
  }

  /** Assigning to a child is assigning the changed parent. */
  lemma {:induction false} SetAppend(j: Json, ptr: seq<bytes>, token: bytes, v: Json)
    requires Get(j, ptr).Ok? && Child(Get(j, ptr).value, token).Ok?
    ensures Set(j, ptr + [token], v) == Set(j, ptr, WithChild(Get(j, ptr).value, token, v))
  {
    if ptr == [] {
      assert ptr + [token] == [token];
    } else {
      assert (ptr + [token])[1..] == ptr[1..] + [token];
      SetAppend(Child(j, ptr[0]).value, ptr[1..], token, v);
    }
  }

  // ----- unchecked access -----

  /** `get_unchecked` turns a null into the container that fits the token. */
  function Converted(j: Json, token: bytes): Json {
    if !j.Null? then j
    else if AllDigits(token) || token == DASH then Array([])
    else Object(map[])
  }

  /** The position that a token denotes for an unchecked access to an array of the given size. */
  function UncheckedIndex(size: nat, token: bytes): (r: Result<int>)
    ensures r.Ok? ==> r.value >= 0
  {
    if |token| > 1 && token[0] == ZERO then Err(DomainError)
    else if token == DASH then Ok(size)
    else
      var i :- Stoi(token);
      if i < 0 then Err(LengthError) else Ok(i)
  }

  /** The array after `operator[](i)`: filled up with nulls as far as needed. */
  function Filled(a: seq<Json>, i: nat): (b: seq<Json>)
    ensures i < |b| && |a| <= |b| && b[..|a|] == a
    ensures forall k | |a| <= k < |b| :: b[k] == Null
    ensures i < |a| ==> b == a
    ensures |b| == if i < |a| then |a| else i + 1
  {
    if i < |a| then a else a + seq(i + 1 - |a|, _ => Null)
  }

  /** The value behind `operator[](token)` on an object. */
  function Member(m: map<bytes, Json>, token: bytes): Json {
    if token in m then m[token] else Null
  }

  /** The value behind `operator[](i)` on an array. */
  function Element(a: seq<Json>, i: nat): Json {
    if i < |a| then a[i] else Null
  }

  /** The value that `j[ptr]` refers to before it is assigned. */
  function Target(j: Json, ptr: seq<bytes>): Result<Json>
    decreases |ptr|
  {
    if ptr == [] then Ok(j)
    else
      match Converted(j, ptr[0])
      case Object(m) => Target(Member(m, ptr[0]), ptr[1..])
      case Array(a) =>
        var i :- UncheckedIndex(|a|, ptr[0]);
        Target(Element(a, i), ptr[1..])
      case _ => Err(OutOfRange)
  }

  /** `j[ptr] = v`. */
  function SetUnchecked(j: Json, ptr: seq<bytes>, v: Json): Result<Json>
    decreases |ptr|
  {
    if ptr == [] then Ok(v)
    else
      match Converted(j, ptr[0])
      case Object(m) =>
        var child :- SetUnchecked(Member(m, ptr[0]), ptr[1..], v);
        Ok(Object(m[ptr[0] := child]))
      case Array(a) =>
        var i :- UncheckedIndex(|a|, ptr[0]);
        var child :- SetUnchecked(Element(a, i), ptr[1..], v);
        Ok(Array(Filled(a, i)[i := child]))
      case _ => Err(OutOfRange)
  }

  /** Where checked access succeeds, unchecked access does the same. */
  lemma {:induction false} UncheckedAgrees(j: Json, ptr: seq<bytes>, v: Json)
    requires Get(j, ptr).Ok?
    ensures Target(j, ptr) == Get(j, ptr)
    ensures SetUnchecked(j, ptr, v) == Set(j, ptr, v)
  {
    if ptr != [] {
      UncheckedAgrees(Child(j, ptr[0]).value, ptr[1..], v);
    }
  }

  /** The write appends to an array through the token `-`. */
  predicate Appends(j: Json, ptr: seq<bytes>)
    decreases |ptr|
  {
    ptr != [] &&
    match Converted(j, ptr[0])
    case Object(m) => Appends(Member(m, ptr[0]), ptr[1..])
    case Array(a) =>
      ptr[0] == DASH ||
      (UncheckedIndex(|a|, ptr[0]).Ok? && Appends(Element(a, UncheckedIndex(|a|, ptr[0]).value), ptr[1..]))
    case _ => false
  }

  /** A written value is found again by `at`, unless `-` was used as an array index. */
  lemma {:induction false} WriteThenRead(j: Json, ptr: seq<bytes>, v: Json)
    requires SetUnchecked(j, ptr, v).Ok?
    ensures Get(SetUnchecked(j, ptr, v).value, ptr) == Ok(v) <==> !Appends(j, ptr)
    ensures Appends(j, ptr) ==> Get(SetUnchecked(j, ptr, v).value, ptr).Err?
    decreases |ptr|
  {
    if ptr != [] {
      match Converted(j, ptr[0])
      case Object(m) => WriteThenRead(Member(m, ptr[0]), ptr[1..], v);
      case Array(a) => WriteThenRead(Element(a, UncheckedIndex(|a|, ptr[0]).value), ptr[1..], v);
    }
  }

  /** The two pointers part at a container of `j`: different keys, or different array positions. */
  predicate Diverge(j: Json, p: seq<bytes>, q: seq<bytes>)
    decreases |p|
  {
    p != [] && q != [] &&
    match j
    case Object(m) =>
      p[0] != q[0] || (p[0] in m && Diverge(m[p[0]], p[1..], q[1..]))
    case Array(a) =>
      var i, k := UncheckedIndex(|a|, p[0]), ArrayIndex(q[0]);
      i.Ok? && k.Ok? && (i.value != k.value || (i.value < |a| && Diverge(a[i.value], p[1..], q[1..])))
    case _ => true
  }

  /** A write leaves every place untouched from which its own path diverges. */
  lemma {:induction false} WriteFrame(j: Json, p: seq<bytes>, v: Json, q: seq<bytes>)
    requires SetUnchecked(j, p, v).Ok? && Get(j, q).Ok? && Diverge(j, p, q)
    ensures Get(SetUnchecked(j, p, v).value, q) == Get(j, q)
    decreases |p|
  {
    match j
    case Object(m) =>
      if p[0] == q[0] {
        WriteFrame(m[p[0]], p[1..], v, q[1..]);
      }
    case Array(a) =>
      var i, k := UncheckedIndex(|a|, p[0]).value, ArrayIndex(q[0]).value;
      if i == k {
        WriteFrame(a[i], p[1..], v, q[1..]);
      }
      assert Filled(a, i)[..|a|][k] == a[k];
  }

  /** The token is the usual decimal form of an array index. */
  predicate CanonicalIndex(token: bytes) {
    token != [] && AllDigits(token) && (|token| > 1 ==> token[0] != ZERO)
  }

  /** Tokens that are applied to arrays are canonical indices. */
  predicate Canonical(j: Json, ptr: seq<bytes>)
    decreases |ptr|
  {
    ptr == [] ||
    match j
    case Object(m) => Canonical(Member(m, ptr[0]), ptr[1..])
    case Array(a) =>
      CanonicalIndex(ptr[0]) && Canonical(Element(a, Number(ptr[0])), ptr[1..])
    case _ => true
  }

  lemma CanonicalStoi(token: bytes)
    requires CanonicalIndex(token)
    ensures Stoi(token) == if Number(token) <= INT_MAX then Ok(Number(token)) else Err(OutOfRange)
    ensures token == Numeral(Number(token))
  {
    NumeralOfNumber(token);
    StoiNumeral(Number(token));
  }

  /** Both kinds of access take a canonical index for what it is, and no two of them are the same. */
  lemma CanonicalIndices(size: nat, token: bytes)
    requires CanonicalIndex(token)
    ensures token == Numeral(Number(token))
    ensures UncheckedIndex(size, token) == ArrayIndex(token)
    ensures ArrayIndex(token).Ok? ==> ArrayIndex(token).value == Number(token)
  {
    CanonicalStoi(token);
    assert token[0] in token && IsDigit(token[0]);
  }

  lemma {:induction false} CanonicalDiverge(j: Json, p: seq<bytes>, v: Json, q: seq<bytes>)
    requires SetUnchecked(j, p, v).Ok? && Get(j, q).Ok?
    requires Canonical(j, p) && Canonical(j, q) && !(p <= q) && !(q <= p)
    ensures Diverge(j, p, q)
    decreases |p|
  {
    hide CanonicalIndex, UncheckedIndex, ArrayIndex, Filled;
    assert p != [] && q != [];
    if p[0] == q[0] {
      assert p == [p[0]] + p[1..] && q == [q[0]] + q[1..];
      assert !(p[1..] <= q[1..]) && !(q[1..] <= p[1..]);
    }
    match j
    case Object(m) =>
      if p[0] == q[0] {
        CanonicalDiverge(m[p[0]], p[1..], v, q[1..]);
      }
    case Array(a) =>
      CanonicalIndices(|a|, p[0]);
      CanonicalIndices(|a|, q[0]);
      if p[0] == q[0] {
        CanonicalDiverge(a[Number(p[0])], p[1..], v, q[1..]);
      }
  }

  /**
   After `j[p] = v` with canonical indices, every pointer that resolved before and is neither a prefix
   nor an extension of `p` still resolves to its old value.
   */
  lemma CanonicalWriteFrame(j: Json, p: seq<bytes>, v: Json, q: seq<bytes>)
    requires SetUnchecked(j, p, v).Ok? && Get(j, q).Ok?
    requires Canonical(j, p) && Canonical(j, q) && !(p <= q) && !(q <= p)
    ensures Get(SetUnchecked(j, p, v).value, q) == Get(j, q)
  {
    CanonicalDiverge(j, p, v, q);
    WriteFrame(j, p, v, q);
  }
}
