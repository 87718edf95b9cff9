/**
 Applying a JSON patch (RFC 6902).
 */
module Patch {
  import opened Bytes
  import opened Wrappers
  import opened Value
  import opened Decimal
  import opened Pointer
  import opened Access

  const OP: bytes := ['o' as int, 'p' as int]
  const PATH: bytes := ['p' as int, 'a' as int, 't' as int, 'h' as int]
  const VALUE: bytes := ['v' as int, 'a' as int, 'l' as int, 'u' as int, 'e' as int]
  const FROM: bytes := ['f' as int, 'r' as int, 'o' as int, 'm' as int]
  const ADD: bytes := ['a' as int, 'd' as int, 'd' as int]
  const REMOVE: bytes := ['r' as int, 'e' as int, 'm' as int, 'o' as int, 'v' as int, 'e' as int]
  const REPLACE: bytes := ['r' as int, 'e' as int, 'p' as int, 'l' as int, 'a' as int, 'c' as int, 'e' as int]
  const MOVE: bytes := ['m' as int, 'o' as int, 'v' as int, 'e' as int]
  const COPY: bytes := ['c' as int, 'o' as int, 'p' as int, 'y' as int]
  const TEST: bytes := ['t' as int, 'e' as int, 's' as int, 't' as int]

  // ----- the operations on a document -----

  function Parent(ptr: seq<bytes>): seq<bytes>
    requires ptr != []
  {
    ptr[..|ptr| - 1]
  }

  function Last(ptr: seq<bytes>): bytes
    requires ptr != []
  {
    ptr[|ptr| - 1]
  }

  /** What "add" does to the parent of the new value. */
  function AddChild(parent: Json, token: bytes, v: Json): Result<Json> {
    match parent
    case Null => Ok(Object(map[token := v]))
    case Object(m) => Ok(Object(m[token := v]))
    case Array(a) =>
      if token == DASH then Ok(Array(a + [v]))
      else
        var i :- Stoi(token);
        if 0 <= i <= |a| then Ok(Array(a[..i] + [v] + a[i..])) else Err(OutOfRange)
    case _ => Err(AssertionFailure)
  }

  /** What "remove" does to the parent of the removed value; a primitive parent is left alone. */
  function RemoveChild(parent: Json, token: bytes): Result<Json> {
    match parent
    case Object(m) => if token in m then Ok(Object(m - {token})) else Err(OutOfRange)
    case Array(a) =>
      var i :- Stoi(token);
      if 0 <= i < |a| then Ok(Array(a[..i] + a[i + 1..])) else Err(OutOfRange)
    case _ => Ok(parent)
  }

  /** `operation_add`. */
  function Added(doc: Json, ptr: seq<bytes>, v: Json): Result<Json> {
    if ptr == [] then Ok(v)
    else
      var top :- if |ptr| > 1 then Get(doc, ptr[..1]) else Ok(doc);
      var parent :- Target(doc, Parent(ptr));
      var parent' :- AddChild(parent, Last(ptr), v);
      SetUnchecked(doc, Parent(ptr), parent')
  }

  /** `operation_remove`. */
  function Removed(doc: Json, ptr: seq<bytes>): Result<Json> {
    if ptr == [] then Err(DomainError)
    else
      var parent :- Get(doc, Parent(ptr));
      var parent' :- RemoveChild(parent, Last(ptr));
      Set(doc, Parent(ptr), parent')
  }

  /** The "test" operation: a place that is out of range counts as a failed comparison. */
  function Tested(doc: Json, ptr: seq<bytes>, v: Result<Json>): Result<Json> {
    var found := Get(doc, ptr);
    if found == Err(OutOfRange) then Err(DomainError)
    else
      var x :- found;
      var y :- v;
      if Eq(x, y) then Ok(doc) else Err(DomainError)
  }

  /** `get_value`. */
  function Field(op: map<bytes, Json>, name: bytes): Result<Json> {
    if name in op then Ok(op[name]) else Err(InvalidArgument)
  }

  function StringField(op: map<bytes, Json>, name: bytes): Result<bytes> {
    var v :- Field(op, name);
    if v.String? then Ok(v.s) else Err(InvalidArgument)
  }

  /** One operation of a patch. */
  function Step(doc: Json, op: Json): Result<Json> {
    if !op.Object? then Err(InvalidArgument)
    else
      var name :- StringField(op.m, OP);
      var path :- StringField(op.m, PATH);
      var ptr :- Split(path);
      if name == ADD then
        var v :- Field(op.m, VALUE);
        Added(doc, ptr, v)
      else if name == REMOVE then Removed(doc, ptr)
      else if name == REPLACE then
        var v :- Field(op.m, VALUE);
        Set(doc, ptr, v)
      else if name == MOVE then
        var from :- StringField(op.m, FROM);
        var source :- Split(from);
        var v :- Get(doc, source);
        var rest :- Removed(doc, source);
        Added(rest, ptr, v)
      else if name == COPY then
        var from :- StringField(op.m, FROM);
        var source :- Split(from);
        var v :- Get(doc, source);
        SetUnchecked(doc, ptr, v)
      else if name == TEST then Tested(doc, ptr, Field(op.m, VALUE))
      else Err(InvalidArgument)
  }

  /** All operations in turn; the first failure ends the patch. */
  function Steps(doc: Json, ops: seq<Json>): Result<Json> {
    if ops == [] then Ok(doc)
    else
      var init :- Steps(doc, ops[..|ops| - 1]);
      Step(init, ops[|ops| - 1])
  }

  /** `doc.patch(p)`. */
  function Patched(doc: Json, p: Json): Result<Json> {
    if !p.Array? then Err(InvalidArgument) else Steps(doc, p.a)
  }

  lemma {:induction false} StepsConcat(doc: Json, a: seq<Json>, b: seq<Json>)
    ensures Steps(doc, a + b) == if Steps(doc, a).Ok? then Steps(Steps(doc, a).value, b) else Steps(doc, a)
  {
    hide Step;
    if b == [] {
      assert a + b == a;
    } else {
      StepsConcat(doc, a, b[..|b| - 1]);
      assert (a + b)[..|a + b| - 1] == a + b[..|b| - 1];
    }
  }

  // ----- the loop of `patch` -----

  /** The working copy that the lambdas inside `patch` capture by reference. */
  class Session {
    var result: Json

    constructor (doc: Json)
      ensures result == doc
    {
      result := doc;
    }

    /** The operation succeeded with the given document, or threw. */
    ghost predicate Outcome(r: Result<Json>, status: Result<()>)
      reads this
    {
      if r.Ok? then status.Ok? && result == r.value else status == Err(r.error)
    }

    method OperationAdd(ptr: seq<bytes>, v: Json) returns (status: Result<()>)
      modifies this
      ensures Outcome(Added(old(result), ptr, v), status)
    {
      if ptr == [] {
        result := v;
        return Ok(());
      }
      if |ptr| > 1 {
        var top := GetChecked(result, ptr[..1]);
        if top.Err? {
          return Err(top.error);
        }
      }
      var parentPtr, last := ptr[..|ptr| - 1], ptr[|ptr| - 1];
      var parent := Target(result, parentPtr);
      if parent.Err? {
        return Err(parent.error);
      }
      var changed := AddChild(parent.value, last, v);
      if changed.Err? {
        return Err(changed.error);
      }
      var next := SetUnchecked(result, parentPtr, changed.value);
      if next.Err? {
        return Err(next.error);
      }
      result := next.value;
      return Ok(());
    }

    method OperationRemove(ptr: seq<bytes>) returns (status: Result<()>)
      modifies this
      ensures Outcome(Removed(old(result), ptr), status)
    {
      if ptr == [] {
        return Err(DomainError);
      }
      var parentPtr, last := ptr[..|ptr| - 1], ptr[|ptr| - 1];
      var parent := GetChecked(result, parentPtr);
      if parent.Err? {
        return Err(parent.error);
      }
      var changed := RemoveChild(parent.value, last);
      if changed.Err? {
        return Err(changed.error);
      }
      var next := Set(result, parentPtr, changed.value);
      if next.Err? {
        return Err(next.error);
      }
      result := next.value;
      return Ok(());
    }

    method Move(source: seq<bytes>, ptr: seq<bytes>) returns (status: Result<()>)
      modifies this
      ensures Outcome(
        (var v :- Get(old(result), source);
         var rest :- Removed(old(result), source);
         Added(rest, ptr, v)), status)
    {
      var v := GetChecked(result, source);
      if v.Err? {
        return Err(v.error);
      }
      status := OperationRemove(source);
      if status.Err? {
        return;
      }
      status := OperationAdd(ptr, v.value);
    }

    /** One round of the loop. */
    method Execute(op: Json) returns (status: Result<()>)
      modifies this
      ensures Outcome(Step(old(result), op), status)
    {
      if !op.Object? {
        return Err(InvalidArgument);
      }
      var name :- StringField(op.m, OP);
      var path :- StringField(op.m, PATH);
      var ptr :- Split(path);
      if name == ADD {
        var v :- Field(op.m, VALUE);
        status := OperationAdd(ptr, v);
      } else if name == REMOVE {
        status := OperationRemove(ptr);
      } else if name == REPLACE {
        var v :- Field(op.m, VALUE);
        result :- Set(result, ptr, v);
        status := Ok(());
      } else if name == MOVE {
        var from :- StringField(op.m, FROM);
        var source :- Split(from);
        status := Move(source, ptr);
      } else if name == COPY {
        var from :- StringField(op.m, FROM);
        var source :- Split(from);
        var v :- Get(result, source);
        result :- SetUnchecked(result, ptr, v);
        status := Ok(());
      } else if name == TEST {
        result :- Tested(result, ptr, Field(op.m, VALUE));
        status := Ok(());
      } else {
        status := Err(InvalidArgument);
      }
    }
  }

  /** `patch`: works on a copy, so a failure leaves the original value alone. */
  method ApplyPatch(doc: Json, p: Json) returns (r: Result<Json>)
    ensures r == Patched(doc, p)
  {
    var session := new Session(doc);
    if !p.Array? {
      return Err(InvalidArgument);
    }
    for i := 0 to |p.a|
      invariant Steps(doc, p.a[..i]) == Ok(session.result)
    {
      assert p.a[..i + 1][..i] == p.a[..i];
      var status := session.Execute(p.a[i]);
      if status.Err? {
        StepsConcat(doc, p.a[..i + 1], p.a[i + 1..]);
        assert p.a[..i + 1] + p.a[i + 1..] == p.a;
        return Err(status.error);
      }
    }
    assert p.a[..|p.a|] == p.a;
    r := Ok(session.result);
  }

  // ----- replace = remove + add -----

  /** Reaching a child through its parent. */
  lemma ThroughParent(doc: Json, ptr: seq<bytes>)
    requires ptr != []
    ensures Get(doc, ptr) ==
      if Get(doc, Parent(ptr)).Ok? then Child(Get(doc, Parent(ptr)).value, Last(ptr)) else Get(doc, Parent(ptr))
  {
    assert ptr == Parent(ptr) + [Last(ptr)];
    GetAppend(doc, Parent(ptr), Last(ptr));
  }

  lemma {:induction false} GetPrefix(doc: Json, ptr: seq<bytes>, n: nat)
    requires Get(doc, ptr).Ok? && n <= |ptr|
    ensures Get(doc, ptr[..n]).Ok?
  {
    if n < |ptr| {
      ThroughParent(doc, ptr);
      assert ptr[..|ptr| - 1][..n] == ptr[..n];
      GetPrefix(doc, Parent(ptr), n);
    } else {
      assert ptr[..n] == ptr;
    }
  }

  /** Adding below a place that resolves. */
  lemma AddedBelow(doc: Json, p: seq<bytes>, token: bytes, v: Json)
    requires Get(doc, p).Ok?
    ensures Added(doc, p + [token], v) ==
      (var parent :- AddChild(Get(doc, p).value, token, v); Set(doc, p, parent))
  {
    hide AddChild, SetUnchecked, Set, Target, Get;
    hide Parent, Last;
    TopResolves(doc, p, token);
    ParentAndLast(p, token);
    var r := AddChild(Get(doc, p).value, token, v);
    UncheckedAgrees(doc, p, if r.Ok? then r.value else Null);
  }

  lemma ParentAndLast(p: seq<bytes>, token: bytes)
    ensures Parent(p + [token]) == p && Last(p + [token]) == token
  {
  }

  lemma TopResolves(doc: Json, p: seq<bytes>, token: bytes)
    requires Get(doc, p).Ok?
    ensures |p| > 0 ==> Get(doc, (p + [token])[..1]).Ok?
  {
    hide Get;
    if |p| > 0 {
      assert (p + [token])[..1] == p[..1];
      GetPrefix(doc, p, 1);
    }
  }

  lemma RemovedBelow(doc: Json, p: seq<bytes>, token: bytes)
    requires Get(doc, p).Ok?
    ensures Removed(doc, p + [token]) ==
      (var parent :- RemoveChild(Get(doc, p).value, token); Set(doc, p, parent))
  {
    hide RemoveChild, Set, Get;
    assert Parent(p + [token]) == p && Last(p + [token]) == token;
  }

  /** On an existing non-root place, "replace" is "remove" followed by "add". */
  lemma ReplaceIsRemoveThenAdd(doc: Json, ptr: seq<bytes>, v: Json)
    requires ptr != [] && Get(doc, ptr).Ok?
    ensures Removed(doc, ptr).Ok?
    ensures Added(Removed(doc, ptr).value, ptr, v) == Set(doc, ptr, v)
  {
    hide Set, Get, Added, Removed;
    var p, token := Parent(ptr), Last(ptr);
    assert ptr == p + [token];
    ThroughParent(doc, ptr);
    var parent := Get(doc, p).value;
    var less := RemoveChild(parent, token).value;
    RemovedBelow(doc, p, token);
    GetSet(doc, p, less);
    var doc' := Set(doc, p, less).value;
    AddedBelow(doc', p, token, v);
    assert AddChild(less, token, v) == Ok(WithChild(parent, token, v)) by {
      RestoreChild(parent, token, v);
    }
    SetSet(doc, p, less, WithChild(parent, token, v));
    SetAppend(doc, p, token, v);
  }

  lemma RestoreChild(parent: Json, token: bytes, v: Json)
    requires Child(parent, token).Ok?
    ensures RemoveChild(parent, token).Ok?
    ensures AddChild(RemoveChild(parent, token).value, token, v) == Ok(WithChild(parent, token, v))
  {
    if parent.Object? {
      assert (parent.m - {token})[token := v] == parent.m[token := v];
    } else {
      var a, i := parent.a, ArrayIndex(token).value;
      var b := a[..i] + a[i + 1..];
      assert b[..i] + [v] + b[i..] == a[i := v];
    }
  }

  // ----- "remove" and the places that exist -----

  /**
   The token of an array element that `at` refuses, because a digit follows a leading zero, but that
   `erase` takes.
   */
  predicate PaddedIndex(a: seq<Json>, token: bytes) {
    |token| > 1 && token[0] == ZERO && Stoi(token).Ok? && 0 <= Stoi(token).value < |a|
  }

  /** The parent is one below which "remove" succeeds although the place does not exist. */
  predicate RemoveUnchecked(parent: Json, token: bytes) {
    parent.IsPrimitive() || (parent.Array? && PaddedIndex(parent.a, token))
  }

  /** `-` is not a number. */
  lemma DashIsNoIndex()
    ensures Stoi(DASH) == Err(InvalidArgument)
  {
    assert DASH[0] == MINUS && DASH[1..] == [];
  }

  lemma RemoveChildExact(parent: Json, token: bytes)
    ensures RemoveChild(parent, token).Ok? <==> Child(parent, token).Ok? || RemoveUnchecked(parent, token)
    ensures Child(parent, token).Ok? ==> !RemoveUnchecked(parent, token)
  {
    hide Stoi;
    DashIsNoIndex();
  }

  /**
   "remove" succeeds exactly on the places that exist, as section 4.2 of RFC 6902 wants it, unless the place is
   the root, which cannot be removed, or the parent exists and is primitive, or is an array and the index has a
   leading zero that `stoi` overlooks.
   */
  lemma RemoveRequiresExistence(doc: Json, ptr: seq<bytes>)
    ensures (Removed(doc, ptr).Ok? <==> Get(doc, ptr).Ok?) <==>
      !(ptr == [] || (Get(doc, Parent(ptr)).Ok? && RemoveUnchecked(Get(doc, Parent(ptr)).value, Last(ptr))))
  {
    if ptr != [] {
      RemoveBelowRoot(doc, ptr);
    }
  }

  lemma RemoveBelowRoot(doc: Json, ptr: seq<bytes>)
    requires ptr != []
    ensures (Removed(doc, ptr).Ok? <==> Get(doc, ptr).Ok?) <==>
      !(Get(doc, Parent(ptr)).Ok? && RemoveUnchecked(Get(doc, Parent(ptr)).value, Last(ptr)))
  {
    hide Get, Set, Child, RemoveChild, RemoveUnchecked, Parent, Last;
    ThroughParent(doc, ptr);
    var p := Parent(ptr);
    if Get(doc, p).Ok? {
      var parent := Get(doc, p).value;
      RemoveChildExact(parent, Last(ptr));
      if RemoveChild(parent, Last(ptr)).Ok? {
        GetSet(doc, p, RemoveChild(parent, Last(ptr)).value);
      }
    }
  }

  /** Removing a member of null succeeds and does nothing. */
  lemma RemoveBelowNull(name: bytes)
    ensures Removed(Null, [name]) == Ok(Null) && Get(Null, [name]).Err?
  {
    assert Parent([name]) == [];
  }

  /** The element 0 can be removed as `00`, although `00` leads nowhere. */
  lemma RemovePaddedIndex()
    ensures
      var doc, ptr := Array([Null, Null]), [[ZERO, ZERO]];
      Removed(doc, ptr) == Ok(Array([Null])) && Get(doc, ptr) == Err(DomainError)
  {
    var token: bytes := [ZERO, ZERO];
    assert Parent([token]) == [] && Last([token]) == token;
    DigitSpanIs(token, 2);
    assert token[..2] == token && token[..1] == [ZERO] && [ZERO][..0] == [];
    assert Number([ZERO]) == 10 * Number([]);
    assert Number(token) == 10 * Number([ZERO]);
    assert Stoi(token) == Ok(0);
    assert [Null, Null][..0] + [Null, Null][1..] == [Null];
  }
}
