/**
 `source.patch(diff(source, target))` is `target`.
 */
module DiffPatch {
  import opened Bytes
  import opened Wrappers
  import opened Value
  import opened Decimal
  import opened Pointer
  import opened Access
  import opened Patch
  import opened Diff

  /** The value that the patch produces: `t`, except for parts of `s` that already equalled it. */
  function Merged(s: Json, t: Json): Json {
    if Eq(s, t) then s
    else if !SameType(s, t) then t
    else
      match s
      case Array(a) =>
        Array(seq(|t.a|, i requires 0 <= i < |t.a| => if i < |a| then Merged(a[i], t.a[i]) else t.a[i]))
      case Object(m) => Object(map k | k in t.m :: if k in m then Merged(m[k], t.m[k]) else t.m[k])
      case _ => t
  }

  /** Every array position at which the values differ fits into an int. */
  predicate IndicesFit(s: Json, t: Json) {
    Eq(s, t) || !SameType(s, t) ||
    match s
    case Array(a) =>
      && (forall i | 0 <= i < |a| && i < |t.a| :: IndicesFit(a[i], t.a[i]) && (i <= INT_MAX || Eq(a[i], t.a[i])))
      && (|a| != |t.a| ==> |a| <= INT_MAX + 1 && |t.a| <= INT_MAX + 1)
    case Object(m) => forall k | k in m && k in t.m :: IndicesFit(m[k], t.m[k])
    case _ => true
  }

  /** The produced value equals the target, unless the target holds a NaN. */
  lemma {:induction false} MergedEq(s: Json, t: Json)
    ensures Eq(Merged(s, t), t) <==> NaNFree(t)
  {
    EqReflexive(t);
    if Eq(s, t) {
      EqNaNFree(s, t);
    } else if SameType(s, t) {
      match s
      case Array(a) =>
        forall i | 0 <= i < |t.a| ensures Eq(Merged(s, t).a[i], t.a[i]) <==> NaNFree(t.a[i]) {
          if i < |a| { MergedEq(a[i], t.a[i]); } else { EqReflexive(t.a[i]); }
        }
      case Object(m) =>
        forall k | k in t.m ensures Eq(Merged(s, t).m[k], t.m[k]) <==> NaNFree(t.m[k]) {
          if k in m { MergedEq(m[k], t.m[k]); } else { EqReflexive(t.m[k]); }
        }
      case _ =>
    }
  }

  // ----- the emitted operations, executed -----

  lemma StepReplace(doc: Json, p: seq<bytes>, v: Json)
    ensures Step(doc, ReplaceOp(ToString(p), v)) == Set(doc, p, v)
  {
    SplitToString(p);
  }

  lemma StepAdd(doc: Json, p: seq<bytes>, v: Json)
    ensures Step(doc, AddOp(ToString(p), v)) == Added(doc, p, v)
  {
    SplitToString(p);
  }

  lemma StepRemove(doc: Json, p: seq<bytes>)
    ensures Step(doc, RemoveOp(ToString(p))) == Removed(doc, p)
  {
    SplitToString(p);
  }

  lemma StepsNone(doc: Json)
    ensures Steps(doc, []) == Ok(doc)
  {
  }

  lemma StepsOne(doc: Json, op: Json)
    ensures Steps(doc, [op]) == Step(doc, op)
  {
    assert [op][..0] == [];
  }

  lemma StepsFirst(doc: Json, op: Json, ops: seq<Json>)
    ensures Steps(doc, [op] + ops) == if Step(doc, op).Ok? then Steps(Step(doc, op).value, ops) else Step(doc, op)
  {
    StepsOne(doc, op);
    StepsConcat(doc, [op], ops);
  }

  lemma IndexPathIs(p: seq<bytes>, i: nat)
    ensures IndexPath(ToString(p), i) == ToString(p + [Numeral(i)])
  {
    assert forall c :: c in Numeral(i) ==> IsDigit(c);
    EscapedPlain(Numeral(i));
    ToStringAppend(p, Numeral(i));
  }

  lemma KeyPathIs(p: seq<bytes>, k: bytes)
    ensures KeyPath(ToString(p), k) == ToString(p + [k])
  {
    ToStringAppend(p, k);
  }

  // ----- arrays -----

  lemma ElementChild(a: seq<Json>, i: nat)
    requires i < |a|
    ensures Child(Array(a), Numeral(i)) == if i <= INT_MAX then Ok(a[i]) else Err(OutOfRange)
    ensures i <= INT_MAX ==> forall v :: WithChild(Array(a), Numeral(i), v) == Array(a[i := v])
  {
    StoiNumeral(i);
    assert Numeral(i) != DASH by {
      assert IsDigit(Numeral(i)[0]);
    }
  }

  lemma RemoveLast(doc: Json, p: seq<bytes>, a: seq<Json>)
    requires Get(doc, p) == Ok(Array(a)) && a != []
    ensures
      var last := |a| - 1;
      Step(doc, RemoveOp(IndexPath(ToString(p), last))) ==
      if last <= INT_MAX then Set(doc, p, Array(a[..last])) else Err(OutOfRange)
  {
    var last := |a| - 1;
    IndexPathIs(p, last);
    StepRemove(doc, p + [Numeral(last)]);
    RemovedBelow(doc, p, Numeral(last));
    StoiNumeral(last);
    assert a[..last] + a[last + 1..] == a[..last];
  }

  /** Removing the tail of an array, last element first. */
  lemma {:induction false} RemovesApply(doc: Json, p: seq<bytes>, a: seq<Json>, from: nat)
    requires Get(doc, p) == Ok(Array(a)) && from < |a|
    ensures |a| <= INT_MAX + 1 ==> Steps(doc, Removes(ToString(p), from, |a|)) == Set(doc, p, Array(a[..from]))
    ensures |a| > INT_MAX + 1 ==> Steps(doc, Removes(ToString(p), from, |a|)).Err?
    decreases |a|
  {
    hide Get, Set, Steps, Step, ToString, IndexPath;
    var last := |a| - 1;
    RemoveLast(doc, p, a);
    StepsFirst(doc, RemoveOp(IndexPath(ToString(p), last)), Removes(ToString(p), from, last));
    if last <= INT_MAX {
      var init := a[..last];
      GetSet(doc, p, Array(init));
      if from < last {
        RemovesApply(Set(doc, p, Array(init)).value, p, init, from);
        assert init[..from] == a[..from];
        SetSet(doc, p, Array(init), Array(a[..from]));
      } else {
        StepsNone(Set(doc, p, Array(init)).value);
      }
    }
  }

  lemma AppendOne(doc: Json, p: seq<bytes>, a: seq<Json>, v: Json)
    requires Get(doc, p) == Ok(Array(a))
    ensures Step(doc, AddOp(IndexPath(ToString(p), |a|), v)) ==
      if |a| <= INT_MAX then Set(doc, p, Array(a + [v])) else Err(OutOfRange)
  {
    hide Get, Set, Steps, Step, ToString, IndexPath;
    var i := |a|;
    IndexPathIs(p, i);
    StepAdd(doc, p + [Numeral(i)], v);
    AddedBelow(doc, p, Numeral(i), v);
    StoiNumeral(i);
    assert Numeral(i) != DASH by { assert IsDigit(Numeral(i)[0]); }
    assert a[..i] + [v] + a[i..] == a + [v];
  }

  /** Appending the missing elements. */
  lemma {:induction false} AddsApply(doc: Json, p: seq<bytes>, a: seq<Json>, b: seq<Json>)
    requires Get(doc, p) == Ok(Array(a)) && |a| < |b|
    ensures |b| <= INT_MAX + 1 ==> Steps(doc, Adds(ToString(p), b, |a|)) == Set(doc, p, Array(a + b[|a|..]))
    ensures |b| > INT_MAX + 1 ==> Steps(doc, Adds(ToString(p), b, |a|)).Err?
    decreases |b| - |a|, 1
  {
    AppendOne(doc, p, a, b[|a|]);
    StepsFirst(doc, AddOp(IndexPath(ToString(p), |a|), b[|a|]), Adds(ToString(p), b, |a| + 1));
    if |a| <= INT_MAX {
      AddsRest(doc, p, a, b);
    }
  }

  lemma {:induction false} AddsRest(doc: Json, p: seq<bytes>, a: seq<Json>, b: seq<Json>)
    requires Get(doc, p) == Ok(Array(a)) && |a| < |b|
    ensures Set(doc, p, Array(a + [b[|a|]])).Ok?
    ensures
      var r := Steps(Set(doc, p, Array(a + [b[|a|]])).value, Adds(ToString(p), b, |a| + 1));
      (|b| <= INT_MAX + 1 ==> r == Set(doc, p, Array(a + b[|a|..]))) &&
      (|b| > INT_MAX + 1 && |a| <= INT_MAX ==> r.Err?)
    decreases |b| - |a|, 0
  {
    var a' := a + [b[|a|]];
    GetSet(doc, p, Array(a'));
    assert a' + b[|a'|..] == a + b[|a|..];
    if |a'| < |b| {
      AddsApply(Set(doc, p, Array(a')).value, p, a', b);
      SetSet(doc, p, Array(a'), Array(a + b[|a|..]));
    } else {
      assert a' == a + b[|a|..];
    }
  }

  /** `s` with its first `n` elements already turned into those of the result. */
  ghost function PartialArray(s: Json, t: Json, n: nat): Json
    requires s.Array? && t.Array? && n <= |s.a| && n <= |t.a|
  {
    Array(seq(|s.a|, i requires 0 <= i < |s.a| => if i < n then Merged(s.a[i], t.a[i]) else s.a[i]))
  }

  /** Element `i` can be reached if it differs. */
  ghost predicate ElementFits(s: Json, t: Json, i: nat)
    requires s.Array? && t.Array? && i < |s.a| && i < |t.a|
  {
    IndicesFit(s.a[i], t.a[i]) && (i <= INT_MAX || Eq(s.a[i], t.a[i]))
  }

  /** The first `n` elements can be reached where they differ. */
  ghost predicate ElementsFit(s: Json, t: Json, n: nat)
    requires s.Array? && t.Array? && n <= |s.a| && n <= |t.a|
  {
    forall i | 0 <= i < n :: ElementFits(s, t, i)
  }

  lemma {:induction false} ElementsApply(doc: Json, p: seq<bytes>, s: Json, t: Json, n: nat)
    requires Get(doc, p) == Ok(s) && s.Array? && t.Array? && n <= |s.a| && n <= |t.a|
    ensures ElementsFit(s, t, n) ==>
      Steps(doc, DiffElements(s, t, ToString(p), n)) == Set(doc, p, PartialArray(s, t, n))
    ensures !ElementsFit(s, t, n) ==> Steps(doc, DiffElements(s, t, ToString(p), n)).Err?
    decreases s, 0, n
  {
    hide Get, Set, Steps, DiffOps, Merged, IndicesFit, ToString, Eq, IndexPath;
    if n == 0 {
      assert PartialArray(s, t, 0) == s;
      GetSet(doc, p, s);
      StepsNone(doc);
    } else {
      ElementsApply(doc, p, s, t, n - 1);
      StepsConcat(doc, DiffElements(s, t, ToString(p), n - 1),
                  DiffOps(s.a[n - 1], t.a[n - 1], IndexPath(ToString(p), n - 1)));
      assert ElementsFit(s, t, n) <==> ElementsFit(s, t, n - 1) && ElementFits(s, t, n - 1);
      if ElementsFit(s, t, n - 1) {
        NextElement(doc, p, s, t, n - 1);
      }
    }
  }

  lemma {:induction false} NextElement(doc: Json, p: seq<bytes>, s: Json, t: Json, i: nat)
    requires Get(doc, p) == Ok(s) && s.Array? && t.Array? && i < |s.a| && i < |t.a|
    ensures Set(doc, p, PartialArray(s, t, i)).Ok?
    ensures
      var r := Steps(Set(doc, p, PartialArray(s, t, i)).value, DiffOps(s.a[i], t.a[i], IndexPath(ToString(p), i)));
      if ElementFits(s, t, i) then r == Set(doc, p, PartialArray(s, t, i + 1)) else r.Err?
    decreases s, 0, i, 1
  {
    GetSet(doc, p, PartialArray(s, t, i));
    ElementApply(Set(doc, p, PartialArray(s, t, i)).value, p, s, t, i);
    SetSet(doc, p, PartialArray(s, t, i), PartialArray(s, t, i + 1));
  }

  /** The sub-patch of element `i`, relocated below `p`. */
  lemma {:induction false} ElementApply(doc: Json, p: seq<bytes>, s: Json, t: Json, i: nat)
    requires s.Array? && t.Array? && i < |s.a| && i < |t.a| && Get(doc, p) == Ok(PartialArray(s, t, i))
    ensures
      var r := Steps(doc, DiffOps(s.a[i], t.a[i], IndexPath(ToString(p), i)));
      if ElementFits(s, t, i) then r == Set(doc, p, PartialArray(s, t, i + 1)) else r.Err?
    decreases s, 0, i, 0
  {
    var part, q := PartialArray(s, t, i), p + [Numeral(i)];
    IndexPathIs(p, i);
    ElementChild(part.a, i);
    GetAppend(doc, p, Numeral(i));
    var merged := Merged(s.a[i], t.a[i]);
    assert part.a[i := merged] == PartialArray(s, t, i + 1).a;
    if Eq(s.a[i], t.a[i]) {
      assert part.a[i := merged] == part.a;
      GetSet(doc, p, part);
    } else if i <= INT_MAX {
      DiffApply(doc, q, s.a[i], t.a[i]);
      SetAppend(doc, p, Numeral(i), merged);
    } else {
      UnreachableApply(doc, p, i, s.a[i], t.a[i]);
    }
  }

  // ----- operations on array positions beyond INT_MAX -----

  /** The operation works on the place `p` or below it; only "replace" works on `p` itself. */
  ghost predicate Under(op: Json, p: seq<bytes>) {
    || (exists q: seq<bytes>, v: Json :: op == ReplaceOp(ToString(p + q), v))
    || (exists q: seq<bytes>, v: Json :: q != [] && op == AddOp(ToString(p + q), v))
    || (exists q: seq<bytes> :: q != [] && op == RemoveOp(ToString(p + q)))
  }

  lemma UnderParent(op: Json, p: seq<bytes>, token: bytes)
    requires Under(op, p + [token])
    ensures Under(op, p)
  {
    hide ToString, ReplaceOp, AddOp, RemoveOp;
    var r := p + [token];
    if q: seq<bytes>, v: Json :| op == ReplaceOp(ToString(r + q), v) {
      assert r + q == p + ([token] + q);
    } else if q: seq<bytes>, v: Json :| q != [] && op == AddOp(ToString(r + q), v) {
      assert r + q == p + ([token] + q);
    } else {
      var q: seq<bytes> :| q != [] && op == RemoveOp(ToString(r + q));
      assert r + q == p + ([token] + q);
    }
  }

  /** `diff` only emits operations at its path or below. */
  lemma {:induction false} DiffUnder(s: Json, t: Json, p: seq<bytes>, op: Json)
    requires op in DiffOps(s, t, ToString(p))
    ensures Under(op, p)
    decreases s, 1
  {
    assert p + [] == p;
    if SameType(s, t) && (s.Array? || s.Object?) {
      if s.Array? {
        var n := Min(|s.a|, |t.a|);
        if op in DiffElements(s, t, ToString(p), n) {
          ElementsUnder(s, t, p, n, op);
        } else if op in Removes(ToString(p), |t.a|, |s.a|) {
          RemovesUnder(p, |t.a|, |s.a|, op);
        } else {
          AddsUnder(p, t.a, |s.a|, op);
        }
      } else {
        if op in DiffMembers(s, t, ToString(p), SortedKeys(s.m.Keys)) {
          MembersUnder(s, t, p, SortedKeys(s.m.Keys), op);
        } else {
          AddMembersUnder(s, t, p, SortedKeys(t.m.Keys), op);
        }
      }
    } else {
      assert op == ReplaceOp(ToString(p + []), t);
    }
  }

  lemma {:induction false} ElementsUnder(s: Json, t: Json, p: seq<bytes>, n: nat, op: Json)
    requires s.Array? && t.Array? && n <= |s.a| && n <= |t.a| && op in DiffElements(s, t, ToString(p), n)
    ensures Under(op, p)
    decreases s, 0, n
  {
    hide DiffOps, ToString, Eq, IndexPath, Under;
    if op in DiffElements(s, t, ToString(p), n - 1) {
      ElementsUnder(s, t, p, n - 1, op);
    } else {
      IndexPathIs(p, n - 1);
      DiffUnder(s.a[n - 1], t.a[n - 1], p + [Numeral(n - 1)], op);
      UnderParent(op, p, Numeral(n - 1));
    }
  }

  lemma {:induction false} RemovesUnder(p: seq<bytes>, from: nat, to: nat, op: Json)
    requires op in Removes(ToString(p), from, to)
    ensures Under(op, p)
  {
    IndexPathIs(p, to - 1);
    if op != RemoveOp(ToString(p + [Numeral(to - 1)])) {
      RemovesUnder(p, from, to - 1, op);
    }
  }

  lemma {:induction false} AddsUnder(p: seq<bytes>, a: seq<Json>, from: nat, op: Json)
    requires op in Adds(ToString(p), a, from)
    ensures Under(op, p)
    decreases |a| - from
  {
    IndexPathIs(p, from);
    if op != AddOp(ToString(p + [Numeral(from)]), a[from]) {
      AddsUnder(p, a, from + 1, op);
    }
  }

  lemma {:induction false} MembersUnder(s: Json, t: Json, p: seq<bytes>, ks: seq<bytes>, op: Json)
    requires s.Object? && t.Object? && forall k :: k in ks ==> k in s.m
    requires op in DiffMembers(s, t, ToString(p), ks)
    ensures Under(op, p)
    decreases s, 0, |ks|
  {
    var k := ks[|ks| - 1];
    KeyPathIs(p, k);
    if op in DiffMembers(s, t, ToString(p), ks[..|ks| - 1]) {
      MembersUnder(s, t, p, ks[..|ks| - 1], op);
    } else if k in t.m {
      DiffUnder(s.m[k], t.m[k], p + [k], op);
      UnderParent(op, p, k);
    } else {
      assert op == RemoveOp(ToString(p + [k]));
    }
  }

  lemma {:induction false} AddMembersUnder(s: Json, t: Json, p: seq<bytes>, ks: seq<bytes>, op: Json)
    requires s.Object? && t.Object? && forall k :: k in ks ==> k in t.m
    requires op in AddMembers(s, t, ToString(p), ks)
    ensures Under(op, p)
    decreases |ks|
  {
    var k := ks[|ks| - 1];
    KeyPathIs(p, k);
    if op in AddMembers(s, t, ToString(p), ks[..|ks| - 1]) {
      AddMembersUnder(s, t, p, ks[..|ks| - 1], op);
    } else {
      assert op == AddOp(ToString(p + [k]), t.m[k]);
    }
  }

  /** `diff` is empty exactly for equal values. */
  lemma {:induction false} DiffEmpty(s: Json, t: Json, path: bytes)
    ensures DiffOps(s, t, path) == [] <==> Eq(s, t)
    decreases s, 1
  {
    if !Eq(s, t) && SameType(s, t) {
      if s.Array? {
        ArrayDiffNonempty(s, t, path);
      } else if s.Object? {
        ObjectDiffNonempty(s, t, path);
      }
    }
  }

  lemma {:induction false} ArrayDiffNonempty(s: Json, t: Json, path: bytes)
    requires s.Array? && t.Array? && !Eq(s, t)
    ensures DiffOps(s, t, path) != []
    decreases s, 0, |s.a| + 1
  {
    if |s.a| == |t.a| {
      var i :| 0 <= i < |s.a| && !Eq(s.a[i], t.a[i]);
      ElementsNonempty(s, t, path, |s.a|, i);
    } else if |s.a| < |t.a| {
      assert Adds(path, t.a, |s.a|) != [];
    } else {
      assert Removes(path, |t.a|, |s.a|) != [];
    }
  }

  lemma {:induction false} ObjectDiffNonempty(s: Json, t: Json, path: bytes)
    requires s.Object? && t.Object? && !Eq(s, t)
    ensures DiffOps(s, t, path) != []
    decreases s, 0, |SortedKeys(s.m.Keys)| + 1
  {
    hide DiffMembers, AddMembers, SortedKeys;
    if k :| k in s.m && (k !in t.m || !Eq(s.m[k], t.m[k])) {
      MembersNonempty(s, t, path, SortedKeys(s.m.Keys), k);
    } else {
      var k :| k in t.m && k !in s.m;
      AddMembersNonempty(s, t, path, SortedKeys(t.m.Keys), k);
    }
  }

  lemma {:induction false} ElementsNonempty(s: Json, t: Json, path: bytes, n: nat, i: nat)
    requires s.Array? && t.Array? && i < n <= |s.a| && n <= |t.a| && !Eq(s.a[i], t.a[i])
    ensures DiffElements(s, t, path, n) != []
    decreases s, 0, n
  {
    if i == n - 1 {
      DiffEmpty(s.a[i], t.a[i], IndexPath(path, i));
    } else {
      ElementsNonempty(s, t, path, n - 1, i);
    }
  }

  lemma {:induction false} MembersNonempty(s: Json, t: Json, path: bytes, ks: seq<bytes>, k: bytes)
    requires s.Object? && t.Object? && (forall x :: x in ks ==> x in s.m)
    requires k in ks && (k !in t.m || !Eq(s.m[k], t.m[k]))
    ensures DiffMembers(s, t, path, ks) != []
    decreases s, 0, |ks|
  {
    if k == ks[|ks| - 1] {
      if k in t.m {
        DiffEmpty(s.m[k], t.m[k], KeyPath(path, k));
      }
    } else {
      MembersNonempty(s, t, path, ks[..|ks| - 1], k);
    }
  }

  lemma {:induction false} AddMembersNonempty(s: Json, t: Json, path: bytes, ks: seq<bytes>, k: bytes)
    requires s.Object? && t.Object? && (forall x :: x in ks ==> x in t.m)
    requires k in ks && k !in s.m
    ensures AddMembers(s, t, path, ks) != []
    decreases |ks|
  {
    if k != ks[|ks| - 1] {
      AddMembersNonempty(s, t, path, ks[..|ks| - 1], k);
    }
  }

  /** No place below an array index beyond INT_MAX can be read or written. */
  lemma {:induction false} UnreachablePlace(doc: Json, p: seq<bytes>, i: nat, q: seq<bytes>)
    requires Get(doc, p).Ok? && Get(doc, p).value.Array? && i > INT_MAX
    ensures Get(doc, p + [Numeral(i)] + q).Err? && Target(doc, p + [Numeral(i)] + q).Err?
  {
    var ptr := p + [Numeral(i)] + q;
    if p == [] {
      StoiNumeral(i);
      assert IsDigit(Numeral(i)[0]);
      assert ptr == [Numeral(i)] + q;
    } else {
      assert ptr[1..] == p[1..] + [Numeral(i)] + q;
      UnreachablePlace(Child(doc, p[0]).value, p[1..], i, q);
    }
  }

  lemma UnreachableStep(doc: Json, p: seq<bytes>, i: nat, op: Json)
    requires Get(doc, p).Ok? && Get(doc, p).value.Array? && i > INT_MAX && Under(op, p + [Numeral(i)])
    ensures Step(doc, op).Err?
  {
    hide Get, Set, Steps, Step, ToString;
    var r := p + [Numeral(i)];
    if q: seq<bytes>, v: Json :| op == ReplaceOp(ToString(r + q), v) {
      UnreachablePlace(doc, p, i, q);
      StepReplace(doc, r + q, v);
      GetSet(doc, r + q, v);
    } else if q: seq<bytes>, v: Json :| q != [] && op == AddOp(ToString(r + q), v) {
      assert Parent(r + q) == r + Parent(q);
      UnreachablePlace(doc, p, i, Parent(q));
      StepAdd(doc, r + q, v);
    } else {
      var q: seq<bytes> :| q != [] && op == RemoveOp(ToString(r + q));
      assert Parent(r + q) == r + Parent(q);
      UnreachablePlace(doc, p, i, Parent(q));
      StepRemove(doc, r + q);
    }
  }

  lemma UnreachableApply(doc: Json, p: seq<bytes>, i: nat, s: Json, t: Json)
    requires Get(doc, p).Ok? && Get(doc, p).value.Array? && i > INT_MAX && !Eq(s, t)
    ensures Steps(doc, DiffOps(s, t, IndexPath(ToString(p), i))).Err?
  {
    IndexPathIs(p, i);
    var ops := DiffOps(s, t, IndexPath(ToString(p), i));
    DiffEmpty(s, t, IndexPath(ToString(p), i));
    assert ops[0] in ops;
    DiffUnder(s, t, p + [Numeral(i)], ops[0]);
    UnreachableStep(doc, p, i, ops[0]);
    StepsFirst(doc, ops[0], ops[1..]);
    assert ops == [ops[0]] + ops[1..];
  }

  // ----- objects -----

  /** `s` after the first pass over the given keys: common members merged, the others removed. */
  ghost function PartialObject(s: Json, t: Json, done: set<bytes>): Json
    requires s.Object? && t.Object?
  {
    Object(map k | k in s.m && (k !in done || k in t.m) ::
      if k in done then Merged(s.m[k], t.m[k]) else s.m[k])
  }

  ghost predicate MembersFit(s: Json, t: Json, done: set<bytes>)
    requires s.Object? && t.Object?
  {
    forall k | k in done && k in s.m && k in t.m :: IndicesFit(s.m[k], t.m[k])
  }

  lemma {:induction false} MembersApply(doc: Json, p: seq<bytes>, s: Json, t: Json, ks: seq<bytes>)
    requires Get(doc, p) == Ok(s) && s.Object? && t.Object?
    requires Ascending(ks) && forall k :: k in ks ==> k in s.m
    ensures MembersFit(s, t, KeySet(ks)) ==>
      Steps(doc, DiffMembers(s, t, ToString(p), ks)) == Set(doc, p, PartialObject(s, t, KeySet(ks)))
    ensures !MembersFit(s, t, KeySet(ks)) ==> Steps(doc, DiffMembers(s, t, ToString(p), ks)).Err?
    decreases s, 0, |ks|
  {
    if ks == [] {
      assert KeySet(ks) == {};
      assert PartialObject(s, t, {}).m == s.m;
      GetSet(doc, p, s);
    } else {
      var init, k := ks[..|ks| - 1], ks[|ks| - 1];
      KeySetLast(ks);
      MembersApply(doc, p, s, t, init);
      StepsConcat(doc, DiffMembers(s, t, ToString(p), init), MemberOps(s, t, ToString(p), k));
      if MembersFit(s, t, KeySet(init)) {
        NextMember(doc, p, s, t, KeySet(init), k);
      }
    }
  }

  /** The operations of the first pass for one key. */
  ghost function MemberOps(s: Json, t: Json, path: bytes, k: bytes): seq<Json>
    requires s.Object? && t.Object? && k in s.m
  {
    if k in t.m then DiffOps(s.m[k], t.m[k], KeyPath(path, k)) else [RemoveOp(KeyPath(path, k))]
  }

  lemma {:induction false} NextMember(doc: Json, p: seq<bytes>, s: Json, t: Json, done: set<bytes>, k: bytes)
    requires Get(doc, p) == Ok(s) && s.Object? && t.Object? && k in s.m && k !in done && MembersFit(s, t, done)
    ensures Set(doc, p, PartialObject(s, t, done)).Ok?
    ensures
      var r := Steps(Set(doc, p, PartialObject(s, t, done)).value, MemberOps(s, t, ToString(p), k));
      if MembersFit(s, t, done + {k}) then r == Set(doc, p, PartialObject(s, t, done + {k})) else r.Err?
    decreases s, 0, 0, 1
  {
    GetSet(doc, p, PartialObject(s, t, done));
    MemberApply(Set(doc, p, PartialObject(s, t, done)).value, p, s, t, done, k);
    SetSet(doc, p, PartialObject(s, t, done), PartialObject(s, t, done + {k}));
  }

  /** The sub-patch of member `k`, relocated below `p`. */
  lemma {:induction false} MemberApply(doc: Json, p: seq<bytes>, s: Json, t: Json, done: set<bytes>, k: bytes)
    requires s.Object? && t.Object? && Get(doc, p) == Ok(PartialObject(s, t, done)) && k in s.m && k !in done
    ensures k in t.m ==>
      var r := Steps(doc, DiffOps(s.m[k], t.m[k], KeyPath(ToString(p), k)));
      if IndicesFit(s.m[k], t.m[k]) then r == Set(doc, p, PartialObject(s, t, done + {k})) else r.Err?
    ensures k !in t.m ==>
      Steps(doc, [RemoveOp(KeyPath(ToString(p), k))]) == Set(doc, p, PartialObject(s, t, done + {k}))
    decreases s, 0, 0, 0
  {
    hide Get, Set, Steps, DiffOps, IndicesFit, Merged, ToString, Removed, Step;
    var part, next := PartialObject(s, t, done), PartialObject(s, t, done + {k});
    KeyPathIs(p, k);
    if k in t.m {
      GetAppend(doc, p, k);
      DiffApply(doc, p + [k], s.m[k], t.m[k]);
      SetAppend(doc, p, k, Merged(s.m[k], t.m[k]));
      assert next.m == part.m[k := Merged(s.m[k], t.m[k])];
    } else {
      StepsOne(doc, RemoveOp(KeyPath(ToString(p), k)));
      StepRemove(doc, p + [k]);
      RemovedBelow(doc, p, k);
      assert next.m == part.m - {k};
    }
  }

  /** The first pass of the whole object plus the members that were added so far. */
  ghost function ExtendedObject(s: Json, t: Json, added: set<bytes>): Json
    requires s.Object? && t.Object?
  {
    Object(map k | k in t.m && (k in s.m || k in added) :: if k in s.m then Merged(s.m[k], t.m[k]) else t.m[k])
  }

  lemma {:induction false} AddMembersApply(doc: Json, p: seq<bytes>, s: Json, t: Json, ks: seq<bytes>)
    requires s.Object? && t.Object? && Get(doc, p) == Ok(ExtendedObject(s, t, {}))
    requires Ascending(ks) && forall k :: k in ks ==> k in t.m
    ensures Steps(doc, AddMembers(s, t, ToString(p), ks)) == Set(doc, p, ExtendedObject(s, t, KeySet(ks)))
    decreases |ks|
  {
    if ks == [] {
      assert KeySet(ks) == {};
      GetSet(doc, p, ExtendedObject(s, t, {}));
    } else {
      var init, k := ks[..|ks| - 1], ks[|ks| - 1];
      KeySetLast(ks);
      AddMembersApply(doc, p, s, t, init);
      NextAddition(doc, p, s, t, KeySet(init), k);
      StepsConcat(doc, AddMembers(s, t, ToString(p), init),
                  if k in s.m then [] else [AddOp(KeyPath(ToString(p), k), t.m[k])]);
    }
  }

  lemma NextAddition(doc: Json, p: seq<bytes>, s: Json, t: Json, added: set<bytes>, k: bytes)
    requires s.Object? && t.Object? && Get(doc, p).Ok? && k in t.m
    ensures Set(doc, p, ExtendedObject(s, t, added)).Ok?
    ensures
      var ops := if k in s.m then [] else [AddOp(KeyPath(ToString(p), k), t.m[k])];
      Steps(Set(doc, p, ExtendedObject(s, t, added)).value, ops) == Set(doc, p, ExtendedObject(s, t, added + {k}))
  {
    var part, next := ExtendedObject(s, t, added), ExtendedObject(s, t, added + {k});
    GetSet(doc, p, part);
    if k in s.m {
      assert next.m == part.m;
    } else {
      var doc' := Set(doc, p, part).value;
      StepsOne(doc', AddOp(KeyPath(ToString(p), k), t.m[k]));
      KeyPathIs(p, k);
      StepAdd(doc', p + [k], t.m[k]);
      AddedBelow(doc', p, k, t.m[k]);
      assert next.m == part.m[k := t.m[k]];
      SetSet(doc, p, part, next);
    }
  }

  // ----- the theorem -----

  /** The patch of two values, applied at a place that holds the first one. */
  lemma {:induction false} DiffApply(doc: Json, p: seq<bytes>, s: Json, t: Json)
    requires Get(doc, p) == Ok(s)
    ensures IndicesFit(s, t) ==> Steps(doc, DiffOps(s, t, ToString(p))) == Set(doc, p, Merged(s, t))
    ensures !IndicesFit(s, t) ==> Steps(doc, DiffOps(s, t, ToString(p))).Err?
    decreases s, 1
  {
    GetSet(doc, p, s);
    if !Eq(s, t) {
      if SameType(s, t) && s.Array? {
        ArrayApply(doc, p, s, t);
      } else if SameType(s, t) && s.Object? {
        ObjectApply(doc, p, s, t);
      } else {
        StepsOne(doc, ReplaceOp(ToString(p), t));
        StepReplace(doc, p, t);
      }
    }
  }

  lemma {:induction false} ArrayApply(doc: Json, p: seq<bytes>, s: Json, t: Json)
    requires Get(doc, p) == Ok(s) && s.Array? && t.Array? && !Eq(s, t)
    ensures IndicesFit(s, t) ==> Steps(doc, DiffOps(s, t, ToString(p))) == Set(doc, p, Merged(s, t))
    ensures !IndicesFit(s, t) ==> Steps(doc, DiffOps(s, t, ToString(p))).Err?
    decreases s, 0, |s.a| + 1
  {
    var n, path := Min(|s.a|, |t.a|), ToString(p);
    var common, rest := DiffElements(s, t, path, n), Removes(path, |t.a|, |s.a|) + Adds(path, t.a, |s.a|);
    assert DiffOps(s, t, path) == common + rest;
    ElementsApply(doc, p, s, t, n);
    StepsConcat(doc, common, rest);
    ArrayFits(s, t);
    if ElementsFit(s, t, n) {
      GetSet(doc, p, PartialArray(s, t, n));
      TailApply(Set(doc, p, PartialArray(s, t, n)).value, p, s, t);
      SetSet(doc, p, PartialArray(s, t, n), Merged(s, t));
    }
  }

  lemma ArrayFits(s: Json, t: Json)
    requires s.Array? && t.Array? && !Eq(s, t)
    ensures IndicesFit(s, t) <==> ElementsFit(s, t, Min(|s.a|, |t.a|)) && TailFits(s, t)
  {
    if ElementsFit(s, t, Min(|s.a|, |t.a|)) && TailFits(s, t) {
      forall i | 0 <= i < |s.a| && i < |t.a|
        ensures IndicesFit(s.a[i], t.a[i]) && (i <= INT_MAX || Eq(s.a[i], t.a[i]))
      {
        assert ElementFits(s, t, i);
      }
    }
  }

  ghost predicate TailFits(s: Json, t: Json)
    requires s.Array? && t.Array?
  {
    |s.a| != |t.a| ==> |s.a| <= INT_MAX + 1 && |t.a| <= INT_MAX + 1
  }

  lemma TailApply(doc: Json, p: seq<bytes>, s: Json, t: Json)
    requires s.Array? && t.Array? && !Eq(s, t) && Get(doc, p) == Ok(PartialArray(s, t, Min(|s.a|, |t.a|)))
    ensures
      var r := Steps(doc, Removes(ToString(p), |t.a|, |s.a|) + Adds(ToString(p), t.a, |s.a|));
      if TailFits(s, t) then r == Set(doc, p, Merged(s, t)) else r.Err?
  {
    hide Get, Set, Steps, ToString, IndexPath, Eq;
    var part, path := PartialArray(s, t, Min(|s.a|, |t.a|)), ToString(p);
    if |t.a| < |s.a| {
      RemovesApply(doc, p, part.a, |t.a|);
      assert part.a[..|t.a|] == Merged(s, t).a;
      assert Removes(path, |t.a|, |s.a|) + [] == Removes(path, |t.a|, |s.a|);
    } else if |s.a| < |t.a| {
      AddsApply(doc, p, part.a, t.a);
      assert part.a + t.a[|s.a|..] == Merged(s, t).a;
      assert [] + Adds(path, t.a, |s.a|) == Adds(path, t.a, |s.a|);
    } else {
      assert part.a == Merged(s, t).a;
      GetSet(doc, p, part);
      StepsNone(doc);
    }
  }

  lemma {:induction false} ObjectApply(doc: Json, p: seq<bytes>, s: Json, t: Json)
    requires Get(doc, p) == Ok(s) && s.Object? && t.Object? && !Eq(s, t)
    ensures IndicesFit(s, t) ==> Steps(doc, DiffOps(s, t, ToString(p))) == Set(doc, p, Merged(s, t))
    ensures !IndicesFit(s, t) ==> Steps(doc, DiffOps(s, t, ToString(p))).Err?
    decreases s, 0, |SortedKeys(s.m.Keys)| + 1
  {
    hide Get, Set, Steps, ToString, SortedKeys, DiffMembers, AddMembers, IndicesFit, Merged;
    var ks, ls := SortedKeys(s.m.Keys), SortedKeys(t.m.Keys);
    MembersApply(doc, p, s, t, ks);
    assert KeySet(ks) == s.m.Keys;
    StepsConcat(doc, DiffMembers(s, t, ToString(p), ks), AddMembers(s, t, ToString(p), ls));
    ObjectFits(s, t);
    if MembersFit(s, t, s.m.Keys) {
      AdditionsApply(doc, p, s, t);
    }
  }

  lemma ObjectFits(s: Json, t: Json)
    requires s.Object? && t.Object? && !Eq(s, t)
    ensures IndicesFit(s, t) <==> MembersFit(s, t, s.m.Keys)
  {
  }

  lemma PassesMeet(s: Json, t: Json)
    requires s.Object? && t.Object? && !Eq(s, t)
    ensures PartialObject(s, t, s.m.Keys) == ExtendedObject(s, t, {})
    ensures ExtendedObject(s, t, t.m.Keys) == Merged(s, t)
  {
    assert PartialObject(s, t, s.m.Keys).m == ExtendedObject(s, t, {}).m;
    assert ExtendedObject(s, t, t.m.Keys).m == Merged(s, t).m;
  }

  lemma AdditionsApply(doc: Json, p: seq<bytes>, s: Json, t: Json)
    requires Get(doc, p).Ok? && s.Object? && t.Object? && !Eq(s, t)
    ensures Set(doc, p, PartialObject(s, t, s.m.Keys)).Ok?
    ensures Steps(Set(doc, p, PartialObject(s, t, s.m.Keys)).value, AddMembers(s, t, ToString(p), SortedKeys(t.m.Keys)))
         == Set(doc, p, Merged(s, t))
  {
    var part := PartialObject(s, t, s.m.Keys);
    PassesMeet(s, t);
    GetSet(doc, p, part);
    assert KeySet(SortedKeys(t.m.Keys)) == t.m.Keys;
    AddMembersApply(Set(doc, p, part).value, p, s, t, SortedKeys(t.m.Keys));
    SetSet(doc, p, part, Merged(s, t));
  }

  /** Applying the diff of two values gives `Merged(s, t)`, or fails when an index does not fit into an int. */
  lemma PatchOfDiff(s: Json, t: Json)
    ensures IndicesFit(s, t) ==> Patched(s, Array(DiffOps(s, t, []))) == Ok(Merged(s, t))
    ensures !IndicesFit(s, t) ==> Patched(s, Array(DiffOps(s, t, []))).Err?
  {
    assert ToString([]) == [];
    DiffApply(s, [], s, t);
  }

  /** `source.patch(diff(source, target)) == target`, with the exact conditions under which it holds. */
  lemma PatchRestoresTarget(source: Json, target: Json)
    ensures
      var r := Patched(source, Array(DiffOps(source, target, [])));
      r.Ok? && Eq(r.value, target) <==> IndicesFit(source, target) && NaNFree(target)
  {
    PatchOfDiff(source, target);
    MergedEq(source, target);
  }

  /** No array has more elements than an int can index. */
  predicate IntSized(j: Json) {
    match j
    case Array(a) => |a| <= INT_MAX + 1 && forall i | 0 <= i < |a| :: IntSized(a[i])
    case Object(m) => forall k | k in m :: IntSized(m[k])
    case _ => true
  }

  lemma {:induction false} IntSizedFit(s: Json, t: Json)
    requires IntSized(s) && IntSized(t)
    ensures IndicesFit(s, t)
  {
    if SameType(s, t) {
      match s
      case Array(a) =>
        forall i | 0 <= i < |a| && i < |t.a| ensures IndicesFit(a[i], t.a[i]) { IntSizedFit(a[i], t.a[i]); }
      case Object(m) =>
        forall k | k in m && k in t.m ensures IndicesFit(m[k], t.m[k]) { IntSizedFit(m[k], t.m[k]); }
      case _ =>
    }
  }

  /** The documented invariant, for values whose arrays an int can index. */
  lemma DocumentedInvariant(source: Json, target: Json)
    requires IntSized(source) && IntSized(target) && NaNFree(target)
    ensures
      var r := Patched(source, Array(DiffOps(source, target, [])));
      r.Ok? && Eq(r.value, target)
  {
    IntSizedFit(source, target);
    PatchRestoresTarget(source, target);
  }

  /** Beyond that size the invariant fails: shortening an array by an element that stoi cannot address. */
  lemma TooLongArray(source: Json, target: Json)
    requires source == Array(seq(INT_MAX + 2, _ => Null)) && target == Array(seq(INT_MAX + 1, _ => Null))
    ensures Patched(source, Array(DiffOps(source, target, []))).Err?
  {
    PatchOfDiff(source, target);
  }
}
