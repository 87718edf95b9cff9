/**
 When `unflatten` restores what `flatten` took apart.
 */
module FlattenRoundTrip {
  import opened Bytes
  import opened Wrappers
  import opened Value
  import opened Decimal
  import opened Pointer
  import opened Access
  import opened Flatten

  /** One member of a flattened object, its key read as a pointer. */
  datatype Entry = Entry(ptr: seq<bytes>, v: Json)

  /** Successive assignments through `get_and_create`. */
  function Assign(j: Json, es: seq<Entry>): Result<Json>
    decreases |es|
  {
    if es == [] then Ok(j)
    else
      var next :- CreateSet(j, es[0].ptr, es[0].v);
      Assign(next, es[1..])
  }

  /** The entries below the token `t`, without that token. */
  function Below(es: seq<Entry>, t: bytes): seq<Entry> {
    if es == [] then []
    else
      var e, rest := es[0], Below(es[1..], t);
      if e.ptr != [] && e.ptr[0] == t then [Entry(e.ptr[1..], e.v)] + rest else rest
  }

  ghost predicate NoRoot(es: seq<Entry>) {
    forall e :: e in es ==> e.ptr != []
  }

  /** The entries are in the order of their pointer strings and are the leaves of `j`. */
  ghost predicate Enumerates(es: seq<Entry>, j: Json) {
    && InOrder(es)
    && forall e :: e in es <==> Leaf(j, e.ptr) == Some(e.v)
  }

  ghost predicate InOrder(es: seq<Entry>) {
    forall i, k :: 0 <= i < k < |es| ==> Bytes.Less(ToString(es[i].ptr), ToString(es[k].ptr))
  }

  // ----- assignments below an object -----

  lemma AssignOne(j: Json, e: Entry, es: seq<Entry>)
    ensures Assign(j, [e] + es) ==
            if CreateSet(j, e.ptr, e.v).Ok? then Assign(CreateSet(j, e.ptr, e.v).value, es)
            else Err(CreateSet(j, e.ptr, e.v).error)
  {
    assert ([e] + es)[1..] == es;
  }

  /** Assignments to an object act on each member separately. */
  lemma {:induction false} ObjectAssign(m: map<bytes, Json>, es: seq<Entry>)
    requires NoRoot(es)
    ensures Assign(Object(m), es).Ok? <==> forall t: bytes :: Assign(Member(m, t), Below(es, t)).Ok?
    ensures Assign(Object(m), es).Ok? ==> MembersAssigned(m, es, Assign(Object(m), es).value)
    decreases |es|
  {
    if es == [] {
    } else {
      var t0, e := es[0].ptr[0], Entry(es[0].ptr[1..], es[0].v);
      AssignOne(Member(m, t0), e, Below(es[1..], t0));
      var c := CreateSet(Member(m, t0), e.ptr, e.v);
      if c.Ok? {
        var m1 := m[t0 := c.value];
        ObjectAssign(m1, es[1..]);
        forall t: bytes ensures Assign(Member(m1, t), Below(es[1..], t)) == Assign(Member(m, t), Below(es, t)) {
        }
        assert Assign(Object(m), es) == Assign(Object(m1), es[1..]);
      }
    }
  }

  ghost predicate MembersAssigned(m: map<bytes, Json>, es: seq<Entry>, r: Json)
    requires NoRoot(es)
  {
    && r.Object?
    && (forall t :: t in r.m <==> t in m || exists e :: e in es && e.ptr[0] == t)
    && (forall t :: t in r.m ==> Assign(Member(m, t), Below(es, t)) == Ok(r.m[t]))
  }

  // ----- assignments below an array -----

  ghost predicate IndexBelow(e: Entry, n: nat) {
    e.ptr != [] && CanonicalIndex(e.ptr[0]) && Number(e.ptr[0]) < n
  }

  ghost predicate AllBelow(es: seq<Entry>, n: nat) {
    forall e :: e in es ==> IndexBelow(e, n)
  }

  ghost predicate ElementsAssigned(a: seq<Json>, es: seq<Entry>, n: nat, r: Json)
    requires AllBelow(es, n)
  {
    && r.Array? && |a| <= |r.a| <= n
    && (forall e :: e in es ==> IndexBelow(e, n) && Number(e.ptr[0]) < |r.a|)
    && (forall i | 0 <= i < |r.a| :: Assign(Element(a, i), Below(es, Numeral(i))) == Ok(r.a[i]))
  }

  /** The first assignment to an array. */
  lemma ArrayAssignFirst(a: seq<Json>, es: seq<Entry>, n: nat)
    requires es != [] && IndexBelow(es[0], n)
    ensures var i := Number(es[0].ptr[0]);
      var c := CreateSet(Element(a, i), es[0].ptr[1..], es[0].v);
      if i <= INT_MAX && c.Ok? then Assign(Array(a), es) == Assign(Array(Filled(a, i)[i := c.value]), es[1..])
      else Assign(Array(a), es).Err?
  {
    CanonicalStoi(es[0].ptr[0]);
  }

  /** Assignments to an array act on each element separately, as long as the indices fit into an int. */
  lemma {:induction false} ArrayAssign(a: seq<Json>, es: seq<Entry>, n: nat)
    requires |a| <= n && AllBelow(es, n)
    ensures Assign(Array(a), es).Ok? <==>
            (forall e :: e in es ==> IndexBelow(e, n) && Number(e.ptr[0]) <= INT_MAX) &&
            (forall i: nat :: Assign(Element(a, i), Below(es, Numeral(i))).Ok?)
    ensures Assign(Array(a), es).Ok? ==> ElementsAssigned(a, es, n, Assign(Array(a), es).value)
    decreases |es|
  {
    hide CreateSet, Number, Numeral;
    if es == [] {
    } else {
      hide Below, Assign, Filled, Element;
      assert es[0] in es;
      var t0 := es[0].ptr[0];
      var i0 := Number(t0);
      CanonicalStoi(t0);
      ArrayAssignFirst(a, es, n);
      FirstElement(a, es, n);
      var c := CreateSet(Element(a, i0), es[0].ptr[1..], es[0].v);
      if i0 <= INT_MAX && c.Ok? {
        ArrayAssign(Filled(a, i0)[i0 := c.value], es[1..], n);
        forall i: nat
          ensures Assign(Element(Filled(a, i0)[i0 := c.value], i), Below(es[1..], Numeral(i))) ==
                  Assign(Element(a, i), Below(es, Numeral(i)))
        {
          ElementStep(a, es, n, i);
        }
        assert forall e :: e in es ==> e == es[0] || e in es[1..];
      }
    }
  }

  /** An assignment that fails for the first element fails for the elements below its token. */
  lemma FirstElement(a: seq<Json>, es: seq<Entry>, n: nat)
    requires es != [] && IndexBelow(es[0], n)
    ensures var i := Number(es[0].ptr[0]);
      CreateSet(Element(a, i), es[0].ptr[1..], es[0].v).Err? ==> Assign(Element(a, i), Below(es, Numeral(i))).Err?
  {
    hide CreateSet, Number;
    CanonicalStoi(es[0].ptr[0]);
  }

  /** What an element becomes does not depend on whether the first assignment has been made. */
  lemma ElementStep(a: seq<Json>, es: seq<Entry>, n: nat, i: nat)
    requires es != [] && IndexBelow(es[0], n)
    requires CreateSet(Element(a, Number(es[0].ptr[0])), es[0].ptr[1..], es[0].v).Ok?
    ensures var i0 := Number(es[0].ptr[0]);
      var c := CreateSet(Element(a, i0), es[0].ptr[1..], es[0].v);
      Assign(Element(Filled(a, i0)[i0 := c.value], i), Below(es[1..], Numeral(i))) ==
      Assign(Element(a, i), Below(es, Numeral(i)))
  {
    hide CreateSet, Number, Numeral;
    CanonicalStoi(es[0].ptr[0]);
    NumberOfNumeral(i);
    var t := Numeral(i);
    if es[0].ptr[0] == t {
      AssignOne(Element(a, i), Entry(es[0].ptr[1..], es[0].v), Below(es[1..], t));
    }
  }

  // ----- the entries below one token -----

  lemma {:induction false} BelowMembers(es: seq<Entry>, t: bytes, e: Entry)
    ensures e in Below(es, t) <==> Entry([t] + e.ptr, e.v) in es
  {
    if es != [] {
      BelowMembers(es[1..], t, e);
      var long := Entry([t] + e.ptr, e.v);
      assert long in es <==> long == es[0] || long in es[1..];
      assert ([t] + e.ptr)[1..] == e.ptr;
      if es[0].ptr != [] && es[0].ptr[0] == t {
        assert es[0].ptr == [t] + es[0].ptr[1..];
      }
    }
  }

  lemma {:induction false} BelowInOrder(es: seq<Entry>, t: bytes)
    requires InOrder(es)
    ensures InOrder(Below(es, t))
  {
    if es != [] {
      BelowInOrder(es[1..], t);
      var rest := Below(es[1..], t);
      if es[0].ptr != [] && es[0].ptr[0] == t {
        forall k | 0 <= k < |rest| ensures Bytes.Less(ToString(es[0].ptr[1..]), ToString(rest[k].ptr)) {
          BelowMembers(es[1..], t, rest[k]);
          var i :| 0 <= i < |es[1..]| && es[1..][i] == Entry([t] + rest[k].ptr, rest[k].v);
          assert es[i + 1].ptr == [t] + rest[k].ptr && es[0].ptr == [t] + es[0].ptr[1..];
          StripFirst(t, es[0].ptr[1..], rest[k].ptr);
        }
      }
    }
  }

  /** A common first token does not influence the order of pointer strings. */
  lemma StripFirst(t: bytes, p: seq<bytes>, q: seq<bytes>)
    ensures Bytes.Less(ToString([t] + p), ToString([t] + q)) <==> Bytes.Less(ToString(p), ToString(q))
  {
    ToStringCons(t, p);
    ToStringCons(t, q);
    LessCommonPrefix([SLASH] + Escaped(t), ToString(p), ToString(q));
  }

  lemma BelowEnumerates(es: seq<Entry>, j: Json, t: bytes)
    requires Composite(j) && Enumerates(es, j) && IsChildToken(j, t)
    ensures Enumerates(Below(es, t), SubValue(j, t))
  {
    BelowInOrder(es, t);
    forall e ensures e in Below(es, t) <==> Leaf(SubValue(j, t), e.ptr) == Some(e.v) {
      BelowMembers(es, t, e);
      LeafStep(j, t, e.ptr);
      assert Entry([t] + e.ptr, e.v) in es <==> Leaf(j, [t] + e.ptr) == Some(e.v);
    }
  }

  lemma EnumeratesNonempty(es: seq<Entry>, j: Json)
    requires Enumerates(es, j)
    ensures es != []
    ensures Composite(j) ==> NoRoot(es) && forall e :: e in es ==> IsChildToken(j, e.ptr[0])
  {
    var p := LeafExists(j);
    assert Entry(p, Leaf(j, p).value) in es;
    if Composite(j) {
      forall e | e in es ensures e.ptr != [] && IsChildToken(j, e.ptr[0]) {
        LeafSplit(j, e.ptr);
      }
    }
  }

  // ----- the theorem -----

  /** The place whose pointer string comes first; `flatten` lists it first. */
  function FirstLeaf(j: Json): (p: seq<bytes>)
    ensures j.Object? && j.m != map[] ==> p != [] && p[0] in j.m
    decreases j, 1
  {
    match j
    case Array(a) => if a == [] then [] else [INDEX0] + FirstLeaf(a[0])
    case Object(m) =>
      if m == map[] then []
      else
        assert |SortedKeys(m.Keys)| == |m.Keys|;
        FirstBelow(j, SortedKeys(m.Keys))
    case _ => []
  }

  /** The first of the places below the given members. */
  function FirstBelow(j: Json, ks: seq<bytes>): (p: seq<bytes>)
    requires j.Object? && forall k :: k in ks ==> k in j.m
    ensures ks != [] ==> p != [] && p[0] in ks
    decreases j, 0, |ks|
  {
    if ks == [] then []
    else
      var p, q := [ks[0]] + FirstLeaf(j.m[ks[0]]), FirstBelow(j, ks[1..]);
      if |ks| > 1 && Bytes.Less(ToString(q), ToString(p)) then q else p
  }

  /** The pointer string of the leaf comes before those of all others. */
  ghost predicate FirstPlace(j: Json, p: seq<bytes>) {
    Leaf(j, p).Some? && forall q :: Leaf(j, q).Some? && q != p ==> Bytes.Less(ToString(p), ToString(q))
  }

  lemma {:induction false} FirstLeafIsFirst(j: Json)
    ensures FirstPlace(j, FirstLeaf(j))
    decreases j, 1
  {
    hide ToString, Bytes.Less, SortedKeys;
    if j.Array? && j.a != [] {
      FirstLeafIsFirst(j.a[0]);
      FirstElementIsFirst(j, FirstLeaf(j.a[0]));
    } else if j.Object? && j.m != map[] {
      var ks := SortedKeys(j.m.Keys);
      assert |ks| == |j.m.Keys| > 0;
      FirstBelowIsFirst(j, ks);
      forall q | Leaf(j, q).Some? ensures q != [] && q[0] in ks {
        LeafSplit(j, q);
      }
    }
  }

  lemma FirstElementIsFirst(j: Json, p: seq<bytes>)
    requires j.Array? && j.a != [] && FirstPlace(j.a[0], p)
    ensures FirstPlace(j, [INDEX0] + p)
  {
    hide ToString, Bytes.Less, Leaf;
    NumberOfNumeral(0);
    assert Numeral(0) == INDEX0;
    LeafStep(j, INDEX0, p);
    forall q | Leaf(j, q).Some? && q != [INDEX0] + p ensures Bytes.Less(ToString([INDEX0] + p), ToString(q)) {
      LeafSplit(j, q);
      if q[0] == INDEX0 {
        StripFirst(INDEX0, p, q[1..]);
      } else {
        NumeralOfNumber(q[0]);
        ZeroComesFirst(Number(q[0]), p, q[1..]);
      }
    }
  }

  lemma {:induction false} FirstBelowIsFirst(j: Json, ks: seq<bytes>)
    requires j.Object? && j.m != map[] && ks != [] && forall k :: k in ks ==> k in j.m
    ensures var p := FirstBelow(j, ks);
      && Leaf(j, p).Some?
      && forall q :: Leaf(j, q).Some? && q != [] && q[0] in ks && q != p ==> Bytes.Less(ToString(p), ToString(q))
    decreases j, 0, |ks|
  {
    hide ToString, Bytes.Less, Leaf;
    var k := ks[0];
    var p, r := FirstLeaf(j.m[k]), FirstBelow(j, ks);
    FirstLeafIsFirst(j.m[k]);
    LeafStep(j, k, p);
    if |ks| > 1 {
      FirstBelowIsFirst(j, ks[1..]);
      LessTrichotomy(ToString([k] + p), ToString(FirstBelow(j, ks[1..])));
    }
    forall q | Leaf(j, q).Some? && q != [] && q[0] in ks && q != r ensures Bytes.Less(ToString(r), ToString(q)) {
      LeafSplit(j, q);
      if q[0] == k {
        StripFirst(k, p, q[1..]);
        if r != [k] + p && q != [k] + p {
          LessTransitive(ToString(r), ToString([k] + p), ToString(q));
        }
      } else {
        assert q[0] in ks[1..];
        NotAfter([k] + p, FirstBelow(j, ks[1..]), q);
      }
    }
  }

  /** The earlier of two pointers comes before everything that the second comes before. */
  lemma NotAfter(p: seq<bytes>, s: seq<bytes>, q: seq<bytes>)
    requires q != p && (q == s || Bytes.Less(ToString(s), ToString(q)))
    ensures var r := if Bytes.Less(ToString(s), ToString(p)) then s else p;
      q != r ==> Bytes.Less(ToString(r), ToString(q))
  {
    hide ToString, Bytes.Less;
    LessTrichotomy(ToString(p), ToString(s));
    if ToString(p) == ToString(s) {
      ToStringInjective(p, s);
    } else if Bytes.Less(ToString(p), ToString(s)) && q != s {
      LessTransitive(ToString(p), ToString(s), ToString(q));
    }
  }

  /** `j` as `unflatten` can at best restore it. */
  function EmptyToNull(j: Json): Json {
    match j
    case Array(a) => if a == [] then Null else Array(seq(|a|, i requires 0 <= i < |a| => EmptyToNull(a[i])))
    case Object(m) => if m == map[] then Null else Object(map k | k in m :: EmptyToNull(m[k]))
    case _ => j
  }

  /**
   Every array index fits into an int, and the first flattened pointer of a nonempty object does not
   begin with the token 0, which would start an array.
   */
  predicate Restorable(j: Json) {
    match j
    case Array(a) => |a| <= INT_MAX + 1 && forall i | 0 <= i < |a| :: Restorable(a[i])
    case Object(m) => (m == map[] || FirstLeaf(j)[0] != INDEX0) && forall k | k in m :: Restorable(m[k])
    case _ => true
  }

  lemma FirstEntry(es: seq<Entry>, j: Json)
    requires Enumerates(es, j)
    ensures es != [] && es[0].ptr == FirstLeaf(j)
  {
    hide ToString, Bytes.Less, FirstLeaf, Leaf;
    EnumeratesNonempty(es, j);
    FirstLeafIsFirst(j);
    var p := FirstLeaf(j);
    var e := Entry(p, Leaf(j, p).value);
    assert e in es && es[0] in es;
    var i :| 0 <= i < |es| && es[i] == e;
    LessTrichotomy(ToString(p), ToString(es[0].ptr));
  }

  lemma {:induction false} AssignRestores(es: seq<Entry>, j: Json)
    requires Enumerates(es, j)
    ensures Assign(Null, es) == Ok(EmptyToNull(j)) <==> Restorable(j)
    decreases j, 1
  {
    EnumeratesNonempty(es, j);
    if !Composite(j) {
      LeafEntry(es, j);
    } else if j.Array? {
      ArrayRestores(es, j);
    } else {
      ObjectRestores(es, j);
    }
  }

  lemma LeafEntry(es: seq<Entry>, j: Json)
    requires Enumerates(es, j) && !Composite(j)
    ensures Assign(Null, es) == Ok(EmptyToNull(j))
  {
    EnumeratesNonempty(es, j);
    assert es[0] in es;
    if |es| > 1 {
      assert es[1] in es;
      LessIrreflexive(ToString([]));
      assert false;
    }
  }

  /** A pointer into element 0 comes before every pointer into another element. */
  lemma ZeroComesFirst(i: nat, p: seq<bytes>, q: seq<bytes>)
    requires i > 0
    ensures Bytes.Less(ToString([INDEX0] + p), ToString([Numeral(i)] + q))
  {
    hide ToString, Pointer.Escaped, Bytes.Less;
    var t := Numeral(i);
    assert Numeral(0) == INDEX0;
    PlainNumeral(0);
    PlainNumeral(i);
    ToStringCons(INDEX0, p);
    ToStringCons(t, q);
    assert t == [t[0]] + t[1..];
    LessAtFirstDifference([SLASH], ZERO, ToString(p), t[0], t[1..] + ToString(q));
    assert [SLASH] + t + ToString(q) == [SLASH] + [t[0]] + (t[1..] + ToString(q));
  }

  /** The first pointer below a nonempty array begins with the token 0, however many elements follow. */
  lemma ArrayStartsWithZero(es: seq<Entry>, j: Json)
    requires j.Array? && j.a != [] && Enumerates(es, j)
    ensures es != [] && es[0].ptr != [] && es[0].ptr[0] == INDEX0
  {
    FirstEntry(es, j);
  }

  lemma StartsArray(es: seq<Entry>)
    requires es != [] && es[0].ptr != [] && es[0].ptr[0] == INDEX0
    ensures Assign(Null, es) == Assign(Array([]), es)
  {
    assert Numeral(0) == INDEX0;
    StoiNumeral(0);
    assert Element([], 0) == Null;
    var c := CreateSet(Null, es[0].ptr[1..], es[0].v);
    if c.Ok? {
      assert Filled([], 0)[0 := c.value] == [c.value];
    }
  }

  lemma {:induction false} StaysArray(a: seq<Json>, es: seq<Entry>)
    requires NoRoot(es) && Assign(Array(a), es).Ok?
    ensures Assign(Array(a), es).value.Array?
    decreases |es|
  {
    if es != [] {
      assert es[0] in es;
      StaysArray(CreateSet(Array(a), es[0].ptr, es[0].v).value.a, es[1..]);
    }
  }

  lemma {:induction false} ArrayRestores(es: seq<Entry>, j: Json)
    requires j.Array? && j.a != [] && Enumerates(es, j)
    ensures Assign(Null, es) == Ok(EmptyToNull(j)) <==> Restorable(j)
    decreases j, 0
  {
    forall i | 0 <= i < |j.a|
      ensures Assign(Null, Below(es, Numeral(i))) == Ok(EmptyToNull(j.a[i])) <==> Restorable(j.a[i])
    {
      NumberOfNumeral(i);
      BelowEnumerates(es, j, Numeral(i));
      AssignRestores(Below(es, Numeral(i)), j.a[i]);
    }
    ArrayAssignAll(es, j);
  }

  /** If the assignments below a nonempty array succeed, they give as many elements, each assigned on its own. */
  lemma ArrayAssigned(es: seq<Entry>, j: Json)
    requires j.Array? && j.a != [] && Enumerates(es, j) && Assign(Null, es).Ok?
    ensures Assign(Null, es).value.Array? && |Assign(Null, es).value.a| == |j.a| <= INT_MAX + 1
    ensures forall i | 0 <= i < |j.a| :: Assign(Null, Below(es, Numeral(i))) == Ok(Assign(Null, es).value.a[i])
  {
    EnumeratesNonempty(es, j);
    ArrayStartsWithZero(es, j);
    StartsArray(es);
    ArrayAssign([], es, |j.a|);
    ArraySized(es, j, Assign(Null, es).value);
  }

  /** A nonempty array is restored exactly when its indices fit and each element is restored. */
  lemma ArrayAssignAll(es: seq<Entry>, j: Json)
    requires j.Array? && j.a != [] && Enumerates(es, j)
    ensures Assign(Null, es) == Ok(EmptyToNull(j)) <==>
            |j.a| <= INT_MAX + 1 &&
            forall i | 0 <= i < |j.a| :: Assign(Null, Below(es, Numeral(i))) == Ok(EmptyToNull(j.a[i]))
  {
    var n := |j.a|;
    EnumeratesNonempty(es, j);
    ArrayStartsWithZero(es, j);
    StartsArray(es);
    ArrayAssign([], es, n);
    if forall i | 0 <= i < n :: Assign(Null, Below(es, Numeral(i))) == Ok(EmptyToNull(j.a[i])) {
      assert forall i: nat | i < n :: Assign(Element([], i), Below(es, Numeral(i))).Ok?;
    }
    forall i: nat | i >= n ensures Below(es, Numeral(i)) == [] {
      NoneBelow(es, j, i);
    }
    var r := Assign(Null, es);
    if r.Ok? {
      ArrayAssigned(es, j);
      RestoredArray(j, r.value.a);
    }
  }

  lemma RestoredArray(j: Json, r: seq<Json>)
    requires j.Array? && j.a != [] && |r| == |j.a|
    ensures Array(r) == EmptyToNull(j) <==> forall i | 0 <= i < |j.a| :: r[i] == EmptyToNull(j.a[i])
  {
    var restored := EmptyToNull(j).a;
    assert forall i | 0 <= i < |j.a| :: restored[i] == EmptyToNull(j.a[i]);
    if forall i | 0 <= i < |j.a| :: r[i] == EmptyToNull(j.a[i]) {
      assert r == restored;
    }
  }

  lemma ArraySized(es: seq<Entry>, j: Json, r: Json)
    requires j.Array? && j.a != [] && Enumerates(es, j) && AllBelow(es, |j.a|)
    requires ElementsAssigned([], es, |j.a|, r)
    requires forall e :: e in es ==> Number(e.ptr[0]) <= INT_MAX
    ensures |r.a| == |j.a| <= INT_MAX + 1
    ensures forall i | 0 <= i < |j.a| :: Assign(Null, Below(es, Numeral(i))) == Ok(r.a[i])
  {
    var last := IndexOccurs(es, j, |j.a| - 1);
    assert |r.a| == |j.a|;
    assert forall i | 0 <= i < |j.a| :: Element([], i) == Null;
  }

  /** Every index of a nonempty array begins the pointer of some leaf. */
  lemma IndexOccurs(es: seq<Entry>, j: Json, i: nat) returns (e: Entry)
    requires j.Array? && i < |j.a| && Enumerates(es, j)
    ensures e in es && e.ptr != [] && e.ptr[0] == Numeral(i) && Number(Numeral(i)) == i
  {
    NumberOfNumeral(i);
    var p := LeafExists(j.a[i]);
    LeafStep(j, Numeral(i), p);
    e := Entry([Numeral(i)] + p, Leaf(j.a[i], p).value);
  }

  lemma NoneBelow(es: seq<Entry>, j: Json, i: nat)
    requires j.Array? && j.a != [] && Enumerates(es, j) && i >= |j.a|
    ensures Below(es, Numeral(i)) == []
  {
    var below := Below(es, Numeral(i));
    if below != [] {
      assert below[0] in below;
      BelowMembers(es, Numeral(i), below[0]);
      assert ([Numeral(i)] + below[0].ptr)[0] == Numeral(i);
      LeafSplit(j, [Numeral(i)] + below[0].ptr);
      NumberOfNumeral(i);
      assert false;
    }
  }

  lemma {:induction false} ObjectRestores(es: seq<Entry>, j: Json)
    requires j.Object? && j.m != map[] && Enumerates(es, j)
    ensures Assign(Null, es) == Ok(EmptyToNull(j)) <==> Restorable(j)
    decreases j, 0
  {
    forall k | k in j.m
      ensures Assign(Null, Below(es, k)) == Ok(EmptyToNull(j.m[k])) <==> Restorable(j.m[k])
    {
      BelowEnumerates(es, j, k);
      AssignRestores(Below(es, k), j.m[k]);
    }
    EnumeratesNonempty(es, j);
    assert es[0] in es;
    FirstEntry(es, j);
    if es[0].ptr[0] == INDEX0 {
      StartsArray(es);
      if Assign(Array([]), es).Ok? {
        StaysArray([], es);
      }
    } else {
      ObjectAssignAll(es, j);
    }
  }

  /** If the assignments below a nonempty object succeed, they give its members, each assigned on its own. */
  lemma ObjectAssigned(es: seq<Entry>, j: Json)
    requires j.Object? && j.m != map[] && Enumerates(es, j) && Assign(Null, es).Ok?
    requires es != [] && es[0].ptr != [] && es[0].ptr[0] != INDEX0
    ensures Assign(Null, es).value.Object? && Assign(Null, es).value.m.Keys == j.m.Keys
    ensures forall k | k in j.m :: Assign(Null, Below(es, k)) == Ok(Assign(Null, es).value.m[k])
  {
    EnumeratesNonempty(es, j);
    ObjectAssign(map[], es);
    AllKeysOccur(es, j);
    forall t: bytes | t !in j.m ensures Below(es, t) == [] {
      NoneBelowKey(es, j, t);
    }
  }

  /** A nonempty object that does not start as an array is restored exactly when each member is. */
  lemma ObjectAssignAll(es: seq<Entry>, j: Json)
    requires j.Object? && j.m != map[] && Enumerates(es, j)
    requires es != [] && es[0].ptr != [] && es[0].ptr[0] != INDEX0
    ensures Assign(Null, es) == Ok(EmptyToNull(j)) <==>
            forall k | k in j.m :: Assign(Null, Below(es, k)) == Ok(EmptyToNull(j.m[k]))
  {
    EnumeratesNonempty(es, j);
    ObjectAssign(map[], es);
    AllKeysOccur(es, j);
    forall t: bytes | t !in j.m ensures Below(es, t) == [] {
      NoneBelowKey(es, j, t);
    }
    var r := Assign(Null, es);
    if r.Ok? {
      assert r.value.m.Keys == j.m.Keys;
      RestoredObject(j, r.value.m);
    }
  }

  lemma RestoredObject(j: Json, r: map<bytes, Json>)
    requires j.Object? && j.m != map[] && r.Keys == j.m.Keys
    ensures Object(r) == EmptyToNull(j) <==> forall k | k in j.m :: r[k] == EmptyToNull(j.m[k])
  {
    var restored := EmptyToNull(j).m;
    assert forall k | k in j.m :: restored[k] == EmptyToNull(j.m[k]);
    if forall k | k in j.m :: r[k] == EmptyToNull(j.m[k]) {
      assert r == restored;
    }
  }

  lemma AllKeysOccur(es: seq<Entry>, j: Json)
    requires j.Object? && j.m != map[] && Enumerates(es, j)
    ensures forall k | k in j.m :: exists e :: e in es && e.ptr != [] && e.ptr[0] == k
  {
    forall k | k in j.m ensures exists e :: e in es && e.ptr != [] && e.ptr[0] == k {
      var p := LeafExists(j.m[k]);
      LeafStep(j, k, p);
      assert Entry([k] + p, Leaf(j.m[k], p).value) in es;
    }
  }

  lemma NoneBelowKey(es: seq<Entry>, j: Json, t: bytes)
    requires j.Object? && j.m != map[] && Enumerates(es, j) && t !in j.m
    ensures Below(es, t) == []
  {
    var below := Below(es, t);
    if below != [] {
      assert below[0] in below;
      BelowMembers(es, t, below[0]);
      assert ([t] + below[0].ptr)[0] == t;
      LeafSplit(j, [t] + below[0].ptr);
      assert false;
    }
  }

  // ----- equal, but not the same -----

  /** What the assignments give is equal to the value only if the value is restorable. */
  lemma {:induction false} EqualRestorable(es: seq<Entry>, j: Json)
    requires Enumerates(es, j) && Assign(Null, es).Ok? && Eq(Assign(Null, es).value, EmptyToNull(j))
    ensures Restorable(j)
    decreases j, 1
  {
    if j.Array? && j.a != [] {
      EqualArray(es, j);
    } else if j.Object? && j.m != map[] {
      EqualObject(es, j);
    }
  }

  lemma {:induction false} EqualArray(es: seq<Entry>, j: Json)
    requires j.Array? && j.a != [] && Enumerates(es, j)
    requires Assign(Null, es).Ok? && Eq(Assign(Null, es).value, EmptyToNull(j))
    ensures Restorable(j)
    decreases j, 0
  {
    hide Assign, Below, Enumerates;
    ArrayAssigned(es, j);
    var r := Assign(Null, es).value.a;
    assert forall i | 0 <= i < |j.a| :: Eq(r[i], EmptyToNull(j).a[i]);
    forall i | 0 <= i < |j.a| ensures Restorable(j.a[i]) {
      BelowElement(es, j, i);
      assert EmptyToNull(j).a[i] == EmptyToNull(j.a[i]);
      EqualRestorable(Below(es, Numeral(i)), j.a[i]);
    }
  }

  lemma BelowElement(es: seq<Entry>, j: Json, i: nat)
    requires j.Array? && i < |j.a| && Enumerates(es, j)
    ensures Enumerates(Below(es, Numeral(i)), j.a[i])
  {
    NumberOfNumeral(i);
    BelowEnumerates(es, j, Numeral(i));
  }

  lemma {:induction false} EqualObject(es: seq<Entry>, j: Json)
    requires j.Object? && j.m != map[] && Enumerates(es, j)
    requires Assign(Null, es).Ok? && Eq(Assign(Null, es).value, EmptyToNull(j))
    ensures Restorable(j)
    decreases j, 0
  {
    hide Assign, Below, FirstLeaf;
    ObjectStarts(es, j);
    ObjectAssigned(es, j);
    var r := Assign(Null, es).value.m;
    assert forall k | k in j.m :: Eq(r[k], EmptyToNull(j).m[k]);
    forall k | k in j.m ensures Restorable(j.m[k]) {
      BelowEnumerates(es, j, k);
      assert EmptyToNull(j).m[k] == EmptyToNull(j.m[k]);
      EqualRestorable(Below(es, k), j.m[k]);
    }
  }

  /** An object whose first pointer begins with the token 0 becomes an array, which equals no object. */
  lemma {:induction false} ObjectStarts(es: seq<Entry>, j: Json)
    requires j.Object? && j.m != map[] && Enumerates(es, j)
    requires Assign(Null, es).Ok? && Eq(Assign(Null, es).value, EmptyToNull(j))
    ensures es != [] && es[0].ptr == FirstLeaf(j) != [] && es[0].ptr[0] != INDEX0
  {
    EnumeratesNonempty(es, j);
    assert es[0] in es;
    FirstEntry(es, j);
    if es[0].ptr[0] == INDEX0 {
      StartsArray(es);
      StaysArray([], es);
    }
  }

  lemma {:induction false} EmptyToNullNaN(j: Json)
    ensures NaNFree(EmptyToNull(j)) <==> NaNFree(j)
  {
    match j
    case Array(a) =>
      forall i | 0 <= i < |a| ensures NaNFree(EmptyToNull(j).a[i]) <==> NaNFree(a[i]) { EmptyToNullNaN(a[i]); }
    case Object(m) =>
      forall k | k in m ensures NaNFree(EmptyToNull(j).m[k]) <==> NaNFree(m[k]) { EmptyToNullNaN(m[k]); }
    case _ =>
  }

  // ----- from strings to entries -----

  /** The entries that the keys stand for. */
  ghost function Entries(ks: seq<bytes>, m: map<bytes, Json>): seq<Entry>
    requires Pointers(m, ks)
  {
    seq(|ks|, i requires 0 <= i < |ks| => Entry(Split(ks[i]).value, m[ks[i]]))
  }

  lemma {:induction false} UnflattenAssigns(j: Json, ks: seq<bytes>, m: map<bytes, Json>)
    requires Pointers(m, ks)
    ensures UnflattenKeys(j, ks, m) == Assign(j, Entries(ks, m))
    decreases |ks|
  {
    if ks != [] {
      assert Entries(ks, m) == [Entry(Split(ks[0]).value, m[ks[0]])] + Entries(ks[1..], m);
      var next := CreateSet(j, Split(ks[0]).value, m[ks[0]]);
      if next.Ok? {
        UnflattenAssigns(next.value, ks[1..], m);
      }
    }
  }

  /** A leaf is stored under its pointer. */
  lemma LeafIsStored(j: Json, p: seq<bytes>)
    requires Leaf(j, p).Some?
    ensures ToString(p) in FlatMap([], j) && FlatMap([], j)[ToString(p)] == Leaf(j, p).value
  {
    assert ToString([]) == [];
    FlatMapHolds([], j);
    assert [] + p == p;
  }

  /** A key of a flattened value is the pointer of a leaf. */
  lemma StoredIsLeaf(j: Json, k: bytes)
    requires k in FlatMap([], j)
    ensures Split(k).Ok? && FlatMap([], j)[k].IsPrimitive() && Leaf(j, Split(k).value) == Some(FlatMap([], j)[k])
    ensures ToString(Split(k).value) == k
  {
    var p := StoredPlace(j, k);
    SplitToString(p);
    LeafIsStored(j, p);
    LeafPrimitive(j, p);
  }

  lemma StoredPlace(j: Json, k: bytes) returns (p: seq<bytes>)
    requires k in FlatMap([], j)
    ensures Leaf(j, p).Some? && k == ToString(p)
  {
    assert ToString([]) == [];
    FlatMapHolds([], j);
    p :| Leaf(j, p).Some? && k == ToString([] + p);
    assert [] + p == p;
  }

  /** Every key is a pointer to a primitive value. */
  ghost predicate Pointers(m: map<bytes, Json>, ks: seq<bytes>) {
    forall k :: k in ks ==> k in m && Split(k).Ok? && m[k].IsPrimitive()
  }

  /** The entries of a flattened value, in iteration order. */
  ghost function FlatEntries(j: Json): (es: seq<Entry>)
    ensures Pointers(FlatMap([], j), SortedKeys(FlatMap([], j).Keys))
    ensures es == Entries(SortedKeys(FlatMap([], j).Keys), FlatMap([], j))
  {
    var m := FlatMap([], j);
    var ks := SortedKeys(m.Keys);
    assert Pointers(m, ks) by {
      forall k | k in ks ensures k in m && Split(k).Ok? && m[k].IsPrimitive() {
        StoredIsLeaf(j, k);
      }
    }
    Entries(ks, m)
  }

  lemma FlattenInOrder(j: Json)
    ensures InOrder(FlatEntries(j))
  {
    hide FlatMap, ToString, Split, SortedKeys, Bytes.Less;
    var es, ks := FlatEntries(j), SortedKeys(FlatMap([], j).Keys);
    forall i | 0 <= i < |es| ensures ToString(es[i].ptr) == ks[i] {
      ToStringSplit(ks[i]);
    }
  }

  lemma FlattenMembers(j: Json, e: Entry)
    ensures e in FlatEntries(j) <==> Leaf(j, e.ptr) == Some(e.v)
  {
    hide FlatMap, Leaf, ToString, Split, SortedKeys;
    var es, ks := FlatEntries(j), SortedKeys(FlatMap([], j).Keys);
    if e in es {
      var i :| 0 <= i < |es| && es[i] == e;
      StoredIsLeaf(j, ks[i]);
    }
    if Leaf(j, e.ptr) == Some(e.v) {
      LeafIsStored(j, e.ptr);
      assert ToString(e.ptr) in ks;
      var i :| 0 <= i < |ks| && ks[i] == ToString(e.ptr);
      SplitToString(e.ptr);
      assert es[i] == e;
    }
  }

  lemma FlattenEnumerates(j: Json)
    ensures Enumerates(FlatEntries(j), j)
  {
    FlattenInOrder(j);
    forall e ensures e in FlatEntries(j) <==> Leaf(j, e.ptr) == Some(e.v) {
      FlattenMembers(j, e);
    }
  }

  /** `unflatten` of a flattened value performs the assignments of its entries. */
  lemma UnflattenIsAssign(j: Json)
    ensures Unflatten(Object(FlatMap([], j))) == Assign(Null, FlatEntries(j))
  {
    var m := FlatMap([], j);
    var es := FlatEntries(j);
    UnflattenAssigns(Null, SortedKeys(m.Keys), m);
  }

  /**
   `j.flatten().unflatten()` is `j` with its empty containers replaced by null exactly when the value is
   restorable.
   */
  lemma UnflattenFlatten(j: Json)
    ensures Unflatten(Object(FlatMap([], j))) == Ok(EmptyToNull(j)) <==> Restorable(j)
  {
    UnflattenIsAssign(j);
    FlattenEnumerates(j);
    AssignRestores(FlatEntries(j), j);
  }

  /**
   `j.flatten().unflatten() == j`, with the equality of JSON values and empty containers taken for null, holds
   exactly when the value is restorable and contains no NaN.
   */
  lemma DocumentedRoundTrip(j: Json)
    ensures
      var r := Unflatten(Object(FlatMap([], j)));
      r.Ok? && Eq(r.value, EmptyToNull(j)) <==> Restorable(j) && NaNFree(j)
  {
    hide Restorable, Eq, NaNFree, EmptyToNull, Assign, FlatMap;
    UnflattenIsAssign(j);
    FlattenEnumerates(j);
    UnflattenFlatten(j);
    var r := Unflatten(Object(FlatMap([], j)));
    if r.Ok? && Eq(r.value, EmptyToNull(j)) {
      EqualRestorable(FlatEntries(j), j);
    }
    EqReflexive(EmptyToNull(j));
    EmptyToNullNaN(j);
  }

  /** No object in the value has a member named "0", and every array index fits into an int. */
  predicate NoZeroMember(j: Json) {
    match j
    case Array(a) => |a| <= INT_MAX + 1 && forall i | 0 <= i < |a| :: NoZeroMember(a[i])
    case Object(m) => INDEX0 !in m && forall k | k in m :: NoZeroMember(m[k])
    case _ => true
  }

  lemma {:induction false} NoZeroMemberRestorable(j: Json)
    requires NoZeroMember(j)
    ensures Restorable(j)
  {
    match j
    case Array(a) =>
      forall i | 0 <= i < |a| ensures Restorable(a[i]) { NoZeroMemberRestorable(a[i]); }
    case Object(m) =>
      forall k | k in m ensures Restorable(m[k]) { NoZeroMemberRestorable(m[k]); }
    case _ =>
  }

  /** Values without a member named "0" survive, up to their empty containers. */
  lemma NoZeroMemberRoundTrip(j: Json)
    requires NoZeroMember(j)
    ensures Unflatten(Object(FlatMap([], j))) == Ok(EmptyToNull(j))
  {
    NoZeroMemberRestorable(j);
    UnflattenFlatten(j);
  }

  /** The documented law fails for `{"0": true}`, which comes back as `[true]`. */
  lemma ZeroMemberLost()
    ensures
      var j := Object(map[INDEX0 := Bool(true)]);
      Unflatten(Object(FlatMap([], j))) == Ok(Array([Bool(true)])) && !Eq(Array([Bool(true)]), j)
  {
    var j := Object(map[INDEX0 := Bool(true)]);
    UnflattenIsAssign(j);
    FlattenEnumerates(j);
    OnlyEntry(FlatEntries(j), j, Entry([INDEX0], Bool(true)));
    assert CreateSet(Null, [INDEX0], Bool(true)) == Ok(Array([Bool(true)]));
  }

  lemma OnlyEntry(es: seq<Entry>, j: Json, e: Entry)
    requires j == Object(map[INDEX0 := e.v]) && e.ptr == [INDEX0] && e.v.IsPrimitive() && Enumerates(es, j)
    ensures es == [e]
  {
    assert INDEX0 in j.m;
    EnumeratesNonempty(es, j);
    forall x | x in es ensures x == e {
      LeafSplit(j, x.ptr);
      assert x.ptr == [INDEX0];
    }
    assert es[0] in es;
    if |es| > 1 {
      assert es[1] in es;
      LessIrreflexive(ToString(e.ptr));
      assert false;
    }
  }
}
