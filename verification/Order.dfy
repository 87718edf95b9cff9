/**
 `operator<` on JSON values.
 */
module Order {
  import opened Bytes
  import opened Value
  import Double

  /** What `operator<` answers for `(x, y)` and for `(y, x)`. */
  datatype Comparison = Comparison(less: bool, greater: bool)

  /** The rank of a type: null < boolean < number < object < array < string. */
  function Rank(j: Json): nat {
    match j
    case Null => 0
    case Bool(_) => 1
    case Int(_) => 2
    case Uint(_) => 2
    case Float(_) => 2
    case Object(_) => 3
    case Array(_) => 4
    case String(_) => 5
  }

  predicate IsInteger(x: Json) {
    x.Int? || x.Uint?
  }

  predicate IsNumber(x: Json) {
    x.Int? || x.Uint? || x.Float?
  }

  /** The integer that a signed or unsigned number stands for. */
  function Exactly(x: Json): (n: int)
    requires IsInteger(x)
    ensures -0x8000_0000_0000_0000 <= n < 0x1_0000_0000_0000_0000
  {
    if x.Int? then x.i else x.u
  }

  /** Both directions of `operator<` in one recursion. */
  function Compare(x: Json, y: Json): Comparison
    decreases x, 1
  {
    match (x, y)
    case (Bool(b), Bool(c)) => Comparison(!b && c, !c && b)
    case (Int(i), Int(k)) => Comparison(i < k, k < i)
    case (Uint(u), Uint(v)) => Comparison(u < v, v < u)
    case (Float(f), Float(g)) => Comparison(Double.Less(f, g), Double.Less(g, f))
    case (String(s), String(t)) => Comparison(Bytes.Less(s, t), Bytes.Less(t, s))
    case (Array(_), Array(_)) => CompareElements(x, 0, y, 0)
    case (Object(m), Object(n)) => CompareMembers(x, SortedKeys(m.Keys), y, SortedKeys(n.Keys))
    case (Int(i), Float(f)) => Comparison(Double.Less(Double.OfInteger(i), f), Double.Less(f, Double.OfInteger(i)))
    case (Float(f), Int(i)) => Comparison(Double.Less(f, Double.OfInteger(i)), Double.Less(Double.OfInteger(i), f))
    case (Uint(u), Float(f)) => Comparison(Double.Less(Double.OfInteger(u), f), Double.Less(f, Double.OfInteger(u)))
    case (Float(f), Uint(u)) => Comparison(Double.Less(f, Double.OfInteger(u)), Double.Less(Double.OfInteger(u), f))
    case (Uint(u), Int(i)) => Comparison(ToSigned(u) < i, i < ToSigned(u))
    case (Int(i), Uint(u)) => Comparison(i < ToSigned(u), ToSigned(u) < i)
    case _ => Comparison(Rank(x) < Rank(y), Rank(y) < Rank(x))
  }

  /** `std::lexicographical_compare` of the elements from index `i` on. */
  function CompareElements(x: Json, i: nat, y: Json, k: nat): Comparison
    requires x.Array? && y.Array? && i <= |x.a| && k <= |y.a|
    decreases x, 0, |x.a| - i
  {
    if i == |x.a| || k == |y.a| then Comparison(i == |x.a| && k < |y.a|, k == |y.a| && i < |x.a|)
    else
      var c := Compare(x.a[i], y.a[k]);
      if c.less || c.greater then c else CompareElements(x, i + 1, y, k + 1)
  }

  /** `std::lexicographical_compare` of the members with keys `ks` and `ls`, as pairs. */
  function CompareMembers(x: Json, ks: seq<bytes>, y: Json, ls: seq<bytes>): Comparison
    requires x.Object? && y.Object?
    requires (forall k :: k in ks ==> k in x.m) && (forall k :: k in ls ==> k in y.m)
    decreases x, 0, |ks|
  {
    if ks == [] || ls == [] then Comparison(ks == [] && ls != [], ls == [] && ks != [])
    else if Bytes.Less(ks[0], ls[0]) || Bytes.Less(ls[0], ks[0]) then
      Comparison(Bytes.Less(ks[0], ls[0]), Bytes.Less(ls[0], ks[0]))
    else
      assert ks[0] == ls[0] by { LessTrichotomy(ks[0], ls[0]); }
      var c := Compare(x.m[ks[0]], y.m[ls[0]]);
      if c.less || c.greater then c else CompareMembers(x, ks[1..], y, ls[1..])
  }

  predicate Less(x: Json, y: Json) {
    Compare(x, y).less
  }

  /** `Compare` answers consistently when its arguments change places. */
  lemma {:induction false} CompareFlip(x: Json, y: Json)
    ensures Compare(y, x) == Comparison(Compare(x, y).greater, Compare(x, y).less)
    decreases x, 1
  {
    match (x, y)
    case (Array(_), Array(_)) => CompareElementsFlip(x, 0, y, 0);
    case (Object(m), Object(n)) => CompareMembersFlip(x, SortedKeys(m.Keys), y, SortedKeys(n.Keys));
    case _ =>
  }

  lemma {:induction false} CompareElementsFlip(x: Json, i: nat, y: Json, k: nat)
    requires x.Array? && y.Array? && i <= |x.a| && k <= |y.a|
    ensures var c := CompareElements(x, i, y, k); CompareElements(y, k, x, i) == Comparison(c.greater, c.less)
    decreases x, 0, |x.a| - i
  {
    if i < |x.a| && k < |y.a| {
      CompareFlip(x.a[i], y.a[k]);
      CompareElementsFlip(x, i + 1, y, k + 1);
    }
  }

  lemma {:induction false} CompareMembersFlip(x: Json, ks: seq<bytes>, y: Json, ls: seq<bytes>)
    requires x.Object? && y.Object?
    requires (forall k :: k in ks ==> k in x.m) && (forall k :: k in ls ==> k in y.m)
    ensures var c := CompareMembers(x, ks, y, ls); CompareMembers(y, ls, x, ks) == Comparison(c.greater, c.less)
    decreases x, 0, |ks|
  {
    if ks != [] && ls != [] {
      LessTrichotomy(ks[0], ls[0]);
      if ks[0] == ls[0] {
        CompareFlip(x.m[ks[0]], y.m[ls[0]]);
        CompareMembersFlip(x, ks[1..], y, ls[1..]);
      }
    }
  }

  /** A value and itself are never told apart, but they are equal only without NaN. */
  lemma {:induction false} CompareSelf(x: Json)
    ensures Compare(x, x) == Comparison(false, false)
    decreases x, 1
  {
    match x
    case String(s) => LessIrreflexive(s);
    case Array(_) => CompareElementsSelf(x, 0);
    case Object(m) => CompareMembersSelf(x, SortedKeys(m.Keys));
    case _ =>
  }

  lemma {:induction false} CompareElementsSelf(x: Json, i: nat)
    requires x.Array? && i <= |x.a|
    ensures CompareElements(x, i, x, i) == Comparison(false, false)
    decreases x, 0, |x.a| - i
  {
    if i < |x.a| {
      CompareSelf(x.a[i]);
      CompareElementsSelf(x, i + 1);
    }
  }

  lemma {:induction false} CompareMembersSelf(x: Json, ks: seq<bytes>)
    requires x.Object? && forall k :: k in ks ==> k in x.m
    ensures CompareMembers(x, ks, x, ks) == Comparison(false, false)
    decreases x, 0, |ks|
  {
    if ks != [] {
      LessIrreflexive(ks[0]);
      CompareSelf(x.m[ks[0]]);
      CompareMembersSelf(x, ks[1..]);
    }
  }

  /** Compared with itself, a value meets the law of trichotomy exactly when it holds no NaN. */
  lemma SelfTrichotomy(x: Json)
    ensures !Less(x, x)
    ensures Less(x, x) || Eq(x, x) <==> NaNFree(x)
  {
    CompareSelf(x);
    EqReflexive(x);
  }

  /** For values without NaN, exactly one of `x < y`, `y < x` and `x == y` holds. */
  lemma Trichotomy(x: Json, y: Json)
    requires NaNFree(x) && NaNFree(y)
    ensures Less(x, y) || Less(y, x) || Eq(x, y)
    ensures !(Less(x, y) && Less(y, x)) && !(Less(x, y) && Eq(x, y)) && !(Less(y, x) && Eq(x, y))
  {
    CompareFlip(x, y);
    CompareExact(x, y);
  }

  /** Of the three outcomes exactly one applies. */
  ghost predicate Exact(c: Comparison, equal: bool) {
    !(c.less && c.greater) && (equal <==> !c.less && !c.greater)
  }

  lemma {:induction false} CompareExact(x: Json, y: Json)
    requires NaNFree(x) && NaNFree(y)
    ensures Exact(Compare(x, y), Eq(x, y))
    decreases x, 1
  {
    match (x, y)
    case (String(s), String(t)) => LessTrichotomy(s, t);
    case (Array(a), Array(b)) => CompareElementsExact(x, 0, y, 0);
    case (Object(m), Object(n)) =>
      CompareMembersExact(x, SortedKeys(m.Keys), y, SortedKeys(n.Keys));
      EqMembersAll(x, y);
    case _ =>
      if IsNumber(x) && IsNumber(y) {
        NumberExact(x, y);
      }
  }

  lemma NumberExact(x: Json, y: Json)
    requires IsNumber(x) && IsNumber(y) && NaNFree(x) && NaNFree(y)
    ensures Exact(Compare(x, y), Eq(x, y))
  {
    hide Double.OfInteger;
    if IsInteger(x) {
      Double.OfIntegerFinite(Exactly(x));
    }
    if IsInteger(y) {
      Double.OfIntegerFinite(Exactly(y));
    }
  }

  lemma {:induction false} CompareElementsExact(x: Json, i: nat, y: Json, k: nat)
    requires x.Array? && y.Array? && NaNFree(x) && NaNFree(y)
    requires i == k && i <= |x.a| && k <= |y.a|
    ensures Exact(CompareElements(x, i, y, k), |x.a| == |y.a| && forall n | i <= n < |x.a| :: Eq(x.a[n], y.a[n]))
    decreases x, 0, |x.a| - i
  {
    hide Compare, Eq;
    if i < |x.a| && k < |y.a| {
      CompareExact(x.a[i], y.a[k]);
      CompareElementsExact(x, i + 1, y, k + 1);
    }
  }

  /** The members with keys `ks` in `x` and `ls` in `y` are the same. */
  ghost predicate EqMembers(x: Json, ks: seq<bytes>, y: Json, ls: seq<bytes>)
    requires x.Object? && y.Object?
    requires (forall k :: k in ks ==> k in x.m) && (forall k :: k in ls ==> k in y.m)
  {
    ks == ls && forall k | k in ks :: Eq(x.m[k], y.m[k])
  }

  lemma EqMembersAll(x: Json, y: Json)
    requires x.Object? && y.Object?
    ensures EqMembers(x, SortedKeys(x.m.Keys), y, SortedKeys(y.m.Keys)) <==> Eq(x, y)
  {
    EqObjects(x, y);
    hide Eq;
    var ks, ls := SortedKeys(x.m.Keys), SortedKeys(y.m.Keys);
    if ks == ls {
      assert forall k :: k in ks <==> k in ls;
      assert x.m.Keys == y.m.Keys;
    }
  }

  lemma {:induction false} EqObjects(x: Json, y: Json)
    requires x.Object? && y.Object?
    ensures Eq(x, y) <==> x.m.Keys == y.m.Keys && forall k | k in x.m :: Eq(x.m[k], y.m[k])
  {
  }

  lemma {:induction false} CompareMembersExact(x: Json, ks: seq<bytes>, y: Json, ls: seq<bytes>)
    requires x.Object? && y.Object? && NaNFree(x) && NaNFree(y)
    requires (forall k :: k in ks ==> k in x.m) && (forall k :: k in ls ==> k in y.m)
    ensures Exact(CompareMembers(x, ks, y, ls), EqMembers(x, ks, y, ls))
    decreases x, 0, |ks|
  {
    if ks != [] && ls != [] {
      LessTrichotomy(ks[0], ls[0]);
      if ks[0] == ls[0] {
        CompareExact(x.m[ks[0]], y.m[ls[0]]);
        CompareMembersExact(x, ks[1..], y, ls[1..]);
        assert ks == [ks[0]] + ks[1..] && ls == [ls[0]] + ls[1..];
      }
    }
  }

  // ----- when the order is consistent -----

  /** Neither of the values is smaller. */
  predicate Tied(x: Json, y: Json) {
    !Less(x, y) && !Less(y, x)
  }

  /** `<` is transitive along `x`, `y`, `z`, and so is being tied. */
  predicate Lawful(x: Json, y: Json, z: Json) {
    && (Less(x, y) && Less(y, z) ==> Less(x, z))
    && (Tied(x, y) && Tied(y, z) ==> Tied(x, z))
  }

  /** What a sorting algorithm expects of `<`: the laws hold for the three values in every order. */
  predicate Consistent(x: Json, y: Json, z: Json) {
    && Lawful(x, y, z) && Lawful(y, z, x) && Lawful(z, x, y)
    && Lawful(x, z, y) && Lawful(z, y, x) && Lawful(y, x, z)
  }

  /** A signed number, and an unsigned one that the conversion to `int64_t` does not leave above it. */
  predicate Clash(x: Json, y: Json) {
    x.Int? && y.Uint? && y.u >= 0x8000_0000_0000_0000 && y.u - 0x1_0000_0000_0000_0000 <= x.i
  }

  /** Integers compare like the numbers they stand for exactly when they do not clash. */
  lemma {:induction false} IntegerCompare(x: Json, y: Json)
    requires IsInteger(x) && IsInteger(y)
    ensures Compare(x, y) == Comparison(Exactly(x) < Exactly(y), Exactly(y) < Exactly(x)) <==>
      !Clash(x, y) && !Clash(y, x)
  {
  }

  /** The place of a number among the doubles. */
  function FloatKey(x: Json): int
    requires IsNumber(x)
  {
    if x.Float? then Double.Key(x.f) else Double.Key(Double.OfInteger(Exactly(x)))
  }

  lemma {:induction false} FloatCompare(x: Json, y: Json)
    requires IsNumber(x) && IsNumber(y) && (x.Float? || y.Float?) && NaNFree(x) && NaNFree(y)
    ensures Compare(x, y) == Comparison(FloatKey(x) < FloatKey(y), FloatKey(y) < FloatKey(x))
  {
    hide Double.OfInteger;
    if IsInteger(x) {
      Double.OfIntegerFinite(Exactly(x));
    }
    if IsInteger(y) {
      Double.OfIntegerFinite(Exactly(y));
    }
  }

  /**
   The number `c` does not fit in with how `a` and `b` compare: it is a NaN, and they differ; it is the double to
   which both are rounded, and they differ; or they clash, and it lies between them.
   */
  predicate Contradicts(c: Json, a: Json, b: Json)
    requires IsNumber(a) && IsNumber(b) && IsNumber(c)
  {
    if !NaNFree(c) then NaNFree(a) && NaNFree(b) && !Eq(a, b)
    else if c.Float? then
      IsInteger(a) && IsInteger(b) && FloatKey(a) <= FloatKey(c) <= FloatKey(b) &&
      (Clash(a, b) || (FloatKey(a) == FloatKey(b) && Exactly(a) != Exactly(b)))
    else c.Uint? && Clash(a, b) && a.i <= c.u < 0x8000_0000_0000_0000
  }

  /** One of three numbers contradicts the other two. */
  predicate Conflict(x: Json, y: Json, z: Json)
    requires IsNumber(x) && IsNumber(y) && IsNumber(z)
  {
    || Contradicts(x, y, z) || Contradicts(y, z, x) || Contradicts(z, x, y)
    || Contradicts(x, z, y) || Contradicts(z, y, x) || Contradicts(y, x, z)
  }

  /** Three numbers are ordered consistently exactly when none of them contradicts the other two. */
  lemma {:induction false} NumbersConsistent(x: Json, y: Json, z: Json)
    requires IsNumber(x) && IsNumber(y) && IsNumber(z)
    ensures Consistent(x, y, z) <==> !Conflict(x, y, z)
  {
    hide Lawful, Contradicts;
    if x.Float? {
      WithFloat(y, z, x);
    } else if y.Float? {
      WithFloat(z, x, y);
    } else if z.Float? {
      WithFloat(x, y, z);
    } else {
      IntegersConsistent(x, y, z);
    }
  }

  lemma {:induction false} IntegersConsistent(x: Json, y: Json, z: Json)
    requires IsInteger(x) && IsInteger(y) && IsInteger(z)
    ensures Consistent(x, y, z) <==> !Conflict(x, y, z)
  {
    hide Lawful, Contradicts, Clash;
    if Clash(x, y) {
      ClashConsistent(x, y, z);
    } else if Clash(y, x) {
      ClashConsistent(y, x, z);
    } else if Clash(x, z) {
      ClashConsistent(x, z, y);
    } else if Clash(z, x) {
      ClashConsistent(z, x, y);
    } else if Clash(y, z) {
      ClashConsistent(y, z, x);
    } else if Clash(z, y) {
      ClashConsistent(z, y, x);
    } else {
      NoClashConsistent(x, y, z);
    }
  }

  lemma {:induction false} NoClashConsistent(x: Json, y: Json, z: Json)
    requires IsInteger(x) && IsInteger(y) && IsInteger(z)
    requires !Clash(x, y) && !Clash(y, x) && !Clash(x, z) && !Clash(z, x) && !Clash(y, z) && !Clash(z, y)
    ensures Consistent(x, y, z) && !Conflict(x, y, z)
  {
    hide Compare, Clash;
    IntegerCompare(x, y);
    IntegerCompare(y, x);
    IntegerCompare(x, z);
    IntegerCompare(z, x);
    IntegerCompare(y, z);
    IntegerCompare(z, y);
  }

  function AsSigned(x: Json): int64
    requires IsInteger(x)
  {
    if x.Int? then x.i else ToSigned(x.u)
  }

  /** Two unsigned numbers compare as they are, other integers as signed ones. */
  lemma {:induction false} MixedCompare(x: Json, y: Json)
    requires IsInteger(x) && IsInteger(y)
    ensures x.Uint? && y.Uint? ==> Less(x, y) == (x.u < y.u) && Less(y, x) == (y.u < x.u)
    ensures !(x.Uint? && y.Uint?) ==>
      Less(x, y) == (AsSigned(x) < AsSigned(y)) && Less(y, x) == (AsSigned(y) < AsSigned(x))
  {
  }

  /** Only an unsigned number that both conversions leave alone is out of place between numbers that clash. */
  lemma {:induction false} ClashConsistent(x: Json, y: Json, z: Json)
    requires Clash(x, y) && IsInteger(z)
    ensures Consistent(x, y, z) <==> !Conflict(x, y, z)
  {
    hide Compare, Eq, FloatKey;
    MixedCompare(x, y);
    MixedCompare(x, z);
    MixedCompare(y, z);
  }

  lemma {:induction false} WithFloat(x: Json, y: Json, f: Json)
    requires IsNumber(x) && IsNumber(y) && f.Float?
    ensures Consistent(x, y, f) <==> !Conflict(x, y, f)
  {
    hide Lawful, Contradicts;
    if !NaNFree(f) {
      NaNConsistent(x, y, f);
    } else if !NaNFree(x) {
      NaNConsistent(y, f, x);
    } else if !NaNFree(y) {
      NaNConsistent(f, x, y);
    } else if IsInteger(x) && IsInteger(y) {
      RoundedConsistent(x, y, f);
    } else {
      FloatsConsistent(x, y, f);
    }
  }

  /** A NaN is tied with every number, so the other two have to be tied as well. */
  lemma {:induction false} NaNConsistent(x: Json, y: Json, nan: Json)
    requires IsNumber(x) && IsNumber(y) && nan.Float? && !NaNFree(nan)
    ensures Consistent(x, y, nan) <==> !Conflict(x, y, nan)
  {
    hide Compare, Eq, FloatKey;
    NaNTied(x, nan);
    NaNTied(y, nan);
    CompareFlip(x, y);
    EqSymmetric(x, y);
    if !NaNFree(x) {
      NaNTied(y, x);
    } else if !NaNFree(y) {
      NaNTied(x, y);
    } else {
      CompareExact(x, y);
    }
  }

  lemma {:induction false} NaNTied(x: Json, nan: Json)
    requires IsNumber(x) && nan.Float? && !NaNFree(nan)
    ensures Tied(x, nan) && Tied(nan, x)
  {
    hide Double.OfInteger;
  }

  /** Two of the numbers are floats: all comparisons are made on doubles. */
  lemma {:induction false} FloatsConsistent(x: Json, y: Json, f: Json)
    requires IsNumber(x) && IsNumber(y) && f.Float? && NaNFree(x) && NaNFree(y) && NaNFree(f)
    requires x.Float? || y.Float?
    ensures Consistent(x, y, f) && !Conflict(x, y, f)
  {
    hide Compare, Eq, FloatKey;
    CompareFlip(x, y);
    CompareFlip(x, f);
    CompareFlip(y, f);
    FloatCompare(x, y);
    FloatCompare(x, f);
    FloatCompare(y, f);
  }

  /** Two integers compare as integers, and each of them with the float as doubles. */
  lemma {:induction false} RoundedConsistent(x: Json, y: Json, f: Json)
    requires IsInteger(x) && IsInteger(y) && f.Float? && NaNFree(f)
    ensures Consistent(x, y, f) <==> !Conflict(x, y, f)
  {
    hide Compare, Eq, FloatKey;
    CompareFlip(x, y);
    CompareFlip(x, f);
    CompareFlip(y, f);
    FloatCompare(x, f);
    FloatCompare(y, f);
    IntegerKeys(x, y);
    IntegerKeys(y, x);
  }

  /** How two integers compare, and how the doubles compare that they are rounded to. */
  lemma {:induction false} IntegerKeys(x: Json, y: Json)
    requires IsInteger(x) && IsInteger(y)
    ensures Exactly(x) <= Exactly(y) ==> FloatKey(x) <= FloatKey(y)
    ensures !Clash(x, y) && !Clash(y, x) ==> Less(x, y) == (Exactly(x) < Exactly(y))
    ensures Clash(x, y) ==> !Less(x, y) && Exactly(x) < Exactly(y)
    ensures Clash(x, y) && FloatKey(x) == FloatKey(y) ==> Less(y, x)
  {
    hide Double.OfInteger;
    if Exactly(x) <= Exactly(y) {
      Double.OfIntegerMonotone(Exactly(x), Exactly(y));
    }
    if Clash(x, y) && x.i < 0 {
      SignedKey(x.i, y.u);
    }
  }

  lemma SignedKey(i: int, u: int)
    requires -0x8000_0000_0000_0000 <= i < 0 <= u < 0x1_0000_0000_0000_0000
    ensures Double.Key(Double.OfInteger(i)) < Double.Key(Double.OfInteger(u))
  {
    hide Double.OfInteger;
    Double.OfIntegerMonotone(i, -1);
    Double.OfIntegerMonotone(0, u);
    AroundZero();
  }

  lemma AroundZero()
    ensures Double.Key(Double.OfInteger(-1)) < 0 == Double.Key(Double.OfInteger(0))
  {
    Double.OfNaturalBounds(1);
  }

  /** Neither is a value smaller and greater than another. */
  lemma {:induction false} NotBoth(x: Json, y: Json)
    ensures !(Compare(x, y).less && Compare(x, y).greater)
    decreases x, 1
  {
    hide Double.OfInteger;
    match (x, y)
    case (String(s), String(t)) => LessTrichotomy(s, t);
    case (Array(_), Array(_)) => ElementsNotBoth(x, 0, y, 0);
    case (Object(m), Object(n)) => MembersNotBoth(x, SortedKeys(m.Keys), y, SortedKeys(n.Keys));
    case _ =>
  }

  lemma {:induction false} ElementsNotBoth(x: Json, i: nat, y: Json, k: nat)
    requires x.Array? && y.Array? && i <= |x.a| && k <= |y.a|
    ensures var c := CompareElements(x, i, y, k); !(c.less && c.greater)
    decreases x, 0, |x.a| - i
  {
    hide Compare;
    if i < |x.a| && k < |y.a| {
      NotBoth(x.a[i], y.a[k]);
      ElementsNotBoth(x, i + 1, y, k + 1);
    }
  }

  lemma {:induction false} MembersNotBoth(x: Json, ks: seq<bytes>, y: Json, ls: seq<bytes>)
    requires x.Object? && y.Object?
    requires (forall k :: k in ks ==> k in x.m) && (forall k :: k in ls ==> k in y.m)
    ensures var c := CompareMembers(x, ks, y, ls); !(c.less && c.greater)
    decreases x, 0, |ks|
  {
    hide Compare;
    if ks != [] && ls != [] {
      LessTrichotomy(ks[0], ls[0]);
      if ks[0] == ls[0] {
        NotBoth(x.m[ks[0]], y.m[ls[0]]);
        MembersNotBoth(x, ks[1..], y, ls[1..]);
      }
    }
  }

  // ----- through containers -----

  /** No three numbers at corresponding places are in conflict. */
  predicate Compatible(x: Json, y: Json, z: Json)
    decreases x, 1
  {
    if IsNumber(x) && IsNumber(y) && IsNumber(z) then !Conflict(x, y, z)
    else if x.Array? && y.Array? && z.Array? then ElementsCompatible(x, y, z)
    else if x.Object? && y.Object? && z.Object? then MembersCompatible(x, y, z)
    else true
  }

  predicate ElementsCompatible(x: Json, y: Json, z: Json)
    requires x.Array? && y.Array? && z.Array?
    decreases x, 0
  {
    forall i | 0 <= i < |x.a| && i < |y.a| && i < |z.a| :: Compatible(x.a[i], y.a[i], z.a[i])
  }

  predicate MembersCompatible(x: Json, y: Json, z: Json)
    requires x.Object? && y.Object? && z.Object?
    decreases x, 0
  {
    forall k | k in x.m && k in y.m && k in z.m :: Compatible(x.m[k], y.m[k], z.m[k])
  }

  lemma {:induction false} ConflictPermuted(x: Json, y: Json, z: Json)
    requires IsNumber(x) && IsNumber(y) && IsNumber(z)
    ensures Conflict(x, y, z) == Conflict(y, x, z) == Conflict(y, z, x)
  {
    hide Contradicts;
  }

  lemma {:induction false} CompatiblePermuted(x: Json, y: Json, z: Json)
    requires Compatible(x, y, z)
    ensures Compatible(y, x, z) && Compatible(y, z, x)
    decreases x, 1
  {
    hide Conflict, ElementsCompatible, MembersCompatible;
    if IsNumber(x) && IsNumber(y) && IsNumber(z) {
      ConflictPermuted(x, y, z);
    } else if x.Array? && y.Array? && z.Array? {
      ArraysPermuted(x, y, z);
    } else if x.Object? && y.Object? && z.Object? {
      ObjectsPermuted(x, y, z);
    }
  }

  lemma {:induction false} ArraysPermuted(x: Json, y: Json, z: Json)
    requires x.Array? && y.Array? && z.Array? && ElementsCompatible(x, y, z)
    ensures ElementsCompatible(y, x, z) && ElementsCompatible(y, z, x)
    decreases x, 0
  {
    hide Compatible;
    forall i | 0 <= i < |x.a| && i < |y.a| && i < |z.a|
      ensures Compatible(y.a[i], x.a[i], z.a[i]) && Compatible(y.a[i], z.a[i], x.a[i])
    {
      CompatiblePermuted(x.a[i], y.a[i], z.a[i]);
    }
  }

  lemma {:induction false} ObjectsPermuted(x: Json, y: Json, z: Json)
    requires x.Object? && y.Object? && z.Object? && MembersCompatible(x, y, z)
    ensures MembersCompatible(y, x, z) && MembersCompatible(y, z, x)
    decreases x, 0
  {
    hide Compatible;
    forall k | k in x.m && k in y.m && k in z.m
      ensures Compatible(y.m[k], x.m[k], z.m[k]) && Compatible(y.m[k], z.m[k], x.m[k])
    {
      CompatiblePermuted(x.m[k], y.m[k], z.m[k]);
    }
  }

  /**
   Values of any types are ordered consistently, through nested containers, if no three numbers at corresponding
   places are in conflict.
   */
  lemma {:induction false} Transitivity(x: Json, y: Json, z: Json)
    requires Compatible(x, y, z)
    ensures Consistent(x, y, z)
  {
    hide Lawful, Compatible;
    CompatiblePermuted(x, y, z);
    CompatiblePermuted(y, x, z);
    CompatiblePermuted(y, z, x);
    CompatiblePermuted(z, y, x);
    ChainLawful(x, y, z);
    ChainLawful(y, z, x);
    ChainLawful(z, x, y);
    ChainLawful(x, z, y);
    ChainLawful(z, y, x);
    ChainLawful(y, x, z);
  }

  /** `c` compares the ends of a chain whose links compare as `a` and `b`. */
  ghost predicate Chain(a: Comparison, b: Comparison, c: Comparison) {
    && (!a.greater && !b.greater && (a.less || b.less) ==> c.less && !c.greater)
    && (!a.greater && !b.greater && !a.less && !b.less ==> !c.less && !c.greater)
  }

  ghost predicate Chained(x: Json, y: Json, z: Json) {
    Chain(Compare(x, y), Compare(y, z), Compare(x, z))
  }

  lemma {:induction false} ChainLawful(x: Json, y: Json, z: Json)
    requires Compatible(x, y, z)
    ensures Lawful(x, y, z)
  {
    hide Less, Compare, Compatible;
    CompareChain(x, y, z);
    BothDirections(x, y);
    BothDirections(y, z);
    BothDirections(x, z);
  }

  lemma {:induction false} BothDirections(x: Json, y: Json)
    ensures Compare(x, y) == Comparison(Less(x, y), Less(y, x)) && !(Less(x, y) && Less(y, x))
  {
    CompareFlip(x, y);
    NotBoth(x, y);
  }

  lemma {:induction false} ConsistentChained(x: Json, y: Json, z: Json)
    requires Consistent(x, y, z)
    ensures Chained(x, y, z)
  {
    hide Less, Compare;
    BothDirections(x, y);
    BothDirections(y, z);
    BothDirections(x, z);
  }

  lemma {:induction false} CompareChain(x: Json, y: Json, z: Json)
    requires Compatible(x, y, z)
    ensures Chained(x, y, z)
    decreases x, 1
  {
    hide Conflict, ElementsCompatible, MembersCompatible, CompareElements, CompareMembers, SortedKeys, Chain;
    if IsNumber(x) && IsNumber(y) && IsNumber(z) {
      hide Consistent, Chained;
      NumbersConsistent(x, y, z);
      ConsistentChained(x, y, z);
    } else if x.Array? && y.Array? && z.Array? {
      CompareElementsChain(x, y, z, 0);
    } else if x.Object? && y.Object? && z.Object? {
      CompareMembersChain(x, SortedKeys(x.m.Keys), y, SortedKeys(y.m.Keys), z, SortedKeys(z.m.Keys));
    } else if x.String? && y.String? && z.String? {
      StringChain(x.s, y.s, z.s);
    } else {
      hide Compatible;
      RankChain(x, y, z);
    }
  }

  lemma StringChain(s: bytes, t: bytes, u: bytes)
    ensures Chained(String(s), String(t), String(u))
  {
    LessTrichotomy(s, t);
    LessTrichotomy(t, u);
    LessTrichotomy(s, u);
    if Bytes.Less(s, t) && Bytes.Less(t, u) {
      LessTransitive(s, t, u);
    }
  }

  /** Values of different rank compare by rank. */
  lemma RankCompare(x: Json, y: Json)
    requires Rank(x) != Rank(y)
    ensures Compare(x, y) == Comparison(Rank(x) < Rank(y), Rank(y) < Rank(x))
  {
  }

  lemma RankChain(x: Json, y: Json, z: Json)
    requires Rank(x) != Rank(y) || Rank(y) != Rank(z) || Rank(x) <= 1
    ensures Chained(x, y, z)
  {
    if Rank(x) == Rank(y) == Rank(z) {
    } else {
      hide Compare;
      if Rank(x) != Rank(y) {
        RankCompare(x, y);
      }
      if Rank(y) != Rank(z) {
        RankCompare(y, z);
      }
      if Rank(x) != Rank(z) {
        RankCompare(x, z);
      }
    }
  }

  lemma {:induction false} CompareElementsChain(x: Json, y: Json, z: Json, i: nat)
    requires x.Array? && y.Array? && z.Array? && ElementsCompatible(x, y, z)
    requires i <= |x.a| && i <= |y.a| && i <= |z.a|
    ensures Chain(CompareElements(x, i, y, i), CompareElements(y, i, z, i), CompareElements(x, i, z, i))
    decreases x, 0, |x.a| - i
  {
    hide Compare;
    if i < |x.a| && i < |y.a| && i < |z.a| {
      CompareChain(x.a[i], y.a[i], z.a[i]);
      NotBoth(x.a[i], y.a[i]);
      NotBoth(y.a[i], z.a[i]);
      CompareElementsChain(x, y, z, i + 1);
    }
  }

  lemma {:induction false} CompareMembersChain(
      x: Json, ks: seq<bytes>, y: Json, ls: seq<bytes>, z: Json, ms: seq<bytes>)
    requires x.Object? && y.Object? && z.Object? && MembersCompatible(x, y, z)
    requires forall k :: k in ks ==> k in x.m
    requires forall k :: k in ls ==> k in y.m
    requires forall k :: k in ms ==> k in z.m
    ensures Chain(CompareMembers(x, ks, y, ls), CompareMembers(y, ls, z, ms), CompareMembers(x, ks, z, ms))
    decreases x, 0, |ks|
  {
    hide Compare;
    if ks != [] && ls != [] && ms != [] {
      LessTrichotomy(ks[0], ls[0]);
      LessTrichotomy(ls[0], ms[0]);
      LessTrichotomy(ks[0], ms[0]);
      if Bytes.Less(ks[0], ls[0]) && Bytes.Less(ls[0], ms[0]) {
        LessTransitive(ks[0], ls[0], ms[0]);
      }
      if ks[0] == ls[0] == ms[0] {
        var k := ks[0];
        CompareChain(x.m[k], y.m[k], z.m[k]);
        NotBoth(x.m[k], y.m[k]);
        NotBoth(y.m[k], z.m[k]);
        CompareMembersChain(x, ks[1..], y, ls[1..], z, ms[1..]);
      }
    }
  }

  // ----- what a conflict does -----

  /** Behind the same elements, values at the end of an array compare as they do alone. */
  lemma {:induction false} LastCompare(p: seq<Json>, x: Json, y: Json, i: nat)
    requires i <= |p|
    ensures CompareElements(Array(p + [x]), i, Array(p + [y]), i) == Compare(x, y)
    decreases |p| - i
  {
    hide Compare;
    var a, b := Array(p + [x]), Array(p + [y]);
    if i < |p| {
      assert a.a[i] == p[i] == b.a[i];
      CompareSelf(p[i]);
      LastCompare(p, x, y, i + 1);
    } else {
      assert CompareElements(a, i + 1, b, i + 1) == Comparison(false, false);
    }
  }

  lemma {:induction false} LastLess(p: seq<Json>, x: Json, y: Json)
    ensures Less(Array(p + [x]), Array(p + [y])) == Less(x, y)
  {
    LastCompare(p, x, y, 0);
  }

  /** Numbers in conflict make the arrays inconsistent whose common elements they follow. */
  lemma {:induction false} ConflictShows(p: seq<Json>, x: Json, y: Json, z: Json)
    requires IsNumber(x) && IsNumber(y) && IsNumber(z)
    ensures Consistent(Array(p + [x]), Array(p + [y]), Array(p + [z])) <==> !Conflict(x, y, z)
  {
    hide Less, Conflict;
    NumbersConsistent(x, y, z);
    LastLess(p, x, y);
    LastLess(p, y, x);
    LastLess(p, x, z);
    LastLess(p, z, x);
    LastLess(p, y, z);
    LastLess(p, z, y);
  }

  /**
   Between numbers that clash there is one that compares with each of them like the numbers they stand for, and
   with which `<` is not transitive.
   */
  lemma {:induction false} SignedClashBreaks(x: Json, y: Json) returns (z: Json)
    requires Clash(x, y)
    ensures IsInteger(z) && Exactly(x) <= Exactly(z) < Exactly(y)
    ensures Compare(x, z) == Comparison(Exactly(x) < Exactly(z), false) && Compare(z, y) == Comparison(true, false)
    ensures (Less(x, z) && Less(z, y) && !Less(x, y)) || (Less(z, y) && Less(y, x) && !Less(z, x))
  {
    z := Uint(if x.i < 0 then 0 else x.i);
  }

  /** Every number in the value is an integer that `int64_t` can represent. */
  predicate SignedOnly(j: Json)
  {
    match j
    case Float(_) => false
    case Uint(u) => u < 0x8000_0000_0000_0000
    case Array(a) => forall i | 0 <= i < |a| :: SignedOnly(a[i])
    case Object(m) => forall k | k in m :: SignedOnly(m[k])
    case _ => true
  }

  /** Such values are ordered consistently. */
  lemma {:induction false} SignedCompatible(x: Json, y: Json, z: Json)
    requires SignedOnly(x) && SignedOnly(y) && SignedOnly(z)
    ensures Compatible(x, y, z)
  {
    if x.Array? && y.Array? && z.Array? {
      forall i | 0 <= i < |x.a| && i < |y.a| && i < |z.a| ensures Compatible(x.a[i], y.a[i], z.a[i]) {
        SignedCompatible(x.a[i], y.a[i], z.a[i]);
      }
    } else if x.Object? && y.Object? && z.Object? {
      forall k | k in x.m && k in y.m && k in z.m ensures Compatible(x.m[k], y.m[k], z.m[k]) {
        SignedCompatible(x.m[k], y.m[k], z.m[k]);
      }
    }
  }

  /** Beyond `int64_t` the conversion to signed makes `<` cyclic. */
  lemma UnsignedCycle()
    ensures
      var small, huge, minusOne := Uint(0), Uint(0xFFFF_FFFF_FFFF_FFFF), Int(-1);
      Less(small, huge) && Eq(huge, minusOne) && Less(minusOne, small)
  {
  }
}
