/**
 JSON values and their equality.
 */
module Value {
  import opened Bytes
  import Double

  type int64 = n: int | -0x8000_0000_0000_0000 <= n < 0x8000_0000_0000_0000
  type uint64 = n: int | 0 <= n < 0x1_0000_0000_0000_0000

  /** `basic_json` with its default template arguments, without the discarded type. */
  datatype Json =
    | Null
    | Bool(b: bool)
    | Int(i: int64)
    | Uint(u: uint64)
    | Float(f: Double.Bits)
    | String(s: bytes)
    | Array(a: seq<Json>)
    | Object(m: map<bytes, Json>)
  {
    predicate IsPrimitive() {
      !Array? && !Object?
    }
  }

  /** `type()` gives the same answer for both values. */
  predicate SameType(x: Json, y: Json) {
    match x
    case Null => y.Null?
    case Bool(_) => y.Bool?
    case Int(_) => y.Int?
    case Uint(_) => y.Uint?
    case Float(_) => y.Float?
    case String(_) => y.String?
    case Array(_) => y.Array?
    case Object(_) => y.Object?
  }

  /** `static_cast<number_integer_t>` of an unsigned number. */
  function ToSigned(u: uint64): int64 {
    if u < 0x8000_0000_0000_0000 then u else u - 0x1_0000_0000_0000_0000
  }

  /** `operator==`. */
  predicate Eq(x: Json, y: Json)
  {
    match (x, y)
    case (Null, Null) => true
    case (Bool(b), Bool(c)) => b == c
    case (Int(i), Int(k)) => i == k
    case (Uint(u), Uint(v)) => u == v
    case (Float(f), Float(g)) => Double.Eq(f, g)
    case (String(s), String(t)) => s == t
    case (Array(a), Array(b)) => |a| == |b| && forall i | 0 <= i < |a| :: Eq(a[i], b[i])
    case (Object(m), Object(n)) => m.Keys == n.Keys && forall k | k in m :: Eq(m[k], n[k])
    case (Int(i), Float(f)) => Double.Eq(Double.OfInteger(i), f)
    case (Float(f), Int(i)) => Double.Eq(f, Double.OfInteger(i))
    case (Uint(u), Float(f)) => Double.Eq(Double.OfInteger(u), f)
    case (Float(f), Uint(u)) => Double.Eq(f, Double.OfInteger(u))
    case (Uint(u), Int(i)) => ToSigned(u) == i
    case (Int(i), Uint(u)) => i == ToSigned(u)
    case _ => false
  }

  /** No float in the value is a NaN. */
  predicate NaNFree(j: Json)
  {
    match j
    case Float(f) => !Double.IsNaN(f)
    case Array(a) => forall i | 0 <= i < |a| :: NaNFree(a[i])
    case Object(m) => forall k | k in m :: NaNFree(m[k])
    case _ => true
  }

  /** A value equals itself exactly when it holds no NaN. */
  lemma {:induction false} EqReflexive(j: Json)
    ensures Eq(j, j) <==> NaNFree(j)
  {
    match j
    case Array(a) =>
      forall i | 0 <= i < |a| ensures Eq(a[i], a[i]) <==> NaNFree(a[i]) { EqReflexive(a[i]); }
    case Object(m) =>
      forall k | k in m ensures Eq(m[k], m[k]) <==> NaNFree(m[k]) { EqReflexive(m[k]); }
    case _ =>
  }

  lemma {:induction false} EqSymmetric(x: Json, y: Json)
    ensures Eq(x, y) <==> Eq(y, x)
  {
    match (x, y)
    case (Array(a), Array(b)) =>
      if |a| == |b| {
        forall i | 0 <= i < |a| ensures Eq(a[i], b[i]) <==> Eq(b[i], a[i]) { EqSymmetric(a[i], b[i]); }
      }
    case (Object(m), Object(n)) =>
      if m.Keys == n.Keys {
        forall k | k in m ensures Eq(m[k], n[k]) <==> Eq(n[k], m[k]) { EqSymmetric(m[k], n[k]); }
      }
    case _ =>
  }

  /** Nothing equals a value that holds a NaN. */
  lemma {:induction false} EqNaNFree(x: Json, y: Json)
    requires Eq(x, y)
    ensures NaNFree(x) && NaNFree(y)
  {
    match (x, y)
    case (Array(a), Array(b)) =>
      forall i | 0 <= i < |a| ensures NaNFree(a[i]) && NaNFree(b[i]) { EqNaNFree(a[i], b[i]); }
    case (Object(m), Object(n)) =>
      forall k | k in m ensures NaNFree(m[k]) && NaNFree(n[k]) { EqNaNFree(m[k], n[k]); }
    case _ =>
  }

  /** The constructor for floats: infinities and NaN become null. */
  function FromFloat(f: Double.Bits): Json {
    if Double.IsFinite(f) then Float(f) else Null
  }

  /** Every float in the value is finite. */
  predicate AllFinite(j: Json)
  {
    match j
    case Float(f) => Double.IsFinite(f)
    case Array(a) => forall i | 0 <= i < |a| :: AllFinite(a[i])
    case Object(m) => forall k | k in m :: AllFinite(m[k])
    case _ => true
  }

  /**
   The value as a reader constructs it again from a format that does not tell non-negative signed numbers
   from unsigned ones.
   */
  function Rebuilt(j: Json): Json
  {
    match j
    case Int(i) => if i >= 0 then Uint(i) else j
    case Float(f) => FromFloat(f)
    case Array(a) => Array(seq(|a|, i requires 0 <= i < |a| => Rebuilt(a[i])))
    case Object(m) => Object(map k | k in m :: Rebuilt(m[k]))
    case _ => j
  }

  /** This keeps the value for `operator==` exactly when its floats are finite. */
  lemma {:induction false} RebuiltEq(j: Json)
    ensures Eq(Rebuilt(j), j) <==> AllFinite(j)
  {
    match j
    case Array(a) =>
      forall i | 0 <= i < |a| ensures Eq(Rebuilt(a[i]), a[i]) <==> AllFinite(a[i]) { RebuiltEq(a[i]); }
      assert forall i | 0 <= i < |a| :: Rebuilt(j).a[i] == Rebuilt(a[i]);
    case Object(m) =>
      forall k | k in m ensures Eq(Rebuilt(m[k]), m[k]) <==> AllFinite(m[k]) { RebuiltEq(m[k]); }
      assert forall k | k in m :: Rebuilt(j).m[k] == Rebuilt(m[k]);
    case _ => EqReflexive(j);
  }
}
