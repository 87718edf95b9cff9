/**
 Byte strings and the order in which `std::map<std::string, …>` keeps its keys.
 */
module Bytes {

  type byte = b: int | 0 <= b < 256

  /** A `std::string` or a `std::vector<uint8_t>`. */
  type bytes = seq<byte>

  /** `std::string::operator<`: lexicographic, bytes compared as unsigned char. */
  predicate Less(a: bytes, b: bytes)
  {
    b != [] && (a == [] || a[0] < b[0] || (a[0] == b[0] && Less(a[1..], b[1..])))
  }

  lemma {:induction false} LessIrreflexive(a: bytes)
    ensures !Less(a, a)
  {
    if a != [] {
      LessIrreflexive(a[1..]);
    }
  }

  lemma {:induction false} LessTransitive(a: bytes, b: bytes, c: bytes)
    requires Less(a, b) && Less(b, c)
    ensures Less(a, c)
  {
    if a != [] && a[0] == b[0] && b[0] == c[0] {
      LessTransitive(a[1..], b[1..], c[1..]);
    }
  }

  /** Exactly one of `a < b`, `b < a`, `a == b` holds. */
  lemma {:induction false} LessTrichotomy(a: bytes, b: bytes)
    ensures a == b || Less(a, b) || Less(b, a)
    ensures !(Less(a, b) && Less(b, a))
    ensures a == b ==> !Less(a, b)
  {
    if a != [] && b != [] && a[0] == b[0] {
      LessTrichotomy(a[1..], b[1..]);
      assert a == [a[0]] + a[1..] && b == [b[0]] + b[1..];
    }
  }

  /** A common prefix does not influence the order. */
  lemma {:induction false} LessCommonPrefix(p: bytes, a: bytes, b: bytes)
    ensures Less(p + a, p + b) <==> Less(a, b)
  {
    if p == [] {
      assert p + a == a && p + b == b;
    } else {
      LessCommonPrefix(p[1..], a, b);
      assert (p + a)[1..] == p[1..] + a && (p + b)[1..] == p[1..] + b;
    }
  }

  /** The order is decided at the first differing byte. */
  lemma LessAtFirstDifference(p: bytes, x: byte, a: bytes, y: byte, b: bytes)
    requires x < y
    ensures Less(p + [x] + a, p + [y] + b)
  {
    LessCommonPrefix(p, [x] + a, [y] + b);
    assert p + [x] + a == p + ([x] + a) && p + [y] + b == p + ([y] + b);
  }

  predicate IsLeast(k: bytes, ks: set<bytes>)
  {
    k in ks && forall x :: x in ks && x != k ==> Less(k, x)
  }

  lemma {:induction false} LeastExists(ks: set<bytes>)
    requires ks != {}
    ensures exists k :: IsLeast(k, ks)
    decreases |ks|
  {
    var x :| x in ks;
    var rest := ks - {x};
    if rest == {} {
      assert ks == {x};
      assert IsLeast(x, ks);
    } else {
      LeastExists(rest);
      var k :| IsLeast(k, rest);
      LessTrichotomy(k, x);
      if Less(k, x) {
        assert IsLeast(k, ks);
      } else {
        forall y | y in ks && y != x ensures Less(x, y) {
          if y != k {
            LessTransitive(x, k, y);
          }
        }
        assert IsLeast(x, ks);
      }
    }
  }

  lemma LeastUnique(ks: set<bytes>, a: bytes, b: bytes)
    requires IsLeast(a, ks) && IsLeast(b, ks)
    ensures a == b
  {
    LessTrichotomy(a, b);
  }

  /** `begin()->first` of a nonempty `std::map` with keys `ks`. */
  function Least(ks: set<bytes>): (k: bytes)
    requires ks != {}
    ensures IsLeast(k, ks)
  {
    LeastExists(ks);
    assert forall a, b :: IsLeast(a, ks) && IsLeast(b, ks) ==> a == b by {
      forall a, b | IsLeast(a, ks) && IsLeast(b, ks) ensures a == b {
        LeastUnique(ks, a, b);
      }
    }
    var k :| IsLeast(k, ks);
    k
  }

  /** Strictly increasing. */
  ghost predicate Ascending(s: seq<bytes>)
  {
    forall i, j :: 0 <= i < j < |s| ==> Less(s[i], s[j])
  }

  /** The keys of a `std::map` in iteration order. */
  function SortedKeys(ks: set<bytes>): (s: seq<bytes>)
    ensures Ascending(s)
    ensures forall k :: k in s <==> k in ks
    ensures |s| == |ks|
    decreases |ks|
  {
    if ks == {} then []
    else
      var k := Least(ks);
      var rest := SortedKeys(ks - {k});
      assert forall i :: 0 <= i < |rest| ==> rest[i] in ks - {k};
      [k] + rest
  }

  /** The keys of a sequence as a set. */
  ghost function KeySet(ks: seq<bytes>): set<bytes> {
    set k | k in ks
  }

  lemma KeySetLast(ks: seq<bytes>)
    requires ks != [] && Ascending(ks)
    ensures ks[|ks| - 1] !in KeySet(ks[..|ks| - 1])
    ensures KeySet(ks) == KeySet(ks[..|ks| - 1]) + {ks[|ks| - 1]}
  {
    LessIrreflexive(ks[|ks| - 1]);
    assert ks == ks[..|ks| - 1] + [ks[|ks| - 1]];
  }

  lemma Regroup(a: bytes, b: bytes, c: bytes)
    ensures a + (b + c) == a + b + c
  {
  }
}
