/** The orders the director sorts by: strings compared as Python 2 compares
    byte strings, and ring points compared as Python compares the tuples
    (partition key, member). Also the two library routines built on them:
    `bisect.insort` on the ring and `sorted` on the region names. */
module Ordering {

  /** Lexicographic order on strings: the first differing character decides,
      and a proper prefix sorts first. */
  predicate StrLt(a: string, b: string)
    decreases |a|
  {
    if |a| == 0 then |b| > 0
    else if |b| == 0 then false
    else a[0] < b[0] || (a[0] == b[0] && StrLt(a[1..], b[1..]))
  }

  predicate StrLe(a: string, b: string) {
    a == b || StrLt(a, b)
  }

  lemma {:induction false} StrLtIrreflexive(a: string)
    ensures !StrLt(a, a)
    decreases |a|
  {
    if |a| > 0 {
      StrLtIrreflexive(a[1..]);
    }
  }

  lemma {:induction false} StrLtTransitive(a: string, b: string, c: string)
    requires StrLt(a, b) && StrLt(b, c)
    ensures StrLt(a, c)
    decreases |a|
  {
    if |a| > 0 && a[0] == b[0] && b[0] == c[0] {
      StrLtTransitive(a[1..], b[1..], c[1..]);
    }
  }

  lemma {:induction false} StrLtTotal(a: string, b: string)
    ensures StrLt(a, b) || a == b || StrLt(b, a)
    decreases |a|
  {
    if |a| > 0 && |b| > 0 && a[0] == b[0] {
      StrLtTotal(a[1..], b[1..]);
      assert a == [a[0]] + a[1..] && b == [b[0]] + b[1..];
    }
  }

  lemma StrLeAntisymmetric(a: string, b: string)
    requires StrLe(a, b) && StrLe(b, a)
    ensures a == b
  {
    if a != b {
      StrLtTransitive(a, b, a);
      StrLtIrreflexive(a);
    }
  }

  /** One point of the ring: a partition key and the member it belongs to. */
  datatype Point = Point(key: nat, member: string)

  /** Python's `<` on the tuple (key, member). */
  predicate PointLt(x: Point, y: Point) {
    x.key < y.key || (x.key == y.key && StrLt(x.member, y.member))
  }

  predicate PointLe(x: Point, y: Point) {
    x == y || PointLt(x, y)
  }

  lemma PointLtTotal(x: Point, y: Point)
    ensures PointLt(x, y) || x == y || PointLt(y, x)
  {
    StrLtTotal(x.member, y.member);
  }

  lemma PointLtTransitive(x: Point, y: Point, z: Point)
    requires PointLt(x, y) && PointLt(y, z)
    ensures PointLt(x, z)
  {
    if x.key == y.key == z.key {
      StrLtTransitive(x.member, y.member, z.member);
    }
  }

  lemma PointLeTransitive(x: Point, y: Point, z: Point)
    requires PointLe(x, y) && PointLe(y, z)
    ensures PointLe(x, z)
  {
    if x != y && y != z {
      PointLtTransitive(x, y, z);
    }
  }

  lemma PointLeAntisymmetric(x: Point, y: Point)
    requires PointLe(x, y) && PointLe(y, x)
    ensures x == y
  {
    if x != y {
      PointLtTransitive(x, y, x);
      StrLtIrreflexive(x.member);
    }
  }

  /** The ring invariant: points in ascending tuple order. */
  ghost predicate Sorted(ks: seq<Point>) {
    forall i, j :: 0 <= i < j < |ks| ==> PointLe(ks[i], ks[j])
  }

  lemma SortedCons(x: Point, ks: seq<Point>)
    requires Sorted(ks)
    requires forall e :: e in ks ==> PointLe(x, e)
    ensures Sorted([x] + ks)
  {
    var s := [x] + ks;
    forall i, j | 0 <= i < j < |s| ensures PointLe(s[i], s[j]) {
      if i == 0 {
        assert s[j] == ks[j - 1];
      } else {
        assert s[i] == ks[i - 1] && s[j] == ks[j - 1];
      }
    }
  }

  /** `bisect.insort` (insort_right): put `x` after every point that is not
      greater than it. */
  function Insort(ks: seq<Point>, x: Point): (r: seq<Point>)
    ensures multiset(r) == multiset(ks) + multiset{x}
  {
    if ks == [] then [x]
    else if PointLt(x, ks[0]) then [x] + ks
    else
      assert ks == [ks[0]] + ks[1..];
      [ks[0]] + Insort(ks[1..], x)
  }

  lemma {:induction false} InsortSorted(ks: seq<Point>, x: Point)
    requires Sorted(ks)
    ensures Sorted(Insort(ks, x))
  {
    if ks == [] {
    } else if PointLt(x, ks[0]) {
      forall e | e in ks ensures PointLe(x, e) {
        PointLeTransitive(x, ks[0], e);
      }
      SortedCons(x, ks);
    } else {
      var tail := ks[1..];
      assert Sorted(tail) by {
        forall i, j | 0 <= i < j < |tail| ensures PointLe(tail[i], tail[j]) {
          assert tail[i] == ks[i + 1] && tail[j] == ks[j + 1];
        }
      }
      InsortSorted(tail, x);
      PointLtTotal(x, ks[0]);
      var rest := Insort(tail, x);
      forall e | e in rest ensures PointLe(ks[0], e) {
        assert e in multiset(rest);
        if e != x {
          assert e in multiset(tail);
          var j :| 0 <= j < |tail| && tail[j] == e;
          assert ks[j + 1] == e;
        }
      }
      SortedCons(ks[0], rest);
    }
  }

  lemma SortedTail(a: seq<Point>)
    requires Sorted(a) && a != []
    ensures Sorted(a[1..])
  {
    var t := a[1..];
    forall i, j | 0 <= i < j < |t| ensures PointLe(t[i], t[j]) {
      assert t[i] == a[i + 1] && t[j] == a[j + 1];
    }
  }

  lemma SortedHeadLeast(a: seq<Point>, e: Point)
    requires Sorted(a) && e in a
    ensures PointLe(a[0], e)
  {
    var i :| 0 <= i < |a| && a[i] == e;
    if i > 0 {
      assert PointLe(a[0], a[i]);
    }
  }

  lemma MultisetTail(a: seq<Point>)
    requires a != []
    ensures multiset(a[1..]) == multiset(a) - multiset{a[0]}
    ensures a == [a[0]] + a[1..]
  {
    assert a == [a[0]] + a[1..];
  }

  lemma SameHead(a: seq<Point>, b: seq<Point>)
    requires Sorted(a) && Sorted(b) && a != []
    requires multiset(a) == multiset(b)
    ensures b != [] && a[0] == b[0]
  {
    assert a[0] in multiset(b);
    assert b[0] in multiset(a);
    SortedHeadLeast(b, a[0]);
    SortedHeadLeast(a, b[0]);
    PointLeAntisymmetric(a[0], b[0]);
  }

  /** Two ascending rings holding the same points are the same ring. */
  lemma {:induction false} SortedUnique(a: seq<Point>, b: seq<Point>)
    requires Sorted(a) && Sorted(b)
    requires multiset(a) == multiset(b)
    ensures a == b
    decreases |a|
  {
    if a == [] {
      assert |b| == |multiset(b)| == 0;
    } else {
      SameHead(a, b);
      MultisetTail(a);
      MultisetTail(b);
      SortedTail(a);
      SortedTail(b);
      SortedUnique(a[1..], b[1..]);
    }
  }

  predicate IsLeast(x: string, s: set<string>) {
    forall y :: y in s ==> StrLe(x, y)
  }

  lemma {:induction false} LeastExists(s: set<string>)
    requires s != {}
    ensures exists x :: x in s && IsLeast(x, s)
    decreases |s|
  {
    var z :| z in s;
    if s != {z} {
      LeastExists(s - {z});
      var w :| w in s - {z} && IsLeast(w, s - {z});
      StrLtTotal(z, w);
      if StrLt(z, w) {
        forall y | y in s ensures StrLe(z, y) {
          if y != z && y != w {
            assert y in s - {z};
            assert StrLe(w, y);
            StrLtTransitive(z, w, y);
          }
        }
        assert IsLeast(z, s);
      } else {
        assert IsLeast(w, s);
      }
    }
  }

  lemma LeastUnique(s: set<string>)
    ensures forall x, y :: x in s && y in s && IsLeast(x, s) && IsLeast(y, s) ==> x == y
  {
    forall x, y | x in s && y in s && IsLeast(x, s) && IsLeast(y, s) ensures x == y {
      StrLeAntisymmetric(x, y);
    }
  }

  /** The least of a non-empty set of strings. */
  function Least(keys: set<string>): (x: string)
    requires keys != {}
    ensures x in keys && IsLeast(x, keys)
  {
    LeastExists(keys);
    LeastUnique(keys);
    var x :| x in keys && IsLeast(x, keys);
    x
  }

  /** `sorted(keys)`: every key once, in ascending order. */
  function SortedKeys(keys: set<string>): (r: seq<string>)
    ensures |r| == |keys|
    ensures forall k :: k in r <==> k in keys
    ensures forall i, j :: 0 <= i < j < |r| ==> StrLt(r[i], r[j])
    decreases keys
  {
    if keys == {} then []
    else
      var x := Least(keys);
      var rest := SortedKeys(keys - {x});
      assert forall k :: k in rest ==> StrLt(x, k);
      [x] + rest
  }
}
