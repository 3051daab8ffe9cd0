/** The consistent-hash ring (director/ConsistentHash.py): a sorted list of
    (partition key, member) points, D points per member, and the lookup
    that gives a key to the member of the point just below it. */
module ConsistentHashRing {
  import opened Digests
  import opened Decimal
  import opened Ordering

  /** `ConsistentHash.partition`: the first sixteen hex digits of the
      digest of `arg`, read as a number. */
  function Partition(digest: string -> Digest, arg: string): (p: nat)
    ensures p < 0x1_0000_0000_0000_0000
  {
    Pow16Of16();
    HexValue(digest(arg)[..16])
  }

  /** The label of the i-th point of `member`: `"%s.%s" % (member, i)`. */
  function PointLabel(member: string, i: nat): string {
    member + "." + NatToString(i)
  }

  /** The D points `add(member)` inserts, in insertion order. */
  function VirtualPoints(digest: string -> Digest, d: nat, member: string): (pts: seq<Point>)
    ensures |pts| == d
    ensures forall e :: e in pts ==> e.member == member
  {
    seq(d, i requires 0 <= i < d => Point(Partition(digest, PointLabel(member, i)), member))
  }

  lemma PointLabelsDistinct(member: string, i: nat, j: nat)
    requires i != j
    ensures PointLabel(member, i) != PointLabel(member, j)
  {
    if PointLabel(member, i) == PointLabel(member, j) {
      var pre := member + ".";
      assert PointLabel(member, i)[|pre|..] == NatToString(i);
      assert PointLabel(member, j)[|pre|..] == NatToString(j);
      NatToStringInjective(i, j);
    }
  }

  /** The points inserted one after another with `bisect.insort`. */
  function AddPoints(ks: seq<Point>, pts: seq<Point>): (r: seq<Point>)
    ensures multiset(r) == multiset(ks) + multiset(pts)
    decreases |pts|
  {
    if pts == [] then ks
    else
      assert pts == pts[..|pts| - 1] + [pts[|pts| - 1]];
      Insort(AddPoints(ks, pts[..|pts| - 1]), pts[|pts| - 1])
  }

  lemma AddPointsStep(ks: seq<Point>, pts: seq<Point>, i: nat)
    requires i < |pts|
    ensures AddPoints(ks, pts[..i + 1]) == Insort(AddPoints(ks, pts[..i]), pts[i])
  {
    assert pts[..i + 1][..i] == pts[..i];
  }

  lemma {:induction false} AddPointsSorted(ks: seq<Point>, pts: seq<Point>)
    requires Sorted(ks)
    ensures Sorted(AddPoints(ks, pts))
    decreases |pts|
  {
    if pts != [] {
      AddPointsSorted(ks, pts[..|pts| - 1]);
      InsortSorted(AddPoints(ks, pts[..|pts| - 1]), pts[|pts| - 1]);
    }
  }

  /** `remove(member)`: the points of every other member, in their order. */
  function WithoutMember(ks: seq<Point>, m: string): (r: seq<Point>)
    ensures |r| <= |ks|
    decreases |ks|
  {
    if ks == [] then []
    else
      var last := ks[|ks| - 1];
      var rest := WithoutMember(ks[..|ks| - 1], m);
      if last.member == m then rest else rest + [last]
  }

  /** After `remove(m)` no point of `m` is left and every other point is
      there as often as before. */
  lemma {:induction false} WithoutMemberContents(ks: seq<Point>, m: string)
    ensures forall e :: e in WithoutMember(ks, m) <==> e in ks && e.member != m
    ensures forall e :: multiset(WithoutMember(ks, m))[e] == if e.member == m then 0 else multiset(ks)[e]
    decreases |ks|
  {
    if ks != [] {
      var init, last := ks[..|ks| - 1], ks[|ks| - 1];
      WithoutMemberContents(init, m);
      assert ks == init + [last];
    }
  }

  lemma {:induction false} WithoutMemberSorted(ks: seq<Point>, m: string)
    requires Sorted(ks)
    ensures Sorted(WithoutMember(ks, m))
    decreases |ks|
  {
    if ks != [] {
      var init, last := ks[..|ks| - 1], ks[|ks| - 1];
      assert Sorted(init);
      WithoutMemberSorted(init, m);
      var rest := WithoutMember(init, m);
      if last.member != m {
        var r := rest + [last];
        forall i, j | 0 <= i < j < |r| ensures PointLe(r[i], r[j]) {
          if j == |rest| {
            WithoutMemberContents(init, m);
            assert r[i] in init;
            var k :| 0 <= k < |init| && init[k] == r[i];
            assert ks[k] == r[i];
          } else {
            assert r[i] == rest[i] && r[j] == rest[j];
          }
        }
      }
    }
  }

  lemma WithoutMemberSnoc(s: seq<Point>, e: Point, m: string)
    ensures WithoutMember(s + [e], m)
         == if e.member == m then WithoutMember(s, m) else WithoutMember(s, m) + [e]
  {
    assert (s + [e])[..|s|] == s;
  }

  /** Removal works point by point: on a concatenation it removes from each
      part, so the survivors keep their relative order. */
  lemma {:induction false} WithoutMemberAppend(a: seq<Point>, b: seq<Point>, m: string)
    ensures WithoutMember(a + b, m) == WithoutMember(a, m) + WithoutMember(b, m)
    decreases |b|
  {
    if b == [] {
      assert a + b == a;
    } else {
      var binit, last := b[..|b| - 1], b[|b| - 1];
      var ab := a + b;
      assert ab[..|ab| - 1] == a + binit && ab[|ab| - 1] == last;
      WithoutMemberAppend(a, binit, m);
      var wa, wb := WithoutMember(a, m), WithoutMember(binit, m);
      if last.member != m {
        calc {
          WithoutMember(ab, m);
          WithoutMember(a + binit, m) + [last];
          wa + wb + [last];
          wa + (wb + [last]);
          wa + WithoutMember(b, m);
        }
      }
    }
  }

  /** The set of members that own at least one point. */
  function Members(ks: seq<Point>): set<string> {
    set e | e in ks :: e.member
  }

  lemma MembersNonEmpty(ks: seq<Point>)
    requires |Members(ks)| > 0
    ensures |ks| > 0
  {
    var m :| m in Members(ks);
  }

  lemma MembersWithout(ks: seq<Point>, m: string)
    ensures Members(WithoutMember(ks, m)) == Members(ks) - {m}
  {
    var w := WithoutMember(ks, m);
    WithoutMemberContents(ks, m);
    forall x | x in Members(ks) - {m} ensures x in Members(w) {
      var e :| e in ks && e.member == x;
      assert e in w;
    }
  }

  lemma MembersAdd(digest: string -> Digest, d: nat, ks: seq<Point>, m: string)
    requires d > 0
    ensures Members(AddPoints(ks, VirtualPoints(digest, d, m))) == Members(ks) + {m}
  {
    var pts := VirtualPoints(digest, d, m);
    var r := AddPoints(ks, pts);
    assert forall e :: e in r <==> e in ks || e in pts by {
      forall e ensures e in r <==> e in ks || e in pts {
        assert e in r <==> e in multiset(r);
        assert e in ks <==> e in multiset(ks);
        assert e in pts <==> e in multiset(pts);
      }
    }
    assert pts[0] in r;
    forall x | x in Members(r) ensures x in Members(ks) + {m} {
      var e :| e in r && e.member == x;
    }
    forall x | x in Members(ks) ensures x in Members(r) {
      var e :| e in ks && e.member == x;
      assert e in r;
    }
  }

  /** The index of the last point whose key is strictly below `p`, or -1
      when there is none. Scans from the back; it does not need the ring
      to be sorted. */
  function LastBelow(ks: seq<Point>, p: nat): (j: int)
    ensures -1 <= j < |ks|
    ensures j >= 0 ==> ks[j].key < p
    ensures forall k :: j < k < |ks| ==> ks[k].key >= p
    decreases |ks|
  {
    if ks == [] then -1
    else if ks[|ks| - 1].key < p then |ks| - 1
    else LastBelow(ks[..|ks| - 1], p)
  }

  /** The owner of position `p`: the member of the last point whose key is
      strictly less than `p`, wrapping round to the member of the last point
      when no key is less. */
  function OwnerMember(ks: seq<Point>, p: nat): (m: string)
    requires |ks| > 0
    ensures m in Members(ks)
  {
    var j := LastBelow(ks, p);
    if j >= 0 then ks[j].member else ks[|ks| - 1].member
  }

  lemma OwnerIsLastPointBelow(ks: seq<Point>, p: nat, j: nat)
    requires j < |ks| && ks[j].key < p
    requires forall k :: j < k < |ks| ==> ks[k].key >= p
    ensures OwnerMember(ks, p) == ks[j].member
  {
  }

  lemma OwnerWrapsToLastPoint(ks: seq<Point>, p: nat)
    requires |ks| > 0
    requires forall k :: 0 <= k < |ks| ==> ks[k].key >= p
    ensures OwnerMember(ks, p) == ks[|ks| - 1].member
  {
  }

  /** `bisect.bisect_left(ks, (p, None))`: how many leading points lie below
      `(p, None)`. As None sorts below every string, `(k, m) < (p, None)`
      holds exactly when `k < p`. */
  function BisectLeft(ks: seq<Point>, p: nat): (i: nat)
    ensures i <= |ks|
    ensures forall k :: 0 <= k < i ==> ks[k].key < p
    ensures i < |ks| ==> ks[i].key >= p
    decreases |ks|
  {
    if ks == [] || ks[0].key >= p then 0
    else 1 + BisectLeft(ks[1..], p)
  }

  /** On a sorted ring the point just before the bisection point is the
      last point below `p`. */
  lemma BisectLeftIsAfterLastBelow(ks: seq<Point>, p: nat)
    requires Sorted(ks)
    ensures BisectLeft(ks, p) - 1 == LastBelow(ks, p)
  {
    var i, j := BisectLeft(ks, p), LastBelow(ks, p);
    forall k | i <= k < |ks| ensures ks[k].key >= p {
      if k > i {
        assert PointLe(ks[i], ks[k]);
      }
    }
  }

  /** Removing a member does not move any key it did not own. */
  lemma {:induction false} RemovalKeepsOtherOwners(ks: seq<Point>, p: nat, x: string)
    requires |ks| > 0 && OwnerMember(ks, p) != x
    ensures |WithoutMember(ks, x)| > 0
    ensures OwnerMember(WithoutMember(ks, x), p) == OwnerMember(ks, p)
  {
    var n := |ks|;
    var w := WithoutMember(ks, x);
    var j := LastBelow(ks, p);
    if j >= 0 {
      LastBelowSurvives(ks, p, x);
    } else {
      var last := ks[n - 1];
      assert w == WithoutMember(ks[..n - 1], x) + [last];
      forall k | 0 <= k < |w| ensures w[k].key >= p {
        WithoutMemberContents(ks, x);
        assert w[k] in ks;
      }
    }
  }

  /** The last point below `p`, when its member is not removed, is still the
      last point below `p` after the removal. */
  lemma {:induction false} LastBelowSurvives(ks: seq<Point>, p: nat, x: string)
    requires LastBelow(ks, p) >= 0 && ks[LastBelow(ks, p)].member != x
    ensures LastBelow(WithoutMember(ks, x), p) >= 0
    ensures WithoutMember(ks, x)[LastBelow(WithoutMember(ks, x), p)] == ks[LastBelow(ks, p)]
    decreases |ks|
  {
    var n := |ks|;
    var init, last := ks[..n - 1], ks[n - 1];
    var rest := WithoutMember(init, x);
    var w := WithoutMember(ks, x);
    if last.key < p {
      assert LastBelow(ks, p) == n - 1;
      assert w == rest + [last];
      assert LastBelow(w, p) == |w| - 1;
    } else {
      var j := LastBelow(init, p);
      assert LastBelow(ks, p) == j && ks[j] == init[j];
      LastBelowSurvives(init, p, x);
      var j' := LastBelow(rest, p);
      if last.member != x {
        assert w == rest + [last];
        assert w[..|rest|] == rest;
        assert LastBelow(w, p) == j';
        assert w[j'] == rest[j'];
      } else {
        assert w == rest;
      }
    }
  }

  /** The ring object of director/ConsistentHash.py. */
  class ConsistentHash {
    const D: nat
    const digest: string -> Digest
    var keyspace: seq<Point>

    ghost predicate Valid()
      reads this
    {
      Sorted(keyspace)
    }

    constructor (digest: string -> Digest, D: nat)
      ensures Valid()
      ensures keyspace == [] && this.D == D && this.digest == digest
    {
      this.D := D;
      this.digest := digest;
      keyspace := [];
    }

    /** `add(member)`: insert the member's D points, keeping the ring sorted. */
    method Add(m: string)
      requires Valid()
      modifies this
      ensures Valid()
      ensures keyspace == AddPoints(old(keyspace), VirtualPoints(digest, D, m))
    {
      ghost var pts := VirtualPoints(digest, D, m);
      for i := 0 to D
        invariant Valid()
        invariant keyspace == AddPoints(old(keyspace), pts[..i])
      {
        var k := Partition(digest, PointLabel(m, i));
        InsortSorted(keyspace, Point(k, m));
        AddPointsStep(old(keyspace), pts, i);
        keyspace := Insort(keyspace, Point(k, m));
      }
      assert pts[..D] == pts;
    }

    /** `remove(member)`: drop every point of the member. */
    method Remove(m: string)
      requires Valid()
      modifies this
      ensures Valid()
      ensures keyspace == WithoutMember(old(keyspace), m)
    {
      WithoutMemberSorted(keyspace, m);
      keyspace := WithoutMember(keyspace, m);
    }

    /** `ring[i]`: the member of point `i` modulo the ring size (Python's
        `%` with a positive divisor, so -1 names the last point). */
    function MemberAt(i: int): (m: string)
      reads this
      requires |keyspace| > 0
      ensures m in Members(keyspace)
      ensures 0 <= i < |keyspace| ==> m == keyspace[i].member
      ensures i == -1 ==> m == keyspace[|keyspace| - 1].member
    {
      keyspace[i % |keyspace|].member
    }

    /** `hash(key)`: the owner of the key's partition value. */
    function Hash(key: string): (m: string)
      reads this
      requires Valid() && |keyspace| > 0
      ensures m == OwnerMember(keyspace, Partition(digest, key))
    {
      var p := Partition(digest, key);
      BisectLeftIsAfterLastBelow(keyspace, p);
      MemberAt(BisectLeft(keyspace, p) - 1)
    }
  }

  /** The wrap-round example: points 10, 50, 90 owned by A, B, C. */
  lemma OwnerExamples()
    ensures var ks := [Point(10, "A"), Point(50, "B"), Point(90, "C")];
      && OwnerMember(ks, 95) == "C"
      && OwnerMember(ks, 5) == "C"
      && OwnerMember(ks, 55) == "B"
      && OwnerMember(ks, 10) == "C"
      && OwnerMember(ks, 11) == "A"
      && OwnerMember(ks, 50) == "A"
  {
    var ks := [Point(10, "A"), Point(50, "B"), Point(90, "C")];
    assert ks[..2] == [Point(10, "A"), Point(50, "B")];
    assert ks[..2][..1] == [Point(10, "A")];
    assert ks[..2][..1][..0] == [];
    assert LastBelow(ks, 11) == 0 && LastBelow(ks, 50) == 0;
    assert LastBelow(ks, 55) == 1 && LastBelow(ks, 95) == 2;
    assert LastBelow(ks, 5) == -1 && LastBelow(ks, 10) == -1;
  }
}
