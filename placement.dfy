/** Replica placement on top of the ring (director/director.py:40-68): pick
    `count` distinct members by asking the ring for the owner of the object
    hash and removing the winner before asking again; first over the
    region names, then over the nodes of each chosen region. */
module Placement {
  import opened Digests
  import opened Ordering
  import opened ConsistentHashRing

  /** `ConsistentHash()` is built with its default D. */
  const PointsPerMember: nat := 200

  /** The distinct entries of a node list. */
  function Distinct(nodes: seq<string>): set<string> {
    set n | n in nodes
  }

  /** `range(count)` is empty when the count is negative. */
  function Clamp(count: int): nat {
    if count < 0 then 0 else count
  }

  /** The keyspace after `ring.add(node)` for every node, in order. */
  function RingOf(digest: string -> Digest, nodes: seq<string>): seq<Point>
    decreases |nodes|
  {
    if nodes == [] then []
    else AddPoints(RingOf(digest, nodes[..|nodes| - 1]), VirtualPoints(digest, PointsPerMember, nodes[|nodes| - 1]))
  }

  lemma RingOfStep(digest: string -> Digest, nodes: seq<string>, k: nat)
    requires k < |nodes|
    ensures RingOf(digest, nodes[..k + 1])
         == AddPoints(RingOf(digest, nodes[..k]), VirtualPoints(digest, PointsPerMember, nodes[k]))
  {
    assert nodes[..k + 1][..k] == nodes[..k];
  }

  lemma {:induction false} RingOfSorted(digest: string -> Digest, nodes: seq<string>)
    ensures Sorted(RingOf(digest, nodes))
    decreases |nodes|
  {
    if nodes != [] {
      RingOfSorted(digest, nodes[..|nodes| - 1]);
      AddPointsSorted(RingOf(digest, nodes[..|nodes| - 1]), VirtualPoints(digest, PointsPerMember, nodes[|nodes| - 1]));
    }
  }

  lemma {:induction false} RingOfMembers(digest: string -> Digest, nodes: seq<string>)
    ensures Members(RingOf(digest, nodes)) == Distinct(nodes)
    decreases |nodes|
  {
    if nodes != [] {
      var init, last := nodes[..|nodes| - 1], nodes[|nodes| - 1];
      RingOfMembers(digest, init);
      MembersAdd(digest, PointsPerMember, RingOf(digest, init), last);
      DistinctSnoc(nodes);
    }
  }

  lemma MulSucc(a: nat, c: nat)
    ensures (a + 1) * c == a * c + c
  {
  }

  lemma DistinctSnoc(nodes: seq<string>)
    requires nodes != []
    ensures Distinct(nodes) == Distinct(nodes[..|nodes| - 1]) + {nodes[|nodes| - 1]}
    ensures multiset(nodes) == multiset(nodes[..|nodes| - 1]) + multiset{nodes[|nodes| - 1]}
  {
    assert nodes == nodes[..|nodes| - 1] + [nodes[|nodes| - 1]];
  }

  lemma PointsOfOtherMember(digest: string -> Digest, m: string, e: Point)
    requires e.member != m
    ensures multiset(VirtualPoints(digest, PointsPerMember, m))[e] == 0
  {
    assert e !in VirtualPoints(digest, PointsPerMember, m);
  }

  lemma CountStep(total: nat, prev: nat, added: nat, a: nat, a1: nat, v: nat)
    requires total == prev + added && prev == a * v
    requires (a1 == a + 1 && added == v) || (a1 == a && added == 0)
    ensures total == a1 * v
  {
    MulSucc(a, v);
  }

  lemma RingOfSnocCount(digest: string -> Digest, nodes: seq<string>, e: Point)
    requires nodes != []
    ensures multiset(RingOf(digest, nodes))[e]
         == multiset(RingOf(digest, nodes[..|nodes| - 1]))[e]
          + multiset(VirtualPoints(digest, PointsPerMember, nodes[|nodes| - 1]))[e]
  {
  }

  /** How often a point occurs on the ring depends only on how often its
      member occurs in the node list. */
  lemma {:induction false} RingOfCount(digest: string -> Digest, nodes: seq<string>, e: Point)
    ensures multiset(RingOf(digest, nodes))[e]
         == multiset(nodes)[e.member] * multiset(VirtualPoints(digest, PointsPerMember, e.member))[e]
    decreases |nodes|
  {
    if nodes != [] {
      var init, last := nodes[..|nodes| - 1], nodes[|nodes| - 1];
      RingOfCount(digest, init, e);
      DistinctSnoc(nodes);
      RingOfSnocCount(digest, nodes, e);
      var added := multiset(VirtualPoints(digest, PointsPerMember, last))[e];
      if last != e.member {
        PointsOfOtherMember(digest, last, e);
      }
      CountStep(multiset(RingOf(digest, nodes))[e], multiset(RingOf(digest, init))[e], added,
                multiset(init)[e.member], multiset(nodes)[e.member],
                multiset(VirtualPoints(digest, PointsPerMember, e.member))[e]);
    }
  }

  /** The ring is the same whatever order the nodes are added in. */
  lemma RingOfPermutation(digest: string -> Digest, nodes1: seq<string>, nodes2: seq<string>)
    requires multiset(nodes1) == multiset(nodes2)
    ensures RingOf(digest, nodes1) == RingOf(digest, nodes2)
  {
    var r1, r2 := RingOf(digest, nodes1), RingOf(digest, nodes2);
    forall e ensures multiset(r1)[e] == multiset(r2)[e] {
      RingOfCount(digest, nodes1, e);
      RingOfCount(digest, nodes2, e);
    }
    assert multiset(r1) == multiset(r2);
    RingOfSorted(digest, nodes1);
    RingOfSorted(digest, nodes2);
    SortedUnique(r1, r2);
  }

  /** The node list without every occurrence of `m`, order kept. */
  function DropNode(nodes: seq<string>, m: string): (r: seq<string>)
    ensures forall n :: n in r <==> n in nodes && n != m
    ensures multiset(r) == multiset(nodes)[m := 0]
    decreases |nodes|
  {
    if nodes == [] then []
    else
      var last := nodes[|nodes| - 1];
      var init := nodes[..|nodes| - 1];
      DistinctSnoc(nodes);
      if last == m then DropNode(init, m) else DropNode(init, m) + [last]
  }

  /** The node list without all of `ms`, removed one after another. */
  function DropAll(nodes: seq<string>, ms: seq<string>): seq<string>
    decreases |ms|
  {
    if ms == [] then nodes else DropAll(DropNode(nodes, ms[0]), ms[1..])
  }

  /** `ring.remove(m)` on the ring of a node list leaves the ring built from
      the node list without m. */
  lemma RingOfWithout(digest: string -> Digest, nodes: seq<string>, m: string)
    ensures WithoutMember(RingOf(digest, nodes), m) == RingOf(digest, DropNode(nodes, m))
  {
    var w := WithoutMember(RingOf(digest, nodes), m);
    var r := RingOf(digest, DropNode(nodes, m));
    WithoutMemberContents(RingOf(digest, nodes), m);
    forall e ensures multiset(w)[e] == multiset(r)[e] {
      RingOfCount(digest, nodes, e);
      RingOfCount(digest, DropNode(nodes, m), e);
    }
    assert multiset(w) == multiset(r);
    RingOfSorted(digest, nodes);
    WithoutMemberSorted(RingOf(digest, nodes), m);
    RingOfSorted(digest, DropNode(nodes, m));
    SortedUnique(w, r);
  }

  /** Removing members one after another from the ring of a node list leaves
      the ring of the remaining nodes. */
  lemma {:induction false} RingOfWithoutAll(digest: string -> Digest, nodes: seq<string>, ms: seq<string>)
    ensures WithoutAll(RingOf(digest, nodes), ms) == RingOf(digest, DropAll(nodes, ms))
    decreases |ms|
  {
    if ms != [] {
      RingOfWithout(digest, nodes, ms[0]);
      RingOfWithoutAll(digest, DropNode(nodes, ms[0]), ms[1..]);
    }
  }

  /** The selection loop on a keyspace: the owner of `p`, then the owner of
      `p` once that member is removed, and so on `count` times. */
  function Selection(ks: seq<Point>, p: nat, count: nat): (sel: seq<string>)
    requires count <= |Members(ks)|
    ensures |sel| == count
    ensures forall i :: 0 <= i < count ==> sel[i] in Members(ks)
    ensures forall i, j :: 0 <= i < j < count ==> sel[i] != sel[j]
    decreases count
  {
    if count == 0 then []
    else
      MembersNonEmpty(ks);
      var w := OwnerMember(ks, p);
      MembersWithout(ks, w);
      [w] + Selection(WithoutMember(ks, w), p, count - 1)
  }

  /** One turn of the selection loop. */
  lemma SelectionStep(ks: seq<Point>, p: nat, count: nat)
    requires 0 < count <= |Members(ks)|
    ensures |ks| > 0
    ensures |Members(WithoutMember(ks, OwnerMember(ks, p)))| == |Members(ks)| - 1
    ensures Selection(ks, p, count)
         == [OwnerMember(ks, p)] + Selection(WithoutMember(ks, OwnerMember(ks, p)), p, count - 1)
  {
    MembersNonEmpty(ks);
    MembersWithout(ks, OwnerMember(ks, p));
  }

  /** The keyspace with the given members removed one after another. */
  function WithoutAll(ks: seq<Point>, ms: seq<string>): seq<Point>
    decreases |ms|
  {
    if ms == [] then ks else WithoutAll(WithoutMember(ks, ms[0]), ms[1..])
  }

  /** Asking for one more replica only appends one. */
  lemma {:induction false} SelectionPrefix(ks: seq<Point>, p: nat, count: nat)
    requires count + 1 <= |Members(ks)|
    ensures Selection(ks, p, count + 1)[..count] == Selection(ks, p, count)
    decreases count
  {
    if count > 0 {
      MembersNonEmpty(ks);
      var w := OwnerMember(ks, p);
      MembersWithout(ks, w);
      SelectionPrefix(WithoutMember(ks, w), p, count - 1);
    }
  }

  /** Replica j is the owner of `p` on the ring without replicas 0..j-1. */
  lemma {:induction false} SelectionElement(ks: seq<Point>, p: nat, count: nat, j: nat)
    requires count <= |Members(ks)| && j < count
    ensures |WithoutAll(ks, Selection(ks, p, count)[..j])| > 0
    ensures Selection(ks, p, count)[j] == OwnerMember(WithoutAll(ks, Selection(ks, p, count)[..j]), p)
    decreases j
  {
    MembersNonEmpty(ks);
    var sel := Selection(ks, p, count);
    var w := OwnerMember(ks, p);
    MembersWithout(ks, w);
    var ks' := WithoutMember(ks, w);
    var sel' := Selection(ks', p, count - 1);
    assert sel == [w] + sel';
    if j == 0 {
      assert sel[..0] == [];
    } else {
      SelectionElement(ks', p, count - 1, j - 1);
      assert sel[..j] == [w] + sel'[..j - 1];
      assert sel[..j][1..] == sel'[..j - 1];
    }
  }

  /** What `get_consistent_hash_values(h, nodes, replicas)` returns. */
  function Placement(digest: string -> Digest, h: string, nodes: seq<string>, replicas: int): (sel: seq<string>)
    requires replicas <= |Distinct(nodes)|
    ensures |sel| == Clamp(replicas)
    ensures forall i :: 0 <= i < |sel| ==> sel[i] in nodes
    ensures forall i, j :: 0 <= i < j < |sel| ==> sel[i] != sel[j]
  {
    RingOfMembers(digest, nodes);
    Selection(RingOf(digest, nodes), Partition(digest, h), Clamp(replicas))
  }

  /** The placement of a permutation of the nodes is the same placement. */
  lemma PlacementOrderIndependent(digest: string -> Digest, h: string, nodes1: seq<string>, nodes2: seq<string>, replicas: int)
    requires multiset(nodes1) == multiset(nodes2)
    requires replicas <= |Distinct(nodes1)|
    ensures Distinct(nodes1) == Distinct(nodes2)
    ensures Placement(digest, h, nodes1, replicas) == Placement(digest, h, nodes2, replicas)
  {
    assert forall n :: n in nodes1 <==> n in multiset(nodes1);
    assert forall n :: n in nodes2 <==> n in multiset(nodes2);
    RingOfPermutation(digest, nodes1, nodes2);
  }

  /** Placement with one more replica extends the shorter one. */
  lemma PlacementPrefix(digest: string -> Digest, h: string, nodes: seq<string>, replicas: nat)
    requires replicas + 1 <= |Distinct(nodes)|
    ensures Placement(digest, h, nodes, replicas + 1)[..replicas] == Placement(digest, h, nodes, replicas)
  {
    RingOfMembers(digest, nodes);
    SelectionPrefix(RingOf(digest, nodes), Partition(digest, h), replicas);
  }

  /** Replica j of a placement is the ring owner of the object hash over the
      nodes without replicas 0..j-1. */
  lemma PlacementElement(digest: string -> Digest, h: string, nodes: seq<string>, replicas: int, j: nat)
    requires replicas <= |Distinct(nodes)| && j < Clamp(replicas)
    ensures var sel := Placement(digest, h, nodes, replicas);
      && |RingOf(digest, DropAll(nodes, sel[..j]))| > 0
      && sel[j] == OwnerMember(RingOf(digest, DropAll(nodes, sel[..j])), Partition(digest, h))
  {
    RingOfMembers(digest, nodes);
    var sel := Placement(digest, h, nodes, replicas);
    SelectionElement(RingOf(digest, nodes), Partition(digest, h), Clamp(replicas), j);
    RingOfWithoutAll(digest, nodes, sel[..j]);
  }

  /** The first loop of `get_consistent_hash_values`: `ring.add(node)` for
      every node, in order. */
  method BuildRing(digest: string -> Digest, nodes: seq<string>) returns (ring: ConsistentHash)
    ensures fresh(ring)
    ensures ring.Valid() && ring.digest == digest && ring.D == PointsPerMember
    ensures ring.keyspace == RingOf(digest, nodes)
  {
    ring := new ConsistentHash(digest, PointsPerMember);
    for k := 0 to |nodes|
      invariant ring.Valid() && ring.digest == digest && ring.D == PointsPerMember
      invariant ring.keyspace == RingOf(digest, nodes[..k])
    {
      RingOfStep(digest, nodes, k);
      ring.Add(nodes[k]);
    }
    assert nodes[..|nodes|] == nodes;
  }

  /** The selection loop keeps "what is taken, then what is still to be
      taken, is the whole selection". */
  lemma SelectionSplit(taken: seq<string>, ks: seq<Point>, p: nat, count: nat, whole: seq<string>)
    requires 0 < count <= |Members(ks)|
    requires taken + Selection(ks, p, count) == whole
    ensures |ks| > 0
    ensures count - 1 <= |Members(WithoutMember(ks, OwnerMember(ks, p)))|
    ensures (taken + [OwnerMember(ks, p)]) + Selection(WithoutMember(ks, OwnerMember(ks, p)), p, count - 1) == whole
  {
    SelectionStep(ks, p, count);
    var w := OwnerMember(ks, p);
    var rest := Selection(WithoutMember(ks, w), p, count - 1);
    assert taken + ([w] + rest) == (taken + [w]) + rest;
  }

  /** `get_consistent_hash_values`: build a ring of the nodes, then take and
      remove the owner of `h` `replicas` times. */
  method GetConsistentHashValues(digest: string -> Digest, h: string, nodes: seq<string>, replicas: int)
    returns (ret: seq<string>)
    requires replicas <= |Distinct(nodes)|
    ensures ret == Placement(digest, h, nodes, replicas)
  {
    ret := [];
    var ring := BuildRing(digest, nodes);
    RingOfMembers(digest, nodes);
    ghost var p := Partition(digest, h);
    ghost var whole := Selection(ring.keyspace, p, Clamp(replicas));
    assert whole == Placement(digest, h, nodes, replicas);
    var i := 0;
    while i < replicas
      invariant 0 <= i <= Clamp(replicas)
      invariant ring.Valid() && ring.digest == digest
      invariant Clamp(replicas) - i <= |Members(ring.keyspace)|
      invariant ret + Selection(ring.keyspace, p, Clamp(replicas) - i) == whole
    {
      SelectionSplit(ret, ring.keyspace, p, Clamp(replicas) - i, whole);
      var node := ring.Hash(h);
      ret := ret + [node];
      ring.Remove(node);
      i := i + 1;
    }
    assert Selection(ring.keyspace, p, 0) == [];
    assert ret + [] == ret;
  }

  /** `get_regions`: the placement over the sorted region names. */
  function RegionPlacement(digest: string -> Digest, h: string, resources: map<string, seq<string>>, regionCount: int)
    : (regions: seq<string>)
    requires regionCount <= |resources.Keys|
    ensures |regions| == Clamp(regionCount)
    ensures forall i :: 0 <= i < |regions| ==> regions[i] in resources
    ensures forall i, j :: 0 <= i < j < |regions| ==> regions[i] != regions[j]
  {
    var names := SortedKeys(resources.Keys);
    assert Distinct(names) == resources.Keys;
    Placement(digest, h, names, regionCount)
  }

  method GetRegions(digest: string -> Digest, h: string, resources: map<string, seq<string>>, regionCount: int)
    returns (regions: seq<string>)
    requires regionCount <= |resources.Keys|
    ensures regions == RegionPlacement(digest, h, resources, regionCount)
  {
    var names := SortedKeys(resources.Keys);
    assert Distinct(names) == resources.Keys;
    regions := GetConsistentHashValues(digest, h, names, regionCount);
  }

  /** Every listed region exists and has enough distinct nodes. */
  predicate CanPlaceNodes(resources: map<string, seq<string>>, replicaCount: int, regions: seq<string>) {
    forall i :: 0 <= i < |regions| ==> regions[i] in resources && replicaCount <= |Distinct(resources[regions[i]])|
  }

  /** The blocks, one after another. */
  function Concat(parts: seq<seq<string>>): seq<string>
    decreases |parts|
  {
    if parts == [] then [] else Concat(parts[..|parts| - 1]) + parts[|parts| - 1]
  }

  lemma ConcatSnoc(parts: seq<seq<string>>, x: seq<string>)
    ensures Concat(parts + [x]) == Concat(parts) + x
  {
    assert (parts + [x])[..|parts|] == parts;
  }

  /** Where block k of `c`-long blocks starts: k blocks of `c`. */
  function Offset(k: nat, c: nat): nat {
    if k == 0 then 0 else Offset(k - 1, c) + c
  }

  lemma OffsetSucc(k: nat, c: nat)
    ensures Offset(k + 1, c) == Offset(k, c) + c
  {
  }

  lemma {:induction false} OffsetIsProduct(k: nat, c: nat)
    ensures Offset(k, c) == k * c
  {
    if k > 0 {
      OffsetIsProduct(k - 1, c);
      MulSucc(k - 1, c);
    }
  }

  lemma {:induction false} OffsetMonotone(a: nat, b: nat, c: nat)
    requires a <= b
    ensures Offset(a, c) <= Offset(b, c)
    decreases b - a
  {
    if a < b {
      OffsetMonotone(a + 1, b, c);
      OffsetSucc(a, c);
    }
  }

  /** Blocks all `c` long concatenate to `|parts|` blocks, and block k of the
      result is `parts[k]`. */
  lemma {:induction false} ConcatBlock(parts: seq<seq<string>>, c: nat, k: nat)
    requires forall i :: 0 <= i < |parts| ==> |parts[i]| == c
    requires k < |parts|
    ensures |Concat(parts)| == Offset(|parts|, c)
    ensures Offset(k, c) + c <= |Concat(parts)|
    ensures Concat(parts)[Offset(k, c)..Offset(k, c) + c] == parts[k]
    decreases |parts|
  {
    var n := |parts|;
    var init := parts[..n - 1];
    var front := Concat(init);
    OffsetSucc(n - 1, c);
    if n == 1 {
      assert front == [] by { assert init == []; }
      assert Offset(0, c) == 0;
    } else {
      var j := if k < n - 1 then k else 0;
      ConcatBlock(init, c, j);
    }
    assert |front| == Offset(n - 1, c);
    var o := Offset(k, c);
    if k == n - 1 {
      assert (front + parts[n - 1])[o..o + c] == parts[k];
    } else {
      OffsetSucc(k, c);
      OffsetMonotone(k + 1, n - 1, c);
      assert init[k] == parts[k];
      assert (front + parts[n - 1])[o..o + c] == front[o..o + c];
    }
  }

  /** The placement over the nodes of each listed region, in region order. */
  function RegionParts(digest: string -> Digest, h: string, resources: map<string, seq<string>>,
                       replicaCount: int, regions: seq<string>): (parts: seq<seq<string>>)
    requires CanPlaceNodes(resources, replicaCount, regions)
    ensures |parts| == |regions|
    ensures forall k :: 0 <= k < |regions| ==> parts[k] == Placement(digest, h, resources[regions[k]], replicaCount)
    ensures forall k :: 0 <= k < |regions| ==> |parts[k]| == Clamp(replicaCount)
  {
    seq(|regions|, k requires 0 <= k < |regions| => Placement(digest, h, resources[regions[k]], replicaCount))
  }

  lemma RegionPartsSnoc(digest: string -> Digest, h: string, resources: map<string, seq<string>>,
                        replicaCount: int, regions: seq<string>, k: nat)
    requires CanPlaceNodes(resources, replicaCount, regions) && k < |regions|
    ensures CanPlaceNodes(resources, replicaCount, regions[..k]) && CanPlaceNodes(resources, replicaCount, regions[..k + 1])
    ensures RegionParts(digest, h, resources, replicaCount, regions[..k + 1])
         == RegionParts(digest, h, resources, replicaCount, regions[..k])
          + [Placement(digest, h, resources[regions[k]], replicaCount)]
  {
    var a := RegionParts(digest, h, resources, replicaCount, regions[..k + 1]);
    var b := RegionParts(digest, h, resources, replicaCount, regions[..k]);
    var x := Placement(digest, h, resources[regions[k]], replicaCount);
    forall i | 0 <= i < k + 1 ensures a[i] == (b + [x])[i] {
      if i < k {
        assert regions[..k + 1][i] == regions[..k][i];
      }
    }
  }

  /** `get_nodes`: the per-region placements, concatenated in region order. */
  function NodePlacement(digest: string -> Digest, h: string, resources: map<string, seq<string>>,
                         replicaCount: int, regions: seq<string>): (nodes: seq<string>)
    requires CanPlaceNodes(resources, replicaCount, regions)
  {
    Concat(RegionParts(digest, h, resources, replicaCount, regions))
  }

  /** Every chosen region contributes a block of `replicaCount` nodes, and
      block k is the placement over the nodes of region k. */
  lemma NodePlacementBlock(digest: string -> Digest, h: string, resources: map<string, seq<string>>,
                           replicaCount: int, regions: seq<string>, k: nat)
    requires CanPlaceNodes(resources, replicaCount, regions) && k < |regions|
    ensures |NodePlacement(digest, h, resources, replicaCount, regions)| == Offset(|regions|, Clamp(replicaCount))
    ensures Offset(k, Clamp(replicaCount)) + Clamp(replicaCount)
         <= |NodePlacement(digest, h, resources, replicaCount, regions)|
    ensures NodePlacement(digest, h, resources, replicaCount, regions)
              [Offset(k, Clamp(replicaCount))..Offset(k, Clamp(replicaCount)) + Clamp(replicaCount)]
         == Placement(digest, h, resources[regions[k]], replicaCount)
  {
    ConcatBlock(RegionParts(digest, h, resources, replicaCount, regions), Clamp(replicaCount), k);
  }

  /** `get_nodes` returns `replicaCount` nodes for every chosen region. */
  lemma NodePlacementLength(digest: string -> Digest, h: string, resources: map<string, seq<string>>,
                            replicaCount: int, regions: seq<string>)
    requires CanPlaceNodes(resources, replicaCount, regions)
    ensures |NodePlacement(digest, h, resources, replicaCount, regions)| == |regions| * Clamp(replicaCount)
  {
    if regions != [] {
      NodePlacementBlock(digest, h, resources, replicaCount, regions, 0);
      OffsetIsProduct(|regions|, Clamp(replicaCount));
    }
  }

  /** `get_nodes`: one `get_consistent_hash_values` call per region. */
  method GetNodes(digest: string -> Digest, h: string, resources: map<string, seq<string>>,
                  replicaCount: int, regions: seq<string>)
    returns (selected: seq<string>)
    requires CanPlaceNodes(resources, replicaCount, regions)
    ensures selected == NodePlacement(digest, h, resources, replicaCount, regions)
  {
    selected := [];
    for k := 0 to |regions|
      invariant selected == Concat(RegionParts(digest, h, resources, replicaCount, regions[..k]))
    {
      var nodesInRegion := resources[regions[k]];
      var part := GetConsistentHashValues(digest, h, nodesInRegion, replicaCount);
      RegionPartsSnoc(digest, h, resources, replicaCount, regions, k);
      ConcatSnoc(RegionParts(digest, h, resources, replicaCount, regions[..k]), part);
      selected := selected + part;
    }
    assert regions[..|regions|] == regions;
  }
}
