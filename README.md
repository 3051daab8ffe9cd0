# Director placement core, in Dafny

The director of this object store decides which storage node holds an object.
It does not store anything itself. For a request `/<account>/<bucket>/<obj>`
it works in five steps:

1. It hashes the three names, with an optional salt (`generate_hash`).
2. It picks `region_count` regions. To do this it builds a consistent-hash ring
   over the sorted region names (`get_regions`).
3. In each chosen region it picks `replica_count` nodes from a ring of that
   region's nodes (`get_nodes`, `get_consistent_hash_values`).
4. A PUT is then redirected with a 307 to a randomly chosen candidate.
5. A GET probes the candidates, prefers one that answers 200 (`select_node`)
   and redirects there with a 302. The query flags `nodes`, `info` and `debug`
   turn the answer into a text listing, a text report, or nothing.

The ring itself is the class `ConsistentHash`:

- `keyspace` is a list of `(partition key, member)` points, sorted as Python
  sorts tuples.
- `add` inserts 200 points per member with `bisect.insort`.
- `remove` filters the member's points out.
- `hash(key)` answers with the member of the last point whose key is strictly
  below the key's partition value. When no point is below, it wraps round to
  the last point.

The project has one Dafny module per concern:

- `Ordering` (`ordering.dfy`): Python's order on strings and on ring points,
  `bisect.insort` and `sorted` over the region names.
- `Digests` and `Decimal` (`digests.dfy`): the hex-prefix parse of a SHA-1
  digest, and decimal printing of integers.
- `ConsistentHashRing` (`consistent_hash.dfy`): the ring. It is a `class`
  whose `keyspace` field `Add` and `Remove` update in place. The functions on
  point sequences specify it.
- `Placement` (`placement.dfy`): the selection loops of
  `get_consistent_hash_values`, `get_regions` and `get_nodes`. Each is a
  method proved equal to a specification function, together with lemmas
  about that function.
- `Director` (`router.dfy`): `generate_hash`, `select_node`, and the
  decision of `object()` as a pure function `Respond`. The method `Object`
  runs the whole handler.

### Parameters in place of outside code

- **SHA-1.** It is a parameter `digest: string -> Digest`. A `Digest` is any
  string of forty lower-case hex digits. The same function serves
  `partition` and `generate_hash`, because both use SHA-1.
- **`random.choice`.** Each call becomes an index parameter, reduced modulo
  the list length.
- **The probes of the storage nodes.** They are a parameter
  `probe: string -> int`. For a GET the status map is built from it by
  `StatusMap`; a PUT probes nothing.
- **Order of the `ok` list in `select_node`.** Python's dict iteration order
  is modelled by a choice (`:|`) in the loop that builds the list.

### Where the code differs from the intuitive reading

The model follows the code in each of these cases:

- **Ownership.** A key belongs to the point below it, not to the next point
  clockwise. A key equal to a point's partition value belongs to the point
  before that one. Take points 10, 50 and 90 owned by A, B and C. Then key 95
  goes to C, key 5 to C, key 55 to B and key 10 to C (not A). `OwnerExamples`
  proves exactly these.
- **PUT without candidates.** The handler returns no response.
- **GET in normal mode with `debug`.** When there is a URL, it returns no
  response.
- **GET when no candidate answers 200.** It still redirects, to the random
  candidate drawn before any probe.
- **The "404".** It is the value of a header named `status`.

## Model

| member | source | states |
|---|---|---|
| ConsistentHashRing.Partition | director/ConsistentHash.py:13-15 | the partition value of any string is below 2^64, since it is the value of the first sixteen hex digits of its digest |
| Digests.HexValueOfToHex | director/ConsistentHash.py:15 | reading the `width` hex digits of a number below 16^width gives back that number |
| Digests.ToHexOfHexValue | director/ConsistentHash.py:15 | writing the value of a hex string back out in as many digits gives back the string, so the parse loses nothing |
| Decimal.DecimalValueOfNatToString | director/ConsistentHash.py:19 | the decimal text of the point index reads back as that index |
| Decimal.NatToStringInjective | director/ConsistentHash.py:19 | different point indices print differently |
| ConsistentHashRing.PointLabelsDistinct | director/ConsistentHash.py:17-19 | the labels `member.i` of one member's points are pairwise different |
| ConsistentHashRing.VirtualPoints | director/ConsistentHash.py:17-20 | `add` inserts exactly D points, all tagged with the member added |
| Ordering.Insort | director/ConsistentHash.py:20 | `bisect.insort` adds exactly the one point to the ring's contents |
| Ordering.InsortSorted | director/ConsistentHash.py:20 | `bisect.insort` keeps the ring in ascending (key, member) order |
| ConsistentHashRing.AddPoints | director/ConsistentHash.py:17-20 | the ring after `add` holds the old points plus the member's D points, as a multiset |
| ConsistentHashRing.AddPointsSorted | director/ConsistentHash.py:17-20 | inserting any points one by one into a sorted ring leaves it sorted |
| ConsistentHashRing.MembersAdd | director/ConsistentHash.py:17-20 | after `add(m)` with D > 0 the members are the old members plus m |
| ConsistentHashRing.ConsistentHash.constructor | director/ConsistentHash.py:9-11 | a new ring is empty and keeps its D |
| ConsistentHashRing.ConsistentHash.Add | director/ConsistentHash.py:17-20 | the loop of D insorts leaves the keyspace sorted and equal to the old keyspace with the member's points added |
| ConsistentHashRing.WithoutMemberContents | director/ConsistentHash.py:22-23 | after `remove(m)` no point of m is left, and every other point occurs exactly as often as before |
| ConsistentHashRing.WithoutMemberSorted | director/ConsistentHash.py:22-23 | filtering a sorted ring leaves it sorted |
| ConsistentHashRing.WithoutMemberAppend | director/ConsistentHash.py:22-23 | the filter works point by point over a concatenation, so the survivors keep their relative order |
| ConsistentHashRing.MembersWithout | director/ConsistentHash.py:22-23 | after `remove(m)` the members are the old members without m |
| ConsistentHashRing.ConsistentHash.Remove | director/ConsistentHash.py:22-23 | the keyspace becomes the filtered keyspace and stays sorted |
| ConsistentHashRing.ConsistentHash.MemberAt | director/ConsistentHash.py:25-26 | `ring[i]` on a non-empty ring is the member of point i for an index in range, the member of the last point for -1, and always a member of the ring |
| ConsistentHashRing.LastBelow | director/ConsistentHash.py:28-31 | the index found has a key strictly below p and every later point has a key of at least p, or no point is below p |
| ConsistentHashRing.BisectLeft | director/ConsistentHash.py:30 | `bisect_left` for (p, None) passes exactly the leading points with a key below p |
| ConsistentHashRing.BisectLeftIsAfterLastBelow | director/ConsistentHash.py:28-31 | on a sorted ring the point before the bisection index is the last point below p (and -1 when none is) |
| ConsistentHashRing.OwnerMember | director/ConsistentHash.py:28-31 | the owner of a key on a non-empty ring is a member of the ring |
| ConsistentHashRing.OwnerIsLastPointBelow | director/ConsistentHash.py:28-31 | the owner is the member of the last point whose key is strictly below p |
| ConsistentHashRing.OwnerWrapsToLastPoint | director/ConsistentHash.py:28-31 | when no key is below p, the owner is the member of the last point |
| ConsistentHashRing.ConsistentHash.Hash | director/ConsistentHash.py:28-31 | `hash(key)` on a sorted non-empty ring is the owner of the key's partition value |
| ConsistentHashRing.OwnerExamples | director/ConsistentHash.py:28-31 | on points 10/A, 50/B, 90/C, keys 95, 5 and 10 go to C, 55 to B, 11 and 50 to A: an exact match goes to the point before |
| ConsistentHashRing.LastBelowSurvives | director/ConsistentHash.py:22-31 | removing a member other than the one of the last point below p keeps that point the last point below p |
| ConsistentHashRing.RemovalKeepsOtherOwners | director/ConsistentHash.py:22-31 | removing a member X leaves the ring non-empty and changes the owner of no key whose owner was not X |
| Ordering.SortedUnique | director/director.py:60-61 | two sorted rings with the same points are the same sequence |
| Placement.RingOfSorted | director/director.py:57-61 | the ring built from any node list is sorted |
| Placement.RingOfMembers | director/director.py:57-61 | the members of the built ring are the distinct nodes |
| Placement.RingOfCount | director/director.py:57-61 | how often a point is on the built ring depends only on how often its member is in the node list |
| Placement.RingOfPermutation | director/director.py:60-61 | node lists that are permutations of each other build the same ring |
| Placement.BuildRing | director/director.py:57-61 | the first loop leaves a fresh, sorted ring equal to the ring of the node list |
| Placement.Selection | director/director.py:63-66 | the selection loop yields `count` pairwise distinct members of the keyspace |
| Placement.SelectionStep | director/director.py:63-66 | one turn takes the owner and removes exactly one member |
| Placement.SelectionPrefix | director/director.py:63-66 | asking for one more replica only appends one |
| Placement.SelectionElement | director/director.py:63-66 | replica j is the owner of the hash on the keyspace without replicas 0..j-1 |
| Placement.Placement | director/director.py:55-68 | the result has `replicas` entries (none for a negative count), pairwise distinct, all from the node list; it needs at most as many replicas as distinct nodes |
| Placement.PlacementOrderIndependent | director/director.py:60-61 | the placement does not depend on the order of the node list |
| Placement.PlacementPrefix | director/director.py:63-66 | the placement for r replicas is a prefix of the placement for r + 1 |
| Placement.RingOfWithout | director/director.py:57-65 | `ring.remove(m)` on the ring of a node list gives exactly the ring built from that list without m |
| Placement.RingOfWithoutAll | director/director.py:57-66 | removing members one after another from the ring of a node list gives the ring built from the list without them |
| Placement.PlacementElement | director/director.py:63-66 | element j is the owner of the hash on the ring built from the nodes minus elements 0..j-1 |
| Placement.GetConsistentHashValues | director/director.py:55-68 | the method (ring object, two loops) returns exactly the placement |
| Ordering.SortedKeys | director/director.py:41 | `sorted(resources)` lists every region name once, in strictly ascending order |
| Placement.RegionPlacement | director/director.py:40-42 | `get_regions` yields `region_count` pairwise distinct region names, all keys of `resources` |
| Placement.GetRegions | director/director.py:40-42 | the method returns exactly the region placement |
| Placement.NodePlacementBlock | director/director.py:44-52 | the node list is made of one `replica_count` block per region, and block k is the placement over the nodes of region k |
| Placement.NodePlacementLength | director/director.py:44-52 | `get_nodes` returns `len(regions) * replica_count` nodes, so `[]` for no regions |
| Placement.GetNodes | director/director.py:44-52 | the accumulating loop returns exactly the concatenated per-region placements |
| Director.GenerateHashConcatenation | director/director.py:26-38 | names whose concatenations agree hash identically, with or without a salt |
| Director.GenerateHashCollision | director/director.py:26-38 | ("ab", "c", "d") and ("a", "bc", "d") hash identically |
| Director.GenerateHashSalt | director/director.py:32-35 | a salt acts as a prefix of the account name; an empty salt is no salt |
| Director.SelectNode | director/director.py:110-119 | the node returned has code 200, and None is returned exactly when no node has code 200 |
| Director.NodeListingAppend | director/director.py:239-242 | the `nodes` listing of two lists in a row is the two listings in a row |
| Director.NodeListingLines | director/director.py:239-242 | the listing holds one `node [code]` line per candidate, in candidate order |
| Director.PutOutcome | director/director.py:204-225 | a PUT with candidates is a 307 to the randomly picked candidate; without candidates there is no response |
| Director.NodesViewOutcome | director/director.py:239-252 | with `nodes` set, a GET answers the listing whatever `info` and `debug` say; the status is "200" exactly when there are candidates, and "404" with an empty body otherwise |
| Director.InfoViewOutcome | director/director.py:254-277 | with only `info` set, a GET answers "200" with the report, whose URL line is the URL a plain GET would use |
| Director.PlainGetRedirects | director/director.py:231-281 | without flags and with candidates, a GET is a 302 to the healthy node found, or to the random candidate when none answers 200 |
| Director.DebugSuppressesRedirect | director/director.py:278-281 | with only `debug` set, a GET returns no response exactly when there are candidates |
| Director.NotFoundOutcome | director/director.py:278-287 | "not found" with status "404" is answered exactly to a plain GET without candidates |
| Director.StatusNotFoundMeansNoCandidates | director/director.py:239-287 | a "404" status in any view means there were no candidates |
| Director.Object | director/director.py:184-287 | the handler hashes, places regions and nodes, probes the candidates only for a GET, and answers what `Respond` decides for some outcome `select_node` may produce |

## Left out

- `query_storage_nodes`, and the probes `get_node_status` and `get_object_status_on_node`, are not modelled. They use threads, a queue and HTTP requests with timeouts. Their result is the parameter `probe`, and `StatusMap` builds the map `query_storage_nodes` returns. The parameter is total, so every candidate answers with some code. In the source only an HTTP error is caught (director/director.py:99-104); a refused connection or a time-out ends the probing thread before it puts its answer, and `q.get()` at director/director.py:76 then waits for ever, so the GET never answers. `PlainGetRedirects`' fallback to the random candidate when none answers 200 holds only when every candidate answers with an HTTP status.
- `before_request` and `after_request` are not modelled. They load the resources file, time the request and write process-wide settings. The flags and settings are the `Request` and `Config` values.
- SHA-1 is a parameter, not an implementation.
- Names are byte strings. The model takes every name as a sequence of characters. A region or node name that the YAML file gives as a unicode string with non-ASCII characters makes `str(arg)` raise at director/ConsistentHash.py:14; the model does not capture that error.
- `secure_filename` is not modelled. Account, bucket and object names are taken as they arrive at the hash.
- `random.choice` is an index parameter, reduced modulo the length of the list.
- The storage server and the two server bootstrap files are not part of this model.
- HTTP framing is not modelled: the `content-type` and `elapsed` headers, and what the framework does with a view that returns nothing.
- Director.Object: requires every chosen region to have at least `replica_count` distinct nodes, and `region_count` to be at most the number of regions. Otherwise the source's ring empties and `i % len(keyspace)` divides by zero. The model states the crash as a precondition rather than modelling it.
- ConsistentHashRing.ConsistentHash.Hash: requires a non-empty keyspace, because the source divides by zero on an empty ring.
- Integer widths: Python integers are unbounded, and so are the model's.
