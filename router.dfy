/** The request handler of the director (director/director.py:184-287): hash
    the object name, place it on regions and nodes, and answer a PUT or a GET
    with a redirect, a text body or nothing. The HTTP framework, the status
    probes and `random.choice` are parameters. */
module Director {
  import opened Digests
  import opened Decimal
  import opened Placement

  datatype Option<T> = None | Some(value: T)

  datatype HttpMethod = Get | Put

  /** Which of the query arguments `debug`, `nodes` and `info` are present. */
  datatype Flags = Flags(debug: bool, nodes: bool, info: bool)

  datatype Request = Request(verb: HttpMethod, flags: Flags, account: string, bucket: string, obj: string)

  /** The settings the handler reads: the region map loaded from the
      resources file, the two counts and the optional salt. */
  datatype Config = Config(resources: map<string, seq<string>>, replicaCount: int, regionCount: int,
                           salt: Option<string>)

  /** What the handler hands back to the framework. `Text` carries the body
      and the value of the header named `status`; `NoResponse` is a view that
      returns nothing. */
  datatype Response =
    | Redirect(code: int, location: string)
    | Text(body: string, statusHeader: string)
    | NoResponse

  // ---------------------------------------------------------------------
  // generate_hash (director/director.py:26-38)

  /** The one string that is digested: the salt, when configured, then the
      three names. */
  function HashInput(salt: Option<string>, account: string, bucket: string, obj: string): string {
    match salt
    case Some(s) => s + account + bucket + obj
    case None => account + bucket + obj
  }

  function GenerateHash(digest: string -> Digest, salt: Option<string>, account: string, bucket: string, obj: string)
    : Digest
  {
    digest(HashInput(salt, account, bucket, obj))
  }

  /** The hash sees only the concatenation: names that concatenate to the
      same string land on the same nodes. */
  lemma GenerateHashConcatenation(digest: string -> Digest, salt: Option<string>,
                                  a1: string, b1: string, o1: string, a2: string, b2: string, o2: string)
    requires a1 + b1 + o1 == a2 + b2 + o2
    ensures GenerateHash(digest, salt, a1, b1, o1) == GenerateHash(digest, salt, a2, b2, o2)
  {
    match salt
    case Some(s) =>
      assert s + a1 + b1 + o1 == s + (a1 + b1 + o1);
      assert s + a2 + b2 + o2 == s + (a2 + b2 + o2);
    case None =>
  }

  /** ("ab", "c", "d") and ("a", "bc", "d") hash identically. */
  lemma GenerateHashCollision(digest: string -> Digest, salt: Option<string>)
    ensures GenerateHash(digest, salt, "ab", "c", "d") == GenerateHash(digest, salt, "a", "bc", "d")
  {
    GenerateHashConcatenation(digest, salt, "ab", "c", "d", "a", "bc", "d");
  }

  /** A salt acts as a prefix of the account name, so an empty salt is no salt. */
  lemma GenerateHashSalt(digest: string -> Digest, s: string, account: string, bucket: string, obj: string)
    ensures GenerateHash(digest, Some(s), account, bucket, obj) == GenerateHash(digest, None, s + account, bucket, obj)
    ensures GenerateHash(digest, Some(""), account, bucket, obj) == GenerateHash(digest, None, account, bucket, obj)
  {
    assert s + account + bucket + obj == (s + account) + bucket + obj;
    assert "" + account == account;
  }

  // ---------------------------------------------------------------------
  // select_node (director/director.py:110-119)

  /** What `select_node` may return for a status map. */
  predicate SelectOutcome(status: map<string, int>, selected: Option<string>) {
    && (selected.Some? ==> selected.value in status && status[selected.value] == 200)
    && (selected.None? <==> forall n :: n in status ==> status[n] != 200)
  }

  /** Collect the nodes whose code is 200, in the map's iteration order, and
      pick one with the random index `pick`. */
  method SelectNode(status: map<string, int>, pick: nat) returns (selected: Option<string>)
    ensures selected.Some? ==> selected.value in status && status[selected.value] == 200
    ensures selected.None? <==> forall n :: n in status ==> status[n] != 200
  {
    var ok: seq<string> := [];
    var rest := status.Keys;
    while rest != {}
      invariant rest <= status.Keys
      invariant forall i :: 0 <= i < |ok| ==> ok[i] in status && status[ok[i]] == 200
      invariant forall n :: n in status && n !in rest && status[n] == 200 ==> n in ok
      decreases |rest|
    {
      var n :| n in rest;
      if status[n] == 200 {
        ok := ok + [n];
      }
      rest := rest - {n};
    }
    if |ok| > 0 {
      selected := Some(ok[pick % |ok|]);
    } else {
      selected := None;
    }
  }

  // ---------------------------------------------------------------------
  // object() (director/director.py:184-287)

  /** `"http://%s/%s/%s/%s" % (node, account, bucket, obj)`. */
  function ObjectUrl(node: string, account: string, bucket: string, obj: string): string {
    "http://" + node + "/" + account + "/" + bucket + "/" + obj
  }

  /** Every candidate has a status entry. */
  predicate Probed(nodes: seq<string>, status: map<string, int>) {
    forall i :: 0 <= i < |nodes| ==> nodes[i] in status
  }

  /** The listing of the `nodes` view: one `node [code]` line per candidate. */
  function NodeListing(nodes: seq<string>, status: map<string, int>): string
    requires Probed(nodes, status)
    decreases |nodes|
  {
    if nodes == [] then ""
    else NodeListing(nodes[..|nodes| - 1], status) + NodeLine(nodes[|nodes| - 1], status[nodes[|nodes| - 1]])
  }

  function NodeLine(node: string, code: int): string {
    node + " [" + IntToString(code) + "]\n"
  }

  lemma ProbedAppend(a: seq<string>, b: seq<string>, status: map<string, int>)
    requires Probed(a, status) && Probed(b, status)
    ensures Probed(a + b, status)
  {
    forall i | 0 <= i < |a + b| ensures (a + b)[i] in status {
      if i >= |a| {
        assert (a + b)[i] == b[i - |a|];
      }
    }
  }

  lemma NodeListingSnoc(a: seq<string>, init: seq<string>, last: string, status: map<string, int>)
    requires Probed(a + init + [last], status) && Probed(a + init, status) && last in status
    ensures NodeListing(a + init + [last], status) == NodeListing(a + init, status) + NodeLine(last, status[last])
  {
    var ab := a + init + [last];
    assert ab[..|ab| - 1] == a + init;
  }

  lemma Assoc(x: string, y: string, z: string)
    ensures (x + y) + z == x + (y + z)
  {
  }

  /** The listing of two candidate lists one after the other is the two
      listings one after the other. */
  lemma {:induction false} NodeListingAppend(a: seq<string>, b: seq<string>, status: map<string, int>)
    requires Probed(a, status) && Probed(b, status)
    ensures Probed(a + b, status)
    ensures NodeListing(a + b, status) == NodeListing(a, status) + NodeListing(b, status)
    decreases |b|
  {
    ProbedAppend(a, b, status);
    if b == [] {
      assert a + b == a;
    } else {
      var init, last := b[..|b| - 1], b[|b| - 1];
      assert b == init + [last];
      assert a + b == a + init + [last];
      assert Probed(init, status);
      assert last == b[|b| - 1];
      NodeListingAppend(a, init, status);
      NodeListingSnoc(a, init, last, status);
      Assoc(NodeListing(a, status), NodeListing(init, status), NodeLine(last, status[last]));
    }
  }

  lemma ProbedSlice(nodes: seq<string>, status: map<string, int>, i: nat, j: nat)
    requires Probed(nodes, status) && i <= j <= |nodes|
    ensures Probed(nodes[i..j], status)
  {
    forall t | 0 <= t < j - i ensures nodes[i..j][t] in status {
      assert nodes[i..j][t] == nodes[i + t];
    }
  }

  lemma SplitAt(nodes: seq<string>, k: nat)
    requires k < |nodes|
    ensures nodes == nodes[..k] + ([nodes[k]] + nodes[k + 1..])
  {
  }

  /** The listing holds one line per candidate, in candidate order. */
  lemma NodeListingLines(nodes: seq<string>, status: map<string, int>, k: nat)
    requires Probed(nodes, status)
    requires k < |nodes|
    ensures NodeListing(nodes, status)
         == NodeListing(nodes[..k], status) + NodeLine(nodes[k], status[nodes[k]]) + NodeListing(nodes[k + 1..], status)
  {
    var front, one, back := nodes[..k], [nodes[k]], nodes[k + 1..];
    ProbedSlice(nodes, status, 0, k);
    ProbedSlice(nodes, status, k, k + 1);
    ProbedSlice(nodes, status, k + 1, |nodes|);
    assert nodes[k..k + 1] == one && nodes[0..k] == front && nodes[k + 1..|nodes|] == back;
    assert NodeListing(one, status) == NodeLine(nodes[k], status[nodes[k]]) by {
      assert one[..0] == [];
    }
    NodeListingAppend(one, back, status);
    NodeListingAppend(front, one + back, status);
    SplitAt(nodes, k);
    Assoc(NodeListing(front, status), NodeListing(one, status), NodeListing(back, status));
  }

  /** The `info` view's `node = ...` lines. */
  function InfoNodeLines(nodes: seq<string>, status: map<string, int>): string
    requires Probed(nodes, status)
    decreases |nodes|
  {
    if nodes == [] then ""
    else
      var last := nodes[|nodes| - 1];
      InfoNodeLines(nodes[..|nodes| - 1], status) + "node = " + last + " [" + IntToString(status[last]) + "]\n"
  }

  /** The `info` view's `region = ...` lines. */
  function InfoRegionLines(regions: seq<string>): string
    decreases |regions|
  {
    if regions == [] then ""
    else InfoRegionLines(regions[..|regions| - 1]) + "region = " + regions[|regions| - 1] + "\n"
  }

  /** The body of the `info` view. */
  function InfoBody(req: Request, cfg: Config, h: string, regions: seq<string>, nodes: seq<string>,
                    status: map<string, int>, url: Option<string>): string
    requires Probed(nodes, status)
  {
    "account = " + req.account + "\n"
    + "bucket = " + req.bucket + "\n"
    + "object = " + req.obj + "\n"
    + "replicas_per_region = " + IntToString(cfg.replicaCount) + "\n"
    + "regions = " + IntToString(cfg.regionCount) + "\n"
    + "hash = " + h + "\n"
    + InfoNodeLines(nodes, status)
    + InfoRegionLines(regions)
    + (if url.Some? then "url = " + url.value + "\n" else "")
  }

  /** The URL of line 206: the candidate `random.choice` picks, when there is
      one. */
  function RandomUrl(req: Request, nodes: seq<string>, pick: nat): Option<string> {
    if |nodes| > 0 then Some(ObjectUrl(nodes[pick % |nodes|], req.account, req.bucket, req.obj)) else None
  }

  /** The URL after lines 234-237: a node `select_node` found healthy replaces
      the random one. An empty node name is false in Python and replaces
      nothing. */
  function GetUrl(req: Request, nodes: seq<string>, pick: nat, selected: Option<string>): Option<string> {
    if |nodes| > 0 && selected.Some? && selected.value != "" then
      Some(ObjectUrl(selected.value, req.account, req.bucket, req.obj))
    else RandomUrl(req, nodes, pick)
  }

  /** The decision of lines 204-287, given the hash, the chosen regions and
      nodes, the status of every node, the index `random.choice` picks at
      line 206 and what `select_node` returned. */
  function Respond(req: Request, cfg: Config, h: string, regions: seq<string>, nodes: seq<string>,
                   status: map<string, int>, pick: nat, selected: Option<string>): Response
    requires req.verb == Get ==> Probed(nodes, status)
  {
    match req.verb
    case Put =>
      var url := RandomUrl(req, nodes, pick);
      if url.Some? then Redirect(307, url.value) else NoResponse
    case Get =>
      var url := GetUrl(req, nodes, pick, selected);
      if req.flags.nodes then
        Text(NodeListing(nodes, status), if |nodes| > 0 then "200" else "404")
      else if req.flags.info then
        Text(InfoBody(req, cfg, h, regions, nodes, status, url), "200")
      else if url.Some? then
        if !req.flags.debug then Redirect(302, url.value) else NoResponse
      else
        Text("not found", "404")
  }

  /** A PUT with candidates is sent, with a 307, to the candidate picked at
      random; without candidates nothing is returned. */
  lemma PutOutcome(req: Request, cfg: Config, h: string, regions: seq<string>, nodes: seq<string>,
                   status: map<string, int>, pick: nat, selected: Option<string>)
    requires req.verb == Put
    ensures var resp := Respond(req, cfg, h, regions, nodes, status, pick, selected);
      && (|nodes| > 0 <==> resp.Redirect?)
      && (|nodes| > 0 ==> resp == Redirect(307, ObjectUrl(nodes[pick % |nodes|], req.account, req.bucket, req.obj))
                          && nodes[pick % |nodes|] in nodes)
      && (|nodes| == 0 ==> resp == NoResponse)
  {
  }

  /** With the `nodes` flag the listing wins over `info` and `debug`; its
      status is '200' exactly when there are candidates. */
  lemma NodesViewOutcome(req: Request, cfg: Config, h: string, regions: seq<string>, nodes: seq<string>,
                         status: map<string, int>, pick: nat, selected: Option<string>)
    requires Probed(nodes, status)
    requires req.verb == Get && req.flags.nodes
    ensures var resp := Respond(req, cfg, h, regions, nodes, status, pick, selected);
      && resp.Text?
      && resp.body == NodeListing(nodes, status)
      && (resp.statusHeader == "200" <==> |nodes| > 0)
      && (resp.statusHeader == "404" <==> |nodes| == 0)
      && (resp.body == "" <==> |nodes| == 0)
  {
    if |nodes| > 0 {
      NodeListingLines(nodes, status, 0);
    }
  }

  /** The `info` view always answers '200', and its body records the URL the
      plain GET would have redirected to. */
  lemma InfoViewOutcome(req: Request, cfg: Config, h: string, regions: seq<string>, nodes: seq<string>,
                        status: map<string, int>, pick: nat, selected: Option<string>)
    requires Probed(nodes, status)
    requires req.verb == Get && !req.flags.nodes && req.flags.info
    ensures var resp := Respond(req, cfg, h, regions, nodes, status, pick, selected);
      && resp.Text? && resp.statusHeader == "200"
      && resp.body == InfoBody(req, cfg, h, regions, nodes, status, GetUrl(req, nodes, pick, selected))
  {
  }

  /** A plain GET without `debug` and with candidates is a 302: to the healthy
      node `select_node` found, or else to the random candidate of line 206,
      even when no candidate is healthy. */
  lemma PlainGetRedirects(req: Request, cfg: Config, h: string, regions: seq<string>, nodes: seq<string>,
                          status: map<string, int>, pick: nat, selected: Option<string>)
    requires Probed(nodes, status)
    requires req.verb == Get && !req.flags.nodes && !req.flags.info && !req.flags.debug
    requires |nodes| > 0
    requires SelectOutcome(status, selected)
    ensures var resp := Respond(req, cfg, h, regions, nodes, status, pick, selected);
      && resp.Redirect? && resp.code == 302
      && (selected.Some? && selected.value != "" ==>
            resp.location == ObjectUrl(selected.value, req.account, req.bucket, req.obj) && status[selected.value] == 200)
      && ((forall n :: n in status ==> status[n] != 200) ==>
            resp.location == ObjectUrl(nodes[pick % |nodes|], req.account, req.bucket, req.obj))
  {
  }

  /** With `debug` the plain GET returns nothing where it would redirect. */
  lemma DebugSuppressesRedirect(req: Request, cfg: Config, h: string, regions: seq<string>, nodes: seq<string>,
                                status: map<string, int>, pick: nat, selected: Option<string>)
    requires Probed(nodes, status)
    requires req.verb == Get && !req.flags.nodes && !req.flags.info && req.flags.debug
    ensures var resp := Respond(req, cfg, h, regions, nodes, status, pick, selected);
      (|nodes| > 0 <==> resp == NoResponse)
  {
  }

  /** 'not found' is answered exactly when a plain GET has no candidates. */
  lemma NotFoundOutcome(req: Request, cfg: Config, h: string, regions: seq<string>, nodes: seq<string>,
                        status: map<string, int>, pick: nat, selected: Option<string>)
    requires Probed(nodes, status)
    ensures var resp := Respond(req, cfg, h, regions, nodes, status, pick, selected);
      resp == Text("not found", "404") <==> req.verb == Get && !req.flags.nodes && !req.flags.info && |nodes| == 0
  {
  }

  /** A '404' status, in any view, means there were no candidates. */
  lemma StatusNotFoundMeansNoCandidates(req: Request, cfg: Config, h: string, regions: seq<string>,
                                        nodes: seq<string>, status: map<string, int>, pick: nat,
                                        selected: Option<string>)
    requires req.verb == Get ==> Probed(nodes, status)
    ensures var resp := Respond(req, cfg, h, regions, nodes, status, pick, selected);
      resp.Text? && resp.statusHeader == "404" ==> |nodes| == 0
  {
  }

  /** What every probed node answered: `query_storage_nodes` asks each
      candidate once and keys the answers by node. */
  function StatusMap(nodes: seq<string>, probe: string -> int): (status: map<string, int>)
    ensures status.Keys == Distinct(nodes)
    ensures forall n :: n in status ==> status[n] == probe(n)
    ensures Probed(nodes, status)
  {
    map n | n in nodes :: probe(n)
  }

  /** What `object()` needs of its configuration: the region count is at most
      the number of regions, and every chosen region has enough distinct
      nodes (otherwise the ring empties and the lookup divides by zero). */
  predicate CanServe(digest: string -> Digest, cfg: Config, req: Request) {
    && cfg.regionCount <= |cfg.resources.Keys|
    && CanPlaceNodes(cfg.resources, cfg.replicaCount,
                     RegionPlacement(digest, GenerateHash(digest, cfg.salt, req.account, req.bucket, req.obj),
                                     cfg.resources, cfg.regionCount))
  }

  /** `object()`: the whole handler. `probe(n)` is the code node `n` reports
      for the object; `pick` and `okPick` are the indices the two
      `random.choice` calls draw. */
  method Object(digest: string -> Digest, cfg: Config, req: Request, probe: string -> int, pick: nat, okPick: nat)
    returns (resp: Response)
    requires CanServe(digest, cfg, req)
    ensures var h := GenerateHash(digest, cfg.salt, req.account, req.bucket, req.obj);
      var regions := RegionPlacement(digest, h, cfg.resources, cfg.regionCount);
      var nodes := NodePlacement(digest, h, cfg.resources, cfg.replicaCount, regions);
      var status := if req.verb == Get then StatusMap(nodes, probe) else map[];
      exists selected :: (req.verb == Get && |nodes| > 0 ==> SelectOutcome(status, selected))
                         && resp == Respond(req, cfg, h, regions, nodes, status, pick, selected)
  {
    var h := GenerateHash(digest, cfg.salt, req.account, req.bucket, req.obj);
    var regions := GetRegions(digest, h, cfg.resources, cfg.regionCount);
    var nodes := GetNodes(digest, h, cfg.resources, cfg.replicaCount, regions);
    var status: map<string, int> := map[];
    var selected: Option<string> := None;
    if req.verb == Get {
      status := StatusMap(nodes, probe);
      if |nodes| > 0 {
        selected := SelectNode(status, okPick);
      }
    }
    resp := Respond(req, cfg, h, regions, nodes, status, pick, selected);
    assert (req.verb == Get && |nodes| > 0 ==> SelectOutcome(status, selected))
        && resp == Respond(req, cfg, h, regions, nodes, status, pick, selected);
  }
}
