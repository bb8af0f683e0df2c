/**
 The state that `FederationNode` keeps in step, and its operations one at a
 time: the membership table, the hot manifest cache and the durable manifest
 store.  The class in `FederationNode.dfy` runs these steps in place.
 */
module NodeState {
  import opened Options
  import opened Signing
  import opened Models
  import opened Dicts
  import opened Admission
  import opened Membership
  import opened Refresh
  import opened Discovery
  import opened Requests

  datatype Node = Node(table: Table, cache: map<string, Manifest>, store: Option<Dict<Manifest>>)

  /** The dictionaries are dictionaries: what every state of the class satisfies. */
  ghost predicate Shaped(n: Node) {
    WellFormed(n.table) && (n.store.Some? ==> WellFormed(n.store.value))
  }

  // ---------- steps ----------

  /** _remember_manifest */
  function Remember(n: Node, m: Manifest): Node {
    n.(cache := n.cache[m.nodeId := m],
       store := if n.store.Some? then Some(Put(n.store.value, m.nodeId, m)) else None)
  }

  /** _forget_manifest */
  function Forget(n: Node, id: string): Node {
    n.(cache := n.cache - {id}, store := if n.store.Some? then Some(Remove(n.store.value, id)) else None)
  }

  /** The dict comprehension of hydrate, over the stored manifests. */
  function KeyedById(manifests: seq<Manifest>): map<string, Manifest> {
    if manifests == [] then map[]
    else
      var last := manifests[|manifests| - 1];
      KeyedById(manifests[..|manifests| - 1])[last.nodeId := last]
  }

  /** hydrate */
  function Hydrated(n: Node): Node
    requires Shaped(n)
  {
    if n.store.Some? && n.cache == map[] then n.(cache := KeyedById(Values(n.store.value))) else n
  }

  predicate IsRevoked(n: Node, id: string) {
    id in n.table.items && n.table.items[id].state == Revoked
  }

  /** _record_peer */
  function Recorded(n: Node, m: Manifest, url: string, now: int): Node {
    if IsRevoked(n, m.nodeId) then n
    else
      var r := Remember(n, m);
      r.(table := Put(r.table, m.nodeId, FreshRecord(m.nodeId, url, m.orgId, m.revision, now)))
  }

  /** `manifest_url or manifest.manifest_url`: an empty string counts as absent on the left only. */
  function ResolvedUrl(given: Option<string>, m: Manifest): Option<string> {
    if given.Some? && given.value != "" then given else m.manifestUrl
  }

  /** admit_peer, once the local policy has decided */
  function PeerAdmitted(n: Node, m: Manifest, url: Option<string>, accepted: bool, now: int): Node {
    if accepted && ResolvedUrl(url, m).Some? then Recorded(n, m, ResolvedUrl(url, m).value, now) else n
  }

  datatype Seed = Seed(manifest: Manifest, url: string)

  /** The recording loop of bootstrap_from_seeds. */
  function Bootstrapped(n: Node, seeds: seq<Seed>, now: int): Node {
    if seeds == [] then n
    else
      var last := seeds[|seeds| - 1];
      Recorded(Bootstrapped(n, seeds[..|seeds| - 1], now), last.manifest, last.url, now)
  }

  function RememberAll(n: Node, outcomes: seq<Outcome>): Node {
    if outcomes == [] then n
    else
      var rest := RememberAll(n, outcomes[..|outcomes| - 1]);
      var last := outcomes[|outcomes| - 1];
      if last.manifest.Some? then Remember(rest, last.manifest.value) else rest
  }

  /** discover */
  function Discovered(n: Node, net: Network, selfId: string, perPeerCap: int, now: int): Node
    requires Shaped(n)
  {
    var scan := Discover(Scope(net, selfId, n.cache, perPeerCap, now), n.table);
    RememberAll(n.(table := scan.table), scan.accepted)
  }

  /** _apply_refresh_decision */
  function Decided(n: Node, id: string, d: RefreshDecision, now: int): Node {
    var rec := Get(n.table, id);
    if Keeps(d) && d.manifest.Some? then
      var r := Remember(n, d.manifest.value);
      if rec.None? then r
      else r.(table := Put(r.table, id, Admitted(rec.value.(manifestRevision := d.manifest.value.revision), None, now)))
    else if d.action == Quarantine then
      if rec.None? then n else n.(table := Put(n.table, id, WithState(rec.value, StaleManifest, now)))
    else if d.action == Reject then
      var t := if rec.None? then n.table else Put(n.table, id, WithState(rec.value, Rejected, now));
      Forget(n.(table := t), id)
    else n
  }

  const UNKNOWN_PEER := RefreshDecision(Reject, "unknown_peer", None, None, None, None)

  /** refresh_peer; an exception leaves the state alone. */
  function PeerRefreshed(c: Crypto, n: Node, id: string, fetched: FetchResult, policy: KeyContinuityPolicy, now: int):
    (Node, RefreshResult)
  {
    if id !in n.table.items || id !in n.cache then (n, RefreshResult.Decided(UNKNOWN_PEER))
    else
      var r := Decide(c, n.cache[id], fetched, policy);
      (if r.Decided? then Decided(n, id, r.decision, now) else n, r)
  }

  /** The first loop of refresh_all: peers without a manifest are rejected at once, the others become targets. */
  datatype Sweep = Sweep(node: Node, decisions: Dict<RefreshDecision>, targets: seq<Manifest>)

  function SweepOne(s: Sweep, peer: Member, now: int): Sweep {
    if peer.nodeId in s.node.cache then s.(targets := s.targets + [s.node.cache[peer.nodeId]])
    else
      s.(decisions := Put(s.decisions, peer.nodeId, UNKNOWN_PEER),
         node := Decided(s.node, peer.nodeId, UNKNOWN_PEER, now))
  }

  function Swept(n: Node, peers: seq<Member>, now: int): Sweep {
    if peers == [] then Sweep(n, Empty(), [])
    else SweepOne(Swept(n, peers[..|peers| - 1], now), peers[|peers| - 1], now)
  }

  /** How refresh_all decides about a target, each fetched by its own call. */
  function Decider(c: Crypto, fetch: string -> FetchResult, policy: KeyContinuityPolicy): Manifest -> RefreshResult {
    (m: Manifest) => Decide(c, m, fetch(m.nodeId), policy)
  }

  /** The decisions of refresh_all with those on the targets added; None when one of the refreshes raises. */
  function AddDecisions(ds: Dict<RefreshDecision>, targets: seq<Manifest>, decide: Manifest -> RefreshResult):
    Option<Dict<RefreshDecision>>
  {
    if targets == [] then Some(ds)
    else
      var rest, last := AddDecisions(ds, targets[..|targets| - 1], decide), targets[|targets| - 1];
      if rest.Some? && decide(last).Decided? then Some(Put(rest.value, last.nodeId, decide(last).decision)) else None
  }

  /** The second loop of refresh_all, over the given keys. */
  function DecidedAll(n: Node, ds: Dict<RefreshDecision>, keys: seq<string>, now: int): Node {
    if keys == [] then n
    else
      var k := keys[|keys| - 1];
      var rest := DecidedAll(n, ds, keys[..|keys| - 1], now);
      if k in ds.items then Decided(rest, k, ds.items[k], now) else rest
  }

  /** refresh_all; None for the decisions when an exception comes through. */
  function AllRefreshed(c: Crypto, n: Node, fetch: string -> FetchResult, policy: KeyContinuityPolicy, now: int):
    (Node, Option<Dict<RefreshDecision>>)
    requires Shaped(n)
  {
    var s := Swept(n, EligiblePeers(n.table, now), now);
    var ds := AddDecisions(s.decisions, s.targets, Decider(c, fetch, policy));
    if ds.Some? then (DecidedAll(s.node, ds.value, ds.value.order, now), ds) else (s.node, None)
  }

  /** What a revocation is given. */
  datatype Revocation = Revocation(
    notice: RevocationNotice,
    verify: NoticeVerifier,
    federationId: string,
    trusted: map<string, Jwk>,
    authorize: Authorize)

  /** apply_revocation_notice of the node */
  function NoticeApplied(n: Node, r: Revocation, now: int): (Node, Option<PeerState>) {
    var (state, table) := ApplyNotice(r.verify, n.table, r.notice, r.federationId, r.trusted, r.authorize, now);
    var n' := n.(table := table);
    (if state == Some(Revoked) then Forget(n', r.notice.revokedNodeId) else n', state)
  }

  /** verify_known_inbound */
  function KnownInbound(c: Crypto, n: Node, sourceId: string, nonces: Cache, header: Header, http: Inbound,
                        checkedAt: int, claimedAt: int): (PeerResult, Cache) {
    if sourceId !in n.cache then (Unauthorized("unknown_peer"), nonces)
    else PeerStep(c, nonces, header, n.cache[sourceId], http, checkedAt, claimedAt)
  }

  /** select_peers */
  function Selected(n: Node, now: int): seq<Manifest>
    requires Shaped(n)
  {
    Cached(n.cache, EligiblePeers(n.table, now))
  }

  function Cached(cache: map<string, Manifest>, peers: seq<Member>): seq<Manifest> {
    if peers == [] then []
    else
      var last := peers[|peers| - 1];
      Cached(cache, peers[..|peers| - 1]) + if last.nodeId in cache then [cache[last.nodeId]] else []
  }

  // ---------- the invariant ----------

  /** What is known durably: the store where there is one, else the cache. */
  function Known(n: Node): map<string, Manifest> {
    if n.store.Some? then n.store.value.items else n.cache
  }

  predicate Barred(m: Member) {
    m.state == Revoked || m.state == Rejected
  }

  ghost predicate KeyedByOwnId(manifests: map<string, Manifest>) {
    forall k :: k in manifests ==> manifests[k].nodeId == k
  }

  /** Records and manifests are kept under their own node ids. */
  ghost predicate Keyed(n: Node) {
    && Shaped(n)
    && (forall k :: k in n.table.items ==> n.table.items[k].nodeId == k)
    && KeyedByOwnId(n.cache) && (n.store.Some? ==> KeyedByOwnId(n.store.value.items))
  }

  ghost predicate Inv(n: Node) {
    && Keyed(n)
    && (forall k :: k in n.cache ==> k in Known(n) && Known(n)[k] == n.cache[k])
    && (forall k :: k in n.table.items && k in Known(n) ==>
          !Barred(n.table.items[k]) && n.table.items[k].manifestRevision == Known(n)[k].revision)
  }

  // ---------- how steps act on single peers ----------

  /** Everything the state holds about one peer. */
  datatype Slice = Slice(record: Option<Member>, cached: Option<Manifest>, stored: Option<Manifest>)

  function About(n: Node, id: string): Slice {
    Slice(Get(n.table, id), if id in n.cache then Some(n.cache[id]) else None,
          if n.store.Some? then Get(n.store.value, id) else None)
  }

  lemma RememberActs(n: Node, m: Manifest)
    requires Shaped(n)
    ensures Shaped(Remember(n, m)) && Remember(n, m).table == n.table
    ensures Known(Remember(n, m)) == Known(n)[m.nodeId := m]
    ensures forall k :: k != m.nodeId ==> About(Remember(n, m), k) == About(n, k)
    ensures About(Remember(n, m), m.nodeId) ==
            About(n, m.nodeId).(cached := Some(m), stored := if n.store.Some? then Some(m) else None)
  {
    if n.store.Some? {
      PutWellFormed(n.store.value, m.nodeId, m);
    }
  }

  lemma ForgetActs(n: Node, id: string)
    requires Shaped(n)
    ensures Shaped(Forget(n, id)) && Forget(n, id).table == n.table
    ensures Known(Forget(n, id)) == Known(n) - {id}
    ensures forall k :: k != id ==> About(Forget(n, id), k) == About(n, k)
    ensures About(Forget(n, id), id) == About(n, id).(cached := None, stored := None)
  {
    if n.store.Some? {
      RemoveWellFormed(n.store.value, id);
    }
  }

  lemma TablePutActs(n: Node, id: string, m: Member)
    requires Shaped(n)
    ensures var n' := n.(table := Put(n.table, id, m));
      && Shaped(n') && About(n', id) == About(n, id).(record := Some(m))
      && forall k :: k != id ==> About(n', k) == About(n, k)
  {
    PutWellFormed(n.table, id, m);
  }

  /** Recording a peer replaces everything held about it, unless it is revoked; no other peer is touched. */
  lemma RecordedActs(n: Node, m: Manifest, url: string, now: int)
    requires Shaped(n)
    ensures Shaped(Recorded(n, m, url, now))
    ensures forall k :: k != m.nodeId ==> About(Recorded(n, m, url, now), k) == About(n, k)
    ensures About(Recorded(n, m, url, now), m.nodeId) ==
      if IsRevoked(n, m.nodeId) then About(n, m.nodeId)
      else Slice(Some(Member(m.nodeId, url, Some(m.orgId), m.revision, Active, None, None, 0, Some(now))), Some(m),
                 if n.store.Some? then Some(m) else None)
  {
    if !IsRevoked(n, m.nodeId) {
      RememberActs(n, m);
      TablePutActs(Remember(n, m), m.nodeId, FreshRecord(m.nodeId, url, m.orgId, m.revision, now));
    }
  }

  /** The URL an admitted peer goes by: the one given unless it is empty, else the one in its manifest. */
  predicate GoesBy(given: Option<string>, m: Manifest, url: string) {
    (given == Some(url) && url != "") || (given in {None, Some("")} && m.manifestUrl == Some(url))
  }

  /** Admitting a peer records it under that URL; refused, without a URL, or revoked it leaves the node as it was. */
  lemma PeerAdmittedActs(n: Node, m: Manifest, given: Option<string>, accepted: bool, url: string, now: int)
    requires Shaped(n)
    ensures var after := PeerAdmitted(n, m, given, accepted, now);
      && (accepted && GoesBy(given, m, url) && !IsRevoked(n, m.nodeId) ==>
            About(after, m.nodeId) ==
              Slice(Some(Member(m.nodeId, url, Some(m.orgId), m.revision, Active, None, None, 0, Some(now))), Some(m),
                    if n.store.Some? then Some(m) else None) &&
            forall k :: k != m.nodeId ==> About(after, k) == About(n, k))
      && (!accepted || IsRevoked(n, m.nodeId) || (given in {None, Some("")} && m.manifestUrl.None?) ==> after == n)
  {
    if accepted && GoesBy(given, m, url) {
      RecordedActs(n, m, url, now);
    }
  }

  lemma RecordedKeepsInv(n: Node, m: Manifest, url: string, now: int)
    requires Inv(n)
    ensures Inv(Recorded(n, m, url, now))
  {
    if !IsRevoked(n, m.nodeId) {
      RememberActs(n, m);
      PutWellFormed(n.table, m.nodeId, FreshRecord(m.nodeId, url, m.orgId, m.revision, now));
    }
  }

  /** A decision acts on its own peer alone, by what is held about that peer. */
  function DecidedSlice(s: Slice, d: RefreshDecision, stored: bool, now: int): Slice {
    if Keeps(d) && d.manifest.Some? then
      Slice(if s.record.None? then None
            else Some(Admitted(s.record.value.(manifestRevision := d.manifest.value.revision), None, now)),
            d.manifest, if stored then d.manifest else None)
    else if d.action == Quarantine then
      s.(record := if s.record.None? then None else Some(WithState(s.record.value, StaleManifest, now)))
    else if d.action == Reject then
      Slice(if s.record.None? then None else Some(WithState(s.record.value, Rejected, now)), None, None)
    else s
  }

  /** A decision that hands over a manifest hands over the peer's own. */
  predicate ForPeer(d: RefreshDecision, id: string) {
    Keeps(d) && d.manifest.Some? ==> d.manifest.value.nodeId == id
  }

  lemma DecidedActs(n: Node, id: string, d: RefreshDecision, now: int)
    requires Shaped(n) && ForPeer(d, id)
    ensures Shaped(Decided(n, id, d, now)) && Decided(n, id, d, now).store.Some? == n.store.Some?
    ensures About(Decided(n, id, d, now), id) == DecidedSlice(About(n, id), d, n.store.Some?, now)
    ensures forall k :: k != id ==> About(Decided(n, id, d, now), k) == About(n, k)
  {
    var rec := Get(n.table, id);
    if Keeps(d) && d.manifest.Some? {
      RememberActs(n, d.manifest.value);
      if rec.Some? {
        TablePutActs(Remember(n, d.manifest.value), id,
                     Admitted(rec.value.(manifestRevision := d.manifest.value.revision), None, now));
      }
    } else if d.action == Quarantine {
      if rec.Some? {
        TablePutActs(n, id, WithState(rec.value, StaleManifest, now));
      }
    } else if d.action == Reject {
      if rec.Some? {
        TablePutActs(n, id, WithState(rec.value, Rejected, now));
        ForgetActs(n.(table := Put(n.table, id, WithState(rec.value, Rejected, now))), id);
      } else {
        ForgetActs(n, id);
      }
    }
  }

  /** What each kind of decision makes of a peer's record and manifests. */
  lemma DecidedLeaves(n: Node, id: string, d: RefreshDecision, now: int)
    requires Shaped(n) && ForPeer(d, id) && id in n.table.items
    ensures var before, after, rec := About(n, id), About(Decided(n, id, d, now), id), n.table.items[id];
      && ((d.action == Accept || d.action == Unchanged) && d.manifest.Some? ==>
            && after.cached == d.manifest && after.stored == (if n.store.Some? then d.manifest else None)
            && after.record == Some(Member(rec.nodeId, rec.manifestUrl, rec.orgId, d.manifest.value.revision, Active,
                                           None, None, 0, Some(now))))
      && (d.action == Quarantine ==>
            after == before.(record := Some(rec.(state := StaleManifest, lastRefresh := Some(now)))))
      && (d.action == Reject ==>
            after == Slice(Some(rec.(state := Rejected, lastRefresh := Some(now))), None, None))
  {
    DecidedActs(n, id, d, now);
  }

  /** The invariant, peer by peer. */
  predicate SliceOk(s: Slice, stored: bool, id: string) {
    && (s.record.Some? ==> s.record.value.nodeId == id)
    && (stored && s.cached.Some? ==> s.stored == s.cached)
    && (!stored ==> s.stored.None?)
    && var known := if stored then s.stored else s.cached;
       known.Some? ==>
         known.value.nodeId == id &&
         (s.record.Some? ==> !Barred(s.record.value) && s.record.value.manifestRevision == known.value.revision)
  }

  lemma InvBySlices(n: Node)
    requires Shaped(n)
    ensures Inv(n) <==> forall k :: SliceOk(About(n, k), n.store.Some?, k)
  {
    if Inv(n) {
      forall k ensures SliceOk(About(n, k), n.store.Some?, k) {
      }
    }
    if forall k :: SliceOk(About(n, k), n.store.Some?, k) {
      forall k | k in n.table.items ensures n.table.items[k].nodeId == k {
        assert SliceOk(About(n, k), n.store.Some?, k);
      }
      forall k | k in Known(n) ensures Known(n)[k].nodeId == k {
        assert SliceOk(About(n, k), n.store.Some?, k);
      }
      assert n.store.Some? ==> n.store.value.items == Known(n);
      forall k | k in n.cache ensures k in Known(n) && Known(n)[k] == n.cache[k] && n.cache[k].nodeId == k {
        assert SliceOk(About(n, k), n.store.Some?, k);
      }
      forall k | k in n.table.items && k in Known(n)
        ensures !Barred(n.table.items[k]) && n.table.items[k].manifestRevision == Known(n)[k].revision
      {
        assert SliceOk(About(n, k), n.store.Some?, k);
      }
    }
  }
}
