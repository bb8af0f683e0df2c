/**
 Whole runs of node operations: one invariant kept by each, revocation that no
 later operation undoes, and a refresh of all peers that is a refresh of each.
 */
module NodeRuns {
  import opened Options
  import opened Base64Url
  import opened Signing
  import opened Models
  import opened Dicts
  import opened Admission
  import opened Membership
  import opened Refresh
  import opened Discovery
  import opened Requests
  import opened NodeState

  // ---------- operations ----------

  datatype Op =
    | Hydrate
    | AdmitPeer(manifest: Manifest, url: Option<string>, accepted: bool, now: int)
    | Bootstrap(seeds: seq<Seed>, now: int)
    | DiscoverPeers(net: Network, selfId: string, perPeerCap: int, now: int)
    | RefreshPeer(id: string, fetched: FetchResult, policy: KeyContinuityPolicy, now: int)
    | RefreshAll(fetch: string -> FetchResult, policy: KeyContinuityPolicy, now: int)
    | Revoke(revocation: Revocation, now: int)

  function Perform(c: Crypto, n: Node, op: Op): Node
    requires Shaped(n)
  {
    match op
    case Hydrate => Hydrated(n)
    case AdmitPeer(m, url, accepted, now) => PeerAdmitted(n, m, url, accepted, now)
    case Bootstrap(seeds, now) => Bootstrapped(n, seeds, now)
    case DiscoverPeers(net, selfId, cap, now) => Discovered(n, net, selfId, cap, now)
    case RefreshPeer(id, fetched, policy, now) => PeerRefreshed(c, n, id, fetched, policy, now).0
    case RefreshAll(fetch, policy, now) => AllRefreshed(c, n, fetch, policy, now).0
    case Revoke(r, now) => NoticeApplied(n, r, now).0
  }

  // ---------- hydration ----------

  lemma {:induction false} KeyedByIdIs(manifests: seq<Manifest>)
    ensures forall k :: k in KeyedById(manifests) <==> exists i :: 0 <= i < |manifests| && manifests[i].nodeId == k
    ensures forall k :: k in KeyedById(manifests) ==>
              KeyedById(manifests)[k].nodeId == k && KeyedById(manifests)[k] in manifests
  {
    if manifests != [] {
      var n := |manifests| - 1;
      KeyedByIdIs(manifests[..n]);
      forall k ensures k in KeyedById(manifests) <==> exists i :: 0 <= i < |manifests| && manifests[i].nodeId == k {
        if k in KeyedById(manifests[..n]) {
          var i :| 0 <= i < n && manifests[..n][i].nodeId == k;
          assert manifests[i].nodeId == k;
        }
        if i :| 0 <= i < n && manifests[i].nodeId == k {
          assert manifests[..n][i].nodeId == k;
        }
        assert manifests[n].nodeId in KeyedById(manifests);
      }
    }
  }

  lemma KeyedValues(store: Dict<Manifest>)
    requires WellFormed(store) && KeyedByOwnId(store.items)
    ensures KeyedById(Values(store)) == store.items
  {
    var vs := Values(store);
    KeyedByIdIs(vs);
    forall i | 0 <= i < |vs| ensures vs[i].nodeId == store.order[i] && vs[i] == store.items[store.order[i]] {
      assert store.order[i] in store.order;
    }
    forall k | k in store.items ensures k in KeyedById(vs) {
      assert k in store.order;
      var i :| 0 <= i < |store.order| && store.order[i] == k;
      assert vs[i].nodeId == k;
    }
    forall k | k in KeyedById(vs) ensures k in store.items && KeyedById(vs)[k] == store.items[k] {
      var i :| 0 <= i < |vs| && vs[i] == KeyedById(vs)[k];
      assert store.order[i] in store.order;
    }
  }

  /** Hydration of an empty cache from a consistent store makes the cache the store; else it changes nothing. */
  lemma HydratedCache(n: Node)
    requires Inv(n)
    ensures n.store.Some? && n.cache == map[] ==> Hydrated(n) == n.(cache := n.store.value.items)
    ensures n.store.None? || n.cache != map[] ==> Hydrated(n) == n
    ensures Inv(Hydrated(n))
  {
    if n.store.Some? && n.cache == map[] {
      KeyedValues(n.store.value);
    }
  }

  // ---------- bootstrap and discovery ----------

  lemma {:induction false} BootstrappedKeeps(n: Node, seeds: seq<Seed>, now: int)
    requires Inv(n)
    ensures Inv(Bootstrapped(n, seeds, now))
    ensures forall id :: IsRevoked(n, id) ==> About(Bootstrapped(n, seeds, now), id) == About(n, id)
  {
    if seeds != [] {
      var k := |seeds| - 1;
      BootstrappedKeeps(n, seeds[..k], now);
      var mid := Bootstrapped(n, seeds[..k], now);
      RecordedKeepsInv(mid, seeds[k].manifest, seeds[k].url, now);
      RecordedActs(mid, seeds[k].manifest, seeds[k].url, now);
      forall id | IsRevoked(n, id) ensures About(Bootstrapped(n, seeds, now), id) == About(n, id) {
        RevokedBySlice(n, mid, id);
      }
    }
  }

  /** The last seed of a node. */
  predicate IsLastSeed(seeds: seq<Seed>, i: nat, id: string) {
    i < |seeds| && seeds[i].manifest.nodeId == id && forall j :: i < j < |seeds| ==> seeds[j].manifest.nodeId != id
  }

  lemma {:induction false} BootstrapRevokesNone(n: Node, seeds: seq<Seed>, now: int, id: string)
    ensures IsRevoked(Bootstrapped(n, seeds, now), id) <==> IsRevoked(n, id)
  {
    if seeds != [] {
      BootstrapRevokesNone(n, seeds[..|seeds| - 1], now, id);
    }
  }

  lemma {:induction false} BootstrapShapes(n: Node, seeds: seq<Seed>, now: int)
    requires Shaped(n)
    ensures Shaped(Bootstrapped(n, seeds, now)) && Bootstrapped(n, seeds, now).store.Some? == n.store.Some?
  {
    if seeds != [] {
      var k := |seeds| - 1;
      BootstrapShapes(n, seeds[..k], now);
      RecordedActs(Bootstrapped(n, seeds[..k], now), seeds[k].manifest, seeds[k].url, now);
    }
  }

  lemma {:induction false} BootstrapLeaves(n: Node, seeds: seq<Seed>, now: int, id: string)
    requires Shaped(n)
    requires IsRevoked(n, id) || forall i :: 0 <= i < |seeds| ==> seeds[i].manifest.nodeId != id
    ensures About(Bootstrapped(n, seeds, now), id) == About(n, id)
  {
    if seeds != [] {
      var k := |seeds| - 1;
      BootstrapLeaves(n, seeds[..k], now, id);
      BootstrapShapes(n, seeds[..k], now);
      BootstrapRevokesNone(n, seeds[..k], now, id);
      RecordedActs(Bootstrapped(n, seeds[..k], now), seeds[k].manifest, seeds[k].url, now);
    }
  }

  function Seeded(seed: Seed, stored: bool, now: int): Slice {
    var m := seed.manifest;
    Slice(Some(Member(m.nodeId, seed.url, Some(m.orgId), m.revision, Active, None, None, 0, Some(now))), Some(m),
          if stored then Some(m) else None)
  }

  lemma {:induction false} BootstrapRecords(n: Node, seeds: seq<Seed>, now: int, i: nat)
    requires Shaped(n) && i < |seeds| && IsLastSeed(seeds, i, seeds[i].manifest.nodeId)
    requires !IsRevoked(n, seeds[i].manifest.nodeId)
    ensures About(Bootstrapped(n, seeds, now), seeds[i].manifest.nodeId) == Seeded(seeds[i], n.store.Some?, now)
  {
    var k := |seeds| - 1;
    BootstrapShapes(n, seeds[..k], now);
    BootstrapRevokesNone(n, seeds[..k], now, seeds[i].manifest.nodeId);
    RecordedActs(Bootstrapped(n, seeds[..k], now), seeds[k].manifest, seeds[k].url, now);
    if i < k {
      BootstrapRecords(n, seeds[..k], now, i);
    }
  }

  /** Recording seeds leaves of each peer what its last seed says, unless it is revoked or none names it. */
  lemma BootstrappedActs(n: Node, seeds: seq<Seed>, now: int, id: string)
    requires Shaped(n)
    ensures Shaped(Bootstrapped(n, seeds, now)) && Bootstrapped(n, seeds, now).store.Some? == n.store.Some?
    ensures IsRevoked(n, id) ==> About(Bootstrapped(n, seeds, now), id) == About(n, id)
    ensures forall i: nat :: !IsRevoked(n, id) && IsLastSeed(seeds, i, id) ==>
              About(Bootstrapped(n, seeds, now), id) == Seeded(seeds[i], n.store.Some?, now)
    ensures (forall i :: 0 <= i < |seeds| ==> seeds[i].manifest.nodeId != id) ==>
              About(Bootstrapped(n, seeds, now), id) == About(n, id)
  {
    BootstrapShapes(n, seeds, now);
    if IsRevoked(n, id) || forall i :: 0 <= i < |seeds| ==> seeds[i].manifest.nodeId != id {
      BootstrapLeaves(n, seeds, now, id);
    }
    forall i: nat | !IsRevoked(n, id) && IsLastSeed(seeds, i, id)
      ensures About(Bootstrapped(n, seeds, now), id) == Seeded(seeds[i], n.store.Some?, now)
    {
      BootstrapRecords(n, seeds, now, i);
    }
  }

  lemma RevokedBySlice(a: Node, b: Node, id: string)
    requires About(a, id).record == About(b, id).record
    ensures IsRevoked(a, id) <==> IsRevoked(b, id)
  {
  }

  /** Each outcome with a manifest of the node it is about. */
  ghost predicate OwnManifests(outcomes: seq<Outcome>) {
    NoDuplicates(Ids(outcomes)) &&
    forall i :: 0 <= i < |outcomes| ==> OwnManifest(outcomes[i])
  }

  predicate OwnManifest(o: Outcome) {
    o.manifest.Some? && o.manifest.value.nodeId == o.nodeId
  }

  function Holding(s: Slice, m: Option<Manifest>, stored: bool): Slice {
    s.(cached := m, stored := if stored then m else None)
  }

  /** A state in which the manifests of the outcomes, and no others, were remembered. */
  ghost predicate RememberedIn(n: Node, r: Node, outcomes: seq<Outcome>) {
    && Shaped(r) && r.table == n.table && r.store.Some? == n.store.Some?
    && (forall k :: k !in Ids(outcomes) ==> About(r, k) == About(n, k))
    && (forall i :: 0 <= i < |outcomes| ==>
          About(r, outcomes[i].nodeId) == Holding(About(n, outcomes[i].nodeId), outcomes[i].manifest, n.store.Some?))
  }

  lemma RememberSnoc(n: Node, r: Node, outcomes: seq<Outcome>, o: Outcome)
    requires RememberedIn(n, r, outcomes) && OwnManifest(o) && o.nodeId !in Ids(outcomes)
    ensures RememberedIn(n, Remember(r, o.manifest.value), outcomes + [o])
  {
    RememberActs(r, o.manifest.value);
    assert Ids(outcomes + [o]) == Ids(outcomes) + [o.nodeId];
    forall i | 0 <= i < |outcomes| ensures outcomes[i].nodeId != o.nodeId {
      assert Ids(outcomes)[i] == outcomes[i].nodeId;
    }
  }

  lemma {:induction false} RememberAllActs(n: Node, outcomes: seq<Outcome>)
    requires Shaped(n) && OwnManifests(outcomes)
    ensures RememberedIn(n, RememberAll(n, outcomes), outcomes)
  {
    if outcomes != [] {
      var last := |outcomes| - 1;
      var rest := outcomes[..last];
      assert Ids(rest) == Ids(outcomes)[..last] && Ids(outcomes)[last] == outcomes[last].nodeId;
      RememberAllActs(n, rest);
      RememberSnoc(n, RememberAll(n, rest), rest, outcomes[last]);
      assert outcomes == rest + [outcomes[last]];
    }
  }

  /** The table and the outcomes of the scan, and the manifests remembered on top of it. */
  lemma DiscoveredRemembers(n: Node, net: Network, selfId: string, cap: int, now: int)
    requires Shaped(n)
    ensures var sc := Scope(net, selfId, n.cache, cap, now);
      var scan := Discover(sc, n.table);
      && TableSafe(sc, n.table, scan)
      && (forall k :: k in scan.table.items && k !in n.table.items <==> k in Ids(scan.accepted))
      && RememberedIn(n.(table := scan.table), Discovered(n, net, selfId, cap, now), scan.accepted)
  {
    var sc := Scope(net, selfId, n.cache, cap, now);
    DiscoveryKeepsTableSafe(sc, n.table);
    var scan := Discover(sc, n.table);
    forall i | 0 <= i < |scan.accepted| ensures OwnManifest(scan.accepted[i]) {
      assert Vouched(sc, n.table, scan.table, scan.accepted[i]);
    }
    RememberAllActs(n.(table := scan.table), scan.accepted);
  }

  /** What discovery holds about a peer that it accepted. */
  ghost predicate HeldAsFound(net: Network, selfId: string, now: int, before: Slice, after: Slice, stored: bool,
                              k: string) {
    && before.record.None? && after.record.Some? && after.cached.Some?
    && var m, rec := after.cached.value, after.record.value;
       && rec == Member(k, rec.manifestUrl, Some(m.orgId), m.revision, Active, None, None, 0, Some(now))
       && m.nodeId == k && k != selfId
       && net.fetch(rec.manifestUrl) == Fetched(m) && net.admits(m).accepted
       && after.stored == if stored then Some(m) else None
  }

  lemma DiscoveredLeaves(n: Node, net: Network, selfId: string, cap: int, now: int, k: string)
    requires Shaped(n) && k !in Ids(Discover(Scope(net, selfId, n.cache, cap, now), n.table).accepted)
    ensures About(Discovered(n, net, selfId, cap, now), k) == About(n, k)
  {
    DiscoveredRemembers(n, net, selfId, cap, now);
    var scan := Discover(Scope(net, selfId, n.cache, cap, now), n.table);
    assert k in scan.table.items <==> k in n.table.items;
    assert About(n.(table := scan.table), k) == About(n, k);
  }

  lemma DiscoveredHolds(n: Node, net: Network, selfId: string, cap: int, now: int, k: string)
    requires Shaped(n) && k in Ids(Discover(Scope(net, selfId, n.cache, cap, now), n.table).accepted)
    ensures HeldAsFound(net, selfId, now, About(n, k), About(Discovered(n, net, selfId, cap, now), k), n.store.Some?, k)
  {
    DiscoveredRemembers(n, net, selfId, cap, now);
    var sc := Scope(net, selfId, n.cache, cap, now);
    var scan := Discover(sc, n.table);
    var i :| 0 <= i < |Ids(scan.accepted)| && Ids(scan.accepted)[i] == k;
    assert scan.accepted[i].nodeId == k && Vouched(sc, n.table, scan.table, scan.accepted[i]);
  }

  /**
   Discovery leaves everything held about the peers it did not accept, and of
   those it accepted it holds the manifest it fetched with a record to match.
   */
  lemma DiscoveredActs(n: Node, net: Network, selfId: string, cap: int, now: int)
    requires Shaped(n)
    ensures var scan := Discover(Scope(net, selfId, n.cache, cap, now), n.table);
      var r := Discovered(n, net, selfId, cap, now);
      && Shaped(r) && r.store.Some? == n.store.Some?
      && (forall k :: k !in Ids(scan.accepted) ==> About(r, k) == About(n, k))
      && (forall k :: k in Ids(scan.accepted) ==>
            HeldAsFound(net, selfId, now, About(n, k), About(r, k), n.store.Some?, k))
  {
    DiscoveredRemembers(n, net, selfId, cap, now);
    var accepted := Discover(Scope(net, selfId, n.cache, cap, now), n.table).accepted;
    forall k | k !in Ids(accepted) ensures About(Discovered(n, net, selfId, cap, now), k) == About(n, k) {
      DiscoveredLeaves(n, net, selfId, cap, now, k);
    }
    forall k | k in Ids(accepted)
      ensures HeldAsFound(net, selfId, now, About(n, k), About(Discovered(n, net, selfId, cap, now), k),
                          n.store.Some?, k)
    {
      DiscoveredHolds(n, net, selfId, cap, now, k);
    }
  }

  // ---------- refresh ----------

  lemma DecidedSliceOk(s: Slice, d: RefreshDecision, stored: bool, id: string, now: int)
    requires SliceOk(s, stored, id) && ForPeer(d, id)
    ensures SliceOk(DecidedSlice(s, d, stored, now), stored, id)
    ensures s.record.Some? && s.record.value.state != Revoked ==>
              DecidedSlice(s, d, stored, now).record.value.state != Revoked
  {
  }

  /** What a refresh decides about a held manifest concerns that manifest's node. */
  lemma DecisionForPeer(c: Crypto, current: Manifest, fetched: FetchResult, policy: KeyContinuityPolicy)
    ensures Decide(c, current, fetched, policy).Decided? ==>
              ForPeer(Decide(c, current, fetched, policy).decision, current.nodeId)
  {
    DecidesExactly(c, current, fetched, policy);
  }

  lemma PeerRefreshedActs(c: Crypto, n: Node, id: string, fetched: FetchResult, policy: KeyContinuityPolicy, now: int)
    requires Keyed(n)
    ensures var (r, result) := PeerRefreshed(c, n, id, fetched, policy, now);
      && Shaped(r) && r.store.Some? == n.store.Some?
      && (forall k :: k != id ==> About(r, k) == About(n, k))
      && (id !in n.table.items || id !in n.cache || result.Raised? ==> r == n)
      && (id !in n.table.items || id !in n.cache ==>
            result == RefreshResult.Decided(RefreshDecision(Reject, "unknown_peer", None, None, None, None)))
      && (id in n.table.items && id in n.cache ==>
            result == Decide(c, n.cache[id], fetched, policy) &&
            (result.Decided? ==> ForPeer(result.decision, id) &&
                                 About(r, id) == DecidedSlice(About(n, id), result.decision, n.store.Some?, now)))
  {
    if id in n.table.items && id in n.cache {
      DecisionForPeer(c, n.cache[id], fetched, policy);
      var r := Decide(c, n.cache[id], fetched, policy);
      if r.Decided? {
        DecidedActs(n, id, r.decision, now);
      }
    }
  }

  function MemberIds(peers: seq<Member>): seq<string> {
    seq(|peers|, i requires 0 <= i < |peers| => peers[i].nodeId)
  }

  lemma {:induction false} FilterIds(s: seq<Member>, keep: Member -> bool)
    requires NoDuplicates(MemberIds(s))
    ensures NoDuplicates(MemberIds(Filter(s, keep)))
    ensures forall k :: k in MemberIds(Filter(s, keep)) ==> k in MemberIds(s)
  {
    if s != [] {
      var n := |s| - 1;
      MemberIdsSnoc(s);
      FilterIds(s[..n], keep);
      var kept := Filter(s[..n], keep);
      if keep(s[n]) {
        assert MemberIds(kept + [s[n]]) == MemberIds(kept) + [s[n].nodeId];
        SnocNoDuplicates(MemberIds(kept), s[n].nodeId);
      } else {
        assert kept + [] == kept;
      }
    }
  }

  /** The eligible peers are the eligible records of the table, each once. */
  lemma EligibleIds(t: Table, now: int)
    requires WellFormed(t) && forall k :: k in t.items ==> t.items[k].nodeId == k
    ensures NoDuplicates(MemberIds(EligiblePeers(t, now)))
    ensures forall k :: k in MemberIds(EligiblePeers(t, now)) <==> k in t.items && IsEligible(t.items[k], now)
    ensures forall m :: m in EligiblePeers(t, now) ==> m.nodeId in t.items && t.items[m.nodeId] == m
  {
    var vs, keep := Values(t), EligibleAt(now);
    var es := EligiblePeers(t, now);
    forall i | 0 <= i < |vs| ensures MemberIds(vs)[i] == t.order[i] {
      assert t.order[i] in t.order;
    }
    assert MemberIds(vs) == t.order;
    FilterIds(vs, keep);
    FilterMembers(vs, keep);
    forall m | m in es ensures m.nodeId in t.items && t.items[m.nodeId] == m && IsEligible(m, now) {
      var i :| 0 <= i < |vs| && vs[i] == m;
      assert t.order[i] in t.order;
    }
    forall k ensures k in MemberIds(es) <==> k in t.items && IsEligible(t.items[k], now) {
      if k in MemberIds(es) {
        var i :| 0 <= i < |es| && MemberIds(es)[i] == k;
        assert es[i] in es;
      }
      if k in t.items && IsEligible(t.items[k], now) {
        assert k in t.order;
        var i :| 0 <= i < |t.order| && t.order[i] == k;
        assert vs[i] in vs && keep(vs[i]) && vs[i] in es;
        var j :| 0 <= j < |es| && es[j] == vs[i];
        assert MemberIds(es)[j] == k;
      }
    }
  }

  function ManifestIds(ms: seq<Manifest>): seq<string> {
    seq(|ms|, i requires 0 <= i < |ms| => ms[i].nodeId)
  }

  /** Where the first loop of refresh_all stands after some of the eligible peers. */
  ghost predicate SweepOf(n: Node, s: Sweep, peers: seq<Member>, now: int) {
    && Shaped(s.node) && s.node.store.Some? == n.store.Some? && WellFormed(s.decisions)
    && NoDuplicates(ManifestIds(s.targets))
    && (forall k :: k in s.decisions.items <==> k in MemberIds(peers) && k !in n.cache)
    && (forall k :: k in s.decisions.items ==> s.decisions.items[k] == UNKNOWN_PEER)
    && (forall k :: k in ManifestIds(s.targets) <==> k in MemberIds(peers) && k in n.cache)
    && (forall i :: 0 <= i < |s.targets| ==>
        s.targets[i].nodeId in n.cache && s.targets[i] == n.cache[s.targets[i].nodeId])
    && (forall k :: About(s.node, k) ==
                    if k in s.decisions.items then DecidedSlice(About(n, k), UNKNOWN_PEER, n.store.Some?, now)
                        else About(n, k))
  }

  /** A peer not swept yet is as it was. */
  lemma SweepLeaves(n: Node, s: Sweep, rest: seq<Member>, id: string, now: int)
    requires Keyed(n) && SweepOf(n, s, rest, now) && id !in MemberIds(rest)
    ensures About(s.node, id) == About(n, id) && id !in s.decisions.items && id !in ManifestIds(s.targets)
    ensures id in n.cache ==> id in s.node.cache && s.node.cache[id] == n.cache[id] && n.cache[id].nodeId == id
    ensures id !in n.cache ==> id !in s.node.cache
  {
    assert About(s.node, id).cached == About(n, id).cached;
  }

  lemma SweepHit(n: Node, s: Sweep, rest: seq<Member>, peer: Member, now: int)
    requires Keyed(n) && SweepOf(n, s, rest, now) && peer.nodeId !in MemberIds(rest) && peer.nodeId in n.cache
    ensures SweepOf(n, SweepOne(s, peer, now), rest + [peer], now)
  {
    var id := peer.nodeId;
    SweepLeaves(n, s, rest, id, now);
    assert MemberIds(rest + [peer]) == MemberIds(rest) + [id];
    assert ManifestIds(s.targets + [n.cache[id]]) == ManifestIds(s.targets) + [id];
    SnocNoDuplicates(ManifestIds(s.targets), id);
  }

  lemma SweepMiss(n: Node, s: Sweep, rest: seq<Member>, peer: Member, now: int)
    requires Keyed(n) && SweepOf(n, s, rest, now) && peer.nodeId !in MemberIds(rest) && peer.nodeId !in n.cache
    ensures SweepOf(n, SweepOne(s, peer, now), rest + [peer], now)
  {
    var id := peer.nodeId;
    SweepLeaves(n, s, rest, id, now);
    assert MemberIds(rest + [peer]) == MemberIds(rest) + [id];
    DecidedActs(s.node, id, UNKNOWN_PEER, now);
    PutWellFormed(s.decisions, id, UNKNOWN_PEER);
  }

  lemma {:induction false} SweptActs(n: Node, peers: seq<Member>, now: int)
    requires Keyed(n) && NoDuplicates(MemberIds(peers))
    ensures SweepOf(n, Swept(n, peers, now), peers, now)
  {
    if peers == [] {
      assert ManifestIds([]) == [];
    } else {
      var rest, peer := peers[..|peers| - 1], peers[|peers| - 1];
      MemberIdsSnoc(peers);
      SweptActs(n, rest, now);
      assert peers == rest + [peer];
      if peer.nodeId in n.cache {
        SweepHit(n, Swept(n, rest, now), rest, peer, now);
      } else {
        SweepMiss(n, Swept(n, rest, now), rest, peer, now);
      }
    }
  }

  lemma MemberIdsSnoc(peers: seq<Member>)
    requires peers != [] && NoDuplicates(MemberIds(peers))
    ensures var rest, peer := peers[..|peers| - 1], peers[|peers| - 1];
      NoDuplicates(MemberIds(rest)) && MemberIds(peers) == MemberIds(rest) + [peer.nodeId] &&
          peer.nodeId !in MemberIds(rest)
  {
    var last := |peers| - 1;
    assert MemberIds(peers) == MemberIds(peers[..last]) + [peers[last].nodeId];
    assert MemberIds(peers[..last]) == MemberIds(peers)[..last];
    assert MemberIds(peers)[last] == peers[last].nodeId;
  }

  /** The decisions on all targets, or none when one of them raises. */
  ghost predicate DecisionsOn(ds: Dict<RefreshDecision>, targets: seq<Manifest>, decide: Manifest -> RefreshResult,
                              all: Dict<RefreshDecision>) {
    && WellFormed(all)
    && (forall k :: k in all.items <==> k in ds.items || k in ManifestIds(targets))
    && (forall k :: k in ds.items ==> all.items[k] == ds.items[k])
    && (forall i :: 0 <= i < |targets| ==> DecidedAs(all, targets[i], decide))
  }

  ghost predicate DecidedAs(all: Dict<RefreshDecision>, m: Manifest, decide: Manifest -> RefreshResult) {
    m.nodeId in all.items && decide(m) == RefreshResult.Decided(all.items[m.nodeId])
  }

  lemma AddOneDecision(ds: Dict<RefreshDecision>, rest: seq<Manifest>, m: Manifest, decide: Manifest -> RefreshResult,
                       before: Dict<RefreshDecision>)
    requires DecisionsOn(ds, rest, decide, before) && decide(m).Decided?
    requires m.nodeId !in ds.items && m.nodeId !in ManifestIds(rest)
    ensures DecisionsOn(ds, rest + [m], decide, Put(before, m.nodeId, decide(m).decision))
  {
    var all := Put(before, m.nodeId, decide(m).decision);
    PutWellFormed(before, m.nodeId, decide(m).decision);
    assert ManifestIds(rest + [m]) == ManifestIds(rest) + [m.nodeId];
    forall i | 0 <= i < |rest| ensures DecidedAs(all, rest[i], decide) {
      assert ManifestIds(rest)[i] == rest[i].nodeId && DecidedAs(before, rest[i], decide);
    }
  }

  lemma ManifestIdsSnoc(ms: seq<Manifest>)
    requires ms != [] && NoDuplicates(ManifestIds(ms))
    ensures var rest, m := ms[..|ms| - 1], ms[|ms| - 1];
      NoDuplicates(ManifestIds(rest)) && ManifestIds(ms) == ManifestIds(rest) + [m.nodeId] &&
          m.nodeId !in ManifestIds(rest)
  {
    var last := |ms| - 1;
    assert ManifestIds(ms) == ManifestIds(ms[..last]) + [ms[last].nodeId];
    assert ManifestIds(ms[..last]) == ManifestIds(ms)[..last];
    assert ManifestIds(ms)[last] == ms[last].nodeId;
  }

  lemma {:induction false} AllDecided(ds: Dict<RefreshDecision>, targets: seq<Manifest>,
                                      decide: Manifest -> RefreshResult)
    ensures AddDecisions(ds, targets, decide).Some? <==> forall i :: 0 <= i < |targets| ==> decide(targets[i]).Decided?
  {
    if targets != [] {
      var last := |targets| - 1;
      AllDecided(ds, targets[..last], decide);
      assert forall i :: 0 <= i < last ==> targets[..last][i] == targets[i];
    }
  }

  ghost predicate Undecided(ds: Dict<RefreshDecision>, targets: seq<Manifest>) {
    NoDuplicates(ManifestIds(targets)) && forall k :: k in ManifestIds(targets) ==> k !in ds.items
  }

  lemma UndecidedSnoc(ds: Dict<RefreshDecision>, targets: seq<Manifest>)
    requires targets != [] && Undecided(ds, targets)
    ensures var rest, m := targets[..|targets| - 1], targets[|targets| - 1];
      Undecided(ds, rest) && m.nodeId !in ds.items && m.nodeId !in ManifestIds(rest) && targets == rest + [m]
  {
    ManifestIdsSnoc(targets);
  }

  lemma {:induction false} AddDecisionsActs(ds: Dict<RefreshDecision>, targets: seq<Manifest>,
                                            decide: Manifest -> RefreshResult)
    requires WellFormed(ds) && Undecided(ds, targets) && AddDecisions(ds, targets, decide).Some?
    ensures DecisionsOn(ds, targets, decide, AddDecisions(ds, targets, decide).value)
  {
    if targets == [] {
      assert ManifestIds(targets) == [];
    } else {
      var last := |targets| - 1;
      UndecidedSnoc(ds, targets);
      AddDecisionsActs(ds, targets[..last], decide);
      AddOneDecision(ds, targets[..last], targets[last], decide, AddDecisions(ds, targets[..last], decide).value);
    }
  }

  lemma {:induction false} DecidedAllActs(n: Node, ds: Dict<RefreshDecision>, keys: seq<string>, now: int)
    requires Shaped(n) && NoDuplicates(keys)
    requires forall k :: k in keys ==> k in ds.items && ForPeer(ds.items[k], k)
    ensures var r := DecidedAll(n, ds, keys, now);
      && Shaped(r) && r.store.Some? == n.store.Some?
      && forall k :: About(r, k) ==
                     if k in keys then DecidedSlice(About(n, k), ds.items[k], n.store.Some?, now) else About(n, k)
  {
    if keys != [] {
      var last := |keys| - 1;
      var rest, k := keys[..last], keys[last];
      DecidedAllActs(n, ds, rest, now);
      assert keys == rest + [k];
      assert k in keys && k !in rest;
      DecidedActs(DecidedAll(n, ds, rest, now), k, ds.items[k], now);
    }
  }

  /** Refusing an unknown peer twice is refusing it once. */
  lemma UnknownTwice(s: Slice, stored: bool, now: int)
    ensures DecidedSlice(DecidedSlice(s, UNKNOWN_PEER, stored, now), UNKNOWN_PEER, stored, now)
         == DecidedSlice(s, UNKNOWN_PEER, stored, now)
  {
  }

  /** What the second loop leaves of each peer. */
  lemma FinishedPerPeer(c: Crypto, n: Node, s: Sweep, peers: seq<Member>, ds: Dict<RefreshDecision>,
                        fetch: string -> FetchResult, policy: KeyContinuityPolicy, now: int, id: string)
    requires Keyed(n) && SweepOf(n, s, peers, now) && DecisionsOn(s.decisions, s.targets, Decider(c, fetch, policy), ds)
    ensures var r, stored := DecidedAll(s.node, ds, ds.order, now), n.store.Some?;
      && Shaped(r) && r.store.Some? == stored
      && (id !in MemberIds(peers) ==> About(r, id) == About(n, id))
      && (id in MemberIds(peers) && id !in n.cache ==>
          About(r, id) == DecidedSlice(About(n, id), UNKNOWN_PEER, stored, now))
      && (id in MemberIds(peers) && id in n.cache ==>
            var own := Decide(c, n.cache[id], fetch(id), policy);
            own.Decided? && About(r, id) == DecidedSlice(About(n, id), own.decision, stored, now))
  {
    DecidedForPeers(c, n, s, peers, ds, fetch, policy, now);
    DecidedAllActs(s.node, ds, ds.order, now);
    UnknownTwice(About(n, id), n.store.Some?, now);
  }

  /** The decisions of the two loops: on the peers swept, each as refreshing it alone would decide. */
  lemma DecidedForPeers(c: Crypto, n: Node, s: Sweep, peers: seq<Member>, ds: Dict<RefreshDecision>,
                        fetch: string -> FetchResult, policy: KeyContinuityPolicy, now: int)
    requires Keyed(n) && SweepOf(n, s, peers, now) && DecisionsOn(s.decisions, s.targets, Decider(c, fetch, policy), ds)
    ensures forall k :: k in MemberIds(peers) && k in n.cache ==>
              k in ds.items && Decide(c, n.cache[k], fetch(k), policy) == RefreshResult.Decided(ds.items[k])
    ensures forall k :: k in ds.items ==> k in MemberIds(peers) && ForPeer(ds.items[k], k)
  {
    TargetsAre(c, n, s, peers, now, fetch, policy);
    var decide := Decider(c, fetch, policy);
    forall k | k in MemberIds(peers) && k in n.cache
      ensures k in ds.items && Decide(c, n.cache[k], fetch(k), policy) == RefreshResult.Decided(ds.items[k])
    {
      var i :| 0 <= i < |s.targets| && s.targets[i] == n.cache[k] && s.targets[i].nodeId == k;
      assert DecidedAs(ds, s.targets[i], decide);
    }
    forall k | k in ds.items ensures k in MemberIds(peers) && ForPeer(ds.items[k], k) {
      if k !in s.decisions.items {
        DecisionForPeer(c, n.cache[k], fetch(k), policy);
      }
    }
  }

  /** The targets of the sweep, by their ids. */
  lemma TargetsAre(c: Crypto, n: Node, s: Sweep, peers: seq<Member>, now: int, fetch: string -> FetchResult,
                   policy: KeyContinuityPolicy)
    requires Keyed(n) && SweepOf(n, s, peers, now)
    ensures (exists i :: 0 <= i < |s.targets| && !Decide(c, s.targets[i], fetch(s.targets[i].nodeId), policy).Decided?)
       <==> exists k :: k in MemberIds(peers) && k in n.cache && Decide(c, n.cache[k], fetch(k), policy).Raised?
    ensures forall k :: k in MemberIds(peers) && k in n.cache ==>
              exists i :: 0 <= i < |s.targets| && s.targets[i] == n.cache[k] && s.targets[i].nodeId == k
  {
    forall k | k in MemberIds(peers) && k in n.cache
      ensures exists i :: 0 <= i < |s.targets| && s.targets[i] == n.cache[k] && s.targets[i].nodeId == k
    {
      assert k in ManifestIds(s.targets);
      var i :| 0 <= i < |ManifestIds(s.targets)| && ManifestIds(s.targets)[i] == k;
      assert s.targets[i].nodeId == k;
    }
    if i :| 0 <= i < |s.targets| && !Decide(c, s.targets[i], fetch(s.targets[i].nodeId), policy).Decided? {
      var k := s.targets[i].nodeId;
      assert ManifestIds(s.targets)[i] == k;
      assert k in MemberIds(peers) && k in n.cache && Decide(c, n.cache[k], fetch(k), policy).Raised?;
    }
  }

  function SweptAll(n: Node, now: int): Sweep
    requires Shaped(n)
  {
    Swept(n, EligiblePeers(n.table, now), now)
  }

  lemma SweptAllActs(n: Node, now: int)
    requires Keyed(n)
    ensures SweepOf(n, SweptAll(n, now), EligiblePeers(n.table, now), now)
  {
    EligibleIds(n.table, now);
    SweptActs(n, EligiblePeers(n.table, now), now);
  }

  lemma EligibleId(n: Node, now: int, id: string)
    requires Keyed(n)
    ensures id in MemberIds(EligiblePeers(n.table, now)) <==> id in n.table.items && IsEligible(n.table.items[id], now)
  {
    EligibleIds(n.table, now);
  }

  lemma DecisionsOfSweep(c: Crypto, n: Node, fetch: string -> FetchResult, policy: KeyContinuityPolicy, now: int)
    requires Keyed(n)
    ensures var s, decide := SweptAll(n, now), Decider(c, fetch, policy);
      var ds := AddDecisions(s.decisions, s.targets, decide);
      && (ds.Some? <==> forall i :: 0 <= i < |s.targets| ==> decide(s.targets[i]).Decided?)
      && (ds.Some? ==> DecisionsOn(s.decisions, s.targets, decide, ds.value))
  {
    SweptAllActs(n, now);
    var s := SweptAll(n, now);
    var decide := Decider(c, fetch, policy);
    AllDecided(s.decisions, s.targets, decide);
    if AddDecisions(s.decisions, s.targets, decide).Some? {
      AddDecisionsActs(s.decisions, s.targets, decide);
    }
  }

  /** What refreshing all peers leaves of one of them, by what the sweep and the decisions say of it. */
  ghost predicate LeftBy(c: Crypto, n: Node, fetch: string -> FetchResult, policy: KeyContinuityPolicy, now: int,
                         id: string, decided: bool, r: Node)
    requires Shaped(n)
  {
    var listed, stored := id in MemberIds(EligiblePeers(n.table, now)), n.store.Some?;
    && Shaped(r) && r.store.Some? == stored
    && (!listed || (id in n.cache && !decided) ==> About(r, id) == About(n, id))
    && (listed && id !in n.cache ==> About(r, id) == DecidedSlice(About(n, id), UNKNOWN_PEER, stored, now))
    && (listed && id in n.cache && decided ==>
          var own := Decide(c, n.cache[id], fetch(id), policy);
          own.Decided? && About(r, id) == DecidedSlice(About(n, id), own.decision, stored, now))
  }

  lemma AllRefreshedLeaves(c: Crypto, n: Node, fetch: string -> FetchResult, policy: KeyContinuityPolicy, now: int,
                           id: string)
    requires Keyed(n)
    ensures var (r, ds) := AllRefreshed(c, n, fetch, policy, now);
      LeftBy(c, n, fetch, policy, now, id, ds.Some?, r)
  {
    SweptAllActs(n, now);
    DecisionsOfSweep(c, n, fetch, policy, now);
    var s, ds := SweptAll(n, now), AllRefreshed(c, n, fetch, policy, now).1;
    if ds.Some? {
      FinishedPerPeer(c, n, s, EligiblePeers(n.table, now), ds.value, fetch, policy, now, id);
    }
  }

  lemma OthersUntouched(c: Crypto, n: Node, fetch: string -> FetchResult, policy: KeyContinuityPolicy, now: int,
                        id: string)
    requires Keyed(n) && !(id in n.table.items && IsEligible(n.table.items[id], now))
    ensures About(AllRefreshed(c, n, fetch, policy, now).0, id) == About(n, id)
  {
    EligibleId(n, now, id);
    AllRefreshedLeaves(c, n, fetch, policy, now, id);
  }

  lemma MissingRejected(c: Crypto, n: Node, fetch: string -> FetchResult, policy: KeyContinuityPolicy, now: int,
                        id: string)
    requires Keyed(n) && id in n.table.items && IsEligible(n.table.items[id], now) && id !in n.cache
    ensures About(AllRefreshed(c, n, fetch, policy, now).0, id) ==
            Slice(Some(WithState(n.table.items[id], Rejected, now)), None, None)
  {
    EligibleId(n, now, id);
    AllRefreshedLeaves(c, n, fetch, policy, now, id);
  }

  lemma KnownRefreshed(c: Crypto, n: Node, fetch: string -> FetchResult, policy: KeyContinuityPolicy, now: int,
                       id: string)
    requires Keyed(n) && id in n.table.items && IsEligible(n.table.items[id], now) && id in n.cache
    ensures var (r, ds) := AllRefreshed(c, n, fetch, policy, now);
      About(r, id) == if ds.Some? then About(PeerRefreshed(c, n, id, fetch(id), policy, now).0, id) else About(n, id)
  {
    EligibleId(n, now, id);
    AllRefreshedLeaves(c, n, fetch, policy, now, id);
    PeerRefreshedActs(c, n, id, fetch(id), policy, now);
  }

  /** Some eligible peer's own refresh raises. */
  ghost predicate OneRaises(c: Crypto, n: Node, fetch: string -> FetchResult, policy: KeyContinuityPolicy, now: int) {
    exists k :: k in n.table.items && IsEligible(n.table.items[k], now) && k in n.cache &&
                Decide(c, n.cache[k], fetch(k), policy).Raised?
  }

  lemma RaisesExactly(c: Crypto, n: Node, fetch: string -> FetchResult, policy: KeyContinuityPolicy, now: int)
    requires Keyed(n)
    ensures AllRefreshed(c, n, fetch, policy, now).1.None? <==> OneRaises(c, n, fetch, policy, now)
  {
    SweptAllActs(n, now);
    DecisionsOfSweep(c, n, fetch, policy, now);
    TargetsAre(c, n, SweptAll(n, now), EligiblePeers(n.table, now), now, fetch, policy);
    forall k
      ensures k in MemberIds(EligiblePeers(n.table, now)) <==> k in n.table.items && IsEligible(n.table.items[k], now)
    {
      EligibleId(n, now, k);
    }
  }

  /**
   When no refresh raises, refresh_all reports one decision on each eligible peer: that of its own
   refresh, or that it is unknown when no manifest of it is held.
   */
  lemma AllRefreshedReports(c: Crypto, n: Node, fetch: string -> FetchResult, policy: KeyContinuityPolicy, now: int,
                            k: string)
    requires Keyed(n) && AllRefreshed(c, n, fetch, policy, now).1.Some?
    ensures var ds := AllRefreshed(c, n, fetch, policy, now).1.value;
      && WellFormed(ds)
      && (k in ds.items <==> k in n.table.items && IsEligible(n.table.items[k], now))
      && (k in ds.items && k in n.cache ==>
            Decide(c, n.cache[k], fetch(k), policy) == RefreshResult.Decided(ds.items[k]))
      && (k in ds.items && k !in n.cache ==>
            ds.items[k] == RefreshDecision(Reject, "unknown_peer", None, None, None, None))
  {
    var ds, s := AllRefreshed(c, n, fetch, policy, now).1.value, SweptAll(n, now);
    SweptAllActs(n, now);
    EligibleId(n, now, k);
    DecisionsOfSweep(c, n, fetch, policy, now);
    DecidedForPeers(c, n, s, EligiblePeers(n.table, now), ds, fetch, policy, now);
    assert k in s.decisions.items <==> k in MemberIds(EligiblePeers(n.table, now)) && k !in n.cache;
  }

  /**
   Refreshing all peers is refreshing each eligible peer on its own: what is
   held about it afterwards is what a refresh of that peer alone would leave.
   An eligible peer without a manifest is rejected; no other peer is touched.
   When one of the refreshes raises, only the peers without a manifest changed.
   */
  lemma AllRefreshedPerPeer(c: Crypto, n: Node, fetch: string -> FetchResult, policy: KeyContinuityPolicy, now: int,
                            id: string)
    requires Inv(n)
    ensures var (r, ds) := AllRefreshed(c, n, fetch, policy, now);
      var eligible := id in n.table.items && IsEligible(n.table.items[id], now);
      && Shaped(r) && r.store.Some? == n.store.Some?
      && (!eligible ==> About(r, id) == About(n, id))
      && (eligible && id !in n.cache ==>
            About(r, id) == Slice(Some(WithState(n.table.items[id], Rejected, now)), None, None))
      && (eligible && id in n.cache ==>
            About(r, id) == if ds.Some? then About(PeerRefreshed(c, n, id, fetch(id), policy, now).0, id)
                else About(n, id))
      && (ds.None? <==> OneRaises(c, n, fetch, policy, now))
  {
    AllRefreshedLeaves(c, n, fetch, policy, now, id);
    RaisesExactly(c, n, fetch, policy, now);
    if !(id in n.table.items && IsEligible(n.table.items[id], now)) {
      OthersUntouched(c, n, fetch, policy, now, id);
    } else if id !in n.cache {
      MissingRejected(c, n, fetch, policy, now, id);
    } else {
      KnownRefreshed(c, n, fetch, policy, now, id);
    }
  }

  // ---------- revocation ----------

  /** A revocation acts on the record it names; when it applies, that peer is revoked and its manifest gone. */
  lemma NoticeAppliedActs(n: Node, r: Revocation, now: int)
    requires Inv(n)
    ensures var (after, state) := NoticeApplied(n, r, now);
      var id, applies := r.notice.revokedNodeId,
                         NoticeApplies(r.verify, r.notice, r.federationId, r.trusted, r.authorize);
      && Shaped(after) && after.store.Some? == n.store.Some?
      && (forall k :: k != id ==> About(after, k) == About(n, k))
      && (id in n.table.items && applies ==>
            state == Some(Revoked) &&
            About(after, id) == Slice(Some(n.table.items[id].(state := Revoked, lastRefresh := Some(now))), None, None))
      && (!(id in n.table.items && applies) ==>
            About(after, id) == About(n, id) &&
                state == (if id in n.table.items then Some(n.table.items[id].state) else None))
  {
    var id := r.notice.revokedNodeId;
    RevokesExactly(r.verify, n.table, r.notice, r.federationId, r.trusted, r.authorize, now);
    var (state, table) := ApplyNotice(r.verify, n.table, r.notice, r.federationId, r.trusted, r.authorize, now);
    if id in n.table.items {
      TablePutActs(n, id, WithState(n.table.items[id], Revoked, now));
      if state == Some(Revoked) {
        ForgetActs(n.(table := table), id);
      }
    }
  }

  /** What applying a notice comes to for the node: its peer revoked with no manifest left, or everything as it was. */
  ghost predicate Evicted(n: Node, id: string, now: int, after: Node) {
    && id in n.table.items
    && About(after, id) == Slice(Some(n.table.items[id].(state := Revoked, lastRefresh := Some(now))), None, None)
    && forall k :: k != id ==> About(after, k) == About(n, k)
  }

  /**
   With the library's own verification, a signature that a trusted key made over
   one notice gets another about a known peer applied, and its manifest evicted, exactly when
   the two agree on every field to the second and the notice is of this federation and authorised.
   */
  lemma SignedNoticeEvictsExactly(c: Crypto, n: Node, notice: RevocationNotice, other: RevocationNotice, key: Key,
                                  keyId: string, federationId: string, trusted: map<string, Jwk>, authorize: Authorize,
                                  now: int)
    requires Inv(n) && SignaturesVerify(c) && SignaturesBind(c) && NoticesCanonical(c)
    requires other.revokedNodeId in n.table.items && keyId in trusted && trusted[keyId] == c.publicJwk(key)
    ensures var moved := other.(signature := SignNotice(c, notice, key, keyId));
      var (after, state) := NoticeApplied(n, Revocation(moved, VerifierWith(c), federationId, trusted, authorize), now);
      if SameNotice(notice, other) && other.federationId == federationId && authorize(moved)
      then state == Some(Revoked) && Evicted(n, other.revokedNodeId, now, after)
      else state == Some(n.table.items[other.revokedNodeId].state) && forall k :: About(after, k) == About(n, k)
  {
    var moved := other.(signature := SignNotice(c, notice, key, keyId));
    var r := Revocation(moved, VerifierWith(c), federationId, trusted, authorize);
    SignatureOf(c, NoticeModel(notice), key, keyId);
    MovedNoticeSignature(c, notice, other, key, keyId, trusted[keyId]);
    NoticeAppliedActs(n, r, now);
  }

  /** A notice that is unsigned, or whose signature is not base64url, changes nothing that is held about any peer. */
  lemma UndecodableNoticeChangesNothing(c: Crypto, n: Node, r: Revocation, now: int)
    requires Inv(n) && r.verify == VerifierWith(c)
    requires r.notice.signature.Some? ==> Decode(r.notice.signature.value.sig) == None
    ensures forall k :: About(NoticeApplied(n, r, now).0, k) == About(n, k)
  {
    forall jwk ensures !VerifyNotice(c, r.notice, jwk) {
      UndecodableFails(c, NoticeModel(r.notice), jwk);
    }
    NoticeAppliedActs(n, r, now);
  }

  // ---------- the invariant over runs ----------

  /** Every operation keeps the invariant. */
  lemma PerformKeepsInv(c: Crypto, n: Node, op: Op)
    requires Inv(n)
    ensures Inv(Perform(c, n, op))
  {
    InvBySlices(n);
    match op
    case Hydrate =>
      HydratedCache(n);
    case AdmitPeer(m, url, accepted, now) =>
      if accepted && ResolvedUrl(url, m).Some? {
        RecordedKeepsInv(n, m, ResolvedUrl(url, m).value, now);
      }
    case Bootstrap(seeds, now) =>
      BootstrappedKeeps(n, seeds, now);
    case DiscoverPeers(net, selfId, cap, now) =>
      DiscoveredKeepsInv(n, net, selfId, cap, now);
    case RefreshPeer(id, fetched, policy, now) =>
      PeerRefreshedKeepsInv(c, n, id, fetched, policy, now);
    case RefreshAll(fetch, policy, now) =>
      AllRefreshedKeepsInv(c, n, fetch, policy, now);
    case Revoke(r, now) =>
      NoticeAppliedKeepsInv(n, r, now);
  }

  lemma DiscoveredKeepsInv(n: Node, net: Network, selfId: string, cap: int, now: int)
    requires Inv(n)
    ensures Inv(Discovered(n, net, selfId, cap, now))
  {
    InvBySlices(n);
    DiscoveredActs(n, net, selfId, cap, now);
    var r := Discovered(n, net, selfId, cap, now);
    forall k ensures SliceOk(About(r, k), r.store.Some?, k) {
      assert SliceOk(About(n, k), n.store.Some?, k);
    }
    InvBySlices(r);
  }

  lemma PeerRefreshedKeepsInv(c: Crypto, n: Node, id: string, fetched: FetchResult, policy: KeyContinuityPolicy,
                              now: int)
    requires Inv(n)
    ensures Inv(PeerRefreshed(c, n, id, fetched, policy, now).0)
  {
    InvBySlices(n);
    PeerRefreshedActs(c, n, id, fetched, policy, now);
    var (r, result) := PeerRefreshed(c, n, id, fetched, policy, now);
    if r != n {
      assert SliceOk(About(n, id), n.store.Some?, id);
      DecidedSliceOk(About(n, id), result.decision, n.store.Some?, id, now);
      forall k ensures SliceOk(About(r, k), r.store.Some?, k) {
        assert SliceOk(About(n, k), n.store.Some?, k);
      }
      InvBySlices(r);
    }
  }

  lemma AllRefreshedKeepsInv(c: Crypto, n: Node, fetch: string -> FetchResult, policy: KeyContinuityPolicy, now: int)
    requires Inv(n)
    ensures Inv(AllRefreshed(c, n, fetch, policy, now).0)
  {
    InvBySlices(n);
    var r := AllRefreshed(c, n, fetch, policy, now).0;
    AllRefreshedPerPeer(c, n, fetch, policy, now, "");
    forall k ensures SliceOk(About(r, k), r.store.Some?, k) {
      assert SliceOk(About(n, k), n.store.Some?, k);
      AllRefreshedPerPeer(c, n, fetch, policy, now, k);
      PeerRefreshedKeepsInv(c, n, k, fetch(k), policy, now);
      PeerRefreshedActs(c, n, k, fetch(k), policy, now);
      InvBySlices(PeerRefreshed(c, n, k, fetch(k), policy, now).0);
    }
    InvBySlices(r);
  }

  lemma NoticeAppliedKeepsInv(n: Node, r: Revocation, now: int)
    requires Inv(n)
    ensures Inv(NoticeApplied(n, r, now).0)
  {
    InvBySlices(n);
    NoticeAppliedActs(n, r, now);
    var after := NoticeApplied(n, r, now).0;
    forall k ensures SliceOk(About(after, k), after.store.Some?, k) {
      assert SliceOk(About(n, k), n.store.Some?, k);
    }
    InvBySlices(after);
  }

  /** A run of operations from a consistent state; every state it passes through is consistent. */
  function Run(c: Crypto, n: Node, ops: seq<Op>): (r: Node)
    requires Inv(n)
    ensures Inv(r)
  {
    if ops == [] then n
    else
      var before := Run(c, n, ops[..|ops| - 1]);
      PerformKeepsInv(c, before, ops[|ops| - 1]);
      Perform(c, before, ops[|ops| - 1])
  }

  lemma DiscoverKeepsRevoked(n: Node, net: Network, selfId: string, cap: int, now: int, id: string)
    requires Inv(n) && IsRevoked(n, id)
    ensures IsRevoked(Discovered(n, net, selfId, cap, now), id)
  {
    DiscoveredActs(n, net, selfId, cap, now);
    assert About(n, id).record.Some?;
    RevokedBySlice(n, Discovered(n, net, selfId, cap, now), id);
  }

  lemma RefreshKeepsRevoked(c: Crypto, n: Node, k: string, fetched: FetchResult, policy: KeyContinuityPolicy, now: int,
                            id: string)
    requires Inv(n) && IsRevoked(n, id)
    ensures IsRevoked(PeerRefreshed(c, n, k, fetched, policy, now).0, id)
  {
    assert id !in n.cache;
    PeerRefreshedActs(c, n, k, fetched, policy, now);
    RevokedBySlice(n, PeerRefreshed(c, n, k, fetched, policy, now).0, id);
  }

  lemma RefreshAllKeepsRevoked(c: Crypto, n: Node, fetch: string -> FetchResult, policy: KeyContinuityPolicy, now: int,
                               id: string)
    requires Inv(n) && IsRevoked(n, id)
    ensures IsRevoked(AllRefreshed(c, n, fetch, policy, now).0, id)
  {
    OthersUntouched(c, n, fetch, policy, now, id);
    RevokedBySlice(n, AllRefreshed(c, n, fetch, policy, now).0, id);
  }

  lemma RevokeKeepsRevoked(n: Node, r: Revocation, now: int, id: string)
    requires Inv(n) && IsRevoked(n, id)
    ensures IsRevoked(NoticeApplied(n, r, now).0, id)
  {
    NoticeAppliedActs(n, r, now);
    assert About(NoticeApplied(n, r, now).0, id).record.Some?;
  }

  /** No operation takes a revoked peer out of that state, refresh included. */
  lemma PerformKeepsRevoked(c: Crypto, n: Node, op: Op, id: string)
    requires Inv(n) && IsRevoked(n, id)
    ensures IsRevoked(Perform(c, n, op), id)
  {
    match op
    case Hydrate =>
    case AdmitPeer(m, url, accepted, now) =>
    case Bootstrap(seeds, now) =>
      BootstrapRevokesNone(n, seeds, now, id);
    case DiscoverPeers(net, selfId, cap, now) =>
      DiscoverKeepsRevoked(n, net, selfId, cap, now, id);
    case RefreshPeer(k, fetched, policy, now) =>
      RefreshKeepsRevoked(c, n, k, fetched, policy, now, id);
    case RefreshAll(fetch, policy, now) =>
      RefreshAllKeepsRevoked(c, n, fetch, policy, now, id);
    case Revoke(r, now) =>
      RevokeKeepsRevoked(n, r, now, id);
  }

  /**
   Revocation is terminal: once revoked, a peer stays revoked through every
   later operation, none of its manifests is cached or stored, its requests are
   refused as unknown, and it is never selected.
   */
  lemma {:induction false} RevokedIsTerminal(c: Crypto, n: Node, ops: seq<Op>, id: string)
    requires Inv(n) && IsRevoked(n, id)
    ensures IsRevoked(Run(c, n, ops), id)
    ensures ShutOut(c, Run(c, n, ops), id)
  {
    if ops != [] {
      RevokedIsTerminal(c, n, ops[..|ops| - 1], id);
      PerformKeepsRevoked(c, Run(c, n, ops[..|ops| - 1]), ops[|ops| - 1], id);
    }
    RevokedIsShutOut(c, Run(c, n, ops), id);
  }

  /** No manifest of the peer is held, and neither requests nor selection can use one. */
  ghost predicate ShutOut(c: Crypto, n: Node, id: string)
    requires Shaped(n)
  {
    && id !in n.cache && (n.store.Some? ==> id !in n.store.value.items)
    && (forall nonces, header, http, t, u ::
          KnownInbound(c, n, id, nonces, header, http, t, u) == (Unauthorized("unknown_peer"), nonces))
    && (forall m, now :: m in Selected(n, now) ==> m.nodeId != id)
  }

  lemma {:induction false} CachedAreKeyed(cache: map<string, Manifest>, peers: seq<Member>, m: Manifest)
    requires KeyedByOwnId(cache) && m in Cached(cache, peers)
    ensures m.nodeId in cache && cache[m.nodeId] == m && m.nodeId in MemberIds(peers)
  {
    var last := |peers| - 1;
    assert MemberIds(peers) == MemberIds(peers[..last]) + [peers[last].nodeId];
    if m in Cached(cache, peers[..last]) {
      CachedAreKeyed(cache, peers[..last], m);
    }
  }

  lemma RevokedIsShutOut(c: Crypto, n: Node, id: string)
    requires Inv(n) && IsRevoked(n, id)
    ensures ShutOut(c, n, id)
  {
    assert KeyedByOwnId(n.cache);
    forall m, now | m in Selected(n, now) ensures m.nodeId != id {
      CachedAreKeyed(n.cache, EligiblePeers(n.table, now), m);
    }
  }

  /**
   A request verified as coming from a peer was sent by that peer, under the
   manifest held of it, and no revoked or rejected peer has one.  It claims its
   nonce through the skew window; a refused one claims nothing.
   */
  lemma VerifiedSourceIsKnown(c: Crypto, n: Node, id: string, nonces: Cache, header: Header, http: Inbound,
                              checkedAt: int, claimedAt: int)
    requires Inv(n)
    ensures var (result, after) := KnownInbound(c, n, id, nonces, header, http, checkedAt, claimedAt);
      result.Verified? ==>
        && id in n.cache && result == PeerStep(c, nonces, header, n.cache[id], http, checkedAt, claimedAt).0
        && result.peer.sourceNodeId == id == n.cache[id].nodeId
        && (id in n.table.items ==>
              !Barred(n.table.items[id]) && n.table.items[id].manifestRevision == n.cache[id].revision)
        && header.Envelope? && after == nonces[NonceKey(header.env) := claimedAt + http.maxSkewSeconds * 1_000_000]
    ensures var (result, after) := KnownInbound(c, n, id, nonces, header, http, checkedAt, claimedAt);
      result.Unauthorized? ==> after == nonces
    ensures id !in n.cache ==>
              KnownInbound(c, n, id, nonces, header, http, checkedAt, claimedAt)
                  == (Unauthorized("unknown_peer"), nonces)
    ensures id in n.cache ==>
              KnownInbound(c, n, id, nonces, header, http, checkedAt, claimedAt)
                  == PeerStep(c, nonces, header, n.cache[id], http, checkedAt, claimedAt)
  {
    if id in n.cache {
      VerifiedExactly(c, nonces, header, n.cache[id], http, checkedAt, claimedAt);
      PeerClaimsExactly(c, nonces, header, n.cache[id], http, checkedAt, claimedAt);
      assert id in Known(n) && Known(n)[id] == n.cache[id];
    }
  }

  /** An inbound request as the node sees it: whom the host says it is from, and when it is checked and claimed. */
  datatype Request = Request(
    node: Node,
    sourceId: string,
    header: Header,
    http: Inbound,
    checkedAt: int,
    claimedAt: int)

  function Receive(c: Crypto, nonces: Cache, q: Request): (PeerResult, Cache) {
    KnownInbound(c, q.node, q.sourceId, nonces, q.header, q.http, q.checkedAt, q.claimedAt)
  }

  function NoncesAfter(c: Crypto, nonces: Cache, requests: seq<Request>): Cache {
    if requests == [] then nonces
    else Receive(c, NoncesAfter(c, nonces, requests[..|requests| - 1]), requests[|requests| - 1]).1
  }

  ghost predicate ReceivedInOrder(requests: seq<Request>, skew: int) {
    (forall i :: 0 <= i < |requests| ==> requests[i].http.maxSkewSeconds == skew) &&
    (forall i, j :: 0 <= i <= j < |requests| ==> requests[i].claimedAt <= requests[j].claimedAt)
  }

  predicate VerifiedAt(c: Crypto, nonces: Cache, requests: seq<Request>, i: nat)
    requires i < |requests|
  {
    Receive(c, NoncesAfter(c, nonces, requests[..i]), requests[i]).0.Verified?
  }

  lemma ReceiveClaims(c: Crypto, nonces: Cache, q: Request)
    requires Receive(c, nonces, q).0.Verified?
    ensures q.header.Envelope? && !Live(nonces, NonceKey(q.header.env), q.claimedAt)
    ensures ClaimedThrough(Receive(c, nonces, q).1, NonceKey(q.header.env),
                           q.claimedAt + q.http.maxSkewSeconds * 1_000_000)
  {
    var peer := q.node.cache[q.sourceId];
    VerifiedExactly(c, nonces, q.header, peer, q.http, q.checkedAt, q.claimedAt);
    PeerClaimsExactly(c, nonces, q.header, peer, q.http, q.checkedAt, q.claimedAt);
  }

  lemma ReceiveKeepsClaims(c: Crypto, nonces: Cache, q: Request, key: string, until: int)
    requires ClaimedThrough(nonces, key, until) && until <= q.claimedAt + q.http.maxSkewSeconds * 1_000_000
    ensures ClaimedThrough(Receive(c, nonces, q).1, key, until)
  {
    if q.sourceId in q.node.cache {
      PeerClaimsExactly(c, nonces, q.header, q.node.cache[q.sourceId], q.http, q.checkedAt, q.claimedAt);
    }
  }

  lemma LastClaims(c: Crypto, nonces: Cache, requests: seq<Request>)
    requires requests != [] && VerifiedAt(c, nonces, requests, |requests| - 1)
    ensures var q := requests[|requests| - 1];
      q.header.Envelope? && ClaimedThrough(NoncesAfter(c, nonces, requests), NonceKey(q.header.env),
                                           q.claimedAt + q.http.maxSkewSeconds * 1_000_000)
  {
    ReceiveClaims(c, NoncesAfter(c, nonces, requests[..|requests| - 1]), requests[|requests| - 1]);
  }

  lemma LastKeepsClaims(c: Crypto, nonces: Cache, requests: seq<Request>, key: string, until: int)
    requires requests != [] && ClaimedThrough(NoncesAfter(c, nonces, requests[..|requests| - 1]), key, until)
    requires var q := requests[|requests| - 1]; until <= q.claimedAt + q.http.maxSkewSeconds * 1_000_000
    ensures ClaimedThrough(NoncesAfter(c, nonces, requests), key, until)
  {
    ReceiveKeepsClaims(c, NoncesAfter(c, nonces, requests[..|requests| - 1]), requests[|requests| - 1], key, until);
  }

  lemma VerifiedInPrefix(c: Crypto, nonces: Cache, requests: seq<Request>, n: nat, i: nat)
    requires i < n <= |requests|
    ensures VerifiedAt(c, nonces, requests[..n], i) == VerifiedAt(c, nonces, requests, i)
  {
    assert requests[..n][..i] == requests[..i];
  }

  lemma {:induction false} KnownClaimLives(c: Crypto, nonces: Cache, requests: seq<Request>, skew: int, i: nat)
    requires ReceivedInOrder(requests, skew) && i < |requests| && VerifiedAt(c, nonces, requests, i)
    ensures requests[i].header.Envelope?
    ensures ClaimedThrough(NoncesAfter(c, nonces, requests), NonceKey(requests[i].header.env),
                           requests[i].claimedAt + skew * 1_000_000)
  {
    var n := |requests| - 1;
    if i < n {
      VerifiedInPrefix(c, nonces, requests, n, i);
      KnownClaimLives(c, nonces, requests[..n], skew, i);
      LastKeepsClaims(c, nonces, requests, NonceKey(requests[i].header.env), requests[i].claimedAt + skew * 1_000_000);
    } else {
      LastClaims(c, nonces, requests);
    }
  }

  /**
   Across every change of the node between them, two requests verified under one nonce key are claimed
   more than the window apart.
   */
  lemma KnownVerificationsApart(c: Crypto, nonces: Cache, requests: seq<Request>, skew: int, i: nat, j: nat)
    requires ReceivedInOrder(requests, skew) && i < j < |requests|
    requires VerifiedAt(c, nonces, requests, i) && VerifiedAt(c, nonces, requests, j)
    requires requests[i].header.Envelope? && requests[j].header.Envelope?
    requires NonceKey(requests[i].header.env) == NonceKey(requests[j].header.env)
    ensures requests[j].claimedAt > requests[i].claimedAt + skew * 1_000_000
  {
    VerifiedInPrefix(c, nonces, requests, j, i);
    KnownClaimLives(c, nonces, requests[..j], skew, i);
    ReceiveClaims(c, NoncesAfter(c, nonces, requests[..j]), requests[j]);
  }

  /**
   A verified request that is received again within the window of its claim, while the node holds the
   same manifest of its sender, is refused as a replay while it is fresh and as stale otherwise.
   */
  lemma ReceivedAgain(c: Crypto, nonces: Cache, requests: seq<Request>, skew: int, i: nat, j: nat)
    requires ReceivedInOrder(requests, skew) && i < j < |requests| && VerifiedAt(c, nonces, requests, i)
    requires requests[j].header == requests[i].header && requests[j].http == requests[i].http
    requires var id := requests[i].sourceId;
      requests[j].sourceId == id && id in requests[j].node.cache &&
      (id in requests[i].node.cache ==> requests[j].node.cache[id] == requests[i].node.cache[id])
    requires requests[j].claimedAt <= requests[i].claimedAt + skew * 1_000_000
    ensures var before := NoncesAfter(c, nonces, requests[..j]);
      requests[i].header.Envelope? &&
      Receive(c, before, requests[j]) ==
        (Unauthorized(if Fresh(requests[i].header.env, requests[i].http, requests[j].checkedAt)
                      then "replay" else "stale_timestamp"), before)
  {
    VerifiedInPrefix(c, nonces, requests, j, i);
    KnownClaimLives(c, nonces, requests[..j], skew, i);
    ClaimedIsReplay(c, NoncesAfter(c, nonces, requests[..i]), requests[i], NoncesAfter(c, nonces, requests[..j]),
                    requests[j]);
  }

  lemma ClaimedIsReplay(c: Crypto, nonces: Cache, q: Request, after: Cache, again: Request)
    requires Receive(c, nonces, q).0.Verified? && q.header.Envelope?
    requires again.header == q.header && again.http == q.http && again.sourceId == q.sourceId
    requires q.sourceId in again.node.cache
    requires q.sourceId in q.node.cache ==> again.node.cache[q.sourceId] == q.node.cache[q.sourceId]
    requires ClaimedThrough(after, NonceKey(q.header.env), again.claimedAt)
    ensures Receive(c, after, again) ==
            (Unauthorized(if Fresh(q.header.env, q.http, again.checkedAt) then "replay" else "stale_timestamp"), after)
  {
    VerifiedIsReplayWhileClaimed(c, nonces, q.header, q.node.cache[q.sourceId], q.http, q.checkedAt, q.claimedAt,
                                 after, again.checkedAt, again.claimedAt);
  }

  /** The manifests selected are exactly those cached for the eligible peers. */
  lemma {:induction false} CachedExactly(cache: map<string, Manifest>, peers: seq<Member>, id: string)
    requires KeyedByOwnId(cache) && id in cache
    ensures cache[id] in Cached(cache, peers) <==> id in MemberIds(peers)
  {
    if peers != [] {
      var last := |peers| - 1;
      CachedExactly(cache, peers[..last], id);
      assert MemberIds(peers) == MemberIds(peers[..last]) + [peers[last].nodeId];
      assert cache[id].nodeId == id;
    } else {
      assert MemberIds(peers) == [];
    }
  }

  lemma SelectedExactly(n: Node, now: int, id: string)
    requires Inv(n) && id in n.cache
    ensures n.cache[id] in Selected(n, now) <==> id in n.table.items && IsEligible(n.table.items[id], now)
  {
    EligibleIds(n.table, now);
    CachedExactly(n.cache, EligiblePeers(n.table, now), id);
  }

  /** Whom selection keeps: the eligible whose manifest is cached. */
  function Selectable(cache: map<string, Manifest>, keep: Member -> bool): Member -> bool {
    m => keep(m) && m.nodeId in cache
  }

  /** What the last of the records adds to the selection. */
  lemma CachedStep(cache: map<string, Manifest>, vs: seq<Member>, keep: Member -> bool)
    requires vs != []
    ensures var n := |vs| - 1;
      Cached(cache, Filter(vs, keep)) == Cached(cache, Filter(vs[..n], keep)) +
        if keep(vs[n]) && vs[n].nodeId in cache then [cache[vs[n].nodeId]] else []
  {
    var n := |vs| - 1;
    var kept := Filter(vs[..n], keep);
    if keep(vs[n]) {
      assert (kept + [vs[n]])[..|kept|] == kept;
    } else {
      assert kept + [] == kept;
    }
  }

  /** A selection with as many manifests as records selected, and that of a selected record in its place. */
  predicate InPlace(cache: map<string, Manifest>, vs: seq<Member>, both: Member -> bool, selected: seq<Manifest>,
                    i: nat) {
    |selected| == KeptBefore(vs, both, |vs|) &&
    (i < |vs| && both(vs[i]) && vs[i].nodeId in cache ==>
       KeptBefore(vs, both, i) < |selected| && selected[KeptBefore(vs, both, i)] == cache[vs[i].nodeId])
  }

  lemma {:induction false} CachedPlaces(cache: map<string, Manifest>, vs: seq<Member>, keep: Member -> bool, i: nat)
    ensures InPlace(cache, vs, Selectable(cache, keep), Cached(cache, Filter(vs, keep)), i)
  {
    if vs != [] {
      var n, both := |vs| - 1, Selectable(cache, keep);
      CachedPlaces(cache, vs[..n], keep, i);
      CachedStep(cache, vs, keep);
      KeptOfPrefix(vs, n, both, both, n);
      if i < n {
        KeptOfPrefix(vs, n, both, both, i);
      }
    }
  }

  /** Selection is in the order of the table: a selected peer stands behind those selected before it. */
  lemma SelectedInOrder(n: Node, now: int, i: nat)
    requires Keyed(n) && i < |n.table.order|
    ensures var id, keep := n.table.order[i], Selectable(n.cache, EligibleAt(now));
      var place := KeptBefore(Values(n.table), keep, i);
      id in n.table.items && IsEligible(n.table.items[id], now) && id in n.cache ==>
        place < |Selected(n, now)| && Selected(n, now)[place] == n.cache[id]
  {
    CachedPlaces(n.cache, Values(n.table), EligibleAt(now), i);
  }

  // ---------- trust through the node ----------

  /**
   What refreshing a peer leaves in the cache is the manifest that was there, or
   a fetched one that follows it, or nothing.
   */
  lemma RefreshFollowsTrust(c: Crypto, n: Node, id: string, fetched: FetchResult, policy: KeyContinuityPolicy, now: int)
    requires Inv(n) && id in n.table.items && id in n.cache
    ensures var r := PeerRefreshed(c, n, id, fetched, policy, now).0;
      id in r.cache ==>
        r.cache[id] == n.cache[id] ||
        (fetched == Fetched(r.cache[id]) && Follows(c, n.cache[id], r.cache[id], policy) &&
            r.table.items[id].state == Active)
    ensures var r := PeerRefreshed(c, n, id, fetched, policy, now).0;
      id !in r.cache ==> r.table.items[id].state == Rejected
  {
    PeerRefreshedActs(c, n, id, fetched, policy, now);
    DecidesExactly(c, n.cache[id], fetched, policy);
    var r := PeerRefreshed(c, n, id, fetched, policy, now).0;
    assert About(r, id).record.Some?;
  }

  /** Revoked, and without a manifest in cache or store. */
  predicate StaysOut(n: Node, id: string) {
    IsRevoked(n, id) && id !in n.cache && (n.store.Some? ==> id !in n.store.value.items)
  }

  lemma RevokedStaysOut(n: Node, id: string)
    requires Inv(n) && IsRevoked(n, id)
    ensures StaysOut(n, id)
  {
    assert id !in Known(n);
  }

  // ---------- where known manifests come from ----------

  /** The manifest known durably of a peer. */
  function KnownOf(n: Node, id: string): Option<Manifest> {
    if id in Known(n) then Some(Known(n)[id]) else None
  }

  function KnownIn(s: Slice, stored: bool): Option<Manifest> {
    if stored then s.stored else s.cached
  }

  lemma KnownBySlice(n: Node, id: string)
    ensures KnownOf(n, id) == KnownIn(About(n, id), n.store.Some?)
  {
  }

  /**
   A manifest that an operation brings in for a peer: admitted by the host or by discovery, or a
   refresh that follows.
   */
  ghost predicate Brings(c: Crypto, n: Node, op: Op, id: string, m: Manifest) {
    m.nodeId == id &&
    match op
    case AdmitPeer(admitted, url, accepted, _) => accepted && ResolvedUrl(url, admitted).Some? && m == admitted
    case Bootstrap(seeds, _) => exists i :: 0 <= i < |seeds| && seeds[i].manifest == m
    case DiscoverPeers(net, selfId, _, _) =>
      id != selfId && id !in n.table.items && net.admits(m).accepted && exists url :: net.fetch(url) == Fetched(m)
    case RefreshPeer(k, fetched, policy, _) => k == id && fetched == Fetched(m) && FollowsKnown(c, n, id, m, policy)
    case RefreshAll(fetch, policy, _) => fetch(id) == Fetched(m) && FollowsKnown(c, n, id, m, policy)
    case _ => false
  }

  ghost predicate FollowsKnown(c: Crypto, n: Node, id: string, m: Manifest, policy: KeyContinuityPolicy) {
    KnownOf(n, id).Some? && Follows(c, KnownOf(n, id).value, m, policy)
  }

  /** The manifest known of a peer after an operation: none, the one before, or one that the operation brings. */
  ghost predicate Traced(c: Crypto, n: Node, op: Op, id: string, after: Option<Manifest>) {
    after.None? || after == KnownOf(n, id) || Brings(c, n, op, id, after.value)
  }

  lemma AdmitTraced(c: Crypto, n: Node, op: Op, id: string)
    requires Inv(n) && op.AdmitPeer?
    ensures Traced(c, n, op, id, KnownOf(Perform(c, n, op), id))
  {
    var r := Perform(c, n, op);
    if op.accepted && ResolvedUrl(op.url, op.manifest).Some? {
      RecordedActs(n, op.manifest, ResolvedUrl(op.url, op.manifest).value, op.now);
      KnownBySlice(n, id);
      KnownBySlice(r, id);
    }
  }

  lemma {:induction false} LastSeedExists(seeds: seq<Seed>, id: string)
    requires exists i :: 0 <= i < |seeds| && seeds[i].manifest.nodeId == id
    ensures exists i: nat :: IsLastSeed(seeds, i, id)
  {
    var k := |seeds| - 1;
    if seeds[k].manifest.nodeId == id {
      assert IsLastSeed(seeds, k, id);
    } else {
      var i :| 0 <= i < |seeds| && seeds[i].manifest.nodeId == id;
      assert seeds[..k][i].manifest.nodeId == id;
      LastSeedExists(seeds[..k], id);
      var j: nat :| IsLastSeed(seeds[..k], j, id);
      assert IsLastSeed(seeds, j, id);
    }
  }

  lemma BootstrapTraced(c: Crypto, n: Node, op: Op, id: string)
    requires Inv(n) && op.Bootstrap?
    ensures Traced(c, n, op, id, KnownOf(Perform(c, n, op), id))
  {
    BootstrapShapes(n, op.seeds, op.now);
    KnownBySlice(n, id);
    KnownBySlice(Perform(c, n, op), id);
    if IsRevoked(n, id) || forall i :: 0 <= i < |op.seeds| ==> op.seeds[i].manifest.nodeId != id {
      BootstrapLeaves(n, op.seeds, op.now, id);
    } else {
      LastSeedExists(op.seeds, id);
      var i: nat :| IsLastSeed(op.seeds, i, id);
      BootstrapRecords(n, op.seeds, op.now, i);
    }
  }

  lemma DiscoverTraced(c: Crypto, n: Node, op: Op, id: string)
    requires Inv(n) && op.DiscoverPeers?
    ensures Traced(c, n, op, id, KnownOf(Perform(c, n, op), id))
  {
    DiscoveredActs(n, op.net, op.selfId, op.perPeerCap, op.now);
    KnownBySlice(n, id);
    KnownBySlice(Perform(c, n, op), id);
  }

  /** What a refresh leaves known of a peer: nothing, what was known, or the fetched manifest that follows it. */
  lemma RefreshLeavesKnown(c: Crypto, n: Node, k: string, fetched: FetchResult, policy: KeyContinuityPolicy, now: int,
                           id: string)
    requires Inv(n)
    ensures var r := PeerRefreshed(c, n, k, fetched, policy, now).0;
      var after := KnownIn(About(r, id), n.store.Some?);
      || after.None? || after == KnownOf(n, id)
      || (k == id && fetched == Fetched(after.value) && after.value.nodeId == id &&
          FollowsKnown(c, n, id, after.value, policy))
  {
    PeerRefreshedActs(c, n, k, fetched, policy, now);
    KnownBySlice(n, id);
    if k == id && id in n.cache {
      DecidesExactly(c, n.cache[id], fetched, policy);
    }
  }

  lemma RefreshTraced(c: Crypto, n: Node, op: Op, id: string)
    requires Inv(n) && op.RefreshPeer?
    ensures Traced(c, n, op, id, KnownOf(Perform(c, n, op), id))
  {
    RefreshLeavesKnown(c, n, op.id, op.fetched, op.policy, op.now, id);
    PeerRefreshedActs(c, n, op.id, op.fetched, op.policy, op.now);
    KnownBySlice(Perform(c, n, op), id);
  }

  lemma RefreshAllTraced(c: Crypto, n: Node, op: Op, id: string)
    requires Inv(n) && op.RefreshAll?
    ensures Traced(c, n, op, id, KnownOf(Perform(c, n, op), id))
  {
    RefreshLeavesKnown(c, n, id, op.fetch(id), op.policy, op.now, id);
    AllRefreshedPerPeer(c, n, op.fetch, op.policy, op.now, id);
    KnownBySlice(n, id);
    KnownBySlice(Perform(c, n, op), id);
  }

  lemma RevokeTraced(c: Crypto, n: Node, op: Op, id: string)
    requires Inv(n) && op.Revoke?
    ensures Traced(c, n, op, id, KnownOf(Perform(c, n, op), id))
  {
    NoticeAppliedActs(n, op.revocation, op.now);
    KnownBySlice(n, id);
    KnownBySlice(Perform(c, n, op), id);
  }

  /** Every manifest known after an operation was known before it, or is one that the operation brings. */
  lemma KnownAreTraced(c: Crypto, n: Node, op: Op, id: string)
    requires Inv(n)
    ensures Traced(c, n, op, id, KnownOf(Perform(c, n, op), id))
  {
    match op
    case Hydrate => HydratedCache(n);
    case AdmitPeer(_, _, _, _) => AdmitTraced(c, n, op, id);
    case Bootstrap(_, _) => BootstrapTraced(c, n, op, id);
    case DiscoverPeers(_, _, _, _) => DiscoverTraced(c, n, op, id);
    case RefreshPeer(_, _, _, _) => RefreshTraced(c, n, op, id);
    case RefreshAll(_, _, _) => RefreshAllTraced(c, n, op, id);
    case Revoke(_, _) => RevokeTraced(c, n, op, id);
  }

  // ---------- only signed manifests are known ----------

  /** The manifest passed the library's manifest check at some instant. */
  ghost predicate Checked(c: Crypto, m: Manifest) {
    exists now, skew :: CheckManifest(c, m, now, skew).ok
  }

  lemma AdmittedIsChecked(s: Setting, m: Manifest, policy: AdmissionPolicy)
    requires AdmissionFor(s, m, policy).accepted
    ensures Checked(s.crypto, m)
  {
    assert CheckManifest(s.crypto, m, s.now, s.maxSkewSeconds).ok;
  }

  /** Admissions follow local admission and fetched manifests are checked, as the facade and its client have it. */
  ghost predicate Vetted(c: Crypto, op: Op) {
    match op
    case AdmitPeer(m, _, accepted, _) => accepted ==> Checked(c, m)
    case Bootstrap(seeds, _) => forall i :: 0 <= i < |seeds| ==> Checked(c, seeds[i].manifest)
    case DiscoverPeers(net, _, _, _) => forall m :: net.admits(m).accepted ==> Checked(c, m)
    case RefreshPeer(_, fetched, _, _) => fetched.Fetched? ==> Checked(c, fetched.manifest)
    case RefreshAll(fetch, _, _) => forall k :: fetch(k).Fetched? ==> Checked(c, fetch(k).manifest)
    case _ => true
  }

  /**
   An operation of a node with this admission policy: it admits and discovers by
   the policy, its seeds were admitted by it, and its client checks what it fetches.
   */
  ghost predicate ByPolicy(c: Crypto, urls: UrlTools, policy: AdmissionPolicy, op: Op) {
    match op
    case AdmitPeer(m, _, accepted, now) =>
      exists skew :: accepted == AdmissionFor(Setting(c, urls, now, skew), m, policy).accepted
    case Bootstrap(seeds, _) => forall i :: 0 <= i < |seeds| ==> AdmittedOnce(c, urls, policy, seeds[i].manifest)
    case DiscoverPeers(net, _, _, now) => exists skew :: net.admits == Admitter(Setting(c, urls, now, skew), policy)
    case RefreshPeer(_, fetched, _, _) => fetched.Fetched? ==> Checked(c, fetched.manifest)
    case RefreshAll(fetch, _, _) => forall k :: fetch(k).Fetched? ==> Checked(c, fetch(k).manifest)
    case _ => true
  }

  ghost predicate AdmittedOnce(c: Crypto, urls: UrlTools, policy: AdmissionPolicy, m: Manifest) {
    exists now, skew :: AdmissionFor(Setting(c, urls, now, skew), m, policy).accepted
  }

  lemma ByPolicyIsVetted(c: Crypto, urls: UrlTools, policy: AdmissionPolicy, op: Op)
    requires ByPolicy(c, urls, policy, op)
    ensures Vetted(c, op)
  {
    match op
    case AdmitPeer(m, _, accepted, now) =>
      var skew :| accepted == AdmissionFor(Setting(c, urls, now, skew), m, policy).accepted;
      if accepted {
        AdmittedIsChecked(Setting(c, urls, now, skew), m, policy);
      }
    case Bootstrap(seeds, _) =>
      forall i | 0 <= i < |seeds| ensures Checked(c, seeds[i].manifest) {
        assert AdmittedOnce(c, urls, policy, seeds[i].manifest);
        var now, skew :| AdmissionFor(Setting(c, urls, now, skew), seeds[i].manifest, policy).accepted;
        AdmittedIsChecked(Setting(c, urls, now, skew), seeds[i].manifest, policy);
      }
    case DiscoverPeers(net, _, _, now) =>
      var skew :| net.admits == Admitter(Setting(c, urls, now, skew), policy);
      forall m | net.admits(m).accepted ensures Checked(c, m) {
        AdmittedIsChecked(Setting(c, urls, now, skew), m, policy);
      }
    case _ =>
  }

  ghost predicate AllSigned(c: Crypto, n: Node) {
    forall k :: k in Known(n) ==> SignedByOwnKey(c, Known(n)[k])
  }

  /** Over every run of vetted operations each manifest in cache or store is signed by one of its own keys. */
  lemma {:induction false} KnownAreSigned(c: Crypto, n: Node, ops: seq<Op>)
    requires Inv(n) && AllSigned(c, n) && forall i :: 0 <= i < |ops| ==> Vetted(c, ops[i])
    ensures AllSigned(c, Run(c, n, ops))
  {
    if ops != [] {
      var last := |ops| - 1;
      KnownAreSigned(c, n, ops[..last]);
      PerformKeepsSigned(c, Run(c, n, ops[..last]), ops[last]);
    }
  }

  /** So it is over every run of a node that works by an admission policy. */
  lemma PolicyKnowsSigned(c: Crypto, urls: UrlTools, policy: AdmissionPolicy, n: Node, ops: seq<Op>)
    requires Inv(n) && AllSigned(c, n) && forall i :: 0 <= i < |ops| ==> ByPolicy(c, urls, policy, ops[i])
    ensures AllSigned(c, Run(c, n, ops))
  {
    forall i | 0 <= i < |ops| ensures Vetted(c, ops[i]) {
      ByPolicyIsVetted(c, urls, policy, ops[i]);
    }
    KnownAreSigned(c, n, ops);
  }

  lemma BroughtIsSigned(c: Crypto, n: Node, op: Op, id: string, m: Manifest)
    requires Vetted(c, op) && Brings(c, n, op, id, m)
    ensures SignedByOwnKey(c, m)
  {
    assert Checked(c, m);
    var now, skew :| CheckManifest(c, m, now, skew).ok;
    CheckedManifest(c, m, now, skew);
  }

  lemma PerformKeepsSigned(c: Crypto, n: Node, op: Op)
    requires Inv(n) && AllSigned(c, n) && Vetted(c, op)
    ensures AllSigned(c, Perform(c, n, op))
  {
    var r := Perform(c, n, op);
    forall id | id in Known(r) ensures SignedByOwnKey(c, Known(r)[id]) {
      KnownAreTraced(c, n, op, id);
      if KnownOf(n, id) != KnownOf(r, id) {
        BroughtIsSigned(c, n, op, id, Known(r)[id]);
      }
    }
  }

  // ---------- trust over runs ----------

  /** Whether an operation admits this peer anew, on the decision of the host. */
  predicate Readmits(op: Op, id: string) {
    match op
    case AdmitPeer(m, url, accepted, _) => m.nodeId == id && accepted && ResolvedUrl(url, m).Some?
    case Bootstrap(seeds, _) => exists i :: 0 <= i < |seeds| && seeds[i].manifest.nodeId == id
    case _ => false
  }

  /** A manifest that a refresh under some policy of the operation put in place of another. */
  ghost predicate Refreshed(c: Crypto, op: Op, before: Manifest, after: Manifest) {
    (op.RefreshPeer? || op.RefreshAll?) && Follows(c, before, after, op.policy)
  }

  /** From one state to the next: dropped, kept, or followed by a refreshed one; never found again. */
  ghost predicate KeepsTrust(c: Crypto, op: Op, before: Option<Manifest>, after: Option<Manifest>) {
    after.Some? ==> before.Some? && (after == before || Refreshed(c, op, before.value, after.value))
  }

  lemma {:induction false} RecordsStay(c: Crypto, n: Node, ops: seq<Op>, id: string)
    requires Inv(n) && id in n.table.items
    ensures id in Run(c, n, ops).table.items
  {
    if ops != [] {
      RecordsStay(c, n, ops[..|ops| - 1], id);
      RecordStays(c, Run(c, n, ops[..|ops| - 1]), ops[|ops| - 1], id);
    }
  }

  lemma {:induction false} BootstrapKeepsRecords(n: Node, seeds: seq<Seed>, now: int, id: string)
    requires id in n.table.items
    ensures id in Bootstrapped(n, seeds, now).table.items
  {
    if seeds != [] {
      BootstrapKeepsRecords(n, seeds[..|seeds| - 1], now, id);
    }
  }

  lemma RecordInSlice(n: Node, id: string)
    ensures id in n.table.items <==> About(n, id).record.Some?
  {
  }

  lemma DiscoverKeepsRecord(n: Node, net: Network, selfId: string, cap: int, now: int, id: string)
    requires Inv(n) && id in n.table.items
    ensures id in Discovered(n, net, selfId, cap, now).table.items
  {
    DiscoveredActs(n, net, selfId, cap, now);
    RecordInSlice(n, id);
    RecordInSlice(Discovered(n, net, selfId, cap, now), id);
  }

  lemma RefreshKeepsRecord(c: Crypto, n: Node, k: string, fetched: FetchResult, policy: KeyContinuityPolicy, now: int,
                           id: string)
    requires Inv(n) && id in n.table.items
    ensures id in PeerRefreshed(c, n, k, fetched, policy, now).0.table.items
  {
    PeerRefreshedActs(c, n, k, fetched, policy, now);
    RecordInSlice(PeerRefreshed(c, n, k, fetched, policy, now).0, id);
  }

  lemma NoticeKeepsRecord(n: Node, r: Revocation, now: int, id: string)
    requires Inv(n) && id in n.table.items
    ensures id in NoticeApplied(n, r, now).0.table.items
  {
    NoticeAppliedActs(n, r, now);
    RecordInSlice(NoticeApplied(n, r, now).0, id);
  }

  lemma RecordStays(c: Crypto, n: Node, op: Op, id: string)
    requires Inv(n) && id in n.table.items
    ensures id in Perform(c, n, op).table.items
  {
    match op
    case Hydrate =>
    case AdmitPeer(_, _, _, _) =>
    case Bootstrap(seeds, now) => BootstrapKeepsRecords(n, seeds, now, id);
    case DiscoverPeers(net, selfId, cap, now) => DiscoverKeepsRecord(n, net, selfId, cap, now, id);
    case RefreshPeer(k, fetched, policy, now) => RefreshKeepsRecord(c, n, k, fetched, policy, now, id);
    case RefreshAll(fetch, policy, now) => RefreshAllKeepsRecord(c, n, fetch, policy, now, id);
    case Revoke(rev, now) => NoticeKeepsRecord(n, rev, now, id);
  }

  lemma RefreshAllKeepsRecord(c: Crypto, n: Node, fetch: string -> FetchResult, policy: KeyContinuityPolicy, now: int,
                              id: string)
    requires Inv(n) && id in n.table.items
    ensures id in AllRefreshed(c, n, fetch, policy, now).0.table.items
  {
    AllRefreshedLeaves(c, n, fetch, policy, now, id);
    RecordInSlice(AllRefreshed(c, n, fetch, policy, now).0, id);
  }

  lemma PerformKeepsTrust(c: Crypto, n: Node, op: Op, id: string)
    requires Inv(n) && id in n.table.items && !Readmits(op, id)
    ensures KeepsTrust(c, op, KnownOf(n, id), KnownOf(Perform(c, n, op), id))
  {
    KnownAreTraced(c, n, op, id);
  }

  /**
   Over every run in which the host does not admit a recorded peer anew, the
   manifest known of it stays from one state to the next, or is followed in
   trust by a refreshed one, or is dropped and then never found again.
   */
  lemma RunKeepsTrust(c: Crypto, n: Node, ops: seq<Op>, id: string, i: nat)
    requires Inv(n) && id in n.table.items && i < |ops| && !Readmits(ops[i], id)
    ensures KeepsTrust(c, ops[i], KnownOf(Run(c, n, ops[..i]), id), KnownOf(Run(c, n, ops[..i + 1]), id))
  {
    RecordsStay(c, n, ops[..i], id);
    assert ops[..i + 1][..i] == ops[..i];
    PerformKeepsTrust(c, Run(c, n, ops[..i]), ops[i], id);
  }

  /** A later manifest of the same node and organisation at no lower revision, or none any more. */
  predicate Descends(before: Option<Manifest>, after: Option<Manifest>) {
    after.Some? ==>
      before.Some? && before.value.nodeId == after.value.nodeId && before.value.orgId == after.value.orgId &&
      before.value.revision <= after.value.revision
  }

  /** So it never changes node or organisation and never goes back in revision. */
  lemma {:induction false} RevisionsNeverGoBack(c: Crypto, n: Node, ops: seq<Op>, id: string)
    requires Inv(n) && id in n.table.items
    requires forall i :: 0 <= i < |ops| ==> !Readmits(ops[i], id)
    ensures Descends(KnownOf(n, id), KnownOf(Run(c, n, ops), id))
  {
    if ops != [] {
      var last := |ops| - 1;
      RevisionsNeverGoBack(c, n, ops[..last], id);
      RunKeepsTrust(c, n, ops, id, last);
      assert ops[..last + 1] == ops;
    }
  }

  // ---------- when a revision does go back ----------

  predicate GoesBack(before: Option<Manifest>, after: Option<Manifest>) {
    before.Some? && after.Some? && after.value.revision < before.value.revision
  }

  /** The host admits a peer anew with an older manifest than the one known of it. */
  ghost predicate AdmitsOlder(n: Node, op: Op, id: string) {
    var known := KnownOf(n, id);
    known.Some? &&
    match op
    case AdmitPeer(m, _, _, _) => Readmits(op, id) && m.revision < known.value.revision
    case Bootstrap(seeds, _) =>
      exists i: nat :: IsLastSeed(seeds, i, id) && seeds[i].manifest.revision < known.value.revision
    case _ => false
  }

  lemma LastSeedUnique(seeds: seq<Seed>, i: nat, j: nat, id: string)
    requires IsLastSeed(seeds, i, id) && IsLastSeed(seeds, j, id)
    ensures i == j
  {
  }

  lemma AdmitGoesBack(c: Crypto, n: Node, op: Op, id: string)
    requires Inv(n) && id in n.table.items && op.AdmitPeer?
    ensures GoesBack(KnownOf(n, id), KnownOf(Perform(c, n, op), id)) <==> AdmitsOlder(n, op, id)
  {
    KnownBySlice(n, id);
    KnownBySlice(Perform(c, n, op), id);
    if op.accepted && ResolvedUrl(op.url, op.manifest).Some? {
      RecordedActs(n, op.manifest, ResolvedUrl(op.url, op.manifest).value, op.now);
    }
  }

  lemma BootstrapGoesBack(c: Crypto, n: Node, op: Op, id: string)
    requires Inv(n) && id in n.table.items && op.Bootstrap?
    ensures GoesBack(KnownOf(n, id), KnownOf(Perform(c, n, op), id)) <==> AdmitsOlder(n, op, id)
  {
    var r := Perform(c, n, op);
    BootstrapShapes(n, op.seeds, op.now);
    KnownBySlice(n, id);
    KnownBySlice(r, id);
    if KnownOf(n, id).Some? {
      if i: nat :| IsLastSeed(op.seeds, i, id) {
        BootstrapRecords(n, op.seeds, op.now, i);
        forall j: nat | IsLastSeed(op.seeds, j, id) ensures j == i {
          LastSeedUnique(op.seeds, i, j, id);
        }
      } else if exists i :: 0 <= i < |op.seeds| && op.seeds[i].manifest.nodeId == id {
        LastSeedExists(op.seeds, id);
      } else {
        BootstrapLeaves(n, op.seeds, op.now, id);
      }
    }
  }

  /**
   An operation takes the manifest known of a recorded peer back in revision
   exactly when the host thereby admits an older one: admission asks for no
   continuity with what is known.
   */
  lemma GoesBackExactly(c: Crypto, n: Node, op: Op, id: string)
    requires Inv(n) && id in n.table.items
    ensures GoesBack(KnownOf(n, id), KnownOf(Perform(c, n, op), id)) <==> AdmitsOlder(n, op, id)
  {
    if op.AdmitPeer? {
      AdmitGoesBack(c, n, op, id);
    } else if op.Bootstrap? {
      BootstrapGoesBack(c, n, op, id);
    } else {
      PerformKeepsTrust(c, n, op, id);
    }
  }

  /** So at every step of every run. */
  lemma RunGoesBackExactly(c: Crypto, n: Node, ops: seq<Op>, id: string, i: nat)
    requires Inv(n) && id in n.table.items && i < |ops|
    ensures GoesBack(KnownOf(Run(c, n, ops[..i]), id), KnownOf(Run(c, n, ops[..i + 1]), id)) <==>
            AdmitsOlder(Run(c, n, ops[..i]), ops[i], id)
  {
    RecordsStay(c, n, ops[..i], id);
    assert ops[..i + 1][..i] == ops[..i];
    GoesBackExactly(c, Run(c, n, ops[..i]), ops[i], id);
  }

  // ---------- a policy that admits an older manifest ----------

  /** The manifest at another revision, signed anew. */
  function Revised(c: Crypto, m: Manifest, revision: int, key: Key, keyId: string): Manifest {
    var u := m.(revision := revision);
    u.(signature := SignModel(c, ManifestModel(u), key, keyId).signature)
  }

  lemma RevisedIsSigned(c: Crypto, m: Manifest, revision: int, key: Key, keyId: string)
    requires SignaturesVerify(c) && FindJwk(m.publicKeys, keyId) == Some(c.publicJwk(key))
    ensures SignedByOwnKey(c, Revised(c, m, revision, key, keyId))
  {
    var u, r := m.(revision := revision), Revised(c, m, revision, key, keyId);
    SignatureFits(c, ManifestModel(u), key, keyId);
    SignatureOf(c, ManifestModel(u), key, keyId);
    assert ManifestModel(r) == ManifestModel(u).(signature := r.signature);
  }

  /** A policy without verifiers of its own looks at no revision: what it admits, it admits at every other one too. */
  lemma RevisedIsAdmitted(s: Setting, m: Manifest, policy: AdmissionPolicy, revision: int, key: Key, keyId: string)
    requires SignaturesVerify(s.crypto) && FindJwk(m.publicKeys, keyId) == Some(s.crypto.publicJwk(key))
    requires policy.evidenceVerifier.None? && policy.authMethodVerifiers == map[]
    requires AdmissionFor(s, m, policy).accepted
    ensures AdmissionFor(s, Revised(s.crypto, m, revision, key, keyId), policy).accepted
  {
    RevisedIsSigned(s.crypto, m, revision, key, keyId);
    AdmittedExactly(s, m, policy);
    AdmittedExactly(s, Revised(s.crypto, m, revision, key, keyId), policy);
  }

  lemma AdmittedIsKnown(n: Node, m: Manifest, url: Option<string>, now: int)
    requires Inv(n) && !IsRevoked(n, m.nodeId) && ResolvedUrl(url, m).Some?
    ensures var r := PeerAdmitted(n, m, url, true, now);
      KnownOf(r, m.nodeId) == Some(m) && m.nodeId in r.table.items && !IsRevoked(r, m.nodeId)
  {
    RecordedActs(n, m, ResolvedUrl(url, m).value, now);
    var r := PeerAdmitted(n, m, url, true, now);
    KnownBySlice(r, m.nodeId);
    assert About(r, m.nodeId).record.Some?;
  }

  lemma AdmittedTwice(n: Node, a: Manifest, b: Manifest, url: Option<string>, now: int)
    requires Inv(n) && !IsRevoked(n, a.nodeId) && a.nodeId == b.nodeId
    requires ResolvedUrl(url, a).Some? && ResolvedUrl(url, b).Some?
    ensures var mid := PeerAdmitted(n, a, url, true, now);
      KnownOf(mid, a.nodeId) == Some(a) && KnownOf(PeerAdmitted(mid, b, url, true, now), a.nodeId) == Some(b)
  {
    AdmittedIsKnown(n, a, url, now);
    RecordedKeepsInv(n, a, ResolvedUrl(url, a).value, now);
    AdmittedIsKnown(PeerAdmitted(n, a, url, true, now), b, url, now);
  }

  lemma RunTwo(c: Crypto, n: Node, first: Op, second: Op)
    requires Inv(n)
    ensures Run(c, n, [first]) == Perform(c, n, first)
    ensures Run(c, n, [first, second]) == Perform(c, Run(c, n, [first]), second)
  {
    assert [first][..0] == [] && [first, second][..1] == [first];
  }

  /** The admission of a manifest at some revision, signed anew. */
  function AdmitRevised(s: Setting, m: Manifest, revision: int, key: Key, keyId: string, url: string): Op {
    Op.AdmitPeer(Revised(s.crypto, m, revision, key, keyId), Some(url), true, s.now)
  }

  lemma RevisedByPolicy(s: Setting, m: Manifest, policy: AdmissionPolicy, revision: int, key: Key, keyId: string,
                        url: string)
    requires SignaturesVerify(s.crypto) && FindJwk(m.publicKeys, keyId) == Some(s.crypto.publicJwk(key))
    requires policy.evidenceVerifier.None? && policy.authMethodVerifiers == map[]
    requires AdmissionFor(s, m, policy).accepted
    ensures ByPolicy(s.crypto, s.urls, policy, AdmitRevised(s, m, revision, key, keyId, url))
  {
    RevisedIsAdmitted(s, m, policy, revision, key, keyId);
    var r := Revised(s.crypto, m, revision, key, keyId);
    assert AdmissionFor(Setting(s.crypto, s.urls, s.now, s.maxSkewSeconds), r, policy).accepted;
  }

  /**
   So such a policy takes a peer back: on every consistent node that has not
   revoked it, admitting a manifest of it and then an older one, both by the
   policy, leaves the older one known.
   */
  lemma PolicyGoesBack(s: Setting, n: Node, m: Manifest, policy: AdmissionPolicy, url: string, key: Key, keyId: string,
                       older: int, newer: int)
    requires SignaturesVerify(s.crypto) && FindJwk(m.publicKeys, keyId) == Some(s.crypto.publicJwk(key))
    requires policy.evidenceVerifier.None? && policy.authMethodVerifiers == map[]
    requires AdmissionFor(s, m, policy).accepted && url != "" && older < newer
    requires Inv(n) && !IsRevoked(n, m.nodeId)
    ensures var first := AdmitRevised(s, m, newer, key, keyId, url);
      var second := AdmitRevised(s, m, older, key, keyId, url);
      && ByPolicy(s.crypto, s.urls, policy, first) && ByPolicy(s.crypto, s.urls, policy, second)
      && GoesBack(KnownOf(Run(s.crypto, n, [first]), m.nodeId), KnownOf(Run(s.crypto, n, [first, second]), m.nodeId))
  {
    RevisedByPolicy(s, m, policy, newer, key, keyId, url);
    RevisedByPolicy(s, m, policy, older, key, keyId, url);
    RunTwo(s.crypto, n, AdmitRevised(s, m, newer, key, keyId, url), AdmitRevised(s, m, older, key, keyId, url));
    AdmittedTwice(n, Revised(s.crypto, m, newer, key, keyId), Revised(s.crypto, m, older, key, keyId), Some(url),
                  s.now);
  }
}
