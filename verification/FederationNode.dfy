/** The stateful facade of `node.py`: every method runs its step of `NodeState` in place. */
module FederationNodes {
  import opened Options
  import opened Signing
  import opened Models
  import opened Dicts
  import opened Admission
  import opened Membership
  import opened Refresh
  import opened Discovery
  import opened Requests
  import opened NodeState

  /** A durable manifest store in memory, keyed by node id. */
  class ManifestStore {
    var manifests: Dict<Manifest>

    ghost predicate Valid()
      reads this
    {
      WellFormed(manifests)
    }

    constructor ()
      ensures Valid() && manifests == Empty()
    {
      manifests := Empty();
    }

    method Upsert(m: Manifest)
      requires Valid()
      modifies this
      ensures Valid() && manifests == Put(old(manifests), m.nodeId, m)
    {
      PutWellFormed(manifests, m.nodeId, m);
      manifests := Put(manifests, m.nodeId, m);
    }

    method Delete(nodeId: string)
      requires Valid()
      modifies this
      ensures Valid() && manifests == Remove(old(manifests), nodeId)
    {
      RemoveWellFormed(manifests, nodeId);
      manifests := Remove(manifests, nodeId);
    }
  }

  class FederationNode {
    const nodeId: string
    const federationId: string
    const crypto: Crypto
    const urls: UrlTools
    const admissionPolicy: AdmissionPolicy
    const table: MembershipTable
    const store: ManifestStore?
    const nonceCache: NonceCache?
    var peerManifests: map<string, Manifest>

    ghost predicate Valid()
      reads this, table, store
    {
      table.Valid() && (store != null ==> store.Valid())
    }

    ghost function Parts(): set<object>
      reads this, table
    {
      {this, table} + table.Records() + if store == null then {} else {store}
    }

    ghost function View(): Node
      reads this, table, table.Records(), store
    {
      Node(table.View(), peerManifests, if store == null then None else Some(store.manifests))
    }

    constructor (nodeId: string, federationId: string, crypto: Crypto, urls: UrlTools, admissionPolicy: AdmissionPolicy,
                 table: MembershipTable, store: ManifestStore?, peerManifests: map<string, Manifest>,
                 nonceCache: NonceCache?)
      requires table.Valid() && (store != null ==> store.Valid())
      ensures Valid() && this.table == table && this.store == store && this.nonceCache == nonceCache
      ensures this.nodeId == nodeId && this.federationId == federationId && this.admissionPolicy == admissionPolicy
      ensures View() == Node(table.View(), peerManifests, if store == null then None else Some(store.manifests))
    {
      this.nodeId, this.federationId, this.crypto, this.urls := nodeId, federationId, crypto, urls;
      this.admissionPolicy, this.table, this.store, this.nonceCache := admissionPolicy, table, store, nonceCache;
      this.peerManifests := peerManifests;
    }

    method RememberManifest(m: Manifest)
      requires Valid()
      modifies this, store
      ensures Valid() && View() == Remember(old(View()), m)
    {
      peerManifests := peerManifests[m.nodeId := m];
      if store != null {
        store.Upsert(m);
      }
    }

    method ForgetManifest(id: string)
      requires Valid()
      modifies this, store
      ensures Valid() && View() == Forget(old(View()), id)
    {
      peerManifests := peerManifests - {id};
      if store != null {
        store.Delete(id);
      }
    }

    method HydrateCache()
      requires Valid()
      modifies this
      ensures Valid() && View() == Hydrated(old(View()))
    {
      if store != null && peerManifests == map[] {
        peerManifests := KeyedById(Values(store.manifests));
      }
    }

    /** The table half of _record_peer. */
    method EnrolPeer(m: Manifest, url: string, now: int)
      requires Valid()
      modifies table
      ensures Valid() && fresh(Parts() - old(Parts()))
      ensures View() == old(View()).(table :=
        Put(old(View()).table, m.nodeId, FreshRecord(m.nodeId, url, m.orgId, m.revision, now)))
    {
      Enrol(table, m.nodeId, url, m.orgId, m.revision, now);
    }

    method RecordPeer(m: Manifest, url: string, now: int)
      requires Valid()
      modifies Parts()
      ensures Valid() && fresh(Parts() - old(Parts()))
      ensures View() == Recorded(old(View()), m, url, now)
    {
      ghost var before := View();
      var existing := table.Fetch(m.nodeId);
      assert View() == before;
      assert existing != null ==> before.table.items[m.nodeId] == existing.View();
      if existing != null && existing.state == Revoked {
        return;
      }
      RememberManifest(m);
      EnrolPeer(m, url, now);
    }

    method AdmitPeer(m: Manifest, manifestUrl: Option<string>, now: int, maxSkewSeconds: int)
      returns (d: AdmissionDecision)
      requires Valid()
      modifies Parts()
      ensures Valid() && fresh(Parts() - old(Parts()))
      ensures d == AdmissionFor(Setting(crypto, urls, now, maxSkewSeconds), m, admissionPolicy)
      ensures View() == PeerAdmitted(old(View()), m, manifestUrl, d.accepted, now)
    {
      d := AdmitManifest(Setting(crypto, urls, now, maxSkewSeconds), m, admissionPolicy);
      assert View() == old(View());
      if d.accepted {
        var resolved := ResolvedUrl(manifestUrl, m);
        if resolved.None? {
          return;
        }
        RecordPeer(m, resolved.value, now);
      }
    }

    /** The recording loop of bootstrap_from_seeds. */
    method RecordSeeds(seeds: seq<Seed>, now: int)
      requires Valid()
      modifies Parts()
      ensures Valid() && fresh(Parts() - old(Parts()))
      ensures View() == Bootstrapped(old(View()), seeds, now)
    {
      for i := 0 to |seeds|
        invariant Valid() && fresh(Parts() - old(Parts()))
        invariant View() == Bootstrapped(old(View()), seeds[..i], now)
      {
        ghost var before := View();
        RecordPeer(seeds[i].manifest, seeds[i].url, now);
        assert View() == Recorded(before, seeds[i].manifest, seeds[i].url, now);
        assert seeds[..i + 1][..i] == seeds[..i];
      }
      assert seeds[..|seeds|] == seeds;
    }

    /** The loop of discover over the accepted outcomes. */
    method RememberAccepted(outcomes: seq<Outcome>)
      requires Valid()
      modifies this, store
      ensures Valid() && View() == RememberAll(old(View()), outcomes)
    {
      for i := 0 to |outcomes|
        invariant Valid() && View() == RememberAll(old(View()), outcomes[..i])
      {
        if outcomes[i].manifest.Some? {
          RememberManifest(outcomes[i].manifest.value);
        }
        assert outcomes[..i + 1][..i] == outcomes[..i];
      }
      assert outcomes[..|outcomes|] == outcomes;
    }

    /** discover: hints are admitted by the node's own policy. */
    method DiscoverMembers(members: string -> MembersResult, fetch: string -> FetchResult, perPeerCap: int, now: int,
                           maxSkewSeconds: int)
      returns (report: Accumulator)
      requires Valid()
      modifies Parts()
      ensures Valid() && fresh(Parts() - old(Parts())) && fresh(report)
      ensures var admits := Admitter(Setting(crypto, urls, now, maxSkewSeconds), admissionPolicy);
        View() == Discovered(old(View()), Network(members, fetch, admits), nodeId, perPeerCap, now)
    {
      var admits := Admitter(Setting(crypto, urls, now, maxSkewSeconds), admissionPolicy);
      report := RefreshDiscoveredMembers(
        Scope(Network(members, fetch, admits), nodeId, peerManifests, perPeerCap, now), table);
      RememberAccepted(report.accepted);
    }

    /** A kept decision: the manifest is remembered and a known record admitted at its revision. */
    method KeepRefreshed(id: string, m: Manifest, now: int)
      requires Valid()
      modifies Parts()
      ensures Valid() && Parts() == old(Parts())
      ensures var n := old(View());
        View() == if id in n.table.items
          then Remember(n, m).(table :=
            Put(n.table, id, Admitted(n.table.items[id].(manifestRevision := m.revision), None, now)))
          else Remember(n, m)
    {
      RememberManifest(m);
      ghost var mid := View();
      var rec := table.Fetch(id);
      assert View() == mid;
      if rec != null {
        assert mid.table.items[id] == rec.View();
        Readmit(table, rec, m.revision, now);
      }
    }

    method MarkKnown(id: string, state: PeerState, now: int)
      requires Valid()
      modifies Parts()
      ensures Valid() && Parts() == old(Parts())
      ensures var n := old(View());
        View() == if id in n.table.items
          then n.(table := Put(n.table, id, WithState(n.table.items[id], state, now)))
          else n
    {
      ghost var before := View();
      var rec := table.Fetch(id);
      assert View() == before;
      if rec != null {
        assert before.table.items[id] == rec.View();
        Mark(table, rec, state, now);
      }
    }

    method ApplyRefreshDecision(id: string, d: RefreshDecision, now: int)
      requires Valid()
      modifies Parts()
      ensures Valid() && Parts() == old(Parts())
      ensures View() == NodeState.Decided(old(View()), id, d, now)
    {
      if Keeps(d) && d.manifest.Some? {
        KeepRefreshed(id, d.manifest.value, now);
      } else if d.action == Quarantine {
        MarkKnown(id, StaleManifest, now);
      } else if d.action == Reject {
        MarkKnown(id, Rejected, now);
        ForgetManifest(id);
      }
    }

    method RefreshOnePeer(id: string, fetched: FetchResult, policy: KeyContinuityPolicy, now: int)
      returns (r: RefreshResult)
      requires Valid()
      modifies Parts()
      ensures Valid() && Parts() == old(Parts())
      ensures (View(), r) == PeerRefreshed(crypto, old(View()), id, fetched, policy, now)
    {
      var rec := table.Fetch(id);
      if rec == null || id !in peerManifests {
        return RefreshResult.Decided(UNKNOWN_PEER);
      }
      r := Decide(crypto, peerManifests[id], fetched, policy);
      if r.Decided? {
        ApplyRefreshDecision(id, r.decision, now);
      }
    }

    /** The first loop of refresh_all. */
    method SweepPeers(peers: seq<Member>, now: int) returns (decisions: Dict<RefreshDecision>, targets: seq<Manifest>)
      requires Valid()
      modifies Parts()
      ensures Valid() && Parts() == old(Parts())
      ensures Sweep(View(), decisions, targets) == Swept(old(View()), peers, now)
    {
      decisions, targets := Empty(), [];
      for i := 0 to |peers|
        invariant Valid() && Parts() == old(Parts())
        invariant Sweep(View(), decisions, targets) == Swept(old(View()), peers[..i], now)
      {
        var id := peers[i].nodeId;
        assert peers[..i + 1][..i] == peers[..i];
        if id in peerManifests {
          targets := targets + [peerManifests[id]];
        } else {
          decisions := Put(decisions, id, UNKNOWN_PEER);
          ApplyRefreshDecision(id, UNKNOWN_PEER, now);
        }
      }
      assert peers[..|peers|] == peers;
    }

    /** The second loop of refresh_all. */
    method ApplyDecisions(ds: Dict<RefreshDecision>, now: int)
      requires Valid()
      modifies Parts()
      ensures Valid() && Parts() == old(Parts())
      ensures View() == DecidedAll(old(View()), ds, ds.order, now)
    {
      for i := 0 to |ds.order|
        invariant Valid() && Parts() == old(Parts())
        invariant View() == DecidedAll(old(View()), ds, ds.order[..i], now)
      {
        var k := ds.order[i];
        assert ds.order[..i + 1][..i] == ds.order[..i];
        if k in ds.items {
          ApplyRefreshDecision(k, ds.items[k], now);
        }
      }
      assert ds.order[..|ds.order|] == ds.order;
    }

    /** refresh_all; None when an exception comes through. */
    method RefreshAllPeers(fetch: string -> FetchResult, policy: KeyContinuityPolicy, now: int)
      returns (decisions: Option<Dict<RefreshDecision>>)
      requires Valid()
      modifies Parts()
      ensures Valid() && Parts() == old(Parts())
      ensures (View(), decisions) == AllRefreshed(crypto, old(View()), fetch, policy, now)
    {
      ghost var before := View();
      var peers := Eligible(table, now);
      assert View() == before;
      assert peers == EligiblePeers(before.table, now);
      var missing, targets := SweepPeers(peers, now);
      ghost var swept := Swept(before, peers, now);
      assert swept.node == View() && swept.decisions == missing && swept.targets == targets;
      decisions := AddDecisions(missing, targets, Decider(crypto, fetch, policy));
      if decisions.Some? {
        ApplyDecisions(decisions.value, now);
      }
    }

    method SelectPeers(now: int) returns (manifests: seq<Manifest>)
      requires Valid()
      ensures manifests == Selected(View(), now)
    {
      manifests := [];
      var peers := Eligible(table, now);
      for i := 0 to |peers|
        invariant manifests == Cached(peerManifests, peers[..i])
      {
        assert peers[..i + 1][..i] == peers[..i];
        if peers[i].nodeId in peerManifests {
          manifests := manifests + [peerManifests[peers[i].nodeId]];
        }
      }
      assert peers[..|peers|] == peers;
    }

    method ApplyNoticeToNode(notice: RevocationNotice, trusted: map<string, Jwk>, authorize: Authorize, now: int)
      returns (state: Option<PeerState>)
      requires Valid()
      modifies Parts()
      ensures Valid() && Parts() == old(Parts())
      ensures var r := Revocation(notice, VerifierWith(crypto), federationId, trusted, authorize);
        (View(), state) == NoticeApplied(old(View()), r, now)
    {
      state := ApplyRevocationNotice(VerifierWith(crypto), table, notice, federationId, trusted, authorize, now);
      if state == Some(Revoked) {
        ForgetManifest(notice.revokedNodeId);
      }
    }

    method VerifyKnownInbound(sourceId: string, header: Header, http: Inbound, checkedAt: int, claimedAt: int)
      returns (r: PeerResult)
      requires Valid()
      modifies nonceCache
      ensures nonceCache == null ==>
          r == KnownInbound(crypto, View(), sourceId, map[], header, http, checkedAt, claimedAt).0
      ensures nonceCache != null ==>
                (r, nonceCache.entries) ==
                KnownInbound(crypto, View(), sourceId, old(nonceCache.entries), header, http, checkedAt, claimedAt)
      ensures View() == old(View())
    {
      if sourceId !in peerManifests {
        return Unauthorized("unknown_peer");
      }
      r := VerifyPeerRequest(crypto, header, peerManifests[sourceId], http, checkedAt, claimedAt, nonceCache);
    }
  }
}
