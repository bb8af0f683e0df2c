/**
 The state changes of `node.py` and `discovery.py` one by one, refresh decisions
 and discovery writes among them that were prepared before a revocation and land
 after it.  A refresh decision is applied, and a discovered peer enrolled and
 remembered, without another look at whether the peer has been revoked since.
 */
module StaleWrites {
  import opened Options
  import opened Signing
  import opened Models
  import opened Dicts
  import opened Admission
  import opened Membership
  import opened Refresh
  import opened Discovery
  import opened Requests
  import opened NodeState
  import opened NodeRuns

  /** A section under the lifecycle lock, or the table write of discovery outside it. */
  datatype Write =
    | Recording(seed: Seed, now: int)
    | Revoking(revocation: Revocation, now: int)
    | Deciding(id: string, decision: RefreshDecision, now: int)
    | Enrolling(manifest: Manifest, url: string, now: int)
    | Remembering(manifest: Manifest)
    | Hydrating

  function Apply(n: Node, w: Write): Node
    requires Shaped(n)
  {
    match w
    case Recording(seed, now) => Recorded(n, seed.manifest, seed.url, now)
    case Revoking(r, now) => NoticeApplied(n, r, now).0
    case Deciding(id, d, now) => NodeState.Decided(n, id, d, now)
    case Enrolling(m, url, now) =>
      n.(table := Put(n.table, m.nodeId, FreshRecord(m.nodeId, url, m.orgId, m.revision, now)))
    case Remembering(m) => Remember(n, m)
    case Hydrating => Hydrated(n)
  }

  lemma PutShaped(n: Node, id: string, m: Member)
    requires Shaped(n)
    ensures Shaped(n.(table := Put(n.table, id, m)))
  {
    PutWellFormed(n.table, id, m);
  }

  lemma DecidedShaped(n: Node, id: string, d: RefreshDecision, now: int)
    requires Shaped(n)
    ensures Shaped(NodeState.Decided(n, id, d, now))
  {
    var known := Get(n.table, id);
    if known.Some? {
      PutShaped(n, id, WithState(known.value, StaleManifest, now));
      PutShaped(n, id, WithState(known.value, Rejected, now));
      ForgetActs(n.(table := Put(n.table, id, WithState(known.value, Rejected, now))), id);
    }
    ForgetActs(n, id);
    if d.manifest.Some? {
      RememberActs(n, d.manifest.value);
      if known.Some? {
        PutShaped(Remember(n, d.manifest.value), id,
                  Admitted(known.value.(manifestRevision := d.manifest.value.revision), None, now));
      }
    }
  }

  lemma NoticeShaped(n: Node, r: Revocation, now: int)
    requires Shaped(n)
    ensures Shaped(NoticeApplied(n, r, now).0)
  {
    var id := r.notice.revokedNodeId;
    var table := ApplyNotice(r.verify, n.table, r.notice, r.federationId, r.trusted, r.authorize, now).1;
    if id in n.table.items {
      PutShaped(n, id, WithState(n.table.items[id], Revoked, now));
    }
    ForgetActs(n.(table := table), id);
  }

  lemma ApplyShaped(n: Node, w: Write)
    requires Shaped(n)
    ensures Shaped(Apply(n, w))
  {
    match w
    case Recording(seed, now) => RecordedActs(n, seed.manifest, seed.url, now);
    case Revoking(r, now) => NoticeShaped(n, r, now);
    case Deciding(id, d, now) => DecidedShaped(n, id, d, now);
    case Enrolling(m, url, now) => PutShaped(n, m.nodeId, FreshRecord(m.nodeId, url, m.orgId, m.revision, now));
    case Remembering(m) => RememberActs(n, m);
    case Hydrating =>
  }

  /** A run of writes, in any order and prepared at any time. */
  function Written(n: Node, writes: seq<Write>): (r: Node)
    requires Shaped(n)
    ensures Shaped(r)
  {
    if writes == [] then n
    else
      var before := Written(n, writes[..|writes| - 1]);
      ApplyShaped(before, writes[|writes| - 1]);
      Apply(before, writes[|writes| - 1])
  }

  /** A decision that changes the record, as every decision of a refresh does. */
  predicate Effective(d: RefreshDecision) {
    (Keeps(d) && d.manifest.Some?) || d.action == Quarantine || d.action == Reject
  }

  predicate Overwrites(w: Write, id: string) {
    match w
    case Deciding(k, d, _) => k == id && Effective(d)
    case Enrolling(m, _, _) => m.nodeId == id
    case _ => false
  }

  lemma RefreshesAreEffective(c: Crypto, current: Manifest, fetched: FetchResult, policy: KeyContinuityPolicy)
    requires Decide(c, current, fetched, policy).Decided?
    ensures Effective(Decide(c, current, fetched, policy).decision)
  {
    DecidesExactly(c, current, fetched, policy);
    ContinuityKeptExactly(c, current, if fetched.Fetched? then fetched.manifest else current, policy);
  }

  lemma OneWrite(n: Node, w: Write, id: string)
    requires Shaped(n) && IsRevoked(n, id)
    ensures IsRevoked(Apply(n, w), id) <==> !Overwrites(w, id)
  {
  }

  lemma NextWrite(n: Node, writes: seq<Write>, i: nat)
    requires Shaped(n) && i < |writes|
    ensures Written(n, writes[..i + 1]) == Apply(Written(n, writes[..i]), writes[i])
  {
    assert writes[..i + 1][..i] == writes[..i];
  }

  lemma {:induction false} SurvivesOthers(n: Node, writes: seq<Write>, id: string, i: nat)
    requires Shaped(n) && IsRevoked(n, id) && i <= |writes|
    requires forall k :: 0 <= k < |writes| ==> !Overwrites(writes[k], id)
    ensures IsRevoked(Written(n, writes[..i]), id)
  {
    if i > 0 {
      SurvivesOthers(n, writes, id, i - 1);
      NextWrite(n, writes, i - 1);
      OneWrite(Written(n, writes[..i - 1]), writes[i - 1], id);
    }
  }

  /**
   A record stays revoked through a run of writes, at every point of it, exactly
   when none of them is a refresh decision about the peer or its enrolment.
   */
  lemma RevokedStateSurvivesExactly(n: Node, writes: seq<Write>, id: string)
    requires Shaped(n) && IsRevoked(n, id)
    ensures (forall i :: 0 <= i <= |writes| ==> IsRevoked(Written(n, writes[..i]), id)) <==>
            (forall i :: 0 <= i < |writes| ==> !Overwrites(writes[i], id))
  {
    if forall i :: 0 <= i < |writes| ==> !Overwrites(writes[i], id) {
      forall i | 0 <= i <= |writes| ensures IsRevoked(Written(n, writes[..i]), id) {
        SurvivesOthers(n, writes, id, i);
      }
    }
    if forall i :: 0 <= i <= |writes| ==> IsRevoked(Written(n, writes[..i]), id) {
      forall i | 0 <= i < |writes| ensures !Overwrites(writes[i], id) {
        NextWrite(n, writes, i);
        OneWrite(Written(n, writes[..i]), writes[i], id);
        var next := i + 1;
        assert IsRevoked(Written(n, writes[..next]), id);
      }
    }
  }

  // ---------- the manifest stays out, too ----------

  /** A write that overwrites the revoked record or puts a manifest of the peer back. */
  predicate Restores(w: Write, id: string) {
    Overwrites(w, id) ||
    match w
    case Deciding(_, d, _) => Keeps(d) && d.manifest.Some? && d.manifest.value.nodeId == id
    case Remembering(m) => m.nodeId == id
    case _ => false
  }

  /** Stored manifests are under their own node ids. */
  ghost predicate StoreKeyed(n: Node) {
    Shaped(n) && (n.store.Some? ==> KeyedByOwnId(n.store.value.items))
  }

  lemma ApplyStoreKeyed(n: Node, w: Write)
    requires StoreKeyed(n)
    ensures StoreKeyed(Apply(n, w))
  {
    ApplyShaped(n, w);
  }

  lemma {:induction false} WrittenStoreKeyed(n: Node, writes: seq<Write>)
    requires StoreKeyed(n)
    ensures StoreKeyed(Written(n, writes))
  {
    if writes != [] {
      var last := |writes| - 1;
      WrittenStoreKeyed(n, writes[..last]);
      ApplyStoreKeyed(Written(n, writes[..last]), writes[last]);
    }
  }

  lemma OneWriteExcludes(n: Node, w: Write, id: string)
    requires StoreKeyed(n) && StaysOut(n, id)
    ensures StaysOut(Apply(n, w), id) <==> !Restores(w, id)
  {
    OneWrite(n, w, id);
    if w.Hydrating? && n.store.Some? {
      KeyedValues(n.store.value);
    }
  }

  lemma {:induction false} ExcludedByOthers(n: Node, writes: seq<Write>, id: string, i: nat)
    requires StoreKeyed(n) && StaysOut(n, id) && i <= |writes|
    requires forall k :: 0 <= k < |writes| ==> !Restores(writes[k], id)
    ensures StaysOut(Written(n, writes[..i]), id)
  {
    if i > 0 {
      ExcludedByOthers(n, writes, id, i - 1);
      NextWrite(n, writes, i - 1);
      WrittenStoreKeyed(n, writes[..i - 1]);
      OneWriteExcludes(Written(n, writes[..i - 1]), writes[i - 1], id);
    }
  }

  /**
   A revocation survives a run of writes, record and exclusion, at every point of
   it exactly when none of them is a refresh decision about the peer, one that
   keeps a manifest of it, its enrolment by discovery or the remembering after.
   */
  lemma RevocationSurvivesExactly(n: Node, writes: seq<Write>, id: string)
    requires StoreKeyed(n) && StaysOut(n, id)
    ensures (forall i :: 0 <= i <= |writes| ==> StaysOut(Written(n, writes[..i]), id)) <==>
            (forall i :: 0 <= i < |writes| ==> !Restores(writes[i], id))
  {
    if forall i :: 0 <= i < |writes| ==> !Restores(writes[i], id) {
      forall i | 0 <= i <= |writes| ensures StaysOut(Written(n, writes[..i]), id) {
        ExcludedByOthers(n, writes, id, i);
      }
    }
    if forall i :: 0 <= i <= |writes| ==> StaysOut(Written(n, writes[..i]), id) {
      forall i | 0 <= i < |writes| ensures !Restores(writes[i], id) {
        NextWrite(n, writes, i);
        WrittenStoreKeyed(n, writes[..i]);
        OneWriteExcludes(Written(n, writes[..i]), writes[i], id);
        var next := i + 1;
        assert StaysOut(Written(n, writes[..next]), id);
      }
    }
  }

  // ---------- a discovery that remembers late ----------

  /** Discovery enrols a peer, the peer is revoked, and then discovery remembers its manifest. */
  function LateRemember(m: Manifest, url: string, r: Revocation, t0: int, t1: int): seq<Write> {
    [Enrolling(m, url, t0), Revoking(r, t1), Remembering(m)]
  }

  lemma ThreeWrites(n: Node, a: Write, b: Write, c: Write)
    requires Shaped(n)
    ensures Shaped(Apply(n, a)) && Shaped(Apply(Apply(n, a), b))
    ensures Written(n, [a, b, c]) == Apply(Apply(Apply(n, a), b), c)
  {
    var writes := [a, b, c];
    assert writes[..3] == writes && writes[..0] == [];
    NextWrite(n, writes, 0);
    NextWrite(n, writes, 1);
    NextWrite(n, writes, 2);
  }

  /** A revocation that applies, whatever the node, revokes an enrolled peer. */
  lemma RevokesEnrolled(n: Node, r: Revocation, now: int)
    requires r.notice.revokedNodeId in n.table.items
    requires NoticeApplies(r.verify, r.notice, r.federationId, r.trusted, r.authorize)
    ensures IsRevoked(NoticeApplied(n, r, now).0, r.notice.revokedNodeId)
  {
    RevokesExactly(r.verify, n.table, r.notice, r.federationId, r.trusted, r.authorize, now);
  }

  lemma RevokedThenRemembered(n: Node, m: Manifest, r: Revocation, now: int)
    requires m.nodeId in n.table.items && r.notice.revokedNodeId == m.nodeId
    requires NoticeApplies(r.verify, r.notice, r.federationId, r.trusted, r.authorize)
    ensures var late := Remember(NoticeApplied(n, r, now).0, m);
      IsRevoked(late, m.nodeId) && m.nodeId in late.cache && late.cache[m.nodeId] == m
  {
    RevokesEnrolled(n, r, now);
  }

  lemma AppliedLate(n: Node, m: Manifest, url: string, r: Revocation, t0: int, t1: int)
    requires Shaped(n) && r.notice.revokedNodeId == m.nodeId
    requires Shaped(Apply(n, Enrolling(m, url, t0)))
    requires Shaped(Apply(Apply(n, Enrolling(m, url, t0)), Revoking(r, t1)))
    requires NoticeApplies(r.verify, r.notice, r.federationId, r.trusted, r.authorize)
    ensures var late := Apply(Apply(Apply(n, Enrolling(m, url, t0)), Revoking(r, t1)), Remembering(m));
      IsRevoked(late, m.nodeId) && m.nodeId in late.cache && late.cache[m.nodeId] == m
  {
    RevokedThenRemembered(Apply(n, Enrolling(m, url, t0)), m, r, t1);
  }

  lemma LateRememberLeaves(n: Node, m: Manifest, url: string, r: Revocation, t0: int, t1: int)
    requires Shaped(n) && r.notice.revokedNodeId == m.nodeId
    requires NoticeApplies(r.verify, r.notice, r.federationId, r.trusted, r.authorize)
    ensures var late := Written(n, LateRemember(m, url, r, t0, t1));
      IsRevoked(late, m.nodeId) && m.nodeId in late.cache && late.cache[m.nodeId] == m
  {
    ThreeWrites(n, Enrolling(m, url, t0), Revoking(r, t1), Remembering(m));
    AppliedLate(n, m, url, r, t0, t1);
  }

  /**
   The revoked peer's requests are then verified again under its manifest, and a
   later refresh that finds the manifest unchanged makes its record active.
   */
  lemma LateRememberReadmits(c: Crypto, n: Node, m: Manifest, url: string, r: Revocation, t0: int, t1: int,
                             policy: KeyContinuityPolicy, t2: int)
    requires Shaped(n) && r.notice.revokedNodeId == m.nodeId
    requires NoticeApplies(r.verify, r.notice, r.federationId, r.trusted, r.authorize)
    ensures var late := Written(n, LateRemember(m, url, r, t0, t1));
      && IsRevoked(late, m.nodeId)
      && (forall nonces, header, http, t, u ::
            KnownInbound(c, late, m.nodeId, nonces, header, http, t, u) == PeerStep(c, nonces, header, m, http, t, u))
      && var refreshed := PeerRefreshed(c, late, m.nodeId, Fetched(m), policy, t2).0;
         m.nodeId in refreshed.table.items && refreshed.table.items[m.nodeId].state == Active
  {
    LateRememberLeaves(n, m, url, r, t0, t1);
    DecidesExactly(c, m, Fetched(m), policy);
  }

  // ---------- what reads the table afterwards ----------

  lemma PutKeyed(n: Node, id: string, m: Member)
    requires Keyed(n) && m.nodeId == id
    ensures Keyed(n.(table := Put(n.table, id, m)))
  {
    PutShaped(n, id, m);
  }

  lemma RememberKeyed(n: Node, m: Manifest)
    requires Keyed(n)
    ensures Keyed(Remember(n, m))
  {
    RememberActs(n, m);
  }

  lemma ForgetKeyed(n: Node, id: string)
    requires Keyed(n)
    ensures Keyed(Forget(n, id))
  {
    ForgetActs(n, id);
  }

  lemma DecidedKeyed(n: Node, id: string, d: RefreshDecision, now: int)
    requires Keyed(n)
    ensures Keyed(NodeState.Decided(n, id, d, now))
  {
    var known := Get(n.table, id);
    if Keeps(d) && d.manifest.Some? {
      RememberKeyed(n, d.manifest.value);
      if known.Some? {
        PutKeyed(Remember(n, d.manifest.value), id,
                 Admitted(known.value.(manifestRevision := d.manifest.value.revision), None, now));
      }
    } else if known.Some? {
      PutKeyed(n, id, WithState(known.value, StaleManifest, now));
      PutKeyed(n, id, WithState(known.value, Rejected, now));
      ForgetKeyed(n.(table := Put(n.table, id, WithState(known.value, Rejected, now))), id);
    } else {
      ForgetKeyed(n, id);
    }
  }

  lemma NoticeKeyed(n: Node, r: Revocation, now: int)
    requires Keyed(n)
    ensures Keyed(NoticeApplied(n, r, now).0)
  {
    NoticeShaped(n, r, now);
  }

  lemma HydratedKeyed(n: Node)
    requires Keyed(n)
    ensures Keyed(Hydrated(n))
  {
    if n.store.Some? {
      KeyedValues(n.store.value);
    }
  }

  lemma ApplyKeyed(n: Node, w: Write)
    requires Keyed(n)
    ensures Keyed(Apply(n, w))
  {
    match w
    case Recording(seed, now) => RecordedActs(n, seed.manifest, seed.url, now);
    case Revoking(r, now) => NoticeKeyed(n, r, now);
    case Deciding(id, d, now) => DecidedKeyed(n, id, d, now);
    case Enrolling(m, url, now) => PutShaped(n, m.nodeId, FreshRecord(m.nodeId, url, m.orgId, m.revision, now));
    case Remembering(m) => RememberActs(n, m);
    case Hydrating => HydratedKeyed(n);
  }

  /** Writes keep the node keyed, consistent or not. */
  lemma {:induction false} WrittenKeyed(n: Node, writes: seq<Write>)
    requires Keyed(n)
    ensures Keyed(Written(n, writes))
  {
    if writes != [] {
      var last := |writes| - 1;
      WrittenKeyed(n, writes[..last]);
      ApplyKeyed(Written(n, writes[..last]), writes[last]);
    }
  }

  lemma RefreshesSpare(c: Crypto, n: Node, id: string, k: string, fetched: FetchResult, policy: KeyContinuityPolicy,
                       now: int)
    requires Keyed(n) && StaysOut(n, id) && k in n.cache
    ensures var r := Decide(c, n.cache[k], fetched, policy); r.Decided? ==> !Restores(Deciding(k, r.decision, now), id)
  {
    DecidesExactly(c, n.cache[k], fetched, policy);
  }

  lemma SweepSpares(n: Node, id: string, now: int)
    requires Keyed(n) && StaysOut(n, id)
    ensures var missing := SweptAll(n, now).decisions;
      forall k :: k in missing.items ==> !Restores(Deciding(k, missing.items[k], now), id)
  {
    EligibleId(n, now, id);
    SweptAllActs(n, now);
  }

  lemma RefreshAllSpares(c: Crypto, n: Node, id: string, fetch: string -> FetchResult, policy: KeyContinuityPolicy,
                         now: int)
    requires Keyed(n) && StaysOut(n, id)
    ensures var ds := AllRefreshed(c, n, fetch, policy, now).1;
      ds.Some? ==> forall k :: k in ds.value.items ==> !Restores(Deciding(k, ds.value.items[k], now), id)
  {
    var ds := AllRefreshed(c, n, fetch, policy, now).1;
    if ds.Some? {
      forall k | k in ds.value.items ensures !Restores(Deciding(k, ds.value.items[k], now), id) {
        OneOfAllSpares(c, n, id, fetch, policy, now, k);
      }
    }
  }

  lemma OneOfAllSpares(c: Crypto, n: Node, id: string, fetch: string -> FetchResult, policy: KeyContinuityPolicy,
                       now: int, k: string)
    requires Keyed(n) && StaysOut(n, id)
    requires var ds := AllRefreshed(c, n, fetch, policy, now).1; ds.Some? && k in ds.value.items
    ensures !Restores(Deciding(k, AllRefreshed(c, n, fetch, policy, now).1.value.items[k], now), id)
  {
    AllRefreshedReports(c, n, fetch, policy, now, k);
    EligibleId(n, now, id);
    if k in n.cache {
      RefreshesSpare(c, n, id, k, fetch(k), policy, now);
    }
  }

  lemma DiscoverySpares(n: Node, id: string, net: Network, selfId: string, cap: int, now: int)
    requires Shaped(n) && IsRevoked(n, id)
    ensures var accepted := Discover(Scope(net, selfId, n.cache, cap, now), n.table).accepted;
      forall i :: 0 <= i < |accepted| ==> accepted[i].manifest.Some? && accepted[i].manifest.value.nodeId != id
  {
    var sc := Scope(net, selfId, n.cache, cap, now);
    DiscoveryKeepsTableSafe(sc, n.table);
    var s := Discover(sc, n.table);
    forall i | 0 <= i < |s.accepted| ensures s.accepted[i].manifest.Some? && s.accepted[i].manifest.value.nodeId != id {
      assert Vouched(sc, n.table, s.table, s.accepted[i]);
    }
  }

  /**
   As long as a revoked peer is out, nothing that reads the node prepares a write
   that restores it: no refresh of any one peer, no refresh of all, and no
   discovery.  It takes no consistent node, only one kept under its ids, which
   every run of writes leaves.
   */
  lemma LaterReadsSpare(c: Crypto, n: Node, id: string, k: string, fetched: FetchResult, fetch: string -> FetchResult,
                        policy: KeyContinuityPolicy, net: Network, selfId: string, cap: int, now: int)
    requires Keyed(n) && StaysOut(n, id)
    ensures PeerRefreshed(c, n, id, fetched, policy, now).0 == n
    ensures k in n.cache ==>
      var r := Decide(c, n.cache[k], fetched, policy); r.Decided? ==> !Restores(Deciding(k, r.decision, now), id)
    ensures var missing := SweptAll(n, now).decisions;
      forall j :: j in missing.items ==> !Restores(Deciding(j, missing.items[j], now), id)
    ensures var ds := AllRefreshed(c, n, fetch, policy, now).1;
      ds.Some? ==> forall j :: j in ds.value.items ==> !Restores(Deciding(j, ds.value.items[j], now), id)
    ensures var accepted := Discover(Scope(net, selfId, n.cache, cap, now), n.table).accepted;
      forall i :: 0 <= i < |accepted| ==> accepted[i].manifest.Some? && accepted[i].manifest.value.nodeId != id
  {
    if k in n.cache {
      RefreshesSpare(c, n, id, k, fetched, policy, now);
    }
    SweepSpares(n, id, now);
    RefreshAllSpares(c, n, id, fetch, policy, now);
    DiscoverySpares(n, id, net, selfId, cap, now);
  }
}
