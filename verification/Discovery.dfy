/** Bounded discovery of `discovery.py`: admitting peers from the membership hints of eligible ones. */
module Discovery {
  import opened Options
  import opened Models
  import opened Dicts
  import opened Guards
  import opened Admission
  import opened Membership
  import opened Refresh

  datatype MembersResult = Members(refs: seq<MemberRef>) | NoAnswer(failure: Failure)

  /**
   What the calls of one discovery come to: the answer of each asked peer by its
   node id, the manifest behind each URL, and the local admission decision.
   */
  datatype Network = Network(
    members: string -> MembersResult,
    fetch: string -> FetchResult,
    admits: Manifest -> AdmissionDecision)

  datatype Outcome = Outcome(nodeId: string, manifestUrl: string, sourceNodeId: string, reason: string,
                             manifest: Option<Manifest>)

  /** The fixed inputs of one discovery. */
  datatype Scope = Scope(net: Network, selfId: string, manifests: map<string, Manifest>, perPeerCap: int, now: int)

  /** How far a discovery has got; `fetched` lists the refs whose manifest was fetched. */
  datatype Scan = Scan(
    table: Table,
    accepted: seq<Outcome>,
    rejected: seq<Outcome>,
    skipped: seq<Outcome>,
    failed: seq<Outcome>,
    seenIds: set<string>,
    seenUrls: set<string>,
    fetched: seq<MemberRef>)

  /** _failure_reason */
  function FailureReason(f: Failure): string {
    match f
    case Unverified(text) => if text == "" then "bad_manifest" else text
    case Malformed => "malformed_manifest"
    case Transport(reason) => reason
    case Other(name) => name
  }

  /** _process_ref */
  function ProcessRef(sc: Scope, s: Scan, ref: MemberRef, source: string): Scan {
    var base := Outcome(ref.nodeId, ref.manifestUrl, source, "ok", None);
    var s := s.(fetched := s.fetched + [ref]);
    match sc.net.fetch(ref.manifestUrl)
    case Failed(f) => s.(failed := s.failed + [base.(reason := FailureReason(f))])
    case Fetched(m) =>
      if m.nodeId != ref.nodeId then
        s.(skipped := s.skipped + [base.(reason := "node_id_mismatch", manifest := Some(m))])
      else if m.nodeId == sc.selfId then
        s.(skipped := s.skipped + [base.(reason := "self", manifest := Some(m))])
      else if !sc.net.admits(m).accepted then
        s.(rejected := s.rejected + [base.(reason := sc.net.admits(m).reason, manifest := Some(m))])
      else
        s.(table := Put(s.table, m.nodeId, FreshRecord(m.nodeId, ref.manifestUrl, m.orgId, m.revision, sc.now)),
           accepted := s.accepted + [base.(manifest := Some(m))])
  }

  /** One ref of a peer's answer, at its position in it. */
  function ScanRef(sc: Scope, s: Scan, ref: MemberRef, index: int, source: string): Scan {
    var base := Outcome(ref.nodeId, ref.manifestUrl, source, "ok", None);
    if index >= sc.perPeerCap then s.(skipped := s.skipped + [base.(reason := "per_peer_cap")])
    else if ref.nodeId == sc.selfId then s.(skipped := s.skipped + [base.(reason := "self")])
    else if ref.nodeId in s.table.items then s.(skipped := s.skipped + [base.(reason := "existing_peer")])
    else if ref.nodeId in s.seenIds || ref.manifestUrl in s.seenUrls
    then s.(skipped := s.skipped + [base.(reason := "duplicate")])
    else
      ProcessRef(sc, s.(seenIds := s.seenIds + {ref.nodeId}, seenUrls := s.seenUrls + {ref.manifestUrl}), ref, source)
  }

  function ScanRefs(sc: Scope, s: Scan, refs: seq<MemberRef>, source: string): Scan {
    if refs == [] then s
    else
      var n := |refs| - 1;
      ScanRef(sc, ScanRefs(sc, s, refs[..n], source), refs[n], n, source)
  }

  function RecordOutcome(nodeId: string, url: string, reason: string): Outcome {
    Outcome(nodeId, url, nodeId, reason, None)
  }

  /** One eligible peer: without its manifest or its answer it yields one failure. */
  function ScanPeer(sc: Scope, s: Scan, peer: Member): Scan {
    if peer.nodeId !in sc.manifests then
      s.(failed := s.failed + [RecordOutcome(peer.nodeId, peer.manifestUrl, "missing_peer_manifest")])
    else
      match sc.net.members(peer.nodeId)
      case NoAnswer(f) =>
        s.(failed := s.failed + [RecordOutcome(peer.nodeId, peer.manifestUrl, FailureReason(f))])
      case Members(refs) => ScanRefs(sc, s, refs, sc.manifests[peer.nodeId].nodeId)
  }

  function ScanPeers(sc: Scope, s: Scan, peers: seq<Member>): Scan {
    if peers == [] then s
    else ScanPeer(sc, ScanPeers(sc, s, peers[..|peers| - 1]), peers[|peers| - 1])
  }

  function Start(table: Table): Scan {
    Scan(table, [], [], [], [], {}, {}, [])
  }

  /** refresh_discovered_members */
  function Discover(sc: Scope, table: Table): Scan
    requires WellFormed(table)
  {
    ScanPeers(sc, Start(table), EligiblePeers(table, sc.now))
  }

  // ---------- the imperative form ----------

  class Accumulator {
    var accepted: seq<Outcome>
    var rejected: seq<Outcome>
    var skipped: seq<Outcome>
    var failed: seq<Outcome>
    ghost var fetched: seq<MemberRef>

    constructor ()
      ensures accepted == rejected == skipped == failed == [] && fetched == []
    {
      accepted, rejected, skipped, failed, fetched := [], [], [], [], [];
    }

    /** Whether a table, the two seen-sets and these lists stand where a scan does. */
    ghost predicate At(s: Scan, table: Table, seenIds: set<string>, seenUrls: set<string>)
      reads this
    {
      s == Scan(table, accepted, rejected, skipped, failed, seenIds, seenUrls, fetched)
    }

    ghost predicate Reports(s: Scan, table: Table)
      reads this
    {
      At(s, table, s.seenIds, s.seenUrls)
    }
  }

  method ProcessOneRef(sc: Scope, table: MembershipTable, ref: MemberRef, source: string, outcomes: Accumulator,
                       ghost s: Scan)
    requires table.Valid() && outcomes.At(s, table.View(), s.seenIds, s.seenUrls)
    modifies table, outcomes
    ensures table.Valid() && fresh(table.Records() - old(table.Records()))
    ensures outcomes.At(ProcessRef(sc, s, ref, source), table.View(), s.seenIds, s.seenUrls)
  {
    var base := Outcome(ref.nodeId, ref.manifestUrl, source, "ok", None);
    var result := sc.net.fetch(ref.manifestUrl);
    outcomes.fetched := outcomes.fetched + [ref];
    if result.Failed? {
      outcomes.failed := outcomes.failed + [base.(reason := FailureReason(result.failure))];
      return;
    }
    var m := result.manifest;
    if m.nodeId != ref.nodeId {
      outcomes.skipped := outcomes.skipped + [base.(reason := "node_id_mismatch", manifest := Some(m))];
      return;
    }
    if m.nodeId == sc.selfId {
      outcomes.skipped := outcomes.skipped + [base.(reason := "self", manifest := Some(m))];
      return;
    }
    AdmitRef(sc, table, m, ref.manifestUrl, base, outcomes);
  }

  /** The end of _process_ref: the local admission of a fetched manifest. */
  method AdmitRef(sc: Scope, table: MembershipTable, m: Manifest, url: string, base: Outcome, outcomes: Accumulator)
    requires table.Valid()
    modifies table, outcomes
    ensures table.Valid() && fresh(table.Records() - old(table.Records()))
    ensures outcomes.failed == old(outcomes.failed) && outcomes.skipped == old(outcomes.skipped)
    ensures outcomes.fetched == old(outcomes.fetched)
    ensures var decision := sc.net.admits(m);
      if decision.accepted then
        && outcomes.accepted == old(outcomes.accepted) + [base.(manifest := Some(m))]
        && outcomes.rejected == old(outcomes.rejected)
        && table.View() == Put(old(table.View()), m.nodeId, FreshRecord(m.nodeId, url, m.orgId, m.revision, sc.now))
      else
        && outcomes.accepted == old(outcomes.accepted)
        && outcomes.rejected == old(outcomes.rejected) + [base.(reason := decision.reason, manifest := Some(m))]
        && table.View() == old(table.View())
  {
    var decision := sc.net.admits(m);
    if !decision.accepted {
      outcomes.rejected := outcomes.rejected + [base.(reason := decision.reason, manifest := Some(m))];
      assert table.View() == old(table.View());
      return;
    }
    Enrol(table, m.nodeId, url, m.orgId, m.revision, sc.now);
    ghost var after := table.View();
    outcomes.accepted := outcomes.accepted + [base.(manifest := Some(m))];
    assert table.View() == after;
  }

  /** The body of the inner loop. */
  method ScanOneRef(sc: Scope, table: MembershipTable, ref: MemberRef, index: int, source: string,
                    outcomes: Accumulator, seenIds: set<string>, seenUrls: set<string>, ghost s: Scan)
    returns (ids: set<string>, urls: set<string>)
    requires table.Valid() && outcomes.At(s, table.View(), seenIds, seenUrls)
    modifies table, outcomes
    ensures table.Valid() && fresh(table.Records() - old(table.Records()))
    ensures outcomes.At(ScanRef(sc, s, ref, index, source), table.View(), ids, urls)
  {
    ids, urls := seenIds, seenUrls;
    var base := Outcome(ref.nodeId, ref.manifestUrl, source, "ok", None);
    if index >= sc.perPeerCap {
      outcomes.skipped := outcomes.skipped + [base.(reason := "per_peer_cap")];
      return;
    }
    if ref.nodeId == sc.selfId {
      outcomes.skipped := outcomes.skipped + [base.(reason := "self")];
      return;
    }
    var known := table.Fetch(ref.nodeId);
    assert table.View() == s.table;
    if known != null {
      outcomes.skipped := outcomes.skipped + [base.(reason := "existing_peer")];
      return;
    }
    if ref.nodeId in seenIds || ref.manifestUrl in seenUrls {
      outcomes.skipped := outcomes.skipped + [base.(reason := "duplicate")];
      return;
    }
    ids := seenIds + {ref.nodeId};
    urls := seenUrls + {ref.manifestUrl};
    ProcessOneRef(sc, table, ref, source, outcomes, s.(seenIds := ids, seenUrls := urls));
  }

  /** The inner loop, over one peer's answer. */
  method ScanAnswer(sc: Scope, table: MembershipTable, refs: seq<MemberRef>, source: string, outcomes: Accumulator,
                    seenIds: set<string>, seenUrls: set<string>, ghost s: Scan)
    returns (ids: set<string>, urls: set<string>)
    requires table.Valid() && outcomes.At(s, table.View(), seenIds, seenUrls)
    modifies table, outcomes
    ensures table.Valid() && fresh(table.Records() - old(table.Records()))
    ensures outcomes.At(ScanRefs(sc, s, refs, source), table.View(), ids, urls)
  {
    ids, urls := seenIds, seenUrls;
    for index := 0 to |refs|
      invariant table.Valid() && fresh(table.Records() - old(table.Records()))
      invariant outcomes.At(ScanRefs(sc, s, refs[..index], source), table.View(), ids, urls)
    {
      ids, urls := ScanOneRef(sc, table, refs[index], index, source, outcomes, ids, urls,
                              ScanRefs(sc, s, refs[..index], source));
      assert refs[..index + 1][..index] == refs[..index];
    }
    assert refs[..|refs|] == refs;
  }

  /** The body of the outer loop. */
  method ScanOnePeer(sc: Scope, table: MembershipTable, rec: Member, outcomes: Accumulator, seenIds: set<string>,
                     seenUrls: set<string>, ghost s: Scan) returns (ids: set<string>, urls: set<string>)
    requires table.Valid() && outcomes.At(s, table.View(), seenIds, seenUrls)
    modifies table, outcomes
    ensures table.Valid() && fresh(table.Records() - old(table.Records()))
    ensures outcomes.At(ScanPeer(sc, s, rec), table.View(), ids, urls)
  {
    ids, urls := seenIds, seenUrls;
    if rec.nodeId !in sc.manifests {
      outcomes.failed := outcomes.failed + [RecordOutcome(rec.nodeId, rec.manifestUrl, "missing_peer_manifest")];
      return;
    }
    var answer := sc.net.members(rec.nodeId);
    if answer.NoAnswer? {
      outcomes.failed := outcomes.failed + [RecordOutcome(rec.nodeId, rec.manifestUrl, FailureReason(answer.failure))];
      return;
    }
    ids, urls := ScanAnswer(sc, table, answer.refs, sc.manifests[rec.nodeId].nodeId, outcomes, ids, urls, s);
  }

  /** The outer loop, over the eligible peers. */
  method ScanEligible(sc: Scope, table: MembershipTable, recs: seq<Member>, outcomes: Accumulator, ghost start: Scan)
    requires table.Valid() && outcomes.Reports(start, table.View()) && start == Start(table.View())
    modifies table, outcomes
    ensures table.Valid() && fresh(table.Records() - old(table.Records()))
    ensures outcomes.Reports(ScanPeers(sc, start, recs), table.View())
  {
    var seenIds: set<string>, seenUrls: set<string> := {}, {};
    for i := 0 to |recs|
      invariant table.Valid() && fresh(table.Records() - old(table.Records()))
      invariant outcomes.At(ScanPeers(sc, start, recs[..i]), table.View(), seenIds, seenUrls)
    {
      seenIds, seenUrls :=
        ScanOnePeer(sc, table, recs[i], outcomes, seenIds, seenUrls, ScanPeers(sc, start, recs[..i]));
      assert recs[..i + 1][..i] == recs[..i];
    }
    assert recs[..|recs|] == recs;
  }

  lemma DiscoverScans(sc: Scope, table: Table, peers: seq<Member>)
    requires WellFormed(table) && peers == EligiblePeers(table, sc.now)
    ensures ScanPeers(sc, Start(table), peers) == Discover(sc, table)
  {
  }

  method RefreshDiscoveredMembers(sc: Scope, table: MembershipTable) returns (outcomes: Accumulator)
    requires table.Valid()
    modifies table
    ensures table.Valid() && fresh(outcomes) && fresh(table.Records() - old(table.Records()))
    ensures outcomes.Reports(Discover(sc, old(table.View())), table.View())
  {
    ghost var before := table.View();
    var recs := Eligible(table, sc.now);
    assert table.View() == before;
    DiscoverScans(sc, before, recs);
    outcomes := new Accumulator();
    assert table.View() == before;
    ScanEligible(sc, table, recs, outcomes, Start(before));
  }

  // ---------- each ref is settled once ----------

  function EntryGuards(sc: Scope, s: Scan, ref: MemberRef, index: int): seq<Guard> {
    [Guard(index < sc.perPeerCap, "per_peer_cap"),
     Guard(ref.nodeId != sc.selfId, "self"),
     Guard(ref.nodeId !in s.table.items, "existing_peer"),
     Guard(ref.nodeId !in s.seenIds && ref.manifestUrl !in s.seenUrls, "duplicate")]
  }

  /** The reason reported for a failure, kind by kind. */
  predicate Explains(reason: string, f: Failure) {
    && (f == Unverified("") ==> reason == "bad_manifest")
    && (f.Unverified? && f.text != "" ==> reason == f.text)
    && (f.Malformed? ==> reason == "malformed_manifest")
    && (f.Transport? ==> reason == f.reason)
    && (f.Other? ==> reason == f.name)
  }

  /** A hint that fails an entry check: nothing but an outcome with the first one's reason is added. */
  ghost predicate TurnedAway(sc: Scope, s: Scan, t: Scan, ref: MemberRef, index: int, source: string) {
    var entry := FirstFailure(EntryGuards(sc, s, ref, index));
    entry.Some? && t == s.(skipped := s.skipped + [Outcome(ref.nodeId, ref.manifestUrl, source, entry.value, None)])
  }

  /** A scan that has entered a hint, before its manifest is looked at. */
  function Entered(s: Scan, ref: MemberRef): Scan {
    s.(fetched := s.fetched + [ref], seenIds := s.seenIds + {ref.nodeId}, seenUrls := s.seenUrls + {ref.manifestUrl})
  }

  /** The fetch failed: the hint is reported as failed, for that reason. */
  ghost predicate FailedFor(f: Failure, s: Scan, t: Scan, ref: MemberRef, source: string) {
    exists reason :: Explains(reason, f) &&
      t == s.(failed := s.failed + [Outcome(ref.nodeId, ref.manifestUrl, source, reason, None)])
  }

  /** The manifest is another node's: the hint is skipped, and the manifest reported with it. */
  predicate Mismatched(m: Manifest, s: Scan, t: Scan, ref: MemberRef, source: string) {
    t == s.(skipped := s.skipped + [Outcome(ref.nodeId, ref.manifestUrl, source, "node_id_mismatch", Some(m))])
  }

  /** Local admission refused the manifest: the hint is rejected with its reason. */
  predicate RefusedFor(reason: string, m: Manifest, s: Scan, t: Scan, ref: MemberRef, source: string) {
    t == s.(rejected := s.rejected + [Outcome(ref.nodeId, ref.manifestUrl, source, reason, Some(m))])
  }

  /** The hinted node becomes an active member under the hinted URL, last in the table. */
  predicate Joined(m: Manifest, s: Scan, t: Scan, ref: MemberRef, source: string, now: int) {
    var rec := Member(m.nodeId, ref.manifestUrl, Some(m.orgId), m.revision, Active, None, None, 0, Some(now));
    t == s.(accepted := s.accepted + [Outcome(ref.nodeId, ref.manifestUrl, source, "ok", Some(m))],
            table := Dict(s.table.order + [m.nodeId], s.table.items[m.nodeId := rec]))
  }

  /**
   What becomes of a hint.  It is skipped without a fetch for the first entry
   check it fails; else its manifest is fetched once, and the hint has failed,
   is skipped, is rejected or joins as the fetch, the node id and the local
   admission decide, each with its reason and nothing else changed.
   */
  lemma RefSettled(sc: Scope, s: Scan, ref: MemberRef, index: int, source: string)
    ensures var t, u := ScanRef(sc, s, ref, index, source), Entered(s, ref);
      if FirstFailure(EntryGuards(sc, s, ref, index)).Some? then TurnedAway(sc, s, t, ref, index, source)
      else match sc.net.fetch(ref.manifestUrl)
        case Failed(f) => FailedFor(f, u, t, ref, source)
        case Fetched(m) =>
          if m.nodeId != ref.nodeId then Mismatched(m, u, t, ref, source)
          else if sc.net.admits(m).accepted then Joined(m, u, t, ref, source, sc.now)
          else RefusedFor(sc.net.admits(m).reason, m, u, t, ref, source)
  {
    Unroll4(EntryGuards(sc, s, ref, index));
    var fetch := sc.net.fetch(ref.manifestUrl);
    if fetch.Failed? {
      assert Explains(FailureReason(fetch.failure), fetch.failure);
    }
  }

  /** A peer that cannot be asked, or does not answer, adds one failure about itself and changes nothing else. */
  lemma PeerSettled(sc: Scope, s: Scan, peer: Member)
    ensures peer.nodeId !in sc.manifests ==>
      ScanPeer(sc, s, peer) ==
        s.(failed := s.failed + [Outcome(peer.nodeId, peer.manifestUrl, peer.nodeId, "missing_peer_manifest", None)])
    ensures peer.nodeId in sc.manifests && sc.net.members(peer.nodeId).NoAnswer? ==>
      exists reason :: Explains(reason, sc.net.members(peer.nodeId).failure) &&
        ScanPeer(sc, s, peer) ==
          s.(failed := s.failed + [Outcome(peer.nodeId, peer.manifestUrl, peer.nodeId, reason, None)])
  {
    if peer.nodeId in sc.manifests && sc.net.members(peer.nodeId).NoAnswer? {
      var f := sc.net.members(peer.nodeId).failure;
      assert Explains(FailureReason(f), f);
    }
  }

  // ---------- in the order of the hints ----------

  /** A later state of a scan: the lists have only been added to, at their ends. */
  predicate Continues(s: Scan, t: Scan) {
    && s.table.order <= t.table.order && s.fetched <= t.fetched
    && s.accepted <= t.accepted && s.rejected <= t.rejected && s.skipped <= t.skipped && s.failed <= t.failed
    && s.seenIds <= t.seenIds && s.seenUrls <= t.seenUrls
  }

  lemma RefContinues(sc: Scope, s: Scan, ref: MemberRef, index: int, source: string)
    ensures Continues(s, ScanRef(sc, s, ref, index, source))
  {
  }

  lemma {:induction false} RefsContinue(sc: Scope, s: Scan, refs: seq<MemberRef>, source: string, i: nat)
    requires i <= |refs|
    ensures Continues(ScanRefs(sc, s, refs[..i], source), ScanRefs(sc, s, refs, source))
  {
    if i < |refs| {
      var n := |refs| - 1;
      RefsContinue(sc, s, refs[..n], source, i);
      assert refs[..n][..i] == refs[..i];
      RefContinues(sc, ScanRefs(sc, s, refs[..n], source), refs[n], n, source);
    } else {
      assert refs[..i] == refs;
    }
  }

  lemma {:induction false} PeersContinue(sc: Scope, s: Scan, peers: seq<Member>, i: nat)
    requires i <= |peers|
    ensures Continues(ScanPeers(sc, s, peers[..i]), ScanPeers(sc, s, peers))
  {
    if i < |peers| {
      var n := |peers| - 1;
      PeersContinue(sc, s, peers[..n], i);
      assert peers[..n][..i] == peers[..i];
      var mid, peer := ScanPeers(sc, s, peers[..n]), peers[n];
      if peer.nodeId in sc.manifests && sc.net.members(peer.nodeId).Members? {
        var refs, source := sc.net.members(peer.nodeId).refs, sc.manifests[peer.nodeId].nodeId;
        assert refs[..0] == [];
        RefsContinue(sc, mid, refs, source, 0);
      }
    } else {
      assert peers[..i] == peers;
    }
  }

  /** Where the scan stands when it comes to hint i of the answer of eligible peer p. */
  function Reached(sc: Scope, table: Table, p: nat, refs: seq<MemberRef>, i: nat): Scan
    requires WellFormed(table) && p < |EligiblePeers(table, sc.now)| && i <= |refs|
    requires EligiblePeers(table, sc.now)[p].nodeId in sc.manifests
  {
    var peers := EligiblePeers(table, sc.now);
    ScanRefs(sc, ScanPeers(sc, Start(table), peers[..p]), refs[..i], sc.manifests[peers[p].nodeId].nodeId)
  }

  /**
   Every hint is settled where the scan stands when it comes to it, earlier
   hints first, and what it added is kept in place in the report.
   */
  lemma SettledInOrder(sc: Scope, table: Table, p: nat, refs: seq<MemberRef>, i: nat)
    requires WellFormed(table) && p < |EligiblePeers(table, sc.now)| && i < |refs|
    requires var id := EligiblePeers(table, sc.now)[p].nodeId; id in sc.manifests && sc.net.members(id) == Members(refs)
    ensures var source := sc.manifests[EligiblePeers(table, sc.now)[p].nodeId].nodeId;
      Reached(sc, table, p, refs, i + 1) == ScanRef(sc, Reached(sc, table, p, refs, i), refs[i], i, source)
    ensures Continues(Reached(sc, table, p, refs, i + 1), Discover(sc, table))
  {
    var peers := EligiblePeers(table, sc.now);
    var source := sc.manifests[peers[p].nodeId].nodeId;
    var before := ScanPeers(sc, Start(table), peers[..p]);
    assert refs[..i + 1][..i] == refs[..i];
    RefsContinue(sc, before, refs, source, i + 1);
    assert peers[..p + 1][..p] == peers[..p];
    assert ScanPeers(sc, Start(table), peers[..p + 1]) == ScanRefs(sc, before, refs, source);
    PeersContinue(sc, Start(table), peers, p + 1);
  }

  // ---------- the table stays safe ----------

  function Ids(outcomes: seq<Outcome>): seq<string> {
    seq(|outcomes|, i requires 0 <= i < |outcomes| => outcomes[i].nodeId)
  }

  function RefIds(refs: seq<MemberRef>): seq<string> {
    seq(|refs|, i requires 0 <= i < |refs| => refs[i].nodeId)
  }

  function RefUrls(refs: seq<MemberRef>): seq<string> {
    seq(|refs|, i requires 0 <= i < |refs| => refs[i].manifestUrl)
  }

  /** An accepted outcome and the record it put into the table. */
  ghost predicate Vouched(sc: Scope, before: Table, after: Table, o: Outcome) {
    && o.manifest.Some? && sc.net.fetch(o.manifestUrl) == Fetched(o.manifest.value)
    && o.manifest.value.nodeId == o.nodeId && sc.net.admits(o.manifest.value).accepted
    && o.nodeId != sc.selfId && o.nodeId !in before.items && o.nodeId in after.items
    && after.items[o.nodeId] ==
         Member(o.nodeId, o.manifestUrl, Some(o.manifest.value.orgId), o.manifest.value.revision, Active, None, None, 0,
                Some(sc.now))
  }

  /** Existing records are as before, and the new ones are those of the accepted outcomes, in order. */
  ghost predicate TableSafe(sc: Scope, before: Table, s: Scan) {
    && WellFormed(s.table)
    && s.table.order == before.order + Ids(s.accepted)
    && (forall k :: k in before.items ==> k in s.table.items && s.table.items[k] == before.items[k])
    && (forall i :: 0 <= i < |s.accepted| ==> Vouched(sc, before, s.table, s.accepted[i]))
  }

  /** No node and no URL is fetched twice, and never this node or one the table held. */
  ghost predicate FetchesOnce(sc: Scope, before: Table, s: Scan) {
    && NoDuplicates(RefIds(s.fetched)) && NoDuplicates(RefUrls(s.fetched))
    && (forall k :: k in RefIds(s.fetched) <==> k in s.seenIds)
    && (forall u :: u in RefUrls(s.fetched) <==> u in s.seenUrls)
    && (forall i :: 0 <= i < |s.fetched| ==> s.fetched[i].nodeId != sc.selfId && s.fetched[i].nodeId !in before.items)
  }

  lemma RefKeepsTableSafe(sc: Scope, before: Table, s: Scan, ref: MemberRef, index: int, source: string)
    requires TableSafe(sc, before, s)
    ensures TableSafe(sc, before, ScanRef(sc, s, ref, index, source))
  {
    var t := ScanRef(sc, s, ref, index, source);
    if t.accepted != s.accepted {
      var m := sc.net.fetch(ref.manifestUrl).manifest;
      PutWellFormed(s.table, m.nodeId, FreshRecord(m.nodeId, ref.manifestUrl, m.orgId, m.revision, sc.now));
      assert Ids(t.accepted) == Ids(s.accepted) + [ref.nodeId];
      assert before.order + Ids(s.accepted) + [ref.nodeId] == before.order + (Ids(s.accepted) + [ref.nodeId]);
      forall i | 0 <= i < |t.accepted| ensures Vouched(sc, before, t.table, t.accepted[i]) {
        if i < |s.accepted| {
          assert Vouched(sc, before, s.table, s.accepted[i]);
        }
      }
    } else {
      assert t.table == s.table;
    }
  }

  lemma SnocNoDuplicates(s: seq<string>, x: string)
    requires NoDuplicates(s) && x !in s
    ensures NoDuplicates(s + [x])
  {
  }

  lemma RefKeepsFetchesOnce(sc: Scope, before: Table, s: Scan, ref: MemberRef, index: int, source: string)
    requires FetchesOnce(sc, before, s)
    requires forall k :: k in before.items ==> k in s.table.items
    ensures FetchesOnce(sc, before, ScanRef(sc, s, ref, index, source))
  {
    var t := ScanRef(sc, s, ref, index, source);
    if t.fetched != s.fetched {
      assert t.fetched == s.fetched + [ref];
      assert RefIds(t.fetched) == RefIds(s.fetched) + [ref.nodeId];
      assert RefUrls(t.fetched) == RefUrls(s.fetched) + [ref.manifestUrl];
      SnocNoDuplicates(RefIds(s.fetched), ref.nodeId);
      SnocNoDuplicates(RefUrls(s.fetched), ref.manifestUrl);
    }
  }

  lemma {:induction false} RefsKeepSafe(sc: Scope, before: Table, s: Scan, refs: seq<MemberRef>, source: string)
    requires TableSafe(sc, before, s) && FetchesOnce(sc, before, s)
    ensures TableSafe(sc, before, ScanRefs(sc, s, refs, source)) &&
        FetchesOnce(sc, before, ScanRefs(sc, s, refs, source))
  {
    if refs != [] {
      var n := |refs| - 1;
      RefsKeepSafe(sc, before, s, refs[..n], source);
      var mid := ScanRefs(sc, s, refs[..n], source);
      RefKeepsTableSafe(sc, before, mid, refs[n], n, source);
      RefKeepsFetchesOnce(sc, before, mid, refs[n], n, source);
    }
  }

  lemma {:induction false} PeersKeepSafe(sc: Scope, before: Table, s: Scan, peers: seq<Member>)
    requires TableSafe(sc, before, s) && FetchesOnce(sc, before, s)
    ensures TableSafe(sc, before, ScanPeers(sc, s, peers)) && FetchesOnce(sc, before, ScanPeers(sc, s, peers))
  {
    if peers != [] {
      var n := |peers| - 1;
      PeersKeepSafe(sc, before, s, peers[..n]);
      var mid, peer := ScanPeers(sc, s, peers[..n]), peers[n];
      if peer.nodeId in sc.manifests && sc.net.members(peer.nodeId).Members? {
        RefsKeepSafe(sc, before, mid, sc.net.members(peer.nodeId).refs, sc.manifests[peer.nodeId].nodeId);
      }
    }
  }

  lemma StartIsSafe(sc: Scope, table: Table)
    requires WellFormed(table)
    ensures TableSafe(sc, table, Start(table)) && FetchesOnce(sc, table, Start(table))
  {
    var start := Start(table);
    assert RefIds(start.fetched) == [] && RefUrls(start.fetched) == [] && Ids(start.accepted) == [];
    assert table.order + [] == table.order;
  }

  /** In a safe table the new records are those of the accepted outcomes, one each. */
  lemma NewAreAccepted(sc: Scope, before: Table, s: Scan)
    requires WellFormed(before) && TableSafe(sc, before, s)
    ensures NoDuplicates(Ids(s.accepted))
    ensures forall k :: k in s.table.items && k !in before.items <==> k in Ids(s.accepted)
  {
    Appended(before.order, Ids(s.accepted));
  }

  lemma Appended(order: seq<string>, ids: seq<string>)
    requires NoDuplicates(order + ids)
    ensures NoDuplicates(ids)
    ensures forall k :: k in order + ids && k !in order <==> k in ids
  {
    var all, m := order + ids, |order|;
    forall i, j | 0 <= i < j < |ids| ensures ids[i] != ids[j] {
      assert all[m + i] == ids[i] && all[m + j] == ids[j];
    }
    forall k | k in ids ensures k !in order {
      var i :| 0 <= i < |ids| && ids[i] == k;
      assert all[m + i] == k;
      forall j | 0 <= j < m ensures order[j] != k {
        assert all[j] == order[j];
      }
    }
  }

  /** Discovery never alters a record, adds exactly the accepted peers, and fetches nothing twice. */
  lemma DiscoveryKeepsTableSafe(sc: Scope, table: Table)
    requires WellFormed(table)
    ensures TableSafe(sc, table, Discover(sc, table)) && FetchesOnce(sc, table, Discover(sc, table))
    ensures NoDuplicates(Ids(Discover(sc, table).accepted))
    ensures forall k :: k in Discover(sc, table).table.items && k !in table.items <==>
        k in Ids(Discover(sc, table).accepted)
  {
    StartIsSafe(sc, table);
    PeersKeepSafe(sc, table, Start(table), EligiblePeers(table, sc.now));
    NewAreAccepted(sc, table, Discover(sc, table));
  }

  // ---------- fetches are bounded ----------

  function Cap(sc: Scope): nat {
    if sc.perPeerCap < 0 then 0 else sc.perPeerCap
  }

  lemma {:induction false} RefsFetchBounded(sc: Scope, s: Scan, refs: seq<MemberRef>, source: string)
    ensures |s.fetched| <= |ScanRefs(sc, s, refs, source).fetched|
    ensures |ScanRefs(sc, s, refs, source).fetched| <= |s.fetched| + if |refs| <= Cap(sc) then |refs| else Cap(sc)
  {
    if refs != [] {
      RefsFetchBounded(sc, s, refs[..|refs| - 1], source);
    }
  }

  lemma {:induction false} PeersFetchBounded(sc: Scope, s: Scan, peers: seq<Member>)
    ensures |ScanPeers(sc, s, peers).fetched| <= |s.fetched| + |peers| * Cap(sc)
  {
    if peers != [] {
      var n := |peers| - 1;
      PeersFetchBounded(sc, s, peers[..n]);
      var mid, peer := ScanPeers(sc, s, peers[..n]), peers[n];
      assert |peers| * Cap(sc) == n * Cap(sc) + Cap(sc);
      if peer.nodeId in sc.manifests && sc.net.members(peer.nodeId).Members? {
        RefsFetchBounded(sc, mid, sc.net.members(peer.nodeId).refs, sc.manifests[peer.nodeId].nodeId);
      }
    }
  }

  lemma DiscoveryFetchBounded(sc: Scope, table: Table)
    requires WellFormed(table)
    ensures |Discover(sc, table).fetched| <= |EligiblePeers(table, sc.now)| * Cap(sc)
  {
    PeersFetchBounded(sc, Start(table), EligiblePeers(table, sc.now));
  }

  // ---------- outcomes are conserved ----------

  /** What an outcome is about: the hinted node, the URL and the peer that hinted. */
  datatype Tag = Tag(nodeId: string, manifestUrl: string, sourceNodeId: string)

  function TagOf(o: Outcome): Tag {
    Tag(o.nodeId, o.manifestUrl, o.sourceNodeId)
  }

  function Tags(outcomes: seq<Outcome>): multiset<Tag> {
    if outcomes == [] then multiset{}
    else Tags(outcomes[..|outcomes| - 1]) + multiset{TagOf(outcomes[|outcomes| - 1])}
  }

  function AllTags(s: Scan): multiset<Tag> {
    Tags(s.accepted) + Tags(s.rejected) + Tags(s.skipped) + Tags(s.failed)
  }

  lemma TagsSnoc(outcomes: seq<Outcome>, o: Outcome)
    ensures Tags(outcomes + [o]) == Tags(outcomes) + multiset{TagOf(o)}
  {
    assert (outcomes + [o])[..|outcomes|] == outcomes;
  }

  function RefTags(refs: seq<MemberRef>, source: string): multiset<Tag> {
    if refs == [] then multiset{}
    else
      var last := refs[|refs| - 1];
      RefTags(refs[..|refs| - 1], source) + multiset{Tag(last.nodeId, last.manifestUrl, source)}
  }

  /** What the eligible peers owe: one outcome per ref of an answer, one per peer that could not be asked. */
  function Owed(sc: Scope, peers: seq<Member>): multiset<Tag> {
    if peers == [] then multiset{}
    else
      var peer := peers[|peers| - 1];
      Owed(sc, peers[..|peers| - 1]) +
      if peer.nodeId in sc.manifests && sc.net.members(peer.nodeId).Members?
      then RefTags(sc.net.members(peer.nodeId).refs, sc.manifests[peer.nodeId].nodeId)
      else multiset{Tag(peer.nodeId, peer.manifestUrl, peer.nodeId)}
  }

  /** One outcome was appended to one of the lists. */
  predicate OneMore(s: Scan, t: Scan, o: Outcome) {
    || (t.accepted == s.accepted + [o] && t.rejected == s.rejected && t.skipped == s.skipped && t.failed == s.failed)
    || (t.accepted == s.accepted && t.rejected == s.rejected + [o] && t.skipped == s.skipped && t.failed == s.failed)
    || (t.accepted == s.accepted && t.rejected == s.rejected && t.skipped == s.skipped + [o] && t.failed == s.failed)
    || (t.accepted == s.accepted && t.rejected == s.rejected && t.skipped == s.skipped && t.failed == s.failed + [o])
  }

  lemma OneMoreTag(s: Scan, t: Scan, o: Outcome)
    requires OneMore(s, t, o)
    ensures AllTags(t) == AllTags(s) + multiset{TagOf(o)}
  {
    if t.accepted == s.accepted + [o] {
      TagsSnoc(s.accepted, o);
    } else if t.rejected == s.rejected + [o] {
      TagsSnoc(s.rejected, o);
    } else if t.skipped == s.skipped + [o] {
      TagsSnoc(s.skipped, o);
    } else {
      TagsSnoc(s.failed, o);
    }
    AddAnywhere(Tags(s.accepted), Tags(s.rejected), Tags(s.skipped), Tags(s.failed), multiset{TagOf(o)});
  }

  lemma AddAnywhere(a: multiset<Tag>, b: multiset<Tag>, c: multiset<Tag>, d: multiset<Tag>, x: multiset<Tag>)
    ensures (a + x) + b + c + d == a + b + c + d + x
    ensures a + (b + x) + c + d == a + b + c + d + x
    ensures a + b + (c + x) + d == a + b + c + d + x
    ensures a + b + c + (d + x) == a + b + c + d + x
  {
  }

  lemma RefAddsOne(sc: Scope, s: Scan, ref: MemberRef, index: int, source: string) returns (o: Outcome)
    ensures OneMore(s, ScanRef(sc, s, ref, index, source), o) && TagOf(o) == Tag(ref.nodeId, ref.manifestUrl, source)
  {
    var t := ScanRef(sc, s, ref, index, source);
    o := if |t.accepted| > |s.accepted| then t.accepted[|s.accepted|]
         else if |t.rejected| > |s.rejected| then t.rejected[|s.rejected|]
         else if |t.skipped| > |s.skipped| then t.skipped[|s.skipped|]
         else t.failed[|s.failed|];
  }

  lemma RefAddsOneOutcome(sc: Scope, s: Scan, ref: MemberRef, index: int, source: string)
    ensures AllTags(ScanRef(sc, s, ref, index, source))
        == AllTags(s) + multiset{Tag(ref.nodeId, ref.manifestUrl, source)}
  {
    var o := RefAddsOne(sc, s, ref, index, source);
    OneMoreTag(s, ScanRef(sc, s, ref, index, source), o);
  }

  lemma {:induction false} RefsAddOwed(sc: Scope, s: Scan, refs: seq<MemberRef>, source: string)
    ensures AllTags(ScanRefs(sc, s, refs, source)) == AllTags(s) + RefTags(refs, source)
  {
    if refs != [] {
      var n := |refs| - 1;
      RefsAddOwed(sc, s, refs[..n], source);
      RefAddsOneOutcome(sc, ScanRefs(sc, s, refs[..n], source), refs[n], n, source);
    }
  }

  lemma {:induction false} PeersAddOwed(sc: Scope, s: Scan, peers: seq<Member>)
    ensures AllTags(ScanPeers(sc, s, peers)) == AllTags(s) + Owed(sc, peers)
  {
    if peers != [] {
      var n := |peers| - 1;
      PeersAddOwed(sc, s, peers[..n]);
      PeerAddsOwed(sc, ScanPeers(sc, s, peers[..n]), peers[n]);
    }
  }

  lemma PeerAddsOwed(sc: Scope, s: Scan, peer: Member)
    ensures AllTags(ScanPeer(sc, s, peer)) == AllTags(s) +
      if peer.nodeId in sc.manifests && sc.net.members(peer.nodeId).Members?
      then RefTags(sc.net.members(peer.nodeId).refs, sc.manifests[peer.nodeId].nodeId)
      else multiset{Tag(peer.nodeId, peer.manifestUrl, peer.nodeId)}
  {
    var t := ScanPeer(sc, s, peer);
    if peer.nodeId in sc.manifests && sc.net.members(peer.nodeId).Members? {
      RefsAddOwed(sc, s, sc.net.members(peer.nodeId).refs, sc.manifests[peer.nodeId].nodeId);
    } else {
      TagsSnoc(s.failed, t.failed[|s.failed|]);
    }
  }

  /**
   The four lists together hold exactly the outcomes owed, for every table and every pattern of
   answers and failures.
   */
  lemma DiscoveryConservesOutcomes(sc: Scope, table: Table)
    requires WellFormed(table)
    ensures AllTags(Discover(sc, table)) == Owed(sc, EligiblePeers(table, sc.now))
  {
    PeersAddOwed(sc, Start(table), EligiblePeers(table, sc.now));
  }
}
