/** One-shot manifest refresh of `refresh.py`, and the chain of manifests that repeated refreshes hold. */
module Refresh {
  import opened Options
  import opened Signing
  import opened Models
  import opened Admission

  /** The exceptions a call to a peer can end in, as far as the callers tell them apart. */
  datatype Failure =
    | Unverified(text: string)      // ManifestVerificationError with its message
    | Malformed                     // the body is not JSON or not the expected model
    | Transport(reason: string)     // an exception that transport_failure_reason names
    | Other(name: string)           // any other exception, by its class name

  datatype FetchResult = Fetched(manifest: Manifest) | Failed(failure: Failure)

  datatype RefreshDecision = RefreshDecision(
    action: Action,
    reason: string,
    manifest: Option<Manifest>,
    oldRevision: Option<int>,
    newRevision: Option<int>,
    keyContinuity: Option<KeyContinuityDecision>)

  /** A refresh either decides or lets an exception through. */
  datatype RefreshResult = Decided(decision: RefreshDecision) | Raised

  function Bare(action: Action, reason: string, oldRevision: Option<int>): RefreshDecision {
    RefreshDecision(action, reason, None, oldRevision, None, None)
  }

  /** refresh_peer_manifest */
  function Decide(c: Crypto, current: Manifest, fetched: FetchResult, policy: KeyContinuityPolicy): RefreshResult {
    match fetched
    case Failed(Unverified(text)) =>
      var reason := if text == "" then "bad_manifest" else text;
      if reason == "expired" || reason == "not_yet_valid"
      then Decided(Bare(Quarantine, "stale_manifest", Some(current.revision)))
      else Decided(Bare(Reject, reason, Some(current.revision)))
    case Failed(Transport(reason)) => Decided(Bare(Quarantine, reason, Some(current.revision)))
    case Failed(_) => Raised
    case Fetched(m) =>
      if m.revision < current.revision
      then Decided(RefreshDecision(Reject, "revision_rollback", Some(m), Some(current.revision), Some(m.revision),
          None))
      else
        var continuity := CheckKeyContinuity(c, current, m, policy);
        if continuity.action != Accept
        then Decided(RefreshDecision(continuity.action, continuity.reason, Some(m), Some(current.revision),
                                     Some(m.revision), Some(continuity)))
        else if m.revision == current.revision
        then Decided(RefreshDecision(Unchanged, "ok", Some(m), Some(current.revision), Some(m.revision),
            Some(continuity)))
        else Decided(RefreshDecision(Accept, "revision_bump", Some(m), Some(current.revision), Some(m.revision),
                                     Some(continuity)))
  }

  predicate Keeps(d: RefreshDecision) {
    d.action == Accept || d.action == Unchanged
  }

  /** The manifest a decision hands over for keeping, which is the one that was fetched. */
  lemma DecidesExactly(c: Crypto, current: Manifest, fetched: FetchResult, policy: KeyContinuityPolicy)
    ensures Decide(c, current, fetched, policy).Raised? <==>
        fetched.Failed? && (fetched.failure.Malformed? || fetched.failure.Other?)
    ensures var r := Decide(c, current, fetched, policy);
      r.Decided? ==>
        && (Keeps(r.decision) <==> fetched.Fetched? && Follows(c, current, fetched.manifest, policy))
        && (Keeps(r.decision) ==> r.decision.manifest == Some(fetched.manifest))
        && (r.decision.action == Unchanged <==> Keeps(r.decision) && fetched.manifest.revision == current.revision)
        && (r.decision.action == Accept <==> Keeps(r.decision) && fetched.manifest.revision > current.revision)
        && (r.decision.action == Quarantine <==>
              || (fetched.Failed? && fetched.failure.Transport?)
              || (fetched.Failed? && fetched.failure.Unverified? &&
                  fetched.failure.text in {"expired", "not_yet_valid"})
              || (fetched.Fetched? && current.revision <= fetched.manifest.revision &&
                  CheckKeyContinuity(c, current, fetched.manifest, policy).action == Quarantine))
        && r.decision.oldRevision == Some(current.revision)
        && r.decision.newRevision == (if fetched.Fetched? then Some(fetched.manifest.revision) else None)
  {
    if fetched.Fetched? {
      ContinuityKeptExactly(c, current, fetched.manifest, policy);
    }
  }

  /** What a decision reports besides its action: the reason, the manifest and the continuity it rests on. */
  lemma DecisionReports(c: Crypto, current: Manifest, fetched: FetchResult, policy: KeyContinuityPolicy)
    requires Decide(c, current, fetched, policy).Decided?
    ensures var d := Decide(c, current, fetched, policy).decision;
      && (fetched.Failed? ==> d.manifest == None && d.keyContinuity == None)
      && (fetched == Failed(Unverified("")) ==> d.action == Reject && d.reason == "bad_manifest")
      && (fetched == Failed(Unverified("expired")) ==> d.reason == "stale_manifest")
      && (fetched == Failed(Unverified("not_yet_valid")) ==> d.reason == "stale_manifest")
      && (forall text :: fetched == Failed(Unverified(text)) && text !in {"", "expired", "not_yet_valid"} ==>
            d.action == Reject && d.reason == text)
      && (forall reason :: fetched == Failed(Transport(reason)) ==> d.reason == reason)
    ensures var d := Decide(c, current, fetched, policy).decision;
      fetched.Fetched? ==>
        && d.manifest == Some(fetched.manifest)
        && (fetched.manifest.revision < current.revision ==>
              d.action == Reject && d.reason == "revision_rollback" && d.keyContinuity == None)
        && (fetched.manifest.revision >= current.revision ==>
              d.keyContinuity == Some(CheckKeyContinuity(c, current, fetched.manifest, policy)))
        && (d.action == Unchanged ==> d.reason == "ok")
        && (d.action == Accept ==> d.reason == "revision_bump")
        && (d.keyContinuity.Some? && !Keeps(d) ==>
              d.action == d.keyContinuity.value.action && d.reason == d.keyContinuity.value.reason)
  {
    if fetched.Fetched? {
      ContinuityReasons(c, current, fetched.manifest, policy);
      ContinuityKeptExactly(c, current, fetched.manifest, policy);
    }
  }

  // ---------- chains of refreshes ----------

  /** What one accepted refresh guarantees of the manifest that replaces another. */
  ghost predicate Follows(c: Crypto, before: Manifest, after: Manifest, policy: KeyContinuityPolicy) {
    && before.nodeId == after.nodeId && before.orgId == after.orgId
    && before.revision <= after.revision
    && (|| KeyMap(before.publicKeys) == KeyMap(after.publicKeys)
        || (policy.allowKeyRotation && (SignedByLastKey(c, before, after) || Endorsed(policy, after))))
  }

  datatype Attempt = Attempt(fetched: FetchResult, policy: KeyContinuityPolicy)

  /** The manifest held after an attempt: replaced when the decision keeps the fetched one. */
  function Held(c: Crypto, current: Manifest, a: Attempt): Manifest {
    match Decide(c, current, a.fetched, a.policy)
    case Raised => current
    case Decided(d) => if Keeps(d) && d.manifest.Some? then d.manifest.value else current
  }

  function HeldAfter(c: Crypto, first: Manifest, attempts: seq<Attempt>): Manifest {
    if attempts == [] then first
    else Held(c, HeldAfter(c, first, attempts[..|attempts| - 1]), attempts[|attempts| - 1])
  }

  lemma HeldFollows(c: Crypto, current: Manifest, a: Attempt)
    ensures Held(c, current, a) == current ||
            (a.fetched == Fetched(Held(c, current, a)) && Follows(c, current, Held(c, current, a), a.policy))
    ensures a.fetched.Fetched? && Follows(c, current, a.fetched.manifest, a.policy) ==>
        Held(c, current, a) == a.fetched.manifest
  {
    DecidesExactly(c, current, a.fetched, a.policy);
  }

  /**
   An unbroken chain of trust: along any series of refreshes the node and its
   organisation stay, the revision never goes back, and each manifest is the
   one before it or a fetched one that follows it.
   */
  lemma {:induction false} ChainOfTrust(c: Crypto, first: Manifest, attempts: seq<Attempt>, i: nat, j: nat)
    requires i <= j <= |attempts|
    ensures var a, b := HeldAfter(c, first, attempts[..i]), HeldAfter(c, first, attempts[..j]);
      a.nodeId == b.nodeId && a.orgId == b.orgId && a.revision <= b.revision
    ensures i + 1 == j ==>
      var a, b := HeldAfter(c, first, attempts[..i]), HeldAfter(c, first, attempts[..j]);
      b == a || (attempts[i].fetched == Fetched(b) && Follows(c, a, b, attempts[i].policy))
  {
    if i < j {
      ChainOfTrust(c, first, attempts, i, j - 1);
      assert attempts[..j][..j - 1] == attempts[..j - 1];
      HeldFollows(c, HeldAfter(c, first, attempts[..j - 1]), attempts[j - 1]);
    }
  }

  /** Where no attempt allows rotation the key map never changes. */
  lemma {:induction false} NoRotationKeepsKeys(c: Crypto, first: Manifest, attempts: seq<Attempt>)
    requires forall i :: 0 <= i < |attempts| ==> !attempts[i].policy.allowKeyRotation
    ensures KeyMap(HeldAfter(c, first, attempts).publicKeys) == KeyMap(first.publicKeys)
  {
    if attempts != [] {
      var n := |attempts| - 1;
      NoRotationKeepsKeys(c, first, attempts[..n]);
      HeldFollows(c, HeldAfter(c, first, attempts[..n]), attempts[n]);
    }
  }

  /**
   Without an endorsing verifier, every change of the key map along a chain is
   signed by a key that the manifest held just before it advertises.
   */
  lemma KeyChangesAreSigned(c: Crypto, first: Manifest, attempts: seq<Attempt>, i: nat)
    requires i < |attempts| && attempts[i].policy.evidenceVerifier == None
    ensures var a, b := HeldAfter(c, first, attempts[..i]), HeldAfter(c, first, attempts[..i + 1]);
      KeyMap(a.publicKeys) != KeyMap(b.publicKeys) ==> SignedByKeyOf(c, a, b)
  {
    ChainOfTrust(c, first, attempts, i, i + 1);
    var a, b := HeldAfter(c, first, attempts[..i]), HeldAfter(c, first, attempts[..i + 1]);
    ContinuityKeptExactly(c, a, b, attempts[i].policy);
  }

  /**
   An "unchanged" refresh need not hold the same keys: at an equal revision, a
   rotation signed under the old key is reported as unchanged and kept.
   */
  lemma UnchangedCanRotate(c: Crypto, current: Manifest, rotated: Manifest, policy: KeyContinuityPolicy)
    requires rotated.nodeId == current.nodeId && rotated.orgId == current.orgId && rotated.revision == current.revision
    requires KeyMap(rotated.publicKeys) != KeyMap(current.publicKeys)
    ensures (policy.allowKeyRotation && (SignedByLastKey(c, current, rotated) || Endorsed(policy, rotated))) <==>
              Decide(c, current, Fetched(rotated), policy).Decided? &&
              Decide(c, current, Fetched(rotated), policy).decision.action == Unchanged
  {
    DecidesExactly(c, current, Fetched(rotated), policy);
  }

  /** Such rotations exist: any other key map, signed under the key that the held manifest lists last for the signer. */
  lemma SignedRotationIsUnchanged(c: Crypto, current: Manifest, next: Manifest, key: Key, keyId: string)
    requires SignaturesVerify(c) && LookUp(KeyMap(current.publicKeys), keyId) == Some(c.publicJwk(key))
    requires next.nodeId == current.nodeId && next.orgId == current.orgId && next.revision == current.revision
    requires KeyMap(next.publicKeys) != KeyMap(current.publicKeys)
    ensures var rotated := next.(signature := SignModel(c, ManifestModel(next), key, keyId).signature);
      var r := Decide(c, current, Fetched(rotated), DEFAULT_CONTINUITY);
      r.Decided? && r.decision.action == Unchanged && r.decision.manifest == Some(rotated)
  {
    SignatureFits(c, ManifestModel(next), key, keyId);
    SignatureOf(c, ManifestModel(next), key, keyId);
    var rotated := next.(signature := SignModel(c, ManifestModel(next), key, keyId).signature);
    assert ManifestModel(rotated) == ManifestModel(next).(signature := rotated.signature);
  }
}
