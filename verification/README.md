# Verification of the federlet protocol core

federlet lets nodes of a federation find, admit and talk to each other without a
hub.  Its protocol state is small but has to stay right over long runs: which
peers are members, whose manifest is trusted, which nonces were claimed, who may
still be asked.  This project models that state in Dafny and proves what holds
over every run of it.

How the modules map to the library:

- `Base64Url`, `Signing`, `Models`: unpadded base64url, detached signatures over
  wire models, and the JSON dump and re-validation around every signature
  (`crypto.py`, `signing.py`, `models.py`).
- `Requests`: the guard cascade over signed requests, the nonce claim that
  follows it, and runs of calls against one nonce cache (`signing.py`).
- `Admission`, `Domains`, `Refresh`: local admission, endpoint domains, key
  continuity, and the manifests that repeated refreshes hold (`admission.py`,
  `refresh.py`).
- `Membership`, `Dicts`: member records, backoff, disclosure by cursor,
  revocation notices, the in-memory table (`membership.py`).
- `Discovery`: bounded discovery from membership hints (`discovery.py`).
- `NodeState`, `NodeRuns`, `FederationNodes`: the facade that keeps membership
  table, manifest cache and manifest store in step (`node.py`).  `NodeState`
  holds each operation as a step on values, `FederationNodes` runs the steps in
  place on classes, `NodeRuns` proves what whole runs guarantee.
- `Lifecycle`: admission, bootstrap recording, revocation and hydration as tasks
  split at every await, contending for the lifecycle lock.
- `StaleWrites`: the same state changed write by write, with refresh decisions
  and discovery writes that were prepared before a revocation and land after it.
- `Laws`: primitives that meet every law asked of them.
- `RateLimit`: the token bucket (`protocols/rate_limit.py`).
- `Guards`, `Texts`, `Options`: ordered checks, string operations, optional values.

Conventions.  Instants and spans are integers in microseconds; the token bucket
uses exact reals.  Whatever the library takes from outside (clock readings,
fetched manifests, answers of peers, evidence verifiers, the authorize
predicate, URL parsing, the cryptographic primitives) is a parameter.  Nothing
is assumed of the primitives except where a lemma asks for it: that a matching
signature verifies (`SignaturesVerify`), that it verifies for the signed bytes
only, under whatever key (`SignaturesBind`), that of the public halves of keys
only its own verifies it (`KeysBind`), that the canonical form tells apart the
bodies of different requests (`RequestsCanonical`), of different notices
(`NoticesCanonical`) and of manifests with different modelled fields
(`ManifestsCanonical`).  Injectivity on all payloads is not asked for: RFC 8785
renders 1 and 1.0 alike, as the extensions of a manifest may hold them.  `Laws`
shows that the laws can be met together.
A `NonceCache` entry lives through its expiry instant.

## What the model shows about the code

Where the documentation, a comment or a docstring promises more than the code
does, the model follows the code, proves the exact condition for all inputs, and
shows inputs on its failing side.

- `docs/ADR-005-HUBLESS-FEDERATION-CORE.md:265` says that a signed request
  cannot be replayed if the receiver uses a nonce cache.  A claim lives for the
  skew window from the claim, a request stays fresh until the window after its
  timestamp, and neither its signature nor its nonce key sees the fraction of
  that timestamp's second.  So a signed request can be accepted again, restamped
  within its second, exactly when the last microsecond of the second lies after
  the first claim, put off by the time the later call takes from check to claim
  (`Requests.ReplayableExactly`); an identical envelope, when its own timestamp
  does (`Requests.EnvelopeReplayableExactly`).  A request that arrives within the
  second it was built in is one (`Requests.BuiltIsReplayableExactly`).
- The comment at `src/federlet/node.py:331-334` says that REVOKED stays terminal
  until an operator clears the record, and that the evicted manifest should not
  be remembered again.  A refresh decision or a discovered peer prepared before
  the revocation is written after it without another look.  The peer stays
  revoked and without a manifest through exactly the runs of writes that hold no
  refresh decision on it, none that keeps a manifest of it, no enrolment and no
  remembering of it by discovery (`StaleWrites.RevocationSurvivesExactly`).  As
  long as it is out, nothing that reads the node prepares such a write
  (`StaleWrites.LaterReadsSpare`); but a manifest remembered late is used by
  verification and by the next refresh, which makes the record active again
  (`StaleWrites.LateRememberReadmits`).
- Admission asks for no continuity with a manifest that is known.  The revision
  of a recorded peer goes back exactly when the host admits an older manifest of
  it (`NodeRuns.GoesBackExactly`), which a policy without verifiers of its own
  does at any revision (`NodeRuns.PolicyGoesBack`).
- `CooldownPolicy.next_cooldown` builds the product before it applies the cap.
  From the first failure count whose product exceeds the largest timedelta it
  raises OverflowError; with the default policy that is the forty-third failure
  in a row.  `record_failure` has then only counted the failure, and the
  cooldown no longer moves (`Membership.BackoffFitsExactly`,
  `Membership.DefaultBackoffFits`, `Membership.OverflowFreezesCooldown`).
- Polling members by cursor misses a member exactly when its record was not
  stamped since and its cooldown ended between the polls
  (`Membership.MissedExactly`), such as one that failed once
  (`Membership.FailedOnceIsMissed`).
- A signature carries over to every model whose body has the same canonical form
  (`Signing.MovedSignature`), such as one with 1.0 for 1 in its extensions.
- Timestamps are signed in whole seconds, so a signature also covers the same
  request with another fraction of the second (`Models.MovedRequestSignature`).
- A refresh reported as unchanged need not hold the same keys: at an equal
  revision a rotation signed under the old key is kept as unchanged
  (`Refresh.UnchangedCanRotate`, `Refresh.SignedRotationIsUnchanged`).
- `find_jwk` takes the first entry of a repeated key identifier and the key map
  of `check_key_continuity` the last.  Under an unchanged key map, a lookup whose
  first and last entry agree before a refresh is kept exactly when they agree
  after it (`Admission.EqualMapsEqualLookup`), and where the keys are genuine a
  lookup that changed is seen by some request (`Requests.SameResultsExactly`).
- Nonce keys join their parts with colons.  A request shares its key with no
  other request to its node exactly when neither its federation nor its source
  has a colon and its target between colons occurs only in its place
  (`Requests.NonceKeyOwnedExactly`); node identifiers do have colons, and a
  colon in the federation or in the source leads to a twin, as does a nonce that
  repeats the target.
- `b64u_decode` is the lenient decoder of the standard library: it skips
  characters that are neither data nor padding, but computes the padding from
  the length with them.  Which strings decode is proved for all strings
  (`Base64Url.LenientlyDecodes`, `Base64Url.UnpaddedDecodes`), as is which
  survive decoding and encoding (`Base64Url.EncodesBackExactly`); a stray
  character behind an encoding spoils it unless it is made of whole groups
  (`Base64Url.StrayCharacter`).

## Model

| member | source | states |
|---|---|---|
| Lifecycle.RevocationSticks | src/federlet/node.py:314-346 | in every interleaving, split at awaits, of any number of admissions, bootstrap recordings, revocations and hydrations: once a revocation that returned REVOKED has released the lock, its peer stays revoked through all further steps of all tasks, even inside another task's critical section; no manifest of it is cached or stored, and every request of it is refused as unknown_peer without touching the nonce cache |
| Lifecycle.Play | src/federlet/node.py:102-110 | every world an interleaving reaches keeps the world invariant: one holder, the node partway into exactly the holder's operation, and every returned revocation upheld |
| Lifecycle.InterleavingIsSequential | src/federlet/node.py:326-346 | every interleaving is a sequential run of whole operations in the order of their releases: with the lock free the node is what the released operations make of the first node, and it is consistent |
| Lifecycle.DoneStays | src/federlet/node.py:314-324 | a finished task keeps its job and result in every continuation |
| Lifecycle.TaskDoesItsJob | src/federlet/node.py:166-217 | in every interleaving, what a task has released since it was spawned and what it has still to do are together exactly the operations of its job in order, one per seed of a bootstrap and one for an accepted admission with a URL; once done it has released them all and none twice |
| Lifecycle.HolderReleases | src/federlet/node.py:104-110 | in every world that an interleaving reaches, advancing the holder of the lock at most six times frees it |
| Lifecycle.HolderProgresses | src/federlet/node.py:104-110 | the holder is never stuck: each of its steps strictly reduces the steps left before the release, and the release frees the lock |
| Lifecycle.PartialKeepsRevoked | src/federlet/node.py:327-346 | at every await inside a critical section a peer that was revoked before is still revoked, with no manifest in cache or store |
| Lifecycle.ReleasedIsPerformed | src/federlet/node.py:326-346 | the steps of a critical section add up to the whole operation |
| NodeRuns.PerformKeepsInv | src/federlet/node.py:348-383 | each of hydrate, admit, bootstrap, discover, refresh, refresh all and revoke keeps the invariant: manifests keyed by their own node, the cache within the store, no manifest of a revoked or rejected record, record and manifest revisions equal |
| NodeRuns.Run | src/federlet/node.py:348-383 | every state that a run of operations reaches from a consistent one is consistent |
| NodeRuns.RunKeepsTrust | src/federlet/node.py:348-373 | over every run, from each state to the next, the manifest known of a recorded peer is kept, or dropped and not found again, or replaced by a refreshed one that follows it in trust under that refresh's policy, unless that very operation admits the peer anew |
| NodeRuns.RevisionsNeverGoBack | src/federlet/node.py:348-373 | over every run in which no admission of a recorded peer takes effect, the manifest known of it keeps its node and organisation, never goes back in revision, and once dropped does not come back |
| NodeRuns.RunGoesBackExactly | src/federlet/node.py:166-185 | at every step of every run, the manifest known of a recorded peer goes back in revision exactly when the host admits an older one |
| NodeRuns.GoesBackExactly | src/federlet/node.py:166-217 | an operation takes a recorded peer back in revision exactly when it admits, or last seeds, an older manifest of it |
| NodeRuns.PolicyGoesBack | src/federlet/node.py:166-185 | on every consistent node that has not revoked a peer, a policy without verifiers of its own admits a manifest of it and then the same one at an older revision, and the older one is then known |
| NodeRuns.KnownAreTraced | src/federlet/node.py:375-383 | every manifest known after an operation was known before it, or was admitted by the host or by discovery, or is a refreshed one that follows the one before |
| NodeRuns.PolicyKnowsSigned | src/federlet/node.py:166-239 | over every run of a node that admits, seeds and discovers by its admission policy and whose client checks what it fetches, each manifest in cache or store is signed by one of its own keys |
| NodeRuns.KnownAreSigned | src/federlet/admission.py:73-75 | the same over every run whose admitted and fetched manifests passed the manifest check |
| NodeRuns.RevokedIsTerminal | src/federlet/node.py:330-335 | over every run, refresh included, a revoked peer stays revoked, without a manifest, refused at verification and never selected |
| StaleWrites.RevocationSurvivesExactly | src/federlet/node.py:235-383 | over every run of single writes, in any order and prepared at any time, a peer stays revoked and without a manifest in cache or store at every point, exactly when none of the writes is a refresh decision on it, one that keeps a manifest of it, its enrolment by discovery or the remembering of its manifest |
| StaleWrites.RevokedStateSurvivesExactly | src/federlet/node.py:348-373 | its record alone stays revoked exactly when none is a refresh decision on it or its enrolment |
| StaleWrites.LateRememberReadmits | src/federlet/node.py:226-239 | a peer enrolled by discovery, then revoked, then remembered by discovery has its requests verified again, and a refresh after that makes its record active |
| StaleWrites.LaterReadsSpare | src/federlet/node.py:219-289 | from any node kept under its ids, consistent or not, on which the peer is out: no refresh of a peer, no refresh of all and no discovery prepares a write that restores it |
| StaleWrites.WrittenKeyed | src/federlet/node.py:348-383 | every run of writes leaves records and manifests under their own node ids |
| StaleWrites.RefreshesAreEffective | src/federlet/refresh.py:32-112 | every decision that a refresh returns changes the record it is applied to |
| NodeRuns.PerformKeepsRevoked | src/federlet/node.py:262-289 | no single operation takes a peer out of REVOKED |
| NodeRuns.RevokedIsShutOut | src/federlet/node.py:291-296 | a revoked peer of a consistent node has no manifest, no accepted request and no place in the selection |
| NodeRuns.VerifiedSourceIsKnown | src/federlet/node.py:137-161 | a verified request was sent by the peer it was attributed to, under the manifest held of that peer, whose record is neither revoked nor rejected and at the same revision, and its nonce is claimed through the skew window; a refused request claims nothing, and without a manifest the refusal is unknown_peer |
| NodeRuns.KnownVerificationsApart | src/federlet/node.py:137-161 | over every run of inbound requests, whatever becomes of the node between them, two that are verified under one nonce key are claimed more than the skew window apart |
| NodeRuns.ReceivedAgain | src/federlet/node.py:137-161 | a verified request received again within the window of its claim, after any others and while the same manifest is held, is refused as replay while it is fresh and as stale_timestamp otherwise, and changes no claim |
| NodeRuns.AllRefreshedPerPeer | src/federlet/node.py:262-289 | refreshing all peers leaves of each peer what refreshing it alone would, rejects eligible peers without a manifest, touches no other peer, and raises exactly when one of the single refreshes would |
| NodeRuns.AllRefreshedReports | src/federlet/node.py:262-289 | without an exception the decisions reported are one on each eligible peer and on no other: that of its own refresh, or unknown_peer where no manifest is held |
| NodeRuns.PeerRefreshedActs | src/federlet/node.py:241-260 | a refresh changes nothing held about other peers and nothing at all for an unknown peer, which is reported as unknown_peer, or an exception; else it applies the decision on the held manifest |
| NodeRuns.RefreshFollowsTrust | src/federlet/node.py:348-373 | what a refresh leaves in the cache is the manifest held before or a fetched one that follows it in trust with the record active; a manifest is dropped only with the record rejected |
| NodeRuns.DiscoveredActs | src/federlet/node.py:219-239 | discovery leaves all it did not accept, and of each accepted peer holds the manifest it fetched, admitted and recorded at that revision, in cache and store |
| NodeRuns.BootstrappedActs | src/federlet/node.py:212-217 | recording seeds leaves of each peer what its last seed says, of revoked and unnamed peers what was there |
| NodeRuns.NoticeAppliedActs | src/federlet/node.py:298-324 | a notice acts on the peer it names alone, and when both gates pass that peer is revoked and its manifest gone from cache and store |
| NodeRuns.SignedNoticeEvictsExactly | src/federlet/node.py:298-324 | with the library's own verification, a signature that a trusted key made over one notice gets another about a known peer applied and its manifests evicted exactly when the two agree on every field to the second and the notice is of this federation and authorised; else all that is held stays and the prior state is returned |
| NodeRuns.UndecodableNoticeChangesNothing | src/federlet/node.py:298-324 | a notice that is unsigned, or whose signature is not base64url, changes nothing held about any peer, with nothing assumed of the primitives |
| NodeRuns.HydratedCache | src/federlet/node.py:102-110 | hydrating an empty cache from a consistent store makes the cache the store, and anything else is left as it is |
| NodeRuns.SelectedExactly | src/federlet/node.py:291-296 | a cached manifest is selected exactly when its record is eligible |
| NodeRuns.SelectedInOrder | src/federlet/node.py:291-296 | the selection is in the order of the table: each selected manifest stands behind as many as are selected before its record |
| NodeRuns.EligibleIds | src/federlet/membership.py:163-167 | the eligible peers are the eligible records of the table, each once |
| NodeState.RecordedActs | src/federlet/node.py:326-346 | recording replaces all that is held about a peer with a fresh active record and the manifest, unless the peer is revoked, and touches no other peer |
| NodeState.PeerAdmittedActs | src/federlet/node.py:166-185 | an accepted peer is recorded under the URL given, or under its manifest's where that is missing or empty; refused, revoked or without any URL it leaves the node as it was |
| NodeState.DecidedActs | src/federlet/node.py:348-373 | a decision changes one peer alone: kept manifests are held at their revision by an active record, quarantine marks the record stale, rejection marks it and drops the manifest |
| NodeState.DecidedLeaves | src/federlet/node.py:348-373 | field by field, what a kept, quarantining or rejecting decision makes of the record and the manifests of its peer |
| NodeState.RememberActs | src/federlet/node.py:375-378 | remembering writes cache and store of one peer alone |
| NodeState.ForgetActs | src/federlet/node.py:380-383 | forgetting drops one peer from cache and store alone |
| FederationNodes.FederationNode.HydrateCache | src/federlet/node.py:102-110 | the class method runs the hydration step in place |
| FederationNodes.FederationNode.AdmitPeer | src/federlet/node.py:166-185 | the decision is that of local admission, and an accepted peer with a URL is recorded |
| FederationNodes.FederationNode.RecordSeeds | src/federlet/node.py:212-217 | the loop over accepted seeds records each in turn |
| FederationNodes.FederationNode.RecordPeer | src/federlet/node.py:326-346 | in place, all three structures end as the recording step says, on fresh records only |
| FederationNodes.FederationNode.DiscoverMembers | src/federlet/node.py:219-239 | in place, discovery under the node's own admission policy followed by remembering every accepted manifest |
| FederationNodes.FederationNode.ApplyRefreshDecision | src/federlet/node.py:348-373 | in place, the three structures end as the decision step says |
| FederationNodes.FederationNode.RefreshOnePeer | src/federlet/node.py:241-260 | in place, one refresh and the decision it returns |
| FederationNodes.FederationNode.RefreshAllPeers | src/federlet/node.py:262-289 | both loops in place, with the decisions in dictionary order or the exception |
| FederationNodes.FederationNode.SelectPeers | src/federlet/node.py:291-296 | the loop returns the selection of the current state |
| FederationNodes.FederationNode.ApplyNoticeToNode | src/federlet/node.py:298-324 | in place, revocation under the library's own verification and eviction, and the state returned; what it comes to is NodeRuns.SignedNoticeEvictsExactly |
| FederationNodes.FederationNode.VerifyKnownInbound | src/federlet/node.py:137-161 | verification against the held manifest, with the result and the claims of the step; only the nonce cache may change |
| FederationNodes.FederationNode.RememberManifest | src/federlet/node.py:375-378 | in place, cache and store |
| FederationNodes.FederationNode.ForgetManifest | src/federlet/node.py:380-383 | in place, cache and store |
| FederationNodes.FederationNode.constructor | src/federlet/node.py:66-90 | a new node holds the given table, store and manifest cache |
| Requests.AcceptedAtMostOnce | src/federlet/signing.py:246-262 | over every run with a clock that never goes back and one skew, an accepted request is not accepted again, in whatever fraction of its second and under whatever signature, when the last instant of that second, put off by the later call's delay between check and claim, is not after the first claim |
| Requests.EnvelopeAcceptedAtMostOnce | src/federlet/signing.py:246-262 | nor is an identical envelope, when its own timestamp, put off likewise, is not after the first claim |
| Requests.AcceptancesApart | src/federlet/signing.py:252-262 | two acceptances of one nonce key are claimed more than the skew window apart |
| Requests.LaterAcceptanceIsNewer | src/federlet/signing.py:246-262 | a second acceptance under a nonce key carries a timestamp later than the first claim, up to the delay between its own check and claim |
| Requests.ReplayableExactly | src/federlet/signing.py:246-262 | a signed request that was accepted is accepted again, as some copy with its signed fields and with its claim within a delay of its check, exactly when the last instant of its second, put off by the delay, lies after the first claim |
| Requests.EnvelopeReplayableExactly | src/federlet/signing.py:246-262 | an identical envelope is, exactly when its own timestamp, put off by the delay, lies after the first claim |
| Requests.BuiltIsReplayableExactly | src/federlet/signing.py:188-262 | every request the library builds, presented fresh to an empty cache, is accepted, and can be accepted again exactly when it arrived before the last microsecond of the second it was built in |
| Requests.ClaimLives | src/federlet/signing.py:252-262 | a claim outlives its window whatever is called in between |
| Requests.RejectedCallsAreInvisible | src/federlet/signing.py:240-262 | deleting any rejected calls from any run changes no other verdict and not the final cache |
| Requests.ClaimsAreAcceptances | src/federlet/signing.py:252-262 | the cache after a run is the initial one with exactly one claim per accepted call, in order |
| Requests.PurgingIsInvisible | src/federlet/signing.py:252-262 | a cache that drops expired entries before any calls gives every call of every run the same verdict |
| Requests.AuthenticatedExactly | src/federlet/signing.py:240-253 | the cascade reports the first failing check of the ordered list and passes exactly when all hold |
| Requests.ClaimedExactlyWhenAccepted | src/federlet/signing.py:252-262 | a call is accepted exactly when it authenticates and its nonce is free, and only then claims, for the skew from the claim; a refused one keeps the reason of the check it failed, or is a replay |
| Requests.VerifySignedRequest | src/federlet/signing.py:215-262 | the method gives the verdict and the cache of the step; without a cache it only authenticates |
| Requests.NonceCache.Set | src/federlet/signing.py:254-260 | set-if-absent with expiry, as the claim uses it |
| Requests.VerifyPeerRequest | src/federlet/signing.py:288-347 | the method gives the result and the cache of the peer step |
| Requests.VerifiedExactly | src/federlet/signing.py:315-347 | a peer is verified exactly when the manifest's own node sent the envelope, the first key under the signer's identifier authenticates it and the nonce was free; the identity is the envelope's |
| Requests.PeerRefusedForFirstFailure | src/federlet/signing.py:315-347 | a refused peer request reports the first it fails of: a header, an envelope, a signature, the manifest's node as source, an advertised key, the checks on the call in their order, a free nonce |
| Requests.PeerClaimsExactly | src/federlet/signing.py:254-347 | the cache after a peer request is the one before with its nonce key claimed through the skew from the claim exactly when it was verified, and the one before otherwise |
| Requests.ClaimedIsNotVerified | src/federlet/signing.py:254-347 | while a nonce key is claimed, nothing presented under it is verified, from whatever manifest, and no claim changes |
| Requests.VerificationsApart | src/federlet/signing.py:254-347 | over every run of peer requests with their headers and manifests, two that are verified under one nonce key are claimed more than the skew window apart |
| Requests.ArrivesAgain | src/federlet/signing.py:254-347 | a verified peer request that arrives again within the window of its claim, after any others, is refused as replay while it is fresh and as stale_timestamp otherwise, and changes no claim |
| Requests.BuiltRequestVerified | src/federlet/signing.py:188-212 | a request built with an advertised key is verified at its target on its route exactly while the clock is within the skew of the second it was built in and its nonce is free, and then as the source, key, revision and request identifier it was built from |
| Requests.SameResultsExactly | src/federlet/signing.py:315-347 | where one key's signatures verify under no other key's public half and every advertised key is a public half, two manifests of one node treat every request alike, on every cache and clock, exactly when they give equal key lookups |
| Requests.RefreshKeepsAuthentication | src/federlet/admission.py:115-118 | after a refresh with an unchanged key map every request gets the same result and leaves the same cache, for manifests whose repeated key identifiers agree |
| Requests.RefreshKeepsAuthenticationExactly | src/federlet/admission.py:115-118 | and for such keys exactly then: an ambiguous refreshed manifest changes the result of some request |
| Requests.DistinctKeyIdsKeepAuthentication | src/federlet/admission.py:115-118 | with distinct key identifiers in both manifests a refresh with an unchanged key map changes no result |
| Requests.NonceKeyOwnedExactly | src/federlet/signing.py:30-34 | no other request to the same node has this request's key, exactly when its federation and source have no colon and its target between colons occurs nowhere else behind the federation |
| Requests.NonceKeyInjective | src/federlet/signing.py:30-34 | keys of requests to one node coincide exactly for equal federation, source and nonce, when federation and nonce hold no colon |
| Requests.BuiltNonceKeysInjective | src/federlet/signing.py:188-211 | two requests that the library builds for one node share a nonce key exactly when they were built for the same federation and source with the same nonce bytes, when the federations hold no colon |
| Requests.ColonInFederationCollides | src/federlet/signing.py:30-34 | a request whose federation has a colon shares its key with a different request to the same node |
| Requests.ColonInSourceCollides | src/federlet/signing.py:30-34 | so does one whose source has a colon |
| Requests.TargetAgainCollides | src/federlet/signing.py:30-34 | so does one in which the target between colons occurs a second time |
| Base64Url.RoundTrip | src/federlet/crypto.py:19-24 | every byte string survives encoding and decoding |
| Base64Url.EncodeShape | src/federlet/crypto.py:19-20 | ceil(4n/3) characters, never 1 modulo 4, all in the url-safe alphabet, so no colon and no padding |
| Base64Url.PaddingRestored | src/federlet/crypto.py:23-24 | the padding computed from the length is exactly what encoding stripped |
| Base64Url.EncodeInjective | src/federlet/crypto.py:19-20 | different byte strings encode differently |
| Base64Url.DecodesExactly | src/federlet/crypto.py:23-24 | a string over the url-safe alphabet decodes exactly when its length is not 1 modulo 4, to three quarters of its length, and encodes back exactly when its unused trailing bits are zero |
| Base64Url.LenientlyDecodes | src/federlet/crypto.py:23-24 | any string decodes exactly when it is ASCII and, with the padding computed from its length, a padding character completes a begun group or the data characters make whole groups; other characters are ignored |
| Base64Url.UnpaddedDecodes | src/federlet/crypto.py:23-24 | any string without padding characters decodes exactly when the padding computed from its whole length finishes the groups of its data characters, and then to what those alone decode to |
| Base64Url.EncodesBackExactly | src/federlet/crypto.py:19-24 | over all strings, decoding then encoding gives the string back exactly when it is over the alphabet, of a possible length and with zero trailing bits |
| Base64Url.StrayCharacter | src/federlet/crypto.py:23-24 | a stray character behind an encoding is harmless exactly when the encoding is made of whole groups |
| Signing.SignThenVerify | src/federlet/signing.py:42-66 | every signed model verifies under the matching public key |
| Laws.LawsCanBeMet | src/federlet/crypto.py:31-57 | primitives that read of a key its member x alone meet all the laws that lemmas ask for, at once |
| Signing.SignedModelDumps | src/federlet/signing.py:59-62 | re-validating a signed payload and dumping it again gives that payload; the body is the one signed |
| Signing.DumpIsFixedPoint | src/federlet/_time.py:12-15 | dump after validate after dump is dump, for every value: truncation to seconds in UTC is idempotent and absent fields stay absent |
| Signing.DumpsExactly | src/federlet/signing.py:59-66 | two values dump alike exactly when they are alike: a dump loses the zone and the fraction of instants and what is absent, and nothing else |
| Signing.SignTwice | src/federlet/signing.py:42-48 | signing again under the same key changes nothing |
| Signing.VerifiesUnderOwnKey | src/federlet/signing.py:42-66 | where one key's signatures verify under no other key's public half, a signed model verifies under a public half exactly when it is its own key's |
| Signing.CarriedSignature | src/federlet/signing.py:51-66 | with nothing assumed, a signature carried to another model verifies exactly when its raw bytes verify for the canonical form of the other body |
| Signing.MovedSignature | src/federlet/signing.py:51-66 | with binding signatures, a signature carried to another model verifies, under any key at all, only when the canonical forms of the two bodies are equal, and under its own key exactly then |
| Models.MovedRequestSignature | src/federlet/signing.py:51-66 | with binding signatures and a canonical form that tells request bodies apart, a signature moved between requests verifies exactly when they agree on every field, the timestamp in whole seconds |
| Models.RequestBodies | src/federlet/models.py:176-193 | two requests have the same signed body exactly when they are the same to the second |
| Models.NoticeBodies | src/federlet/models.py:134-145 | two revocation notices have the same signed body exactly when they agree on every field, instants in whole seconds |
| Models.MovedNoticeSignature | src/federlet/signing.py:51-119 | a signature moved between notices verifies under its own key exactly when they agree on every field to the second, and under no key otherwise |
| Models.ManifestBodies | src/federlet/models.py:66-88 | two manifests have the same signed body exactly when they agree on node, organisation, federations, endpoint, URL, versions, revision, every public key, auth methods, both instants in whole seconds and all other fields |
| Models.MovedManifestSignature | src/federlet/signing.py:51-90 | a signature moved to a manifest that differs in a modelled field verifies under no key at all; moved to one that agrees in every field it verifies under its own |
| Models.SignedCopyIsSignedModel | src/federlet/signing.py:59-62 | the request that signing returns is the given one in whole seconds with its signature |
| Refresh.ChainOfTrust | src/federlet/refresh.py:71-112 | along any series of refreshes node and organisation stay, the revision never goes back, and each manifest held is the one before or a fetched one that follows it |
| Refresh.KeyChangesAreSigned | src/federlet/admission.py:109-136 | without an endorsing verifier every change of the key map is signed by a key of the manifest held just before |
| Refresh.NoRotationKeepsKeys | src/federlet/admission.py:119-120 | with rotation disallowed the key map never changes |
| Refresh.HeldFollows | src/federlet/refresh.py:71-112 | one attempt keeps the held manifest or replaces it by the fetched one that follows it, and every fetched one that follows it replaces it |
| Refresh.DecidesExactly | src/federlet/refresh.py:32-112 | when a refresh keeps, quarantines, raises, and what it hands over, as conditions on revision, continuity and failure |
| Refresh.DecisionReports | src/federlet/refresh.py:32-112 | the reason, the manifest and the continuity that each kind of decision reports |
| Refresh.UnchangedCanRotate | src/federlet/refresh.py:96-103 | at an equal revision with another key map the outcome is unchanged exactly when the rotation is signed or endorsed and allowed |
| Refresh.SignedRotationIsUnchanged | src/federlet/refresh.py:96-103 | and such rotations exist: any other key map signed under the key the held manifest lists last for the signer |
| Admission.ContinuityKeptExactly | src/federlet/admission.py:103-136 | continuity is accepted exactly for the same node and organisation with an unchanged key map or an allowed rotation that is signed under the previous manifest or endorsed; when it is quarantined |
| Admission.ContinuityReasons | src/federlet/admission.py:103-136 | each continuity decision with its reason, as a condition on the two manifests and the policy |
| Admission.EqualMapsEqualLookup | src/federlet/admission.py:115-118 | under equal last-wins key maps, an identifier whose first and last entry agree in one manifest is looked up alike exactly when they agree in the other |
| Admission.EqualMapsEqualLookups | src/federlet/admission.py:115-118 | so all lookups of a manifest without ambiguous identifiers are kept exactly when the other manifest has none either |
| Admission.LookUpsAgree | src/federlet/signing.py:37-39 | first-wins lookup and last-wins map agree on an identifier exactly when its first and last entry carry one key |
| Admission.RepeatedKeyIdBreaksLookup | src/federlet/admission.py:115-118 | with a repeated identifier key maps can be equal and lookups differ |
| Admission.FindJwkIsFirst | src/federlet/signing.py:37-39 | the lookup finds the first entry of the identifier, or there is none |
| Admission.KeyMapIsLast | src/federlet/admission.py:115-116 | the map holds the last entry of the identifier, or there is none |
| Admission.CheckedManifest | src/federlet/signing.py:76-98 | the check reports the first failing condition, and passes exactly for a manifest signed by its own first key of the identifier and fresh within the skew |
| Admission.MovedManifestRefused | src/federlet/signing.py:76-98 | a manifest with a signature made over one with another key, another revision or any other modelled field different fails the check, as unknown_key or bad_signature |
| Admission.MovedManifestPasses | src/federlet/signing.py:76-98 | with a signature made over one equal in every field, by the key it lists first under the identifier, it passes exactly while fresh |
| Admission.ChangedKeysAreRefused | src/federlet/signing.py:76-98 | adding a key to a signed manifest or taking one from it makes it fail the check |
| Admission.AdmittedExactly | src/federlet/admission.py:67-100 | a manifest is admitted exactly when it meets every condition of the policy, and refused for the first that it fails in the order they are listed in |
| Admission.AdmitManifest | src/federlet/admission.py:67-100 | the method with its early-return loop decides as specified |
| Admission.AuthMethodsAllAccept | src/federlet/admission.py:84-89 | the loop passes exactly when every registered verifier of an advertised method accepts, and reports the first that does not |
| Admission.EndpointAccepted | src/federlet/admission.py:163-180 | an endpoint is accepted exactly when it has a host, the scheme, a domain whose labels are a suffix, and no disallowed address |
| Domains.HostInDomainIsLabelSuffix | src/federlet/admission.py:157-160 | a host is in a domain exactly when the labels of the normalised domain are the last labels of the normalised host, for all strings |
| Domains.NormaliseIs | src/federlet/admission.py:157-166 | a normalised name is the lower-case name up to the dots at its end |
| Domains.HostInDomainIsPreorder | src/federlet/admission.py:157-160 | matching is reflexive and transitive |
| Domains.CaseAndDotsIgnored | src/federlet/admission.py:157-160 | case and a trailing dot never matter on either side |
| Discovery.DiscoveryKeepsTableSafe | src/federlet/discovery.py:84-163 | existing records are never altered, the new ones are active, never self, in order and one to one with the accepted outcomes, and no node and no URL is fetched twice |
| Discovery.DiscoveryFetchBounded | src/federlet/discovery.py:84-92 | fetches number at most eligible peers times the per-peer cap |
| Discovery.DiscoveryConservesOutcomes | src/federlet/discovery.py:72-115 | the four lists together hold exactly one outcome per ref of each answer and one per eligible peer that could not be asked |
| Discovery.RefAddsOneOutcome | src/federlet/discovery.py:84-113 | each ref adds exactly one outcome, about that ref |
| Discovery.RefSettled | src/federlet/discovery.py:84-163 | a hint is skipped unfetched for the first entry check it fails; else its manifest is fetched once, and it has failed for the failure's reason exactly when the fetch fails, is skipped as node_id_mismatch for another node's manifest, joins as an active record when admitted locally and is rejected with the decision's reason when not, with nothing else changed |
| Discovery.PeerSettled | src/federlet/discovery.py:72-82 | an eligible peer without a manifest, or without an answer, adds one failure about itself with its reason, kind by kind, and nothing else |
| Discovery.SettledInOrder | src/federlet/discovery.py:72-115 | every hint of every answer is settled where the scan stands when it comes to it, earlier hints first, and what it added stays in its place in the report |
| Discovery.ProcessOneRef | src/federlet/discovery.py:118-163 | in place, table and lists end as the step says |
| Discovery.AdmitRef | src/federlet/discovery.py:145-163 | in place, an admitted manifest enters the table as a fresh active record and the accepted list; another only the rejected list |
| Discovery.ScanOneRef | src/federlet/discovery.py:84-113 | the body of the inner loop, with both seen-sets |
| Discovery.ScanAnswer | src/federlet/discovery.py:84-113 | the inner loop |
| Discovery.ScanOnePeer | src/federlet/discovery.py:72-113 | the body of the outer loop |
| Discovery.RefreshDiscoveredMembers | src/federlet/discovery.py:52-115 | the two loops leave table and lists as the specification of discovery says |
| Membership.EligibleExactly | src/federlet/membership.py:79-87 | after any history, overflowing backoffs included, a record is eligible exactly when it is active, unexpired and past the cooldown of the failure that anchors it |
| Membership.CountsOpenFailures | src/federlet/membership.py:123-160 | failures is the number of failures since the last success or admission; state and expiry are what the events left |
| Membership.CooldownFromAnchor | src/federlet/membership.py:152-160 | after any history the cooldown is that of the last open failure whose backoff fits, sized by the open failures up to it, and unset without one |
| Membership.StampedByLast | src/federlet/membership.py:116-160 | after any history a record carries the instant of the last event that stamped it: any but a failure whose backoff does not fit |
| Membership.ScheduleAsDocumented | src/federlet/membership.py:101-113 | while the backoff of the open failures fits, a record is cooled down exactly when none is open or the last one is a full backoff of their number ago |
| Membership.OverflowFreezesCooldown | src/federlet/membership.py:152-160 | exactly when the backoff does not fit, recording a failure only counts it, and does so forever after |
| Membership.BackoffDoubles | src/federlet/membership.py:108-110 | wherever it fits, the closed form is the recurrence that starts at the capped base and doubles and caps with each further failure |
| Membership.BackoffGrows | src/federlet/membership.py:108-110 | while it fits the backoff is monotone, at most the maximum, and stays there |
| Membership.BackoffFitsExactly | src/federlet/membership.py:108-110 | it fits exactly while the uncapped product fits a timedelta, and once it does not it never does again |
| Membership.DefaultBackoffFits | src/federlet/membership.py:106-113 | under the default policy, exactly up to the forty-second failure in a row |
| Membership.DefaultCooldowns | src/federlet/membership.py:101-113 | it is then 30, 60, 120, 240 and 480 seconds, and 600 from the sixth failure in a row on |
| Membership.FitsTimedelta | src/federlet/membership.py:108-110 | for any policy, a negative base included, it fits exactly while the product lies within the bounds of a timedelta |
| Membership.MissedExactly | src/federlet/membership.py:209-240 | a member shown by a full disclosure is missed by polling with a cursor exactly when it was not stamped since and its cooldown ended in between |
| Membership.FailedOnceIsMissed | src/federlet/membership.py:152-160 | a member that failed once at t0 is missed, under every policy with a backoff |
| Membership.PollingCompletes | src/federlet/membership.py:220-240 | each ref of the full disclosure at t1 is in the answer to the cursor t0, was in the full disclosure at t0, or is of a record whose cooldown ended in between |
| Membership.UnstampedIsUnchanged | src/federlet/membership.py:116-120 | a record whose stamp is not after t0 discloses as it did at t0, through any changes stamped later |
| Membership.DisclosedRefs | src/federlet/membership.py:220-240 | the refs disclosed are those of exactly the active, unexpired, cooled down and not denied members changed since the cursor, each with its own node, organisation, URL and revision and the disclosure set for the requester, else the default |
| Membership.DisclosedInOrder | src/federlet/membership.py:220-240 | they are in the order of the members |
| Membership.RevokesExactly | src/federlet/membership.py:273-285 | a notice changes a known record exactly when both gates pass, then only its state and stamp, and nothing else in the table |
| Membership.SignedNoticeRevokesExactly | src/federlet/membership.py:273-285 | with the library's own verification, a signature that a trusted key made over one notice gets another about a known peer applied exactly when the two agree on every field to the second and the notice is of this federation and authorised; else the table and the state returned are the prior ones |
| Membership.ForgedNoticeIsIgnored | src/federlet/membership.py:280-283 | whatever keys are trusted, a notice that differs from the one its signature was made over leaves the table as it was |
| Membership.UndecodableNoticeIsIgnored | src/federlet/membership.py:273-283 | so does, with nothing assumed, one without a signature or with one that is not base64url |
| Membership.DefaultRevokesExactly | src/federlet/membership.py:30-44 | by default a signed notice revokes a peer exactly when it is the signed one, of this federation, and issued by that peer |
| Membership.DefaultIsSelfScoped | src/federlet/membership.py:30-44 | by default no notice about another node is applied, whoever signed it |
| Membership.ApplyRevocationNotice | src/federlet/membership.py:243-285 | the method gives the state and the table of the specification, in place |
| Membership.Eligible | src/federlet/membership.py:163-167 | the loop gives the eligible records of the current table in its order |
| Membership.MemberRecord.Admit | src/federlet/membership.py:123-134 | active again, failures and cooldown cleared, stamped |
| Membership.MemberRecord.SetState | src/federlet/membership.py:137-141 | the state changes and the stamp |
| Membership.MemberRecord.RecordSuccess | src/federlet/membership.py:144-149 | failures and cooldown cleared; only a cooldown state turns active |
| Membership.MemberRecord.RecordFailure | src/federlet/membership.py:152-160 | one more failure and its backoff from now, or the overflow after the count went up |
| Membership.MemberRecord.Eligible | src/federlet/membership.py:79-87 | the early returns decide eligibility |
| Membership.MembershipTable.Fetch | src/federlet/membership.py:176-177 | the stored record itself, or none |
| Membership.MembershipTable.Upsert | src/federlet/membership.py:179-181 | the table as a dictionary with the record put |
| Membership.MembershipTable.Delete | src/federlet/membership.py:186-187 | the table as a dictionary with the key removed |
| Dicts.WithoutCloses | src/federlet/membership.py:186-187 | removing a key leaves the keys before and after it in their order |
| Membership.MembershipTable.List | src/federlet/membership.py:183-184 | the stored records in insertion order |
| Membership.Readmit | src/federlet/node.py:360-362 | a stored record takes the new revision and is admitted again, in place |
| Membership.Enrol | src/federlet/node.py:337-346 | a newly built record is admitted and put |
| RateLimit.GrantedExactly | src/federlet/protocols/rate_limit.py:39-48 | a call is granted exactly when it keeps every window that ends at it within rate plus rate times the rise of the clock, even for instants that go backwards |
| RateLimit.GrantsBounded | src/federlet/protocols/rate_limit.py:39-48 | in any stretch of calls at most rate plus rate times the rise of the clock are granted |
| RateLimit.FilledIsSmallestAllowance | src/federlet/protocols/rate_limit.py:39-48 | what the bucket holds is the smallest allowance of the windows ending at the call |
| RateLimit.LevelInRange | src/federlet/protocols/rate_limit.py:39-48 | always between none and rate tokens, last refilled at the latest instant seen |
| RateLimit.SpacedCallsGranted | src/federlet/protocols/rate_limit.py:39-48 | calls at least 1/rate apart are never refused |
| RateLimit.EagerRefillIsInvisible | src/federlet/protocols/rate_limit.py:40-43 | refilling at any further instants on the way changes no answer and no level |
| RateLimit.PeersAreIndependent | src/federlet/protocols/rate_limit.py:31-48 | a peer with a limit above zero is answered in an interleaved run as in a run of its own calls |
| RateLimit.AllowedExactly | src/federlet/protocols/rate_limit.py:31-48 | in any interleaving, a peer whose configured limit is above zero is granted exactly within every window of its own calls of that limit plus that limit times the rise of the clock; a limit of zero or less always refuses, and a peer that is absent, without limits or without a rate is always allowed |
| RateLimit.OwnBucket | src/federlet/protocols/rate_limit.py:39-48 | the bucket of a peer with a limit above zero depends on its own calls alone, and no other peer has one |
| RateLimit.Bucket.Take | src/federlet/protocols/rate_limit.py:40-48 | in place, the refill by elapsed time and the token spent, or the refusal |
| RateLimit.TokenBucketRateLimiter.Allow | src/federlet/protocols/rate_limit.py:31-48 | in place, the answer and all buckets as the step says |

## Left out

- HTTP calls, DNS resolution, address lookups and retries: fetched manifests and member answers are arbitrary results, a value or a failure.
- Ed25519, SHA-256 and the RFC 8785 serializer: function parameters, with the laws named above as requirements of the lemmas that use them.
- Pydantic validation, ISO text and `urlparse`: records and hosts come already parsed, and cursors as instants (`parse_since_cursor` is not modelled).
- Domains.CaseAndDotsIgnored: does not model case folding beyond ASCII in `lower` and `upper`.
- Float rounding in the token bucket: exact reals.
- Overflow of `now + cooldown` beyond the largest datetime.
- The awaits inside a refresh or a discovery: they are whole operations in `NodeRuns`, and in `StaleWrites` their single writes on what they read at any earlier time; `Lifecycle` has no tasks for them.
- One clock reading per operation: the separate `utc_now()` calls inside one operation of the node are taken at the same instant, except for the freshness check and the nonce claim, which have their own.
- Nonce caches that drop an entry before its expiry instant has passed, or give an expiry of zero another meaning.
- Requests.VerifySignedRequest: does not model two exceptions that end a call without a verdict: the RFC 8785 serializer's on integers beyond 2^53 - 1 or on NaN, raised outside the `try` of `verify_bytes`, and the KeyError on an advertised key of the right type and curve without a member `x`, which that `try` does not catch. The manifest check (`Admission.CheckedManifest`) leaves out the same two.
- A discovery write that lands between the awaits of one locked section: the writes of `StaleWrites` are whole.
- Exceptions raised by evidence verifiers, authorize predicates or stores: these are total here.
- Records handed out by `values()` are read as they are at that instant; hosts that mutate them without an upsert are not modelled.
- The network half of `bootstrap_from_seeds` and of `admit_peer` callers: only the recording of accepted seeds is.
- `certauth.py`, `urls.py`, `audit.py`, `health.py`, `publication.py`, `responses.py`, `fanout.py`, `bootstrap.py`, `operations.py`: short glue, whose properties one branch settles.
- RateLimit.TokenBucketRateLimiter.Allow: does not model float rounding of `elapsed * rate`.
