/**
 Signed-request verification of `signing.py`: the guard cascade, the nonce claim
 that follows it, and what runs of calls against one nonce cache guarantee.
 */
module Requests {
  import opened Options
  import opened Texts
  import opened Base64Url
  import opened Signing
  import opened Models
  import opened Guards
  import opened Admission

  /** The inbound HTTP request and the limits the host passes along with it. */
  datatype Inbound = Inbound(
    selfNodeId: string,
    httpMethod: string,
    path: string,
    body: Bytes,
    maxBodyBytes: Option<int>,
    maxSkewSeconds: int)

  /** One call: its clock readings are taken at the freshness check and by the cache at the claim. */
  datatype Call = Call(env: SignedRequest, jwk: Jwk, http: Inbound, checkedAt: int, claimedAt: int)

  /** What a nonce cache holds: the instant through which each claimed key lives. */
  type Cache = map<string, int>

  predicate Live(cache: Cache, key: string, now: int) {
    key in cache && now <= cache[key]
  }

  function Window(http: Inbound): int {
    http.maxSkewSeconds * MICROS_PER_SECOND
  }

  /** _nonce_cache_key */
  function NonceKey(e: SignedRequest): string {
    "federlet:nonce:" + e.federationId + ":" + e.sourceNodeId + ":" + e.targetNodeId + ":" + e.nonce
  }

  function Abs(x: int): nat {
    if x < 0 then -x else x
  }

  /** check_body_size */
  predicate CheckBodySize(body: Bytes, maxBytes: Option<int>) {
    maxBytes.None? || |body| <= maxBytes.value
  }

  /** The cascade of verify_signed_request before the nonce is claimed. */
  function Authenticate(c: Crypto, call: Call): Verdict {
    var e, http := call.env, call.http;
    if e.signature.None? then Verdict(false, "unsigned")
    else if e.targetNodeId != http.selfNodeId then Verdict(false, "wrong_target")
    else if e.httpMethod != Upper(http.httpMethod) then Verdict(false, "method_mismatch")
    else if e.path != http.path then Verdict(false, "path_mismatch")
    else if !CheckBodySize(http.body, http.maxBodyBytes) then Verdict(false, "body_too_large")
    else if e.bodySha256 != c.sha256Hex(http.body) then Verdict(false, "body_mismatch")
    else if Abs(call.checkedAt - e.timestamp) > Window(http) then Verdict(false, "stale_timestamp")
    else if !VerifyRequestSignature(c, e, call.jwk) then Verdict(false, "bad_signature")
    else Verdict(true, "ok")
  }

  /** What is decided about a call before its nonce is looked at. */
  type Authenticator = Call -> Verdict

  function Cascade(c: Crypto): Authenticator {
    call => Authenticate(c, call)
  }

  /** verify_signed_request with a cache: the verdict and what the cache holds afterwards. */
  function Step(auth: Authenticator, cache: Cache, call: Call): (Verdict, Cache) {
    var v := auth(call);
    if !v.ok then (v, cache)
    else if Live(cache, NonceKey(call.env), call.claimedAt) then (Verdict(false, "replay"), cache)
    else (v, cache[NonceKey(call.env) := call.claimedAt + Window(call.http)])
  }

  // ---------- the imperative form ----------

  /** A host's nonce cache: the one operation of the NonceCache port. */
  class NonceCache {
    var entries: Cache

    constructor ()
      ensures entries == map[]
    {
      entries := map[];
    }

    /** set(key, 1, expire=expire, exist=False) */
    method Set(key: string, expire: int, now: int) returns (stored: bool)
      modifies this
      ensures stored <==> !Live(old(entries), key, now)
      ensures entries == if stored then old(entries)[key := now + expire] else old(entries)
    {
      stored := !(key in entries && now <= entries[key]);
      if stored {
        entries := entries[key := now + expire];
      }
    }
  }

  /** verify_signed_request; without a cache replay protection is off. */
  method VerifySignedRequest(c: Crypto, call: Call, cache: NonceCache?) returns (v: Verdict)
    modifies if cache == null then {} else {cache}
    ensures cache == null ==> v == Authenticate(c, call)
    ensures cache != null ==> (v, cache.entries) == Step(Cascade(c), old(cache.entries), call)
  {
    var e, http := call.env, call.http;
    if e.signature.None? {
      return Verdict(false, "unsigned");
    }
    if e.targetNodeId != http.selfNodeId {
      return Verdict(false, "wrong_target");
    }
    if e.httpMethod != Upper(http.httpMethod) {
      return Verdict(false, "method_mismatch");
    }
    if e.path != http.path {
      return Verdict(false, "path_mismatch");
    }
    if !CheckBodySize(http.body, http.maxBodyBytes) {
      return Verdict(false, "body_too_large");
    }
    if e.bodySha256 != c.sha256Hex(http.body) {
      return Verdict(false, "body_mismatch");
    }
    if Abs(call.checkedAt - e.timestamp) > Window(http) {
      return Verdict(false, "stale_timestamp");
    }
    if !VerifyRequestSignature(c, e, call.jwk) {
      return Verdict(false, "bad_signature");
    }
    if cache != null {
      var claimed := cache.Set(NonceKey(e), Window(http), call.claimedAt);
      if !claimed {
        return Verdict(false, "replay");
      }
    }
    return Verdict(true, "ok");
  }

  // ---------- what is checked, and in which order ----------

  /** The clock is within the skew, in seconds, of the timestamp. */
  predicate Fresh(e: SignedRequest, http: Inbound, checkedAt: int) {
    e.timestamp - http.maxSkewSeconds * 1_000_000 <= checkedAt <= e.timestamp + http.maxSkewSeconds * 1_000_000
  }

  function RequestGuards(c: Crypto, call: Call): seq<Guard> {
    var e, http := call.env, call.http;
    [Guard(e.signature.Some?, "unsigned"),
     Guard(e.targetNodeId == http.selfNodeId, "wrong_target"),
     Guard(e.httpMethod == Upper(http.httpMethod), "method_mismatch"),
     Guard(e.path == http.path, "path_mismatch")] +
    [Guard(http.maxBodyBytes.Some? ==> |http.body| <= http.maxBodyBytes.value, "body_too_large"),
     Guard(e.bodySha256 == c.sha256Hex(http.body), "body_mismatch"),
     Guard(Fresh(e, http, call.checkedAt), "stale_timestamp"),
     Guard(VerifyRequestSignature(c, e, call.jwk), "bad_signature")]
  }

  /** A call reports the first failing check of the ordered list, and passes exactly when all hold. */
  lemma AuthenticatedExactly(c: Crypto, call: Call)
    ensures Authenticate(c, call) == VerdictOf(RequestGuards(c, call))
    ensures Authenticate(c, call).ok <==> AllPass(RequestGuards(c, call))
  {
    var g := RequestGuards(c, call);
    FirstFailureAppend(g[..4], g[4..]);
    assert g == g[..4] + g[4..];
    Unroll4(g[..4]);
    Unroll4(g[4..]);
    FirstFailureIsFirst(g);
  }

  /**
   The claim comes last: a call is accepted exactly when it authenticates and its key is free, and
   only then claims.  A refused one reports the check that it failed, or a replay.
   */
  lemma ClaimedExactlyWhenAccepted(c: Crypto, cache: Cache, call: Call)
    ensures Step(Cascade(c), cache, call).0.ok <==>
              AllPass(RequestGuards(c, call)) && !Live(cache, NonceKey(call.env), call.claimedAt)
    ensures !Step(Cascade(c), cache, call).0.ok ==> Step(Cascade(c), cache, call).1 == cache
    ensures Step(Cascade(c), cache, call).0.ok ==>
              Step(Cascade(c), cache, call) ==
              (Verdict(true, "ok"), cache[NonceKey(call.env) := call.claimedAt + call.http.maxSkewSeconds * 1_000_000])
    ensures Step(Cascade(c), cache, call).0.reason == "replay" <==>
              AllPass(RequestGuards(c, call)) && Live(cache, NonceKey(call.env), call.claimedAt)
    ensures !AllPass(RequestGuards(c, call)) ==> Step(Cascade(c), cache, call).0 == VerdictOf(RequestGuards(c, call))
  {
    AuthenticatedExactly(c, call);
  }

  // ---------- peer requests ----------

  /** The signature header: absent or empty, not a valid envelope, or an envelope. */
  datatype Header = NoHeader | Malformed | Envelope(env: SignedRequest)

  datatype VerifiedPeer = VerifiedPeer(sourceNodeId: string, keyId: string, sourceManifestRevision: int,
                                       requestId: string)

  datatype PeerResult = Verified(peer: VerifiedPeer) | Unauthorized(reason: string)

  /** verify_peer_request with a cache; having none is like having an empty one. */
  function PeerStep(c: Crypto, cache: Cache, header: Header, peer: Manifest, http: Inbound, checkedAt: int,
                    claimedAt: int):
    (PeerResult, Cache)
  {
    match header
    case NoHeader => (Unauthorized("missing_signature"), cache)
    case Malformed => (Unauthorized("malformed_envelope"), cache)
    case Envelope(e) =>
      if e.signature.None? then (Unauthorized("unsigned"), cache)
      else if e.sourceNodeId != peer.nodeId then (Unauthorized("source_mismatch"), cache)
      else
        match FindJwk(peer.publicKeys, e.signature.value.keyId)
        case None => (Unauthorized("unknown_key"), cache)
        case Some(jwk) =>
          var (v, after) := Step(Cascade(c), cache, Call(e, jwk, http, checkedAt, claimedAt));
          if v.ok
          then (Verified(VerifiedPeer(e.sourceNodeId, e.signature.value.keyId, e.sourceManifestRevision, e.requestId)),
              after)
          else (Unauthorized(v.reason), after)
  }

  method VerifyPeerRequest(c: Crypto, header: Header, peer: Manifest, http: Inbound, checkedAt: int, claimedAt: int,
                           cache: NonceCache?) returns (r: PeerResult)
    modifies if cache == null then {} else {cache}
    ensures cache == null ==> r == PeerStep(c, map[], header, peer, http, checkedAt, claimedAt).0
    ensures cache != null ==>
              (r, cache.entries) == PeerStep(c, old(cache.entries), header, peer, http, checkedAt, claimedAt)
  {
    match header {
      case NoHeader =>
        return Unauthorized("missing_signature");
      case Malformed =>
        return Unauthorized("malformed_envelope");
      case Envelope(e) =>
        if e.signature.None? {
          return Unauthorized("unsigned");
        }
        if e.sourceNodeId != peer.nodeId {
          return Unauthorized("source_mismatch");
        }
        var jwk := FindJwk(peer.publicKeys, e.signature.value.keyId);
        if jwk.None? {
          return Unauthorized("unknown_key");
        }
        var v := VerifySignedRequest(c, Call(e, jwk.value, http, checkedAt, claimedAt), cache);
        if !v.ok {
          return Unauthorized(v.reason);
        }
        return Verified(VerifiedPeer(e.sourceNodeId, e.signature.value.keyId, e.sourceManifestRevision, e.requestId));
    }
  }

  /**
   A peer is verified exactly when the manifest's own node sent the envelope, the
   first key advertised under the signer's identifier authenticates it and the
   nonce was free; the identity reported is the envelope's.
   */
  lemma VerifiedExactly(c: Crypto, cache: Cache, header: Header, peer: Manifest, http: Inbound, checkedAt: int,
                        claimedAt: int)
    ensures PeerStep(c, cache, header, peer, http, checkedAt, claimedAt).0.Verified? <==>
         && header.Envelope? && header.env.signature.Some? && header.env.sourceNodeId == peer.nodeId
         && (exists i :: 0 <= i < |peer.publicKeys| && peer.publicKeys[i].keyId == header.env.signature.value.keyId &&
               (forall k :: 0 <= k < i ==> peer.publicKeys[k].keyId != header.env.signature.value.keyId) &&
               AllPass(RequestGuards(c, Call(header.env, peer.publicKeys[i].jwk, http, checkedAt, claimedAt))))
         && !Live(cache, NonceKey(header.env), claimedAt)
    ensures forall p :: PeerStep(c, cache, header, peer, http, checkedAt, claimedAt).0 == Verified(p) ==>
              p == VerifiedPeer(peer.nodeId, header.env.signature.value.keyId, header.env.sourceManifestRevision,
                                header.env.requestId)
  {
    if header.Envelope? && header.env.signature.Some? {
      var keyId := header.env.signature.value.keyId;
      FindJwkIsFirst(peer.publicKeys, keyId);
      forall jwk { ClaimedExactlyWhenAccepted(c, cache, Call(header.env, jwk, http, checkedAt, claimedAt)); }
    }
  }

  /** What a peer request must meet, in order: the envelope, its signer, the checks on the call, a free nonce. */
  function PeerGuards(c: Crypto, cache: Cache, header: Header, peer: Manifest, http: Inbound, checkedAt: int,
                      claimedAt: int): seq<Guard>
  {
    var signed := header.Envelope? && header.env.signature.Some?;
    var jwk := if signed then FindJwk(peer.publicKeys, header.env.signature.value.keyId) else None;
    [Guard(header != NoHeader, "missing_signature"),
     Guard(header != Malformed, "malformed_envelope"),
     Guard(signed, "unsigned"),
     Guard(header.Envelope? && header.env.sourceNodeId == peer.nodeId, "source_mismatch"),
     Guard(jwk.Some?, "unknown_key")] +
    if jwk.Some?
    then RequestGuards(c, Call(header.env, jwk.value, http, checkedAt, claimedAt)) +
         [Guard(!Live(cache, NonceKey(header.env), claimedAt), "replay")]
    else []
  }

  /** A refused peer request reports the first of these that it fails. */
  lemma PeerRefusedForFirstFailure(c: Crypto, cache: Cache, header: Header, peer: Manifest, http: Inbound,
                                   checkedAt: int, claimedAt: int)
    ensures var r := PeerStep(c, cache, header, peer, http, checkedAt, claimedAt).0;
      var failure := FirstFailure(PeerGuards(c, cache, header, peer, http, checkedAt, claimedAt));
      if failure.Some? then r == Unauthorized(failure.value) else r.Verified?
  {
    var g := PeerGuards(c, cache, header, peer, http, checkedAt, claimedAt);
    assert g == g[..5] + g[5..];
    FirstFailureAppend(g[..5], g[5..]);
    Unroll5(g[..5]);
    if g[..5][0].passed && g[..5][1].passed && g[..5][2].passed && g[..5][4].passed {
      var jwk := FindJwk(peer.publicKeys, header.env.signature.value.keyId).value;
      var call := Call(header.env, jwk, http, checkedAt, claimedAt);
      var last := Guard(!Live(cache, NonceKey(header.env), claimedAt), "replay");
      assert g[5..] == RequestGuards(c, call) + [last];
      FirstFailureAppend(RequestGuards(c, call), [last]);
      assert FirstFailure([last]) == if last.passed then None else Some("replay");
      AuthenticatedExactly(c, call);
      ClaimedExactlyWhenAccepted(c, cache, call);
    }
  }

  /** The cache is left with one more claim, through the skew window, exactly when the request is verified. */
  lemma PeerClaimsExactly(c: Crypto, cache: Cache, header: Header, peer: Manifest, http: Inbound, checkedAt: int,
                          claimedAt: int)
    ensures var (r, after) := PeerStep(c, cache, header, peer, http, checkedAt, claimedAt);
      after == if r.Verified? && header.Envelope?
               then cache[NonceKey(header.env) := claimedAt + http.maxSkewSeconds * 1_000_000]
               else cache
  {
    if header.Envelope? && header.env.signature.Some? {
      forall jwk { ClaimedExactlyWhenAccepted(c, cache, Call(header.env, jwk, http, checkedAt, claimedAt)); }
    }
  }

  /** Whatever a nonce key that is still claimed is presented with is not verified, and changes no claim. */
  lemma ClaimedIsNotVerified(c: Crypto, cache: Cache, header: Header, peer: Manifest, http: Inbound, checkedAt: int,
                             claimedAt: int)
    requires header.Envelope? && Live(cache, NonceKey(header.env), claimedAt)
    ensures PeerStep(c, cache, header, peer, http, checkedAt, claimedAt).0.Unauthorized?
    ensures PeerStep(c, cache, header, peer, http, checkedAt, claimedAt).1 == cache
  {
    VerifiedExactly(c, cache, header, peer, http, checkedAt, claimedAt);
    PeerClaimsExactly(c, cache, header, peer, http, checkedAt, claimedAt);
  }

  /** A verified request presented while its nonce is claimed is a replay as long as it is fresh, and stale then. */
  lemma VerifiedIsReplayWhileClaimed(c: Crypto, cache: Cache, header: Header, peer: Manifest, http: Inbound,
                                     checkedAt: int, claimedAt: int, after: Cache, checkedAgain: int, claimedAgain: int)
    requires PeerStep(c, cache, header, peer, http, checkedAt, claimedAt).0.Verified? && header.Envelope?
    requires Live(after, NonceKey(header.env), claimedAgain)
    ensures PeerStep(c, after, header, peer, http, checkedAgain, claimedAgain) ==
            (Unauthorized(if Fresh(header.env, http, checkedAgain) then "replay" else "stale_timestamp"), after)
  {
    var e := header.env;
    VerifiedIsSigned(c, cache, e, peer, http, checkedAt, claimedAt);
    var jwk := FindJwk(peer.publicKeys, e.signature.value.keyId).value;
    assert Authenticate(c, Call(e, jwk, http, checkedAt, claimedAt)).ok;
    assert Authenticate(c, Call(e, jwk, http, checkedAgain, claimedAgain)) ==
           if Fresh(e, http, checkedAgain) then Verdict(true, "ok") else Verdict(false, "stale_timestamp");
  }

  // ---------- runs of peer requests ----------

  /** A peer request as it arrives, with the manifest the host resolved for its sender. */
  datatype Arrival = Arrival(header: Header, peer: Manifest, http: Inbound, checkedAt: int, claimedAt: int)

  function Arrive(c: Crypto, cache: Cache, a: Arrival): (PeerResult, Cache) {
    PeerStep(c, cache, a.header, a.peer, a.http, a.checkedAt, a.claimedAt)
  }

  function PeerCacheAfter(c: Crypto, cache: Cache, arrivals: seq<Arrival>): Cache {
    if arrivals == [] then cache
    else Arrive(c, PeerCacheAfter(c, cache, arrivals[..|arrivals| - 1]), arrivals[|arrivals| - 1]).1
  }

  function PeerResultAt(c: Crypto, cache: Cache, arrivals: seq<Arrival>, i: nat): PeerResult
    requires i < |arrivals|
  {
    Arrive(c, PeerCacheAfter(c, cache, arrivals[..i]), arrivals[i]).0
  }

  /** Arrivals in the order of their claims, on a clock that never goes back, all with the same skew in seconds. */
  ghost predicate ArrivalOrder(arrivals: seq<Arrival>, skew: int) {
    (forall i :: 0 <= i < |arrivals| ==> arrivals[i].http.maxSkewSeconds == skew) &&
    (forall i, j :: 0 <= i <= j < |arrivals| ==> arrivals[i].claimedAt <= arrivals[j].claimedAt)
  }

  lemma VerifiedHasEnvelope(c: Crypto, cache: Cache, a: Arrival)
    requires Arrive(c, cache, a).0.Verified?
    ensures a.header.Envelope?
  {
  }

  /** A nonce key is claimed through an instant. */
  predicate ClaimedThrough(cache: Cache, key: string, until: int) {
    key in cache && cache[key] >= until
  }

  lemma ArrivalClaims(c: Crypto, cache: Cache, a: Arrival)
    requires Arrive(c, cache, a).0.Verified? && a.header.Envelope?
    ensures ClaimedThrough(Arrive(c, cache, a).1, NonceKey(a.header.env),
                           a.claimedAt + a.http.maxSkewSeconds * 1_000_000)
  {
    PeerClaimsExactly(c, cache, a.header, a.peer, a.http, a.checkedAt, a.claimedAt);
  }

  lemma ArrivalKeepsClaims(c: Crypto, cache: Cache, a: Arrival, key: string, until: int)
    requires ClaimedThrough(cache, key, until) && until <= a.claimedAt + a.http.maxSkewSeconds * 1_000_000
    ensures ClaimedThrough(Arrive(c, cache, a).1, key, until)
  {
    PeerClaimsExactly(c, cache, a.header, a.peer, a.http, a.checkedAt, a.claimedAt);
  }

  lemma LastArrivalClaims(c: Crypto, cache: Cache, arrivals: seq<Arrival>)
    requires arrivals != [] && PeerResultAt(c, cache, arrivals, |arrivals| - 1).Verified?
    requires arrivals[|arrivals| - 1].header.Envelope?
    ensures var a := arrivals[|arrivals| - 1];
      ClaimedThrough(PeerCacheAfter(c, cache, arrivals), NonceKey(a.header.env),
                     a.claimedAt + a.http.maxSkewSeconds * 1_000_000)
  {
    ArrivalClaims(c, PeerCacheAfter(c, cache, arrivals[..|arrivals| - 1]), arrivals[|arrivals| - 1]);
  }

  lemma LastArrivalKeepsClaims(c: Crypto, cache: Cache, arrivals: seq<Arrival>, key: string, until: int)
    requires arrivals != [] && ClaimedThrough(PeerCacheAfter(c, cache, arrivals[..|arrivals| - 1]), key, until)
    requires var a := arrivals[|arrivals| - 1]; until <= a.claimedAt + a.http.maxSkewSeconds * 1_000_000
    ensures ClaimedThrough(PeerCacheAfter(c, cache, arrivals), key, until)
  {
    ArrivalKeepsClaims(c, PeerCacheAfter(c, cache, arrivals[..|arrivals| - 1]), arrivals[|arrivals| - 1], key, until);
  }

  lemma ResultInPrefix(c: Crypto, cache: Cache, arrivals: seq<Arrival>, n: nat, i: nat)
    requires i < n <= |arrivals|
    ensures PeerResultAt(c, cache, arrivals[..n], i) == PeerResultAt(c, cache, arrivals, i)
  {
    assert arrivals[..n][..i] == arrivals[..i];
  }

  /** The claim of a verified request outlives its window, whatever arrives in between. */
  lemma {:induction false} PeerClaimLives(c: Crypto, cache: Cache, arrivals: seq<Arrival>, skew: int, i: nat)
    requires ArrivalOrder(arrivals, skew) && i < |arrivals|
    requires PeerResultAt(c, cache, arrivals, i).Verified? && arrivals[i].header.Envelope?
    ensures ClaimedThrough(PeerCacheAfter(c, cache, arrivals), NonceKey(arrivals[i].header.env),
                           arrivals[i].claimedAt + skew * 1_000_000)
  {
    var n := |arrivals| - 1;
    if i < n {
      ResultInPrefix(c, cache, arrivals, n, i);
      PeerClaimLives(c, cache, arrivals[..n], skew, i);
      LastArrivalKeepsClaims(c, cache, arrivals, NonceKey(arrivals[i].header.env),
                             arrivals[i].claimedAt + skew * 1_000_000);
    } else {
      LastArrivalClaims(c, cache, arrivals);
    }
  }

  /** Two requests verified under one nonce key, from whatever manifests, are claimed more than the window apart. */
  lemma VerificationsApart(c: Crypto, cache: Cache, arrivals: seq<Arrival>, skew: int, i: nat, j: nat)
    requires ArrivalOrder(arrivals, skew) && i < j < |arrivals|
    requires arrivals[i].header.Envelope? && arrivals[j].header.Envelope?
    requires NonceKey(arrivals[i].header.env) == NonceKey(arrivals[j].header.env)
    requires PeerResultAt(c, cache, arrivals, i).Verified? && PeerResultAt(c, cache, arrivals, j).Verified?
    ensures arrivals[j].claimedAt > arrivals[i].claimedAt + skew * 1_000_000
  {
    ResultInPrefix(c, cache, arrivals, j, i);
    PeerClaimLives(c, cache, arrivals[..j], skew, i);
    var b := arrivals[j];
    VerifiedExactly(c, PeerCacheAfter(c, cache, arrivals[..j]), b.header, b.peer, b.http, b.checkedAt, b.claimedAt);
  }

  /**
   A verified request that arrives again within the window of its claim, after whatever else, is refused
   as a replay while it is fresh and as stale otherwise, and leaves the cache alone.
   */
  lemma ArrivesAgain(c: Crypto, cache: Cache, arrivals: seq<Arrival>, skew: int, i: nat, j: nat)
    requires ArrivalOrder(arrivals, skew) && i < j < |arrivals| && PeerResultAt(c, cache, arrivals, i).Verified?
    requires arrivals[j] == arrivals[i].(checkedAt := arrivals[j].checkedAt, claimedAt := arrivals[j].claimedAt)
    requires arrivals[j].claimedAt <= arrivals[i].claimedAt + skew * 1_000_000
    ensures var before := PeerCacheAfter(c, cache, arrivals[..j]);
      arrivals[i].header.Envelope? &&
      Arrive(c, before, arrivals[j]) ==
        (Unauthorized(if Fresh(arrivals[i].header.env, arrivals[i].http, arrivals[j].checkedAt)
                      then "replay" else "stale_timestamp"), before)
  {
    var a, b := arrivals[i], arrivals[j];
    VerifiedHasEnvelope(c, PeerCacheAfter(c, cache, arrivals[..i]), a);
    ResultInPrefix(c, cache, arrivals, j, i);
    PeerClaimLives(c, cache, arrivals[..j], skew, i);
    VerifiedIsReplayWhileClaimed(c, PeerCacheAfter(c, cache, arrivals[..i]), a.header, a.peer, a.http, a.checkedAt,
                                 a.claimedAt, PeerCacheAfter(c, cache, arrivals[..j]), b.checkedAt, b.claimedAt);
  }

  // ---------- built requests ----------

  /** What a request is built from besides its key and its route; identifier, nonce and clock come from outside. */
  datatype Draft = Draft(federationId: string, requestId: string, source: string, now: int, nonce: Bytes, revision: int)

  /** The envelope of build_signed_request before it is signed, for the target, method, path and body of a route. */
  function Unsigned(c: Crypto, d: Draft, route: Inbound): SignedRequest {
    SignedRequest(d.federationId, d.requestId, d.source, route.selfNodeId, Upper(route.httpMethod), route.path, d.now,
                  Encode(d.nonce), c.sha256Hex(route.body), d.revision, None)
  }

  /** build_signed_request */
  function BuildSignedRequest(c: Crypto, key: Key, keyId: string, d: Draft, route: Inbound): SignedRequest {
    SignedCopy(c, Unsigned(c, d, route), key, keyId)
  }

  /** A built request authenticates under its own key, on the route it was built for, while it is fresh. */
  lemma BuiltAuthenticates(c: Crypto, key: Key, keyId: string, d: Draft, http: Inbound, checkedAt: int, claimedAt: int)
    requires SignaturesVerify(c) && CheckBodySize(http.body, http.maxBodyBytes)
    ensures var e := BuildSignedRequest(c, key, keyId, d, http);
      && e.timestamp == d.now / MICROS_PER_SECOND * MICROS_PER_SECOND && e.sourceNodeId == d.source
      && e.signature.Some? && e.signature.value.keyId == keyId
      && (Authenticate(c, Call(e, c.publicJwk(key), http, checkedAt, claimedAt)).ok <==>
            Abs(checkedAt - e.timestamp) <= Window(http))
  {
    var unsigned := Unsigned(c, d, http);
    SignedCopyIsSignedModel(c, unsigned, key, keyId);
    SignThenVerify(c, RequestModel(unsigned), key, keyId);
    assert VerifyRequestSignature(c, SignedCopy(c, unsigned, key, keyId), c.publicJwk(key));
  }

  /**
   A request that a node builds with a key its manifest advertises first under
   that identifier is verified at its target, on the route it was built for,
   exactly while the clock is within the skew of the whole second it was built
   in and its nonce is free.
   */
  lemma BuiltRequestVerified(c: Crypto, key: Key, keyId: string, d: Draft, peer: Manifest, http: Inbound, cache: Cache,
                             checkedAt: int, claimedAt: int)
    requires SignaturesVerify(c) && FindJwk(peer.publicKeys, keyId) == Some(c.publicJwk(key))
    requires d.source == peer.nodeId && CheckBodySize(http.body, http.maxBodyBytes)
    ensures var e, second := BuildSignedRequest(c, key, keyId, d, http), d.now / MICROS_PER_SECOND * MICROS_PER_SECOND;
      var r := PeerStep(c, cache, Envelope(e), peer, http, checkedAt, claimedAt).0;
      && (r.Verified? <==>
            second - Window(http) <= checkedAt <= second + Window(http) && !Live(cache, NonceKey(e), claimedAt))
      && (r.Verified? ==> r.peer == VerifiedPeer(d.source, keyId, d.revision, d.requestId))
  {
    BuiltAuthenticates(c, key, keyId, d, http, checkedAt, claimedAt);
  }

  /** Two manifests under which every request, at every instant and on every cache, ends alike. */
  ghost predicate SameResults(c: Crypto, before: Manifest, after: Manifest) {
    forall cache, header, http, checkedAt, claimedAt ::
      PeerStep(c, cache, header, before, http, checkedAt, claimedAt)
      == PeerStep(c, cache, header, after, http, checkedAt, claimedAt)
  }

  /** Every advertised key is the public half of some key. */
  ghost predicate GenuineKeys(c: Crypto, keys: seq<PublicKey>) {
    forall i :: 0 <= i < |keys| ==> IsPublicHalf(c, keys[i].jwk)
  }

  lemma SameLookupsSameResults(c: Crypto, before: Manifest, after: Manifest)
    requires before.nodeId == after.nodeId && SameLookups(before.publicKeys, after.publicKeys)
    ensures SameResults(c, before, after)
  {
    forall cache, header, http, checkedAt, claimedAt
      ensures PeerStep(c, cache, header, before, http, checkedAt, claimedAt)
           == PeerStep(c, cache, header, after, http, checkedAt, claimedAt)
    {
      SameLookupsSameResult(c, before, after, cache, header, http, checkedAt, claimedAt);
    }
  }

  const PROBED := Inbound("", "", "", [], None, 0)

  /** A request that the holder of a key could send at once to a node without a name. */
  function Probe(c: Crypto, key: Key, keyId: string, source: string): SignedRequest {
    BuildSignedRequest(c, key, keyId, Draft("", "", source, 0, [], 0), PROBED)
  }

  lemma VerifiedIsSigned(c: Crypto, cache: Cache, e: SignedRequest, peer: Manifest, http: Inbound, checkedAt: int,
                         claimedAt: int)
    requires PeerStep(c, cache, Envelope(e), peer, http, checkedAt, claimedAt).0.Verified?
    ensures e.signature.Some? && FindJwk(peer.publicKeys, e.signature.value.keyId).Some?
    ensures VerifyRequestSignature(c, e, FindJwk(peer.publicKeys, e.signature.value.keyId).value)
  {
  }

  lemma FoundIsGenuine(c: Crypto, keys: seq<PublicKey>, keyId: string)
    requires GenuineKeys(c, keys) && FindJwk(keys, keyId).Some?
    ensures IsPublicHalf(c, FindJwk(keys, keyId).value)
  {
    FindJwkIsFirst(keys, keyId);
  }

  lemma ProbeNeedsItsKey(c: Crypto, key: Key, keyId: string, peer: Manifest)
    requires SignaturesVerify(c) && KeysBind(c) && GenuineKeys(c, peer.publicKeys)
    requires PeerStep(c, map[], Envelope(Probe(c, key, keyId, peer.nodeId)), peer, PROBED, 0, 0).0.Verified?
    ensures FindJwk(peer.publicKeys, keyId) == Some(c.publicJwk(key))
  {
    var unsigned := Unsigned(c, Draft("", "", peer.nodeId, 0, [], 0), PROBED);
    assert Probe(c, key, keyId, peer.nodeId) == SignedCopy(c, unsigned, key, keyId);
    VerifiedIsSigned(c, map[], SignedCopy(c, unsigned, key, keyId), peer, PROBED, 0, 0);
    SignedCopyIsSignedModel(c, unsigned, key, keyId);
    SignThenVerify(c, RequestModel(unsigned), key, keyId);
    FoundIsGenuine(c, peer.publicKeys, keyId);
    VerifiesUnderOwnKey(c, RequestModel(unsigned), key, keyId, FindJwk(peer.publicKeys, keyId).value);
  }

  /** The probe is verified under a manifest exactly when its lookup finds the public half of the probing key. */
  lemma ProbeVerified(c: Crypto, key: Key, keyId: string, peer: Manifest)
    requires SignaturesVerify(c) && KeysBind(c) && GenuineKeys(c, peer.publicKeys)
    ensures PeerStep(c, map[], Envelope(Probe(c, key, keyId, peer.nodeId)), peer, PROBED, 0, 0).0.Verified?
       <==> FindJwk(peer.publicKeys, keyId) == Some(c.publicJwk(key))
  {
    if FindJwk(peer.publicKeys, keyId) == Some(c.publicJwk(key)) {
      BuiltRequestVerified(c, key, keyId, Draft("", "", peer.nodeId, 0, [], 0), peer, PROBED, map[], 0, 0);
    } else if PeerStep(c, map[], Envelope(Probe(c, key, keyId, peer.nodeId)), peer, PROBED, 0, 0).0.Verified? {
      ProbeNeedsItsKey(c, key, keyId, peer);
    }
  }

  lemma OtherLookupShows(c: Crypto, before: Manifest, after: Manifest, keyId: string)
    requires SignaturesVerify(c) && KeysBind(c) && before.nodeId == after.nodeId
    requires GenuineKeys(c, before.publicKeys) && GenuineKeys(c, after.publicKeys)
    requires FindJwk(before.publicKeys, keyId).Some?
    requires FindJwk(before.publicKeys, keyId) != FindJwk(after.publicKeys, keyId)
    ensures exists e ::
      PeerStep(c, map[], Envelope(e), before, PROBED, 0, 0).0 != PeerStep(c, map[], Envelope(e), after, PROBED, 0, 0).0
  {
    FoundIsGenuine(c, before.publicKeys, keyId);
    var jwk := FindJwk(before.publicKeys, keyId).value;
    var key :| c.publicJwk(key) == jwk;
    ProbeVerified(c, key, keyId, before);
    ProbeVerified(c, key, keyId, after);
    assert Envelope(Probe(c, key, keyId, before.nodeId)).Envelope?;
  }

  /**
   Where signatures verify under their own keys alone and all advertised keys are
   genuine, two manifests of one node treat all requests alike exactly when they
   give equal lookups.
   */
  lemma SameResultsExactly(c: Crypto, before: Manifest, after: Manifest)
    requires SignaturesVerify(c) && KeysBind(c) && before.nodeId == after.nodeId
    requires GenuineKeys(c, before.publicKeys) && GenuineKeys(c, after.publicKeys)
    ensures SameResults(c, before, after) <==> SameLookups(before.publicKeys, after.publicKeys)
  {
    if SameLookups(before.publicKeys, after.publicKeys) {
      SameLookupsSameResults(c, before, after);
    } else {
      var keyId :| FindJwk(before.publicKeys, keyId) != FindJwk(after.publicKeys, keyId);
      if FindJwk(before.publicKeys, keyId).Some? {
        OtherLookupShows(c, before, after, keyId);
      } else {
        OtherLookupShows(c, after, before, keyId);
      }
    }
  }

  /**
   A refresh accepted with an unchanged key map, from a manifest whose repeated
   key identifiers carry one key, preserves authentication when the refreshed
   manifest is such a one too.
   */
  lemma RefreshKeepsAuthentication(c: Crypto, before: Manifest, after: Manifest, policy: KeyContinuityPolicy)
    requires CheckKeyContinuity(c, before, after, policy) == KeyContinuityDecision(Accept, "ok")
    requires Unambiguous(before.publicKeys) && Unambiguous(after.publicKeys)
    ensures SameResults(c, before, after)
  {
    ContinuityKeepsKeys(c, before, after, policy);
    EqualMapsEqualLookups(before.publicKeys, after.publicKeys);
    SameLookupsSameResults(c, before, after);
  }

  /** And, for genuine keys, exactly then. */
  lemma RefreshKeepsAuthenticationExactly(c: Crypto, before: Manifest, after: Manifest, policy: KeyContinuityPolicy)
    requires SignaturesVerify(c) && KeysBind(c)
    requires GenuineKeys(c, before.publicKeys) && GenuineKeys(c, after.publicKeys)
    requires CheckKeyContinuity(c, before, after, policy) == KeyContinuityDecision(Accept, "ok")
    requires Unambiguous(before.publicKeys)
    ensures SameResults(c, before, after) <==> Unambiguous(after.publicKeys)
  {
    ContinuityKeepsKeys(c, before, after, policy);
    EqualMapsEqualLookups(before.publicKeys, after.publicKeys);
    SameResultsExactly(c, before, after);
  }

  /** With distinct key identifiers in both manifests nothing can change. */
  lemma DistinctKeyIdsKeepAuthentication(c: Crypto, before: Manifest, after: Manifest, policy: KeyContinuityPolicy)
    requires CheckKeyContinuity(c, before, after, policy) == KeyContinuityDecision(Accept, "ok")
    requires DistinctKeyIds(before.publicKeys) && DistinctKeyIds(after.publicKeys)
    ensures SameResults(c, before, after)
  {
    DistinctIsUnambiguous(before.publicKeys);
    DistinctIsUnambiguous(after.publicKeys);
    RefreshKeepsAuthentication(c, before, after, policy);
  }

  lemma ContinuityKeepsKeys(c: Crypto, before: Manifest, after: Manifest, policy: KeyContinuityPolicy)
    requires CheckKeyContinuity(c, before, after, policy) == KeyContinuityDecision(Accept, "ok")
    ensures before.nodeId == after.nodeId && KeyMap(before.publicKeys) == KeyMap(after.publicKeys)
  {
  }

  lemma SameLookupsSameResult(c: Crypto, before: Manifest, after: Manifest, cache: Cache, header: Header, http: Inbound,
                              checkedAt: int, claimedAt: int)
    requires before.nodeId == after.nodeId && SameLookups(before.publicKeys, after.publicKeys)
    ensures PeerStep(c, cache, header, before, http, checkedAt, claimedAt)
         == PeerStep(c, cache, header, after, http, checkedAt, claimedAt)
  {
    if header.Envelope? && header.env.signature.Some? {
      var keyId := header.env.signature.value.keyId;
      assert FindJwk(before.publicKeys, keyId) == FindJwk(after.publicKeys, keyId);
    }
  }

  // ---------- runs ----------

  /** What the cache holds after a run of calls. */
  function CacheAfter(auth: Authenticator, cache: Cache, calls: seq<Call>): Cache {
    if calls == [] then cache
    else Step(auth, CacheAfter(auth, cache, calls[..|calls| - 1]), calls[|calls| - 1]).1
  }

  function VerdictAt(auth: Authenticator, cache: Cache, calls: seq<Call>, i: nat): Verdict
    requires i < |calls|
  {
    Step(auth, CacheAfter(auth, cache, calls[..i]), calls[i]).0
  }

  /** Calls listed in the order of their claims, on a clock that never goes back, all with the same window. */
  ghost predicate ClaimOrder(calls: seq<Call>, window: int) {
    (forall i :: 0 <= i < |calls| ==> Window(calls[i].http) == window) &&
    (forall i, j :: 0 <= i <= j < |calls| ==> calls[i].claimedAt <= calls[j].claimedAt)
  }

  /** An accepted claim outlives its window, whatever is called in between. */
  lemma {:induction false} ClaimLives(auth: Authenticator, cache: Cache, calls: seq<Call>, window: int, i: nat)
    requires ClaimOrder(calls, window) && i < |calls| && VerdictAt(auth, cache, calls, i).ok
    ensures NonceKey(calls[i].env) in CacheAfter(auth, cache, calls)
    ensures CacheAfter(auth, cache, calls)[NonceKey(calls[i].env)] >= calls[i].claimedAt + window
  {
    var n := |calls| - 1;
    if i < n {
      var prefix := calls[..n];
      assert prefix[..i] == calls[..i];
      ClaimLives(auth, cache, prefix, window, i);
    }
  }

  /** Two acceptances of one nonce key are claimed more than the skew window apart. */
  lemma AcceptancesApart(auth: Authenticator, cache: Cache, calls: seq<Call>, window: int, i: nat, j: nat)
    requires ClaimOrder(calls, window) && i < j < |calls|
    requires VerdictAt(auth, cache, calls, i).ok && VerdictAt(auth, cache, calls, j).ok
    requires NonceKey(calls[i].env) == NonceKey(calls[j].env)
    ensures calls[j].claimedAt > calls[i].claimedAt + window
  {
    assert calls[..j][..i] == calls[..i];
    ClaimLives(auth, cache, calls[..j], window, i);
  }

  /**
   A second acceptance under a nonce key carries a timestamp later than the
   first claim, up to the time its own claim took after its freshness check.
   */
  lemma LaterAcceptanceIsNewer(c: Crypto, cache: Cache, calls: seq<Call>, window: int, i: nat, j: nat)
    requires ClaimOrder(calls, window) && i < j < |calls|
    requires VerdictAt(Cascade(c), cache, calls, i).ok && VerdictAt(Cascade(c), cache, calls, j).ok
    requires NonceKey(calls[i].env) == NonceKey(calls[j].env)
    ensures calls[j].env.timestamp + (calls[j].claimedAt - calls[j].checkedAt) > calls[i].claimedAt
  {
    AcceptancesApart(Cascade(c), cache, calls, window, i, j);
    AcceptedIsFresh(c, CacheAfter(Cascade(c), cache, calls[..j]), calls[j]);
  }

  lemma AcceptedIsFresh(c: Crypto, cache: Cache, call: Call)
    requires Step(Cascade(c), cache, call).0.ok
    ensures call.env.timestamp - Window(call.http) <= call.checkedAt <= call.env.timestamp + Window(call.http)
  {
  }

  /** The last instant that a signature over this request covers as its timestamp. */
  function LastInstant(e: SignedRequest): int {
    e.timestamp / MICROS_PER_SECOND * MICROS_PER_SECOND + (MICROS_PER_SECOND - 1)
  }

  lemma SameSecondSameKey(a: SignedRequest, b: SignedRequest)
    requires SameToTheSecond(a, b)
    ensures NonceKey(a) == NonceKey(b) && b.timestamp <= LastInstant(a)
  {
  }

  /**
   A signed request, in whatever fraction of its second and under whatever
   signature it is presented, is not accepted again once the first claim is past
   its second, put off by the time the later call takes from check to claim.
   */
  lemma AcceptedAtMostOnce(c: Crypto, cache: Cache, calls: seq<Call>, window: int, i: nat, j: nat)
    requires ClaimOrder(calls, window) && i < j < |calls|
    requires SameToTheSecond(calls[i].env, calls[j].env)
    requires LastInstant(calls[i].env) + (calls[j].claimedAt - calls[j].checkedAt) <= calls[i].claimedAt
    requires VerdictAt(Cascade(c), cache, calls, i).ok
    ensures !VerdictAt(Cascade(c), cache, calls, j).ok
  {
    SameSecondSameKey(calls[i].env, calls[j].env);
    if VerdictAt(Cascade(c), cache, calls, j).ok {
      LaterAcceptanceIsNewer(c, cache, calls, window, i, j);
    }
  }

  /** An identical envelope is not accepted again once the first claim is past its timestamp, put off likewise. */
  lemma EnvelopeAcceptedAtMostOnce(c: Crypto, cache: Cache, calls: seq<Call>, window: int, i: nat, j: nat)
    requires ClaimOrder(calls, window) && i < j < |calls|
    requires calls[i].env == calls[j].env
    requires calls[i].env.timestamp + (calls[j].claimedAt - calls[j].checkedAt) <= calls[i].claimedAt
    requires VerdictAt(Cascade(c), cache, calls, i).ok
    ensures !VerdictAt(Cascade(c), cache, calls, j).ok
  {
    if VerdictAt(Cascade(c), cache, calls, j).ok {
      LaterAcceptanceIsNewer(c, cache, calls, window, i, j);
    }
  }

  // ---------- which requests can be replayed ----------

  /** A call with another copy of its envelope at other instants. */
  function Again(call: Call, e: SignedRequest, checkedAt: int, claimedAt: int): Call {
    call.(env := e, checkedAt := checkedAt, claimedAt := claimedAt)
  }

  /**
   Some copy of the signed request is accepted, claimed at or after an instant and
   within a delay of its check.
   */
  ghost predicate AcceptedAgain(c: Crypto, cache: Cache, call: Call, from: int, delay: nat) {
    exists e, checkedAt, claimedAt ::
      SameToTheSecond(call.env, e) && from <= claimedAt && checkedAt <= claimedAt <= checkedAt + delay &&
      Step(Cascade(c), cache, Again(call, e, checkedAt, claimedAt)).0.ok
  }

  /** The envelope itself is. */
  ghost predicate EnvelopeAcceptedAgain(c: Crypto, cache: Cache, call: Call, from: int, delay: nat) {
    exists checkedAt, claimedAt ::
      from <= claimedAt && checkedAt <= claimedAt <= checkedAt + delay &&
      Step(Cascade(c), cache, Again(call, call.env, checkedAt, claimedAt)).0.ok
  }

  /** The signature does not see the fraction of the second. */
  lemma RestampedVerifies(c: Crypto, e: SignedRequest, timestamp: int, jwk: Jwk)
    requires SameToTheSecond(e, e.(timestamp := timestamp))
    ensures VerifyRequestSignature(c, e.(timestamp := timestamp), jwk) == VerifyRequestSignature(c, e, jwk)
  {
    var other := e.(timestamp := timestamp);
    RequestBodies(e, other);
    SameBodySameVerdict(c, RequestModel(e), RequestModel(other), jwk);
  }

  /** Once a claim is made, a copy with a later timestamp than the claim is accepted at the end of its own window. */
  lemma RestampedAccepted(c: Crypto, cache: Cache, call: Call, timestamp: int, delay: nat)
    requires Authenticate(c, call).ok && SameToTheSecond(call.env, call.env.(timestamp := timestamp))
    requires NonceKey(call.env) in cache && cache[NonceKey(call.env)] == call.claimedAt + Window(call.http)
    requires timestamp + delay > call.claimedAt
    ensures var checkedAt := timestamp + Window(call.http);
      Step(Cascade(c), cache, Again(call, call.env.(timestamp := timestamp), checkedAt, checkedAt + delay)).0.ok
  {
    RestampedVerifies(c, call.env, timestamp, call.jwk);
    SameSecondSameKey(call.env, call.env.(timestamp := timestamp));
    var checkedAt := timestamp + Window(call.http);
    assert Authenticate(c, Again(call, call.env.(timestamp := timestamp), checkedAt, checkedAt + delay)).ok;
  }

  lemma SecondAcceptance(c: Crypto, cache: Cache, call: Call, e: SignedRequest, checkedAt: int, claimedAt: int)
    requires Step(Cascade(c), cache, Again(call, e, checkedAt, claimedAt)).0.ok && call.claimedAt <= claimedAt
    requires NonceKey(e) in cache && cache[NonceKey(e)] == call.claimedAt + Window(call.http)
    ensures e.timestamp + (claimedAt - checkedAt) > call.claimedAt
  {
    AcceptedIsFresh(c, cache, Again(call, e, checkedAt, claimedAt));
  }

  /**
   The documentation promises that a request cannot be replayed when a nonce
   cache is used.  A signed request that was accepted is accepted again, as some
   copy that the signature covers and with its claim within a delay of its check,
   exactly when the last instant of its second, put off by the delay, lies after
   the first claim.
   */
  lemma ReplayableExactly(c: Crypto, cache: Cache, call: Call, delay: nat)
    requires Step(Cascade(c), cache, call).0.ok
    ensures AcceptedAgain(c, Step(Cascade(c), cache, call).1, call, call.claimedAt, delay) <==>
            LastInstant(call.env) + delay > call.claimedAt
  {
    var claimed, last := Step(Cascade(c), cache, call).1, LastInstant(call.env);
    AcceptedIsFresh(c, cache, call);
    if last + delay > call.claimedAt {
      RestampedAccepted(c, claimed, call, last, delay);
      assert SameToTheSecond(call.env, call.env.(timestamp := last));
    }
    if AcceptedAgain(c, claimed, call, call.claimedAt, delay) {
      var e, checkedAt, claimedAt :|
        SameToTheSecond(call.env, e) && call.claimedAt <= claimedAt && checkedAt <= claimedAt <= checkedAt + delay &&
        Step(Cascade(c), claimed, Again(call, e, checkedAt, claimedAt)).0.ok;
      SameSecondSameKey(call.env, e);
      SecondAcceptance(c, claimed, call, e, checkedAt, claimedAt);
    }
  }

  /**
   The identical envelope is accepted again exactly when its own timestamp, put off
   by the delay, lies after the first claim.
   */
  lemma EnvelopeReplayableExactly(c: Crypto, cache: Cache, call: Call, delay: nat)
    requires Step(Cascade(c), cache, call).0.ok
    ensures EnvelopeAcceptedAgain(c, Step(Cascade(c), cache, call).1, call, call.claimedAt, delay) <==>
            call.env.timestamp + delay > call.claimedAt
  {
    var claimed := Step(Cascade(c), cache, call).1;
    AcceptedIsFresh(c, cache, call);
    if call.env.timestamp + delay > call.claimedAt {
      RestampedAccepted(c, claimed, call, call.env.timestamp, delay);
      assert call.env.(timestamp := call.env.timestamp) == call.env;
    }
    if EnvelopeAcceptedAgain(c, claimed, call, call.claimedAt, delay) {
      var checkedAt, claimedAt :| call.claimedAt <= claimedAt && checkedAt <= claimedAt <= checkedAt + delay &&
                                  Step(Cascade(c), claimed, Again(call, call.env, checkedAt, claimedAt)).0.ok;
      SecondAcceptance(c, claimed, call, call.env, checkedAt, claimedAt);
    }
  }

  /** What presenting a built request to an empty cache, checked and claimed at one instant, comes to. */
  ghost predicate AcceptedThenAgain(c: Crypto, call: Call) {
    Step(Cascade(c), map[], call).0.ok && AcceptedAgain(c, Step(Cascade(c), map[], call).1, call, call.claimedAt, 0)
  }

  /**
   Every built request that arrives before the last microsecond of the second it
   was built in, as one that is sent at once may, is accepted and can be accepted
   again; no other fresh one can.
   */
  lemma BuiltIsReplayableExactly(c: Crypto, key: Key, keyId: string, d: Draft, http: Inbound, first: int)
    requires SignaturesVerify(c) && CheckBodySize(http.body, http.maxBodyBytes)
    requires var second := d.now / MICROS_PER_SECOND * MICROS_PER_SECOND; Abs(first - second) <= Window(http)
    ensures var call := Call(BuildSignedRequest(c, key, keyId, d, http), c.publicJwk(key), http, first, first);
      && Step(Cascade(c), map[], call).0.ok
      && (AcceptedThenAgain(c, call) <==>
            first < d.now / MICROS_PER_SECOND * MICROS_PER_SECOND + (MICROS_PER_SECOND - 1))
  {
    BuiltAuthenticates(c, key, keyId, d, http, first, first);
    var call := Call(BuildSignedRequest(c, key, keyId, d, http), c.publicJwk(key), http, first, first);
    ReplayableExactly(c, map[], call, 0);
  }

  // ---------- rejected calls are invisible ----------

  function Select<T>(s: seq<T>, keep: seq<bool>): seq<T>
    requires |keep| == |s|
  {
    if s == [] then []
    else
      var n := |s| - 1;
      Select(s[..n], keep[..n]) + if keep[n] then [s[n]] else []
  }

  function Verdicts(auth: Authenticator, cache: Cache, calls: seq<Call>): seq<Verdict> {
    seq(|calls|, i requires 0 <= i < |calls| => VerdictAt(auth, cache, calls, i))
  }

  lemma SelectSnoc<T>(s: seq<T>, keep: seq<bool>, x: T, kept: bool)
    requires |keep| == |s|
    ensures Select(s + [x], keep + [kept]) == Select(s, keep) + if kept then [x] else []
  {
    assert (s + [x])[..|s|] == s && (keep + [kept])[..|s|] == keep;
  }

  /** One more call at the end of a run. */
  lemma CallSnoc(auth: Authenticator, cache: Cache, calls: seq<Call>, call: Call)
    ensures CacheAfter(auth, cache, calls + [call]) == Step(auth, CacheAfter(auth, cache, calls), call).1
    ensures VerdictAt(auth, cache, calls + [call], |calls|) == Step(auth, CacheAfter(auth, cache, calls), call).0
    ensures forall i :: 0 <= i < |calls| ==>
        VerdictAt(auth, cache, calls + [call], i) == VerdictAt(auth, cache, calls, i)
  {
    var longer := calls + [call];
    assert longer[..|calls|] == calls;
    forall i | 0 <= i < |calls| ensures VerdictAt(auth, cache, longer, i) == VerdictAt(auth, cache, calls, i) {
      assert longer[..i] == calls[..i];
    }
  }

  lemma VerdictsSnoc(auth: Authenticator, cache: Cache, calls: seq<Call>, call: Call)
    ensures Verdicts(auth, cache, calls + [call]) ==
            Verdicts(auth, cache, calls) + [Step(auth, CacheAfter(auth, cache, calls), call).0]
  {
    CallSnoc(auth, cache, calls, call);
  }

  /** What the next lemma says of a run and a choice of its calls. */
  ghost predicate SameSeen(auth: Authenticator, cache: Cache, calls: seq<Call>, keep: seq<bool>)
    requires |keep| == |calls|
  {
    CacheAfter(auth, cache, Select(calls, keep)) == CacheAfter(auth, cache, calls) &&
    Verdicts(auth, cache, Select(calls, keep)) == Select(Verdicts(auth, cache, calls), keep)
  }

  /**
   Deleting any of the rejected calls from a run changes no verdict of the
   others and leaves the same cache.
   */
  lemma {:induction false} RejectedCallsAreInvisible(auth: Authenticator, cache: Cache, calls: seq<Call>,
                                                     keep: seq<bool>)
    requires |keep| == |calls|
    requires forall i :: 0 <= i < |calls| && VerdictAt(auth, cache, calls, i).ok ==> keep[i]
    ensures SameSeen(auth, cache, calls, keep)
  {
    if calls != [] {
      var n := |calls| - 1;
      var rest, restKeep := calls[..n], keep[..n];
      assert calls == rest + [calls[n]] && keep == restKeep + [keep[n]];
      CallSnoc(auth, cache, rest, calls[n]);
      RejectedCallsAreInvisible(auth, cache, rest, restKeep);
      SeenSnoc(auth, cache, rest, restKeep, calls[n], keep[n]);
    }
  }

  lemma SeenSnoc(auth: Authenticator, cache: Cache, calls: seq<Call>, keep: seq<bool>, call: Call, kept: bool)
    requires |keep| == |calls| && SameSeen(auth, cache, calls, keep)
    requires Step(auth, CacheAfter(auth, cache, calls), call).0.ok ==> kept
    ensures SameSeen(auth, cache, calls + [call], keep + [kept])
  {
    SelectSnoc(calls, keep, call, kept);
    CallSnoc(auth, cache, calls, call);
    VerdictsSnoc(auth, cache, calls, call);
    SelectSnoc(Verdicts(auth, cache, calls), keep, Step(auth, CacheAfter(auth, cache, calls), call).0, kept);
    var chosen := Select(calls, keep);
    if kept {
      CallSnoc(auth, cache, chosen, call);
      VerdictsSnoc(auth, cache, chosen, call);
    } else {
      assert chosen + [] == chosen;
    }
  }

  /** Which calls of a run are accepted. */
  function Accepted(auth: Authenticator, cache: Cache, calls: seq<Call>): seq<bool> {
    seq(|calls|, i requires 0 <= i < |calls| => VerdictAt(auth, cache, calls, i).ok)
  }

  function ClaimAll(cache: Cache, calls: seq<Call>): Cache {
    if calls == [] then cache
    else
      var last := calls[|calls| - 1];
      ClaimAll(cache, calls[..|calls| - 1])[NonceKey(last.env) := last.claimedAt + Window(last.http)]
  }

  /** The cache after a run is the initial one with exactly the claims of the accepted calls made on it, in order. */
  lemma {:induction false} ClaimsAreAcceptances(auth: Authenticator, cache: Cache, calls: seq<Call>)
    ensures CacheAfter(auth, cache, calls) == ClaimAll(cache, Select(calls, Accepted(auth, cache, calls)))
  {
    if calls != [] {
      var n := |calls| - 1;
      ClaimsAreAcceptances(auth, cache, calls[..n]);
      ClaimsSnoc(auth, cache, calls[..n], calls[n]);
      assert calls == calls[..n] + [calls[n]];
    }
  }

  lemma ClaimsSnoc(auth: Authenticator, cache: Cache, calls: seq<Call>, call: Call)
    requires CacheAfter(auth, cache, calls) == ClaimAll(cache, Select(calls, Accepted(auth, cache, calls)))
    ensures CacheAfter(auth, cache, calls + [call]) ==
            ClaimAll(cache, Select(calls + [call], Accepted(auth, cache, calls + [call])))
  {
    var before, accepted := CacheAfter(auth, cache, calls), Accepted(auth, cache, calls);
    var ok := Step(auth, before, call).0.ok;
    CallSnoc(auth, cache, calls, call);
    AcceptedSnoc(auth, cache, calls, call);
    SelectSnoc(calls, accepted, call, ok);
    ClaimSnoc(cache, Select(calls, accepted), call);
  }

  lemma AcceptedSnoc(auth: Authenticator, cache: Cache, calls: seq<Call>, call: Call)
    ensures Accepted(auth, cache, calls + [call]) ==
            Accepted(auth, cache, calls) + [Step(auth, CacheAfter(auth, cache, calls), call).0.ok]
  {
    CallSnoc(auth, cache, calls, call);
  }

  lemma ClaimSnoc(cache: Cache, calls: seq<Call>, call: Call)
    ensures ClaimAll(cache, calls + [call])
        == ClaimAll(cache, calls)[NonceKey(call.env) := call.claimedAt + Window(call.http)]
    ensures ClaimAll(cache, calls + []) == ClaimAll(cache, calls)
  {
    assert (calls + [call])[..|calls|] == calls;
    assert calls + [] == calls;
  }

  // ---------- a cache that forgets ----------

  /** A cache that drops entries once they have expired. */
  function Purge(cache: Cache, now: int): Cache {
    map k | k in cache && now <= cache[k] :: cache[k]
  }

  /** The run on a cache that is purged at some instant before each call. */
  function PurgingCacheAfter(auth: Authenticator, cache: Cache, calls: seq<Call>, purges: seq<int>): Cache
    requires |purges| == |calls|
  {
    if calls == [] then cache
    else
      var n := |calls| - 1;
      Step(auth, Purge(PurgingCacheAfter(auth, cache, calls[..n], purges[..n]), purges[n]), calls[n]).1
  }

  /** Both caches hold the same live entries from the instant on. */
  ghost predicate SameLive(a: Cache, b: Cache, from: int) {
    forall k :: (k in a && from <= a[k] <==> k in b && from <= b[k]) && (k in a && from <= a[k] ==> a[k] == b[k])
  }

  function PurgingVerdictAt(auth: Authenticator, cache: Cache, calls: seq<Call>, purges: seq<int>, i: nat): Verdict
    requires i < |calls| == |purges|
  {
    Step(auth, Purge(PurgingCacheAfter(auth, cache, calls[..i], purges[..i]), purges[i]), calls[i]).0
  }

  lemma PurgingStep(auth: Authenticator, a: Cache, b: Cache, from: int, purge: int, call: Call)
    requires SameLive(a, b, from) && from <= call.claimedAt && purge <= call.claimedAt
    ensures Step(auth, a, call).0 == Step(auth, Purge(b, purge), call).0
    ensures SameLive(Step(auth, a, call).1, Step(auth, Purge(b, purge), call).1, call.claimedAt)
  {
    assert SameLive(a, Purge(b, purge), call.claimedAt);
  }

  /** An instant from which the next call on sees alike what is live. */
  function SeenFrom(calls: seq<Call>, i: nat): int
    requires i < |calls|
  {
    if i == 0 then calls[0].claimedAt else calls[i - 1].claimedAt
  }

  lemma {:induction false} PurgedLiveAlike(auth: Authenticator, cache: Cache, calls: seq<Call>, purges: seq<int>,
                                           window: int, i: nat)
    requires ClaimOrder(calls, window) && |purges| == |calls| && i < |calls|
    requires forall k :: 0 <= k < |calls| ==> purges[k] <= calls[k].claimedAt
    ensures SameLive(CacheAfter(auth, cache, calls[..i]), PurgingCacheAfter(auth, cache, calls[..i], purges[..i]),
                     SeenFrom(calls, i))
  {
    if i > 0 {
      var j := i - 1;
      PurgedLiveAlike(auth, cache, calls, purges, window, j);
      assert calls[..i][..j] == calls[..j] && purges[..i][..j] == purges[..j];
      PurgingStep(auth, CacheAfter(auth, cache, calls[..j]), PurgingCacheAfter(auth, cache, calls[..j], purges[..j]),
                  SeenFrom(calls, j), purges[j], calls[j]);
    }
  }

  /**
   Forgetting expired entries is invisible: purging before each call at any
   instant not after its claim gives every call the same verdict.
   */
  lemma PurgingIsInvisible(auth: Authenticator, cache: Cache, calls: seq<Call>, purges: seq<int>, window: int, i: nat)
    requires ClaimOrder(calls, window) && |purges| == |calls| && i < |calls|
    requires forall k :: 0 <= k < |calls| ==> purges[k] <= calls[k].claimedAt
    ensures VerdictAt(auth, cache, calls, i) == PurgingVerdictAt(auth, cache, calls, purges, i)
  {
    PurgedLiveAlike(auth, cache, calls, purges, window, i);
    PurgingStep(auth, CacheAfter(auth, cache, calls[..i]), PurgingCacheAfter(auth, cache, calls[..i], purges[..i]),
                SeenFrom(calls, i), purges[i], calls[i]);
  }

  // ---------- nonce keys ----------

  /** Two ways of cutting one string at a colon: the later cut leaves the earlier colon to its left. */
  lemma EarlierColon(a: string, x: string, b: string, y: string)
    requires a + ":" + x == b + ":" + y
    ensures |a| < |b| ==> b[|a|] == ':' && x[|b| - |a| - 1] == ':'
  {
    var s := a + ":" + x;
    if |a| < |b| {
      assert s[|a|] == ':' && s[|a|] == b[|a|];
      assert s[|b|] == ':' && s[|b|] == x[|b| - |a| - 1];
    }
  }

  lemma SameCut(a: string, x: string, b: string, y: string)
    requires a + ":" + x == b + ":" + y && |a| == |b|
    ensures a == b && x == y
  {
    var s := a + ":" + x;
    assert s[..|a|] == a && s[..|a|] == b && s[|a| + 1..] == x && s[|a| + 1..] == y;
  }

  lemma SplitAtFirstColon(a: string, x: string, b: string, y: string)
    requires ':' !in a && ':' !in b
    requires a + ":" + x == b + ":" + y
    ensures a == b && x == y
  {
    EarlierColon(a, x, b, y);
    EarlierColon(b, y, a, x);
    SameCut(a, x, b, y);
  }

  lemma SplitAtLastColon(a: string, x: string, b: string, y: string)
    requires ':' !in x && ':' !in y
    requires a + ":" + x == b + ":" + y
    ensures a == b && x == y
  {
    EarlierColon(a, x, b, y);
    EarlierColon(b, y, a, x);
    SameCut(a, x, b, y);
  }

  /**
   Nonce keys of requests to one node are distinct for distinct federation,
   source or nonce, although node identifiers may contain colons, as long as
   federation identifiers and nonces contain none.
   */
  lemma NonceKeyInjective(a: SignedRequest, b: SignedRequest)
    requires a.targetNodeId == b.targetNodeId
    requires ':' !in a.federationId && ':' !in b.federationId && ':' !in a.nonce && ':' !in b.nonce
    ensures NonceKey(a) == NonceKey(b) <==>
              a.federationId == b.federationId && a.sourceNodeId == b.sourceNodeId && a.nonce == b.nonce
  {
    if NonceKey(a) == NonceKey(b) {
      var x := a.sourceNodeId + ":" + a.targetNodeId + ":" + a.nonce;
      var y := b.sourceNodeId + ":" + b.targetNodeId + ":" + b.nonce;
      KeyTail(a);
      KeyTail(b);
      SplitAtFirstColon(a.federationId, x, b.federationId, y);
      SplitAtLastColon(a.sourceNodeId + ":" + a.targetNodeId, a.nonce, b.sourceNodeId + ":" + b.targetNodeId, b.nonce);
      SameCut(a.sourceNodeId, a.targetNodeId, b.sourceNodeId, b.targetNodeId);
    }
  }

  lemma KeyTail(e: SignedRequest)
    ensures NonceKey(e)[15..] == e.federationId + ":" + (e.sourceNodeId + ":" + e.targetNodeId + ":" + e.nonce)
  {
    var rest := e.federationId + ":" + (e.sourceNodeId + ":" + e.targetNodeId + ":" + e.nonce);
    assert NonceKey(e) == "federlet:nonce:" + rest;
  }

  // ---------- which requests own their nonce key ----------

  predicate OccursAt(s: string, part: string, i: nat) {
    i + |part| <= |s| && s[i..i + |part|] == part
  }

  predicate SameParts(a: SignedRequest, b: SignedRequest) {
    a.federationId == b.federationId && a.sourceNodeId == b.sourceNodeId && a.nonce == b.nonce
  }

  /** No request to the same node with another federation, source or nonce has this request's key. */
  ghost predicate OwnsNonceKey(a: SignedRequest) {
    forall b: SignedRequest :: b.targetNodeId == a.targetNodeId && NonceKey(b) == NonceKey(a) ==> SameParts(a, b)
  }

  function Target(e: SignedRequest): string {
    ":" + e.targetNodeId + ":"
  }

  /** The key behind the federation. */
  function Tail(e: SignedRequest): string {
    e.sourceNodeId + Target(e) + e.nonce
  }

  /** The target between its colons occurs nowhere else behind the federation. */
  predicate TargetOnlyInPlace(e: SignedRequest) {
    forall i: nat | i <= |Tail(e)| :: OccursAt(Tail(e), Target(e), i) ==> i == |e.sourceNodeId|
  }

  lemma KeyIs(e: SignedRequest)
    ensures NonceKey(e) == "federlet:nonce:" + (e.federationId + ":" + Tail(e))
    ensures NonceKey(e)[15..] == e.federationId + ":" + Tail(e)
  {
    KeyTail(e);
    assert Tail(e) == e.sourceNodeId + ":" + e.targetNodeId + ":" + e.nonce;
  }

  lemma TargetInPlace(e: SignedRequest)
    ensures OccursAt(Tail(e), Target(e), |e.sourceNodeId|)
  {
  }

  lemma SameKey(a: SignedRequest, b: SignedRequest)
    requires a.federationId + ":" + Tail(a) == b.federationId + ":" + Tail(b)
    ensures NonceKey(a) == NonceKey(b)
  {
    KeyIs(a);
    KeyIs(b);
  }

  lemma Regroup(a: string, b: string, c: string)
    ensures a + ":" + (b + ":" + c) == (a + ":" + b) + ":" + c
  {
  }

  lemma TailSplit(e: SignedRequest, left: string, right: string)
    requires e.sourceNodeId == left + ":" + right
    ensures Tail(e) == left + ":" + Tail(e.(sourceNodeId := right))
  {
  }

  lemma CutAt(s: string) returns (left: string, right: string)
    requires ':' in s
    ensures s == left + ":" + right
  {
    var i :| 0 <= i < |s| && s[i] == ':';
    left, right := s[..i], s[i + 1..];
  }

  lemma ColonInFederationCollides(a: SignedRequest) returns (twin: SignedRequest)
    requires ':' in a.federationId
    ensures NonceKey(twin) == NonceKey(a) && twin.targetNodeId == a.targetNodeId && !SameParts(a, twin)
  {
    var left, right := CutAt(a.federationId);
    twin := a.(federationId := left, sourceNodeId := right + ":" + a.sourceNodeId);
    TailSplit(twin, right, a.sourceNodeId);
    Regroup(left, right, Tail(a));
    assert Tail(twin.(sourceNodeId := a.sourceNodeId)) == Tail(a);
    SameKey(a, twin);
    assert |left| < |a.federationId|;
  }

  lemma ColonInSourceCollides(a: SignedRequest) returns (twin: SignedRequest)
    requires ':' in a.sourceNodeId
    ensures NonceKey(twin) == NonceKey(a) && twin.targetNodeId == a.targetNodeId && !SameParts(a, twin)
  {
    var left, right := CutAt(a.sourceNodeId);
    twin := a.(federationId := a.federationId + ":" + left, sourceNodeId := right);
    TailSplit(a, left, right);
    assert Tail(twin) == Tail(a.(sourceNodeId := right));
    Regroup(a.federationId, left, Tail(twin));
    SameKey(a, twin);
    assert |right| < |a.sourceNodeId|;
  }

  lemma TargetAgainCollides(a: SignedRequest, i: nat) returns (twin: SignedRequest)
    requires OccursAt(Tail(a), Target(a), i) && i != |a.sourceNodeId|
    ensures NonceKey(twin) == NonceKey(a) && twin.targetNodeId == a.targetNodeId && !SameParts(a, twin)
  {
    var tail, end := Tail(a), i + |Target(a)|;
    twin := a.(sourceNodeId := tail[..i], nonce := tail[end..]);
    assert tail == tail[..i] + tail[i..end] + tail[end..];
    assert Tail(twin) == tail;
    SameKey(a, twin);
  }

  /** The same key cut at another place leaves the target at another place. */
  lemma SameKeySameParts(a: SignedRequest, b: SignedRequest)
    requires b.targetNodeId == a.targetNodeId && NonceKey(b) == NonceKey(a)
    requires ':' !in a.federationId && ':' !in a.sourceNodeId && TargetOnlyInPlace(a)
    ensures SameParts(a, b)
  {
    KeyIs(a);
    KeyIs(b);
    EarlierColon(b.federationId, Tail(b), a.federationId, Tail(a));
    if |a.federationId| < |b.federationId| {
      LaterCutRepeatsTarget(a, b);
    } else {
      SameCut(a.federationId, Tail(a), b.federationId, Tail(b));
      TargetInPlace(b);
      SameTail(a, b);
    }
  }

  lemma LaterCutRepeatsTarget(a: SignedRequest, b: SignedRequest)
    requires b.targetNodeId == a.targetNodeId && NonceKey(b) == NonceKey(a)
    requires ':' !in a.sourceNodeId && |a.federationId| < |b.federationId|
    ensures exists i: nat :: i > |a.sourceNodeId| && OccursAt(Tail(a), Target(a), i)
  {
    KeyIs(a);
    KeyIs(b);
    LaterCut(a.federationId, Tail(a), b.federationId, Tail(b));
    TargetInPlace(b);
    var k := |b.federationId| - |a.federationId| - 1;
    assert forall i :: 0 <= i < |a.sourceNodeId| ==> Tail(a)[i] == a.sourceNodeId[i];
    assert OccursAt(Tail(a), Target(a), k + 1 + |b.sourceNodeId|);
  }

  lemma LaterCut(a: string, x: string, b: string, y: string)
    requires a + ":" + x == b + ":" + y && |a| < |b|
    ensures var k := |b| - |a| - 1; k < |x| && x[k] == ':' && x[k + 1..] == y
  {
    var s := a + ":" + x;
    assert s[|b|] == ':' && s[|b|] == x[|b| - |a| - 1];
    assert s[|b| + 1..] == y;
  }

  lemma SameTail(a: SignedRequest, b: SignedRequest)
    requires Tail(a) == Tail(b) && a.targetNodeId == b.targetNodeId && |a.sourceNodeId| == |b.sourceNodeId|
    ensures a.sourceNodeId == b.sourceNodeId && a.nonce == b.nonce
  {
    var m, end := |a.sourceNodeId|, |a.sourceNodeId| + |Target(a)|;
    assert Tail(a)[..m] == a.sourceNodeId && Tail(b)[..m] == b.sourceNodeId;
    assert Tail(a)[end..] == a.nonce && Tail(b)[end..] == b.nonce;
  }

  /**
   A request shares its nonce key with no other request to its node exactly when
   neither its federation nor its source has a colon and its target, between
   colons, occurs nowhere else behind the federation.
   */
  lemma NonceKeyOwnedExactly(a: SignedRequest)
    ensures OwnsNonceKey(a) <==> ':' !in a.federationId && ':' !in a.sourceNodeId && TargetOnlyInPlace(a)
  {
    if ':' in a.federationId {
      var twin := ColonInFederationCollides(a);
    } else if ':' in a.sourceNodeId {
      var twin := ColonInSourceCollides(a);
    } else if i: nat :| i <= |Tail(a)| && OccursAt(Tail(a), Target(a), i) && i != |a.sourceNodeId| {
      var twin := TargetAgainCollides(a, i);
    } else {
      forall b: SignedRequest | b.targetNodeId == a.targetNodeId && NonceKey(b) == NonceKey(a) ensures SameParts(a, b) {
        SameKeySameParts(a, b);
      }
    }
  }

  /** The nonces the library builds are encoded bytes, which never contain a colon. */
  lemma BuiltNonceKeysInjective(c: Crypto, key: Key, keyId: string, d: Draft, route: Inbound,
                                otherKey: Key, otherKeyId: string, o: Draft, otherRoute: Inbound)
    requires route.selfNodeId == otherRoute.selfNodeId && ':' !in d.federationId && ':' !in o.federationId
    ensures NonceKey(BuildSignedRequest(c, key, keyId, d, route)) ==
            NonceKey(BuildSignedRequest(c, otherKey, otherKeyId, o, otherRoute))
       <==> d.federationId == o.federationId && d.source == o.source && d.nonce == o.nonce
  {
    EncodeShape(d.nonce);
    EncodeShape(o.nonce);
    var a, b := BuildSignedRequest(c, key, keyId, d, route), BuildSignedRequest(c, otherKey, otherKeyId, o, otherRoute);
    NonceKeyInjective(a, b);
    if a.nonce == b.nonce {
      EncodeInjective(d.nonce, o.nonce);
    }
  }
}
