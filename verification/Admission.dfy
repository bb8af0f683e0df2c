/**
 Local admission of `admission.py` with the manifest check of `signing.py`:
 what makes a manifest admissible, and when a refreshed manifest keeps the
 continuity of a peer's signing keys.
 */
module Admission {
  import opened Options
  import opened Signing
  import opened Models
  import opened Guards
  import opened Domains

  // ---------- advertised keys ----------

  /** find_jwk: the first key with this identifier. */
  function FindJwk(keys: seq<PublicKey>, keyId: string): Option<Jwk> {
    if keys == [] then None
    else if keys[0].keyId == keyId then Some(keys[0].jwk)
    else FindJwk(keys[1..], keyId)
  }

  /** The dict comprehension of `check_key_continuity`: the last key with an identifier wins. */
  function KeyMap(keys: seq<PublicKey>): map<string, Jwk> {
    if keys == [] then map[]
    else
      var k := keys[|keys| - 1];
      KeyMap(keys[..|keys| - 1])[k.keyId := k.jwk]
  }

  function LookUp(keys: map<string, Jwk>, keyId: string): Option<Jwk> {
    if keyId in keys then Some(keys[keyId]) else None
  }

  /** Every entry of an identifier that is repeated carries the key its first entry carries. */
  predicate Unambiguous(keys: seq<PublicKey>) {
    forall i :: 0 <= i < |keys| ==> FirstAgreesWithLast(keys, keys[i].keyId)
  }

  predicate FirstAgreesWithLast(keys: seq<PublicKey>, keyId: string) {
    forall i, j :: 0 <= i <= j < |keys| && keys[i].keyId == keyId == keys[j].keyId &&
                   (forall k :: 0 <= k < i ==> keys[k].keyId != keyId) &&
                   (forall k :: j < k < |keys| ==> keys[k].keyId != keyId)
      ==> keys[i].jwk == keys[j].jwk
  }

  predicate DistinctKeyIds(keys: seq<PublicKey>) {
    forall i, j :: 0 <= i < j < |keys| ==> keys[i].keyId != keys[j].keyId
  }

  lemma {:induction false} FindJwkIsFirst(keys: seq<PublicKey>, keyId: string)
    ensures match FindJwk(keys, keyId)
      case None => forall i :: 0 <= i < |keys| ==> keys[i].keyId != keyId
      case Some(jwk) => exists i :: 0 <= i < |keys| && keys[i].keyId == keyId && keys[i].jwk == jwk &&
                                    forall k :: 0 <= k < i ==> keys[k].keyId != keyId
  {
    if keys != [] && keys[0].keyId != keyId {
      FindJwkIsFirst(keys[1..], keyId);
      if FindJwk(keys, keyId).Some? {
        var jwk := FindJwk(keys, keyId).value;
        var i :| 0 <= i < |keys[1..]| && keys[1..][i].keyId == keyId && keys[1..][i].jwk == jwk &&
                 forall k :: 0 <= k < i ==> keys[1..][k].keyId != keyId;
        assert keys[i + 1].keyId == keyId && keys[i + 1].jwk == jwk;
        forall k | 0 <= k < i + 1 ensures keys[k].keyId != keyId {
          if k > 0 {
            assert keys[1..][k - 1].keyId != keyId;
          }
        }
      } else {
        forall i | 0 <= i < |keys| ensures keys[i].keyId != keyId {
          if i > 0 {
            assert keys[1..][i - 1].keyId != keyId;
          }
        }
      }
    }
  }

  lemma {:induction false} KeyMapIsLast(keys: seq<PublicKey>, keyId: string)
    ensures match LookUp(KeyMap(keys), keyId)
      case None => forall i :: 0 <= i < |keys| ==> keys[i].keyId != keyId
      case Some(jwk) => exists j :: 0 <= j < |keys| && keys[j].keyId == keyId && keys[j].jwk == jwk &&
                                    forall k :: j < k < |keys| ==> keys[k].keyId != keyId
  {
    if keys != [] {
      var n := |keys| - 1;
      KeyMapIsLast(keys[..n], keyId);
      if keys[n].keyId != keyId && keyId in KeyMap(keys) {
        var jwk := KeyMap(keys)[keyId];
        var j :| 0 <= j < n && keys[..n][j].keyId == keyId && keys[..n][j].jwk == jwk &&
                 forall k :: j < k < n ==> keys[..n][k].keyId != keyId;
        assert keys[j].keyId == keyId && keys[j].jwk == jwk;
        forall k | j < k < |keys| ensures keys[k].keyId != keyId {
          if k < n {
            assert keys[..n][k].keyId != keyId;
          }
        }
      } else if keyId !in KeyMap(keys) {
        forall i | 0 <= i < |keys| ensures keys[i].keyId != keyId {
          if i < n {
            assert keys[..n][i].keyId != keyId;
          }
        }
      }
    }
  }

  /** The first-wins lookup and the last-wins map agree on an identifier exactly when its first and last entry do. */
  lemma LookUpsAgree(keys: seq<PublicKey>, keyId: string)
    ensures FindJwk(keys, keyId) == LookUp(KeyMap(keys), keyId) <==> FirstAgreesWithLast(keys, keyId)
  {
    FindJwkIsFirst(keys, keyId);
    KeyMapIsLast(keys, keyId);
  }

  lemma DistinctIsUnambiguous(keys: seq<PublicKey>)
    requires DistinctKeyIds(keys)
    ensures Unambiguous(keys)
  {
  }

  ghost predicate SameLookups(a: seq<PublicKey>, b: seq<PublicKey>) {
    forall keyId :: FindJwk(a, keyId) == FindJwk(b, keyId)
  }

  /**
   Where the first and last entry of an identifier agree in one of two lists with
   equal key maps, its lookups are equal exactly when they agree in the other.
   */
  lemma EqualMapsEqualLookup(a: seq<PublicKey>, b: seq<PublicKey>, keyId: string)
    requires KeyMap(a) == KeyMap(b) && FirstAgreesWithLast(a, keyId)
    ensures FindJwk(a, keyId) == FindJwk(b, keyId) <==> FirstAgreesWithLast(b, keyId)
  {
    LookUpsAgree(a, keyId);
    LookUpsAgree(b, keyId);
  }

  /**
   Equal key maps give equal key lookups for an unambiguous manifest exactly
   when the other manifest is unambiguous too.
   */
  lemma EqualMapsEqualLookups(a: seq<PublicKey>, b: seq<PublicKey>)
    requires KeyMap(a) == KeyMap(b) && Unambiguous(a)
    ensures SameLookups(a, b) <==> Unambiguous(b)
  {
    forall keyId ensures FindJwk(a, keyId) == FindJwk(b, keyId) <==> FirstAgreesWithLast(b, keyId) {
      AmbiguityOnlyWhereListed(a, keyId);
      EqualMapsEqualLookup(a, b, keyId);
    }
    if Unambiguous(b) {
      forall keyId ensures FirstAgreesWithLast(b, keyId) {
        AmbiguityOnlyWhereListed(b, keyId);
      }
    }
  }

  lemma AmbiguityOnlyWhereListed(keys: seq<PublicKey>, keyId: string)
    requires Unambiguous(keys)
    ensures FirstAgreesWithLast(keys, keyId)
  {
    if i :| 0 <= i < |keys| && keys[i].keyId == keyId {
      assert FirstAgreesWithLast(keys, keys[i].keyId);
    }
  }

  /** With a repeated identifier two manifests can have equal key maps and different lookups. */
  lemma RepeatedKeyIdBreaksLookup(first: PublicKey, last: PublicKey)
    requires first.keyId == last.keyId && first.jwk != last.jwk
    ensures KeyMap([last]) == KeyMap([first, last])
    ensures FindJwk([last], last.keyId) != FindJwk([first, last], last.keyId)
  {
    assert [first, last][..1] == [first];
    assert [first][..0] == [] && [last][..0] == [];
    assert KeyMap([first]) == map[first.keyId := first.jwk];
    assert KeyMap([last]) == map[last.keyId := last.jwk];
  }

  // ---------- manifest check ----------

  /** check_manifest */
  function CheckManifest(c: Crypto, m: Manifest, now: int, maxSkewSeconds: int): Verdict {
    if m.signature.None? then Verdict(false, "unsigned")
    else
      match FindJwk(m.publicKeys, m.signature.value.keyId)
      case None => Verdict(false, "unknown_key")
      case Some(jwk) =>
        var skew := maxSkewSeconds * MICROS_PER_SECOND;
        if !VerifyManifestSignature(c, m, jwk) then Verdict(false, "bad_signature")
        else if m.expiresAt.Some? && now > m.expiresAt.value + skew then Verdict(false, "expired")
        else if m.issuedAt.Some? && now < m.issuedAt.value - skew then Verdict(false, "not_yet_valid")
        else Verdict(true, "ok")
  }

  predicate SignedByOwnKey(c: Crypto, m: Manifest) {
    m.signature.Some? &&
    var jwk := FindJwk(m.publicKeys, m.signature.value.keyId);
    jwk.Some? && VerifyManifestSignature(c, m, jwk.value)
  }

  /** The instants at which a manifest is fresh, the skew allowed at both ends. */
  predicate FreshAt(m: Manifest, now: int, maxSkewSeconds: int) {
    (m.issuedAt.Some? ==> m.issuedAt.value - maxSkewSeconds * MICROS_PER_SECOND <= now) &&
    (m.expiresAt.Some? ==> now <= m.expiresAt.value + maxSkewSeconds * MICROS_PER_SECOND)
  }

  function ManifestGuards(c: Crypto, m: Manifest, now: int, skew: int): seq<Guard> {
    [Guard(m.signature.Some?, "unsigned"),
     Guard(m.signature.Some? && FindJwk(m.publicKeys, m.signature.value.keyId).Some?, "unknown_key"),
     Guard(SignedByOwnKey(c, m), "bad_signature"),
     Guard(m.expiresAt.Some? ==> now <= m.expiresAt.value + skew * MICROS_PER_SECOND, "expired"),
     Guard(m.issuedAt.Some? ==> now >= m.issuedAt.value - skew * MICROS_PER_SECOND, "not_yet_valid")]
  }

  /** A fetched manifest passes exactly when one of its own keys signed it and it is fresh. */
  lemma CheckedManifest(c: Crypto, m: Manifest, now: int, skew: int)
    ensures CheckManifest(c, m, now, skew) == VerdictOf(ManifestGuards(c, m, now, skew))
    ensures CheckManifest(c, m, now, skew).ok <==> SignedByOwnKey(c, m) && FreshAt(m, now, skew)
  {
    Unroll5(ManifestGuards(c, m, now, skew));
  }

  lemma UnverifiedIsRefused(c: Crypto, m: Manifest, now: int, skew: int)
    requires m.signature.Some? && !SignedByOwnKey(c, m)
    ensures CheckManifest(c, m, now, skew) ==
        Verdict(false, if FindJwk(m.publicKeys, m.signature.value.keyId).None? then "unknown_key" else "bad_signature")
  {
  }

  /** A signature moved to a manifest with another key, another revision or any other modelled field is refused. */
  lemma MovedManifestRefused(c: Crypto, m: Manifest, other: Manifest, key: Key, keyId: string, now: int, skew: int)
    requires SignaturesVerify(c) && SignaturesBind(c) && ManifestsCanonical(c) && !SameFields(m, other)
    ensures var moved := other.(signature := SignManifest(c, m, key, keyId));
      CheckManifest(c, moved, now, skew) ==
          Verdict(false, if FindJwk(other.publicKeys, keyId).None? then "unknown_key" else "bad_signature")
  {
    SignatureOf(c, ManifestModel(m), key, keyId);
    var moved := other.(signature := SignManifest(c, m, key, keyId));
    var found := FindJwk(other.publicKeys, keyId);
    if found.Some? {
      MovedManifestSignature(c, m, other, key, keyId, found.value);
    }
    assert !SignedByOwnKey(c, moved);
    UnverifiedIsRefused(c, moved, now, skew);
  }

  /** Moved to one that agrees in every field and lists the signing key, it passes exactly while fresh. */
  lemma MovedManifestPasses(c: Crypto, m: Manifest, other: Manifest, key: Key, keyId: string, now: int, skew: int)
    requires SignaturesVerify(c) && SignaturesBind(c) && ManifestsCanonical(c)
    requires SameFields(m, other) && SameOthers(m, other)
    requires FindJwk(other.publicKeys, keyId) == Some(c.publicJwk(key))
    ensures CheckManifest(c, other.(signature := SignManifest(c, m, key, keyId)), now, skew).ok
       <==> FreshAt(other, now, skew)
  {
    SignatureOf(c, ManifestModel(m), key, keyId);
    var moved := other.(signature := SignManifest(c, m, key, keyId));
    MovedManifestSignature(c, m, other, key, keyId, c.publicJwk(key));
    assert SignedByOwnKey(c, moved);
    CheckedManifest(c, moved, now, skew);
  }

  /** A key that was added to a signed manifest, or taken from it, makes the manifest fail the check. */
  lemma ChangedKeysAreRefused(c: Crypto, m: Manifest, keys: seq<PublicKey>, key: Key, keyId: string,
                              now: int, skew: int)
    requires SignaturesVerify(c) && SignaturesBind(c) && ManifestsCanonical(c) && keys != m.publicKeys
    ensures !CheckManifest(c, m.(publicKeys := keys, signature := SignManifest(c, m, key, keyId)), now, skew).ok
  {
    var other := m.(publicKeys := keys);
    MovedManifestRefused(c, m, other, key, keyId, now, skew);
    assert other.(signature := SignManifest(c, m, key, keyId))
        == m.(publicKeys := keys, signature := SignManifest(c, m, key, keyId));
  }

  // ---------- admission policy ----------

  type Verifier = Manifest -> Verdict

  /** URL parsing and address classification, taken from outside the library. */
  datatype UrlTools = UrlTools(
    scheme: string -> string,
    hostname: string -> Option<string>,
    /** None when the host is not an IP address, else whether the address is disallowed. */
    disallowedIp: string -> Option<bool>)

  datatype AdmissionPolicy = AdmissionPolicy(
    federationId: string,
    protocolVersions: set<string>,
    requireExpiresAt: bool,
    requireSignedHttp: bool,
    requireHttps: bool,
    allowPrivateHosts: bool,
    allowedEndpointDomains: set<string>,
    evidenceVerifier: Option<Verifier>,
    authMethodVerifiers: map<string, Verifier>)

  datatype AdmissionDecision = AdmissionDecision(accepted: bool, reason: string)

  /** What admission consults besides the manifest. */
  datatype Setting = Setting(crypto: Crypto, urls: UrlTools, now: int, maxSkewSeconds: int)

  /** _check_endpoint; None when the endpoint is acceptable. */
  function CheckEndpoint(urls: UrlTools, endpoint: string, policy: AdmissionPolicy): Option<string> {
    var host := Normalise(urls.hostname(endpoint).GetOr(""));
    if host == "" then Some("bad_endpoint")
    else if policy.requireHttps && urls.scheme(endpoint) != "https" then Some("https_required")
    else if policy.allowedEndpointDomains != {} &&
            !(exists d :: d in policy.allowedEndpointDomains && HostInDomain(host, d))
    then Some("endpoint_domain_denied")
    else
      match urls.disallowedIp(host)
      case None => None
      case Some(disallowed) =>
        if !policy.allowPrivateHosts && disallowed then Some("private_endpoint_denied") else None
  }

  /** The reason of the first registered verifier that refuses one of the advertised methods. */
  function CheckAuthMethods(methods: seq<string>, verifiers: map<string, Verifier>, m: Manifest): Option<string> {
    if methods == [] then None
    else if methods[0] in verifiers && !verifiers[methods[0]](m).ok then Some(verifiers[methods[0]](m).reason)
    else CheckAuthMethods(methods[1..], verifiers, m)
  }

  predicate SharesProtocol(m: Manifest, policy: AdmissionPolicy) {
    exists v :: v in m.protocolVersions && v in policy.protocolVersions
  }

  /** admit_manifest as a decision; the method below runs its loop. */
  function AdmissionFor(s: Setting, m: Manifest, policy: AdmissionPolicy): AdmissionDecision {
    var checked := CheckManifest(s.crypto, m, s.now, s.maxSkewSeconds);
    if !checked.ok then AdmissionDecision(false, checked.reason)
    else if policy.requireExpiresAt && m.expiresAt.None? then AdmissionDecision(false, "missing_expires_at")
    else if policy.federationId !in m.federations then AdmissionDecision(false, "wrong_federation")
    else if !SharesProtocol(m, policy) then AdmissionDecision(false, "unsupported_protocol")
    else if policy.requireSignedHttp && "signed_http" !in m.authMethods
    then AdmissionDecision(false, "signed_http_required")
    else
      match CheckAuthMethods(m.authMethods, policy.authMethodVerifiers, m)
      case Some(reason) => AdmissionDecision(false, reason)
      case None =>
        match CheckEndpoint(s.urls, m.endpoint, policy)
        case Some(reason) => AdmissionDecision(false, reason)
        case None =>
          if policy.evidenceVerifier.Some? && !policy.evidenceVerifier.value(m).ok
          then AdmissionDecision(false, policy.evidenceVerifier.value(m).reason)
          else AdmissionDecision(true, "ok")
  }

  /** Local admission as a function of the manifest alone. */
  function Admitter(s: Setting, policy: AdmissionPolicy): Manifest -> AdmissionDecision {
    m => AdmissionFor(s, m, policy)
  }

  /** admit_manifest, with its early return from the loop over the advertised methods. */
  method AdmitManifest(s: Setting, m: Manifest, policy: AdmissionPolicy) returns (decision: AdmissionDecision)
    ensures decision == AdmissionFor(s, m, policy)
  {
    var checked := CheckManifest(s.crypto, m, s.now, s.maxSkewSeconds);
    if !checked.ok {
      return AdmissionDecision(false, checked.reason);
    }
    if policy.requireExpiresAt && m.expiresAt.None? {
      return AdmissionDecision(false, "missing_expires_at");
    }
    if policy.federationId !in m.federations {
      return AdmissionDecision(false, "wrong_federation");
    }
    if !SharesProtocol(m, policy) {
      return AdmissionDecision(false, "unsupported_protocol");
    }
    if policy.requireSignedHttp && "signed_http" !in m.authMethods {
      return AdmissionDecision(false, "signed_http_required");
    }
    for i := 0 to |m.authMethods|
      invariant CheckAuthMethods(m.authMethods, policy.authMethodVerifiers, m)
             == CheckAuthMethods(m.authMethods[i..], policy.authMethodVerifiers, m)
    {
      var name := m.authMethods[i];
      if name in policy.authMethodVerifiers {
        var verdict := policy.authMethodVerifiers[name](m);
        if !verdict.ok {
          return AdmissionDecision(false, verdict.reason);
        }
      }
    }
    var endpointReason := CheckEndpoint(s.urls, m.endpoint, policy);
    if endpointReason.Some? {
      return AdmissionDecision(false, endpointReason.value);
    }
    if policy.evidenceVerifier.Some? {
      var verdict := policy.evidenceVerifier.value(m);
      if !verdict.ok {
        return AdmissionDecision(false, verdict.reason);
      }
    }
    return AdmissionDecision(true, "ok");
  }

  lemma {:induction false} AuthMethodsAllAccept(methods: seq<string>, verifiers: map<string, Verifier>, m: Manifest)
    ensures CheckAuthMethods(methods, verifiers, m) == None
       <==> forall name :: name in methods && name in verifiers ==> verifiers[name](m).ok
    ensures forall r :: CheckAuthMethods(methods, verifiers, m) == Some(r) ==>
              exists i :: 0 <= i < |methods| && methods[i] in verifiers &&
                          verifiers[methods[i]](m) == Verdict(false, r) &&
                          forall k :: 0 <= k < i && methods[k] in verifiers ==> verifiers[methods[k]](m).ok
  {
    if methods != [] {
      AuthMethodsAllAccept(methods[1..], verifiers, m);
      if CheckAuthMethods(methods, verifiers, m) == CheckAuthMethods(methods[1..], verifiers, m) {
        forall r | CheckAuthMethods(methods, verifiers, m) == Some(r)
          ensures exists i :: 0 <= i < |methods| && methods[i] in verifiers &&
                              verifiers[methods[i]](m) == Verdict(false, r) &&
                              forall k :: 0 <= k < i && methods[k] in verifiers ==> verifiers[methods[k]](m).ok
        {
          if methods[0] in verifiers && !verifiers[methods[0]](m).ok {
            assert verifiers[methods[0]](m) == Verdict(false, r);
          } else {
            var i :| 0 <= i < |methods[1..]| && methods[1..][i] in verifiers &&
                     verifiers[methods[1..][i]](m) == Verdict(false, r) &&
                     forall k :: 0 <= k < i && methods[1..][k] in verifiers ==> verifiers[methods[1..][k]](m).ok;
            forall k | 0 <= k < i + 1 && methods[k] in verifiers ensures verifiers[methods[k]](m).ok {
              if k > 0 {
                assert methods[k] == methods[1..][k - 1];
              }
            }
            assert methods[i + 1] == methods[1..][i];
          }
        }
      }
    }
  }

  /** The endpoint conditions, independent of the order in which they are checked. */
  ghost predicate EndpointAllowed(urls: UrlTools, endpoint: string, policy: AdmissionPolicy) {
    var host := Normalise(urls.hostname(endpoint).GetOr(""));
    && host != ""
    && (policy.requireHttps ==> urls.scheme(endpoint) == "https")
    && (policy.allowedEndpointDomains == {} ||
        exists d :: d in policy.allowedEndpointDomains && IsSuffix(Labels(Normalise(d)), Labels(host)))
    && (policy.allowPrivateHosts || urls.disallowedIp(host) != Some(true))
  }

  lemma EndpointAccepted(urls: UrlTools, endpoint: string, policy: AdmissionPolicy)
    ensures CheckEndpoint(urls, endpoint, policy) == None <==> EndpointAllowed(urls, endpoint, policy)
  {
    var name := urls.hostname(endpoint).GetOr("");
    var host := Normalise(name);
    NormaliseTwice(name);
    forall d ensures HostInDomain(host, d) <==> IsSuffix(Labels(Normalise(d)), Labels(host)) {
      HostInDomainIsLabelSuffix(host, d);
    }
  }

  function EndpointGuards(urls: UrlTools, endpoint: string, policy: AdmissionPolicy): seq<Guard> {
    var host := Normalise(urls.hostname(endpoint).GetOr(""));
    [Guard(host != "", "bad_endpoint"),
     Guard(policy.requireHttps ==> urls.scheme(endpoint) == "https", "https_required"),
     Guard(policy.allowedEndpointDomains == {} ||
         exists d :: d in policy.allowedEndpointDomains && HostInDomain(host, d),
           "endpoint_domain_denied"),
     Guard(policy.allowPrivateHosts || urls.disallowedIp(host) != Some(true), "private_endpoint_denied")]
  }

  function AdmissionGuards(s: Setting, m: Manifest, policy: AdmissionPolicy): seq<Guard> {
    var checked := CheckManifest(s.crypto, m, s.now, s.maxSkewSeconds);
    var refusedMethod := CheckAuthMethods(m.authMethods, policy.authMethodVerifiers, m);
    var refusedEndpoint := FirstFailure(EndpointGuards(s.urls, m.endpoint, policy));
    var evidence := if policy.evidenceVerifier.Some? then policy.evidenceVerifier.value(m) else Verdict(true, "ok");
    [Guard(checked.ok, checked.reason),
     Guard(policy.requireExpiresAt ==> m.expiresAt.Some?, "missing_expires_at"),
     Guard(policy.federationId in m.federations, "wrong_federation"),
     Guard(SharesProtocol(m, policy), "unsupported_protocol")] +
    [Guard(policy.requireSignedHttp ==> "signed_http" in m.authMethods, "signed_http_required"),
     Guard(refusedMethod.None?, refusedMethod.GetOr("")),
     Guard(refusedEndpoint.None?, refusedEndpoint.GetOr("")),
     Guard(evidence.ok, evidence.reason)]
  }

  lemma EndpointRefusedForFirstFailure(urls: UrlTools, endpoint: string, policy: AdmissionPolicy)
    ensures CheckEndpoint(urls, endpoint, policy) == FirstFailure(EndpointGuards(urls, endpoint, policy))
  {
    Unroll4(EndpointGuards(urls, endpoint, policy));
  }

  lemma RefusedForFirstFailure(s: Setting, m: Manifest, policy: AdmissionPolicy)
    ensures var v := VerdictOf(AdmissionGuards(s, m, policy));
      AdmissionFor(s, m, policy) == AdmissionDecision(v.ok, v.reason)
  {
    EndpointRefusedForFirstFailure(s.urls, m.endpoint, policy);
    var g := AdmissionGuards(s, m, policy);
    FirstFailureAppend(g[..4], g[4..]);
    assert g == g[..4] + g[4..];
    Unroll4(g[..4]);
    Unroll4(g[4..]);
  }

  /**
   A manifest is admitted exactly when it meets every condition of the policy, and
   refused for the first that it fails in the order they are listed in.
   */
  lemma AdmittedExactly(s: Setting, m: Manifest, policy: AdmissionPolicy)
    ensures AdmissionFor(s, m, policy).accepted <==>
         && SignedByOwnKey(s.crypto, m) && FreshAt(m, s.now, s.maxSkewSeconds)
         && (policy.requireExpiresAt ==> m.expiresAt.Some?)
         && policy.federationId in m.federations
         && (exists v :: v in m.protocolVersions && v in policy.protocolVersions)
         && (policy.requireSignedHttp ==> "signed_http" in m.authMethods)
         && (forall name :: name in m.authMethods && name in policy.authMethodVerifiers ==>
               policy.authMethodVerifiers[name](m).ok)
         && EndpointAllowed(s.urls, m.endpoint, policy)
         && (policy.evidenceVerifier.Some? ==> policy.evidenceVerifier.value(m).ok)
    ensures var v := VerdictOf(AdmissionGuards(s, m, policy));
      AdmissionFor(s, m, policy) == AdmissionDecision(v.ok, v.reason)
  {
    RefusedForFirstFailure(s, m, policy);
    CheckedManifest(s.crypto, m, s.now, s.maxSkewSeconds);
    AuthMethodsAllAccept(m.authMethods, policy.authMethodVerifiers, m);
    EndpointAccepted(s.urls, m.endpoint, policy);
  }

  // ---------- key continuity ----------

  datatype Action = Unchanged | Accept | Quarantine | Reject

  datatype KeyContinuityPolicy = KeyContinuityPolicy(allowKeyRotation: bool, evidenceVerifier: Option<Verifier>)

  datatype KeyContinuityDecision = KeyContinuityDecision(action: Action, reason: string)

  /** The policy where the host passes none. */
  const DEFAULT_CONTINUITY := KeyContinuityPolicy(true, None)

  /** check_key_continuity */
  function CheckKeyContinuity(c: Crypto, old': Manifest, new': Manifest,
                              policy: KeyContinuityPolicy): KeyContinuityDecision {
    var oldKeys, newKeys := KeyMap(old'.publicKeys), KeyMap(new'.publicKeys);
    if old'.nodeId != new'.nodeId then KeyContinuityDecision(Reject, "node_id_changed")
    else if old'.orgId != new'.orgId then KeyContinuityDecision(Reject, "org_id_changed")
    else if oldKeys == newKeys then KeyContinuityDecision(Accept, "ok")
    else if !policy.allowKeyRotation then KeyContinuityDecision(Reject, "rotation_denied")
    else if new'.signature.Some? && new'.signature.value.keyId in oldKeys &&
            VerifyManifestSignature(c, new', oldKeys[new'.signature.value.keyId])
    then KeyContinuityDecision(Accept, "signed_rotation")
    else if policy.evidenceVerifier.Some? && policy.evidenceVerifier.value(new').ok
    then KeyContinuityDecision(Accept, "admission_evidence")
    else if policy.evidenceVerifier.Some? && policy.evidenceVerifier.value(new').reason == "rotation_denied"
    then KeyContinuityDecision(Reject, "rotation_denied")
    else KeyContinuityDecision(Quarantine, "stale_manifest")
  }

  /** Some key that the first manifest advertises verifies the signature of the second. */
  ghost predicate SignedByKeyOf(c: Crypto, old': Manifest, new': Manifest) {
    exists k :: k in old'.publicKeys && new'.signature.Some? && k.keyId == new'.signature.value.keyId &&
                VerifyManifestSignature(c, new', k.jwk)
  }

  ghost predicate Endorsed(policy: KeyContinuityPolicy, m: Manifest) {
    policy.evidenceVerifier.Some? && policy.evidenceVerifier.value(m).ok
  }

  /**
   Continuity is kept exactly for the same node of the same organisation whose
   key map is unchanged, or rotated where rotation is allowed and either signed
   under the last advertised key of the named identifier or endorsed.
   */
  lemma ContinuityKeptExactly(c: Crypto, old': Manifest, new': Manifest, policy: KeyContinuityPolicy)
    ensures CheckKeyContinuity(c, old', new', policy).action == Accept <==>
         && old'.nodeId == new'.nodeId && old'.orgId == new'.orgId
         && (|| KeyMap(old'.publicKeys) == KeyMap(new'.publicKeys)
             || (policy.allowKeyRotation && (SignedByLastKey(c, old', new') || Endorsed(policy, new'))))
    ensures CheckKeyContinuity(c, old', new', policy).action == Quarantine <==>
         && old'.nodeId == new'.nodeId && old'.orgId == new'.orgId
         && KeyMap(old'.publicKeys) != KeyMap(new'.publicKeys) && policy.allowKeyRotation
         && !SignedByLastKey(c, old', new')
         && (policy.evidenceVerifier.Some? ==>
               !policy.evidenceVerifier.value(new').ok &&
                   policy.evidenceVerifier.value(new').reason != "rotation_denied")
    ensures CheckKeyContinuity(c, old', new', policy).action != Unchanged
    ensures SignedByLastKey(c, old', new') ==> SignedByKeyOf(c, old', new')
  {
    if new'.signature.Some? {
      KeyMapIsLast(old'.publicKeys, new'.signature.value.keyId);
    }
  }

  /** The same node of the same organisation advertises another key map. */
  predicate Rotates(old': Manifest, new': Manifest) {
    && old'.nodeId == new'.nodeId && old'.orgId == new'.orgId
    && KeyMap(old'.publicKeys) != KeyMap(new'.publicKeys)
  }

  /** Each decision with its reason, as a condition on the two manifests. */
  lemma ContinuityReasons(c: Crypto, old': Manifest, new': Manifest, policy: KeyContinuityPolicy)
    ensures var d := CheckKeyContinuity(c, old', new', policy);
      var verifier := policy.evidenceVerifier;
      var rotates := Rotates(old', new') && policy.allowKeyRotation;
      var signed := SignedByLastKey(c, old', new');
      && (d == KeyContinuityDecision(Reject, "node_id_changed") <==> old'.nodeId != new'.nodeId)
      && (d == KeyContinuityDecision(Reject, "org_id_changed") <==>
            old'.nodeId == new'.nodeId && old'.orgId != new'.orgId)
      && (d == KeyContinuityDecision(Accept, "ok") <==>
            && old'.nodeId == new'.nodeId && old'.orgId == new'.orgId
            && KeyMap(old'.publicKeys) == KeyMap(new'.publicKeys))
      && (d == KeyContinuityDecision(Reject, "rotation_denied") <==>
            || (Rotates(old', new') && !policy.allowKeyRotation)
            || (rotates && !signed && verifier.Some? && verifier.value(new') == Verdict(false, "rotation_denied")))
      && (d == KeyContinuityDecision(Accept, "signed_rotation") <==> rotates && signed)
      && (d == KeyContinuityDecision(Accept, "admission_evidence") <==>
            rotates && !signed && Endorsed(policy, new'))
      && (d == KeyContinuityDecision(Quarantine, "stale_manifest") <==> d.action == Quarantine)
  {
    if new'.signature.Some? {
      KeyMapIsLast(old'.publicKeys, new'.signature.value.keyId);
    }
  }

  /** The signature of the second verifies under the last key the first lists for the signer's identifier. */
  ghost predicate SignedByLastKey(c: Crypto, old': Manifest, new': Manifest) {
    exists j :: 0 <= j < |old'.publicKeys| && new'.signature.Some? &&
                old'.publicKeys[j].keyId == new'.signature.value.keyId &&
                (forall k :: j < k < |old'.publicKeys| ==> old'.publicKeys[k].keyId != new'.signature.value.keyId) &&
                VerifyManifestSignature(c, new', old'.publicKeys[j].jwk)
  }
}
