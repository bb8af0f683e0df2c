/** The wire models of `models.py` that carry signatures, and what is dumped of each when it is signed. */
module Models {
  import opened Options
  import opened Signing

  datatype PublicKey = PublicKey(keyId: string, use: string, alg: string, jwk: Jwk)

  /**
   Instants are microseconds since the epoch.  `rest` holds the fields that no
   decision of the library reads; they are dumped and signed like the others.
   */
  datatype Manifest = Manifest(
    nodeId: string,
    orgId: string,
    federations: seq<string>,
    endpoint: string,
    manifestUrl: Option<string>,
    protocolVersions: seq<string>,
    revision: int,
    publicKeys: seq<PublicKey>,
    authMethods: seq<string>,
    issuedAt: Option<int>,
    expiresAt: Option<int>,
    rest: map<string, Value>,
    signature: Option<Signature>)

  datatype MemberRef = MemberRef(
    nodeId: string,
    orgId: Option<string>,
    manifestUrl: string,
    manifestRevision: Option<int>,
    disclosure: string)

  datatype RevocationNotice = RevocationNotice(
    federationId: string,
    revokedNodeId: string,
    reason: string,
    issuedAt: int,
    expiresAt: Option<int>,
    issuer: string,
    signature: Option<Signature>)

  datatype SignedRequest = SignedRequest(
    federationId: string,
    requestId: string,
    sourceNodeId: string,
    targetNodeId: string,
    httpMethod: string,
    path: string,
    timestamp: int,
    nonce: string,
    bodySha256: string,
    sourceManifestRevision: int,
    signature: Option<Signature>)

  function OptionalText(s: Option<string>): Value {
    if s.Some? then Text(s.value) else Absent
  }

  function OptionalInstant(t: Option<int>): Value {
    if t.Some? then Instant(t.value, 0) else Absent
  }

  function Texts(texts: seq<string>): Value {
    Items(seq(|texts|, i requires 0 <= i < |texts| => Text(texts[i])))
  }

  function JwkFields(jwk: Jwk): map<string, Value> {
    map p | p in jwk :: Text(jwk[p])
  }

  function KeyValue(k: PublicKey): Value {
    Record(map["key_id" := Text(k.keyId), "use" := Text(k.use), "alg" := Text(k.alg),
               "public_jwk" := Record(JwkFields(k.jwk))])
  }

  function Keys(keys: seq<PublicKey>): Value {
    Items(seq(|keys|, i requires 0 <= i < |keys| => KeyValue(keys[i])))
  }

  function Identity(m: Manifest): map<string, Value> {
    map[
      "node_id" := Text(m.nodeId),
      "org_id" := Text(m.orgId),
      "federations" := Texts(m.federations),
      "endpoint" := Text(m.endpoint)]
  }

  function Versions(m: Manifest): map<string, Value> {
    map[
      "manifest_url" := OptionalText(m.manifestUrl),
      "protocol_versions" := Texts(m.protocolVersions),
      "revision" := Number(m.revision)]
  }

  function Trust(m: Manifest): map<string, Value> {
    map[
      "public_keys" := Keys(m.publicKeys),
      "auth_methods" := Texts(m.authMethods),
      "issued_at" := OptionalInstant(m.issuedAt),
      "expires_at" := OptionalInstant(m.expiresAt)]
  }

  /** The fields of a manifest that are modelled one by one. */
  function Core(m: Manifest): map<string, Value> {
    Identity(m) + Versions(m) + Trust(m)
  }

  function ManifestModel(m: Manifest): Model {
    Model(m.rest + Core(m), m.signature)
  }

  function NoticeModel(n: RevocationNotice): Model {
    Model(
      map[
        "federation_id" := Text(n.federationId),
        "revoked_node_id" := Text(n.revokedNodeId),
        "reason" := Text(n.reason),
        "issued_at" := Instant(n.issuedAt, 0),
        "expires_at" := OptionalInstant(n.expiresAt),
        "issuer" := Text(n.issuer)],
      n.signature)
  }

  function RequestModel(e: SignedRequest): Model {
    Model(
      map[
        "federation_id" := Text(e.federationId),
        "request_id" := Text(e.requestId),
        "source_node_id" := Text(e.sourceNodeId),
        "target_node_id" := Text(e.targetNodeId),
        "method" := Text(e.httpMethod),
        "path" := Text(e.path),
        "timestamp" := Instant(e.timestamp, 0),
        "nonce" := Text(e.nonce),
        "body_sha256" := Text(e.bodySha256),
        "source_manifest_revision" := Number(e.sourceManifestRevision)],
      e.signature)
  }

  predicate VerifyManifestSignature(c: Crypto, m: Manifest, jwk: Jwk) {
    VerifyModel(c, ManifestModel(m), jwk)
  }

  predicate VerifyNotice(c: Crypto, n: RevocationNotice, jwk: Jwk) {
    VerifyModel(c, NoticeModel(n), jwk)
  }

  predicate VerifyRequestSignature(c: Crypto, e: SignedRequest, jwk: Jwk) {
    VerifyModel(c, RequestModel(e), jwk)
  }

  // ---------- bodies, field by field ----------

  /** The fields of two models dump alike. */
  ghost predicate DumpAlike(f: map<string, Value>, g: map<string, Value>) {
    f.Keys == g.Keys && forall k :: k in f ==> Dump(f[k]) == Dump(g[k])
  }

  function DumpEach(fields: map<string, Value>): Payload {
    map k | k in fields :: Dump(fields[k])
  }

  function Present(fields: map<string, Value>): map<string, Value> {
    map k | k in fields && fields[k] != Absent :: fields[k]
  }

  /** No field is a null as inside a plain dictionary. */
  predicate NoNulls(fields: map<string, Value>) {
    forall k :: k in fields ==> fields[k] != Null
  }

  predicate Plain(fields: map<string, Value>) {
    SIGNATURE !in fields && NoNulls(fields)
  }

  lemma DumpedNames(fields: map<string, Value>)
    ensures DumpFields(fields).Keys <= fields.Keys
  {
  }

  /** Over the same names, two dictionaries of fields dump alike as a whole exactly when they do field by field. */
  lemma DumpByField(f: map<string, Value>, g: map<string, Value>)
    requires NoNulls(f) && NoNulls(g) && f.Keys == g.Keys
    ensures DumpFields(f) == DumpFields(g) <==> DumpAlike(f, g)
  {
    RecordsDumpAlike(f, g);
    forall k | k in f
      ensures Dumped(f, k) <==> Dump(f[k]) != JNull
      ensures Dumped(g, k) <==> Dump(g[k]) != JNull
    {
      NullOnlyIfAbsent(f[k]);
      NullOnlyIfAbsent(g[k]);
    }
  }

  lemma NullOnlyIfAbsent(v: Value)
    requires v != Null
    ensures Dump(v) == JNull <==> v == Absent
  {
  }

  lemma PlainBody(m: Model)
    requires Plain(m.fields)
    ensures Body(DumpModel(m)) == DumpFields(m.fields)
  {
  }

  /** Two models over the same names have the same body exactly when their fields dump alike. */
  lemma SameBody(m: Model, n: Model)
    requires Plain(m.fields) && Plain(n.fields) && m.fields.Keys == n.fields.Keys
    ensures Body(DumpModel(m)) == Body(DumpModel(n)) <==> DumpAlike(m.fields, n.fields)
  {
    PlainBody(m);
    PlainBody(n);
    DumpByField(m.fields, n.fields);
  }

  predicate AllPresent(fields: map<string, Value>) {
    SIGNATURE !in fields && forall k :: k in fields ==> fields[k] != Absent
  }

  lemma BodyIs(m: Model)
    requires AllPresent(m.fields)
    ensures Body(DumpModel(m)) == DumpEach(m.fields)
  {
  }

  /** Two optional instants are the same in whole seconds. */
  predicate SameSeconds(s: Option<int>, t: Option<int>) {
    (s.Some? <==> t.Some?) && (s.Some? ==> s.value / MICROS_PER_SECOND == t.value / MICROS_PER_SECOND)
  }

  lemma OptionalTextAlike(s: Option<string>, t: Option<string>)
    ensures Dump(OptionalText(s)) == Dump(OptionalText(t)) <==> s == t
  {
  }

  lemma OptionalInstantAlike(s: Option<int>, t: Option<int>)
    ensures Dump(OptionalInstant(s)) == Dump(OptionalInstant(t)) <==> SameSeconds(s, t)
  {
  }

  lemma TextsAlike(s: seq<string>, t: seq<string>)
    ensures Dump(Texts(s)) == Dump(Texts(t)) <==> s == t
  {
    var a, b := Texts(s).items, Texts(t).items;
    ItemsDumpAlike(a, b);
    if |s| == |t| && forall i :: 0 <= i < |a| ==> Dump(a[i]) == Dump(b[i]) {
      forall i | 0 <= i < |s| ensures s[i] == t[i] {
        assert Dump(a[i]) == JText(s[i]) && Dump(b[i]) == JText(t[i]);
      }
    }
  }

  lemma JwkMember(jwk: Jwk, p: string)
    ensures p in DumpFields(JwkFields(jwk)) <==> p in jwk
    ensures p in jwk ==> DumpFields(JwkFields(jwk))[p] == JText(jwk[p])
  {
    DumpedMember(JwkFields(jwk), p);
  }

  lemma JwkAlike(j: Jwk, k: Jwk)
    ensures Dump(Record(JwkFields(j))) == Dump(Record(JwkFields(k))) <==> j == k
  {
    if DumpFields(JwkFields(j)) == DumpFields(JwkFields(k)) {
      forall p
        ensures p in j <==> p in k
        ensures p in j ==> j[p] == k[p]
      {
        JwkMember(j, p);
        JwkMember(k, p);
      }
      SameMembers(j, k);
    }
  }

  lemma KeyFields(k: PublicKey)
    ensures var f := KeyValue(k).fields;
      && Plain(f) && f.Keys == {"key_id", "use", "alg", "public_jwk"}
      && f["key_id"] == Text(k.keyId) && f["use"] == Text(k.use) && f["alg"] == Text(k.alg)
      && f["public_jwk"] == Record(JwkFields(k.jwk))
  {
  }

  lemma AlikeOver4(f: map<string, Value>, g: map<string, Value>, a: string, b: string, c: string, d: string)
    requires {a, b, c, d} == f.Keys == g.Keys
    ensures DumpAlike(f, g) <==>
            && Dump(f[a]) == Dump(g[a]) && Dump(f[b]) == Dump(g[b])
            && Dump(f[c]) == Dump(g[c]) && Dump(f[d]) == Dump(g[d])
  {
  }

  lemma KeyPartsAlike(k: PublicKey, l: PublicKey)
    ensures DumpAlike(KeyValue(k).fields, KeyValue(l).fields) <==> k == l
  {
    KeyFields(k);
    KeyFields(l);
    AlikeOver4(KeyValue(k).fields, KeyValue(l).fields, "key_id", "use", "alg", "public_jwk");
    JwkAlike(k.jwk, l.jwk);
  }

  lemma KeyNames(k: PublicKey)
    ensures Plain(KeyValue(k).fields) && KeyValue(k).fields.Keys == {"key_id", "use", "alg", "public_jwk"}
  {
    KeyFields(k);
  }

  lemma KeyAlike(k: PublicKey, l: PublicKey)
    ensures Dump(KeyValue(k)) == Dump(KeyValue(l)) <==> k == l
  {
    KeyNames(k);
    KeyNames(l);
    RecordsAlike(KeyValue(k), KeyValue(l));
    KeyPartsAlike(k, l);
  }

  lemma RecordsAlike(v: Value, w: Value)
    requires v.Record? && w.Record? && NoNulls(v.fields) && NoNulls(w.fields) && v.fields.Keys == w.fields.Keys
    ensures Dump(v) == Dump(w) <==> DumpAlike(v.fields, w.fields)
  {
    DumpByField(v.fields, w.fields);
  }

  lemma KeysAlike(a: seq<PublicKey>, b: seq<PublicKey>)
    ensures Dump(Keys(a)) == Dump(Keys(b)) <==> a == b
  {
    var x, y := Keys(a).items, Keys(b).items;
    ItemsDumpAlike(x, y);
    if |a| == |b| && forall i :: 0 <= i < |x| ==> Dump(x[i]) == Dump(y[i]) {
      forall i | 0 <= i < |a| ensures a[i] == b[i] {
        assert Dump(x[i]) == Dump(y[i]);
        KeyAlike(a[i], b[i]);
      }
    }
  }

  // ---------- what a manifest signature covers ----------

  const IDENTITY := {"node_id", "org_id", "federations", "endpoint"}
  const VERSIONS := {"manifest_url", "protocol_versions", "revision"}
  const TRUST := {"public_keys", "auth_methods", "issued_at", "expires_at"}
  const CORE := IDENTITY + VERSIONS + TRUST

  /** The same modelled fields, instants in whole seconds. */
  predicate SameFields(a: Manifest, b: Manifest) {
    && a.nodeId == b.nodeId && a.orgId == b.orgId && a.federations == b.federations
    && a.endpoint == b.endpoint && a.manifestUrl == b.manifestUrl && a.protocolVersions == b.protocolVersions
    && a.revision == b.revision && a.publicKeys == b.publicKeys && a.authMethods == b.authMethods
    && SameSeconds(a.issuedAt, b.issuedAt) && SameSeconds(a.expiresAt, b.expiresAt)
  }

  /** The fields of a manifest under other names than the modelled ones. */
  function Others(m: Manifest): map<string, Value> {
    m.rest - (CORE + {SIGNATURE})
  }

  lemma IdentityFields(m: Manifest)
    ensures var f := Identity(m);
      && IDENTITY == f.Keys && Plain(f)
      && f["node_id"] == Text(m.nodeId) && f["org_id"] == Text(m.orgId)
      && f["federations"] == Texts(m.federations) && f["endpoint"] == Text(m.endpoint)
  {
  }

  lemma VersionsFields(m: Manifest)
    ensures var f := Versions(m);
      && VERSIONS == f.Keys && Plain(f)
      && f["manifest_url"] == OptionalText(m.manifestUrl) && f["protocol_versions"] == Texts(m.protocolVersions)
      && f["revision"] == Number(m.revision)
  {
  }

  lemma TrustFields(m: Manifest)
    ensures var f := Trust(m);
      && TRUST == f.Keys && Plain(f)
      && f["public_keys"] == Keys(m.publicKeys) && f["auth_methods"] == Texts(m.authMethods)
      && f["issued_at"] == OptionalInstant(m.issuedAt) && f["expires_at"] == OptionalInstant(m.expiresAt)
  {
  }

  lemma IdentityAlike(a: Manifest, b: Manifest)
    ensures DumpAlike(Identity(a), Identity(b)) <==>
            && a.nodeId == b.nodeId && a.orgId == b.orgId
            && a.federations == b.federations && a.endpoint == b.endpoint
  {
    IdentityFields(a);
    IdentityFields(b);
    AlikeOver4(Identity(a), Identity(b), "node_id", "org_id", "federations", "endpoint");
    TextsAlike(a.federations, b.federations);
  }

  lemma VersionsAlike(a: Manifest, b: Manifest)
    ensures DumpAlike(Versions(a), Versions(b)) <==>
            && a.manifestUrl == b.manifestUrl && a.protocolVersions == b.protocolVersions
            && a.revision == b.revision
  {
    VersionsFields(a);
    VersionsFields(b);
    AlikeOver4(Versions(a), Versions(b), "manifest_url", "protocol_versions", "revision", "revision");
    OptionalTextAlike(a.manifestUrl, b.manifestUrl);
    TextsAlike(a.protocolVersions, b.protocolVersions);
  }

  lemma TrustAlike(a: Manifest, b: Manifest)
    ensures DumpAlike(Trust(a), Trust(b)) <==>
            && a.publicKeys == b.publicKeys && a.authMethods == b.authMethods
            && SameSeconds(a.issuedAt, b.issuedAt) && SameSeconds(a.expiresAt, b.expiresAt)
  {
    TrustFields(a);
    TrustFields(b);
    AlikeOver4(Trust(a), Trust(b), "public_keys", "auth_methods", "issued_at", "expires_at");
    KeysAlike(a.publicKeys, b.publicKeys);
    TextsAlike(a.authMethods, b.authMethods);
    OptionalInstantAlike(a.issuedAt, b.issuedAt);
    OptionalInstantAlike(a.expiresAt, b.expiresAt);
  }

  lemma NamesApart()
    ensures IDENTITY !! VERSIONS && (IDENTITY + VERSIONS) !! TRUST && SIGNATURE !in CORE
  {
  }

  /** The same fields beside the modelled ones, too. */
  ghost predicate SameOthers(a: Manifest, b: Manifest) {
    Alike(Record(Others(a)), Record(Others(b)))
  }

  lemma CoreNames(m: Manifest)
    ensures Core(m).Keys == CORE && Plain(Core(m))
  {
    IdentityFields(m);
    VersionsFields(m);
    TrustFields(m);
    NamesApart();
  }

  lemma AlikeParts(f: map<string, Value>, x: map<string, Value>, g: map<string, Value>, y: map<string, Value>)
    requires f.Keys == g.Keys && x.Keys == y.Keys && f.Keys !! x.Keys
    ensures DumpAlike(f + x, g + y) <==> DumpAlike(f, g) && DumpAlike(x, y)
  {
    if DumpAlike(f + x, g + y) {
      forall k | k in f ensures Dump(f[k]) == Dump(g[k]) {
        assert (f + x)[k] == f[k] && (g + y)[k] == g[k];
      }
      forall k | k in x ensures Dump(x[k]) == Dump(y[k]) {
        assert (f + x)[k] == x[k] && (g + y)[k] == y[k];
      }
    }
  }

  lemma PartNames(m: Manifest)
    ensures Identity(m).Keys == IDENTITY && Versions(m).Keys == VERSIONS && Trust(m).Keys == TRUST
  {
    IdentityFields(m);
    VersionsFields(m);
    TrustFields(m);
  }

  lemma CoresAlike(a: Manifest, b: Manifest)
    ensures DumpAlike(Core(a), Core(b)) <==> SameFields(a, b)
  {
    PartNames(a);
    PartNames(b);
    NamesApart();
    AlikeParts(Identity(a), Versions(a), Identity(b), Versions(b));
    AlikeParts(Identity(a) + Versions(a), Trust(a), Identity(b) + Versions(b), Trust(b));
    IdentityAlike(a, b);
    VersionsAlike(a, b);
    TrustAlike(a, b);
  }

  /** The body of a manifest is the dump of its modelled fields beside the dump of the others. */
  lemma ManifestBody(m: Manifest)
    ensures Body(DumpModel(ManifestModel(m))) == DumpFields(Others(m)) + DumpFields(Core(m))
    ensures DumpFields(Others(m)).Keys !! CORE
    ensures DumpFields(Core(m)).Keys <= CORE
  {
    CoreNames(m);
    NamesApart();
    Beside(m.rest, Core(m), CORE);
    DumpedNames(Others(m));
    DumpedNames(Core(m));
    BodyOf(ManifestModel(m));
  }

  lemma BodyOf(m: Model)
    ensures Body(DumpModel(m)) == DumpFields(m.fields) - {SIGNATURE}
  {
  }

  lemma Beside(rest: map<string, Value>, core: map<string, Value>, names: set<string>)
    requires core.Keys == names && SIGNATURE !in names
    ensures DumpFields(rest + core) - {SIGNATURE} == DumpFields(rest - (names + {SIGNATURE})) + DumpFields(core)
  {
    DumpIsEachPresent(rest + core);
    DumpIsEachPresent(rest - (names + {SIGNATURE}));
    DumpIsEachPresent(core);
    PresentBeside(rest, core, names);
    EachBeside(Present(rest - (names + {SIGNATURE})), Present(core));
    EachWithout(Present(rest + core));
  }

  lemma PresentBeside(rest: map<string, Value>, core: map<string, Value>, names: set<string>)
    requires core.Keys == names && SIGNATURE !in names
    ensures Present(rest + core) - {SIGNATURE} == Present(rest - (names + {SIGNATURE})) + Present(core)
  {
  }

  lemma DumpIsEachPresent(fields: map<string, Value>)
    ensures DumpFields(fields) == DumpEach(Present(fields))
  {
  }

  lemma EachBeside(f: map<string, Value>, g: map<string, Value>)
    ensures DumpEach(f + g) == DumpEach(f) + DumpEach(g)
  {
  }

  lemma EachWithout(f: map<string, Value>)
    ensures DumpEach(f - {SIGNATURE}) == DumpEach(f) - {SIGNATURE}
  {
  }

  /** Two manifests have the same signed body exactly when they agree on every field, instants in whole seconds. */
  lemma ManifestBodies(a: Manifest, b: Manifest)
    ensures Body(DumpModel(ManifestModel(a))) == Body(DumpModel(ManifestModel(b)))
       <==> SameFields(a, b) && SameOthers(a, b)
  {
    ManifestBody(a);
    ManifestBody(b);
    Apart(DumpFields(Others(a)), DumpFields(Core(a)), DumpFields(Others(b)), DumpFields(Core(b)));
    CoreNames(a);
    CoreNames(b);
    DumpByField(Core(a), Core(b));
    CoresAlike(a, b);
    DumpsExactly(Record(Others(a)), Record(Others(b)));
  }

  /** Maps joined from parts over separate names are equal exactly when their parts are. */
  lemma Apart(a: Payload, x: Payload, b: Payload, y: Payload)
    requires a.Keys !! CORE && b.Keys !! CORE && x.Keys <= CORE && y.Keys <= CORE
    ensures a + x == b + y <==> a == b && x == y
  {
    if a + x == b + y {
      assert a == (a + x) - CORE && b == (b + y) - CORE;
      assert x == (a + x) - a.Keys && y == (b + y) - b.Keys;
    }
  }

  function ManifestBytes(c: Crypto, m: Manifest): Bytes {
    c.canonical(Body(DumpModel(ManifestModel(m))))
  }

  /** The canonical form tells manifests apart by their modelled fields; in the others a number has several dumps. */
  ghost predicate ManifestsCanonical(c: Crypto) {
    forall a, b :: ManifestBytes(c, a) == ManifestBytes(c, b) ==> SameFields(a, b)
  }

  function SignManifest(c: Crypto, m: Manifest, key: Key, keyId: string): Option<Signature> {
    SignModel(c, ManifestModel(m), key, keyId).signature
  }

  /**
   A signature moved to a manifest that differs in a modelled field verifies under
   no key at all; moved to one that agrees in every field, under its own key.
   */
  lemma MovedManifestSignature(c: Crypto, m: Manifest, other: Manifest, key: Key, keyId: string, jwk: Jwk)
    requires SignaturesVerify(c) && SignaturesBind(c) && ManifestsCanonical(c)
    ensures VerifyManifestSignature(c, other.(signature := SignManifest(c, m, key, keyId)), jwk) ==>
              SameFields(m, other)
    ensures SameFields(m, other) && SameOthers(m, other) ==>
              VerifyManifestSignature(c, other.(signature := SignManifest(c, m, key, keyId)), c.publicJwk(key))
  {
    MovedSignature(c, ManifestModel(m), ManifestModel(other), key, keyId, jwk);
    assert ManifestModel(other.(signature := SignManifest(c, m, key, keyId)))
        == ManifestModel(other).(signature := SignManifest(c, m, key, keyId));
    ManifestBodies(m, other);
    assert ManifestBytes(c, other) == ManifestBytes(c, m) ==> SameFields(other, m);
  }

  // ---------- what a notice signature covers ----------

  /** The same notice, instants in whole seconds. */
  predicate SameNotice(a: RevocationNotice, b: RevocationNotice) {
    && a.federationId == b.federationId && a.revokedNodeId == b.revokedNodeId && a.reason == b.reason
    && a.issuer == b.issuer && a.issuedAt / MICROS_PER_SECOND == b.issuedAt / MICROS_PER_SECOND
    && SameSeconds(a.expiresAt, b.expiresAt)
  }

  const NOTICE := {"federation_id", "revoked_node_id", "reason", "issued_at", "expires_at", "issuer"}

  lemma NoticeNames(n: RevocationNotice)
    ensures Plain(NoticeModel(n).fields) && NoticeModel(n).fields.Keys == NOTICE
  {
  }

  lemma NoticeFields(n: RevocationNotice)
    ensures var f := NoticeModel(n).fields;
      && f.Keys == NOTICE
      && f["federation_id"] == Text(n.federationId) && f["revoked_node_id"] == Text(n.revokedNodeId)
      && f["reason"] == Text(n.reason) && f["issued_at"] == Instant(n.issuedAt, 0)
      && f["expires_at"] == OptionalInstant(n.expiresAt) && f["issuer"] == Text(n.issuer)
  {
  }

  lemma AlikeOver6(f: map<string, Value>, g: map<string, Value>,
                   a: string, b: string, c: string, d: string, e: string, h: string)
    requires {a, b, c, d, e, h} == f.Keys == g.Keys
    ensures DumpAlike(f, g) <==>
            && Dump(f[a]) == Dump(g[a]) && Dump(f[b]) == Dump(g[b]) && Dump(f[c]) == Dump(g[c])
            && Dump(f[d]) == Dump(g[d]) && Dump(f[e]) == Dump(g[e]) && Dump(f[h]) == Dump(g[h])
  {
  }

  lemma NoticesDumpAlike(a: RevocationNotice, b: RevocationNotice)
    ensures DumpAlike(NoticeModel(a).fields, NoticeModel(b).fields) <==> SameNotice(a, b)
  {
    NoticeFields(a);
    NoticeFields(b);
    AlikeOver6(NoticeModel(a).fields, NoticeModel(b).fields,
               "federation_id", "revoked_node_id", "reason", "issued_at", "expires_at", "issuer");
    OptionalInstantAlike(a.expiresAt, b.expiresAt);
  }

  /** Two notices have the same signed body exactly when they are the same to the second. */
  lemma NoticeBodies(a: RevocationNotice, b: RevocationNotice)
    ensures Body(DumpModel(NoticeModel(a))) == Body(DumpModel(NoticeModel(b))) <==> SameNotice(a, b)
  {
    NoticeNames(a);
    NoticeNames(b);
    SameBody(NoticeModel(a), NoticeModel(b));
    NoticesDumpAlike(a, b);
  }

  function NoticeBytes(c: Crypto, n: RevocationNotice): Bytes {
    c.canonical(Body(DumpModel(NoticeModel(n))))
  }

  /** The canonical form tells different notices apart. */
  ghost predicate NoticesCanonical(c: Crypto) {
    forall a, b :: NoticeBytes(c, a) == NoticeBytes(c, b) ==> SameNotice(a, b)
  }

  function SignNotice(c: Crypto, n: RevocationNotice, key: Key, keyId: string): Option<Signature> {
    SignModel(c, NoticeModel(n), key, keyId).signature
  }

  /** A signature moved from one notice to another verifies exactly when they agree on every field, to the second. */
  lemma MovedNoticeSignature(c: Crypto, n: RevocationNotice, other: RevocationNotice, key: Key, keyId: string, jwk: Jwk)
    requires SignaturesVerify(c) && SignaturesBind(c) && NoticesCanonical(c)
    ensures VerifyNotice(c, other.(signature := SignNotice(c, n, key, keyId)), jwk) ==> SameNotice(n, other)
    ensures VerifyNotice(c, other.(signature := SignNotice(c, n, key, keyId)), c.publicJwk(key))
       <==> SameNotice(n, other)
  {
    MovedSignature(c, NoticeModel(n), NoticeModel(other), key, keyId, jwk);
    assert NoticeModel(other.(signature := SignNotice(c, n, key, keyId)))
        == NoticeModel(other).(signature := SignNotice(c, n, key, keyId));
    NoticeBodies(n, other);
    assert NoticeBytes(c, other) == NoticeBytes(c, n) ==> SameNotice(other, n);
  }

  // ---------- what a request signature covers ----------

  /** The same request up to the part of its timestamp below a second. */
  predicate SameToTheSecond(a: SignedRequest, b: SignedRequest) {
    a.timestamp / MICROS_PER_SECOND == b.timestamp / MICROS_PER_SECOND &&
    a.(timestamp := 0, signature := None) == b.(timestamp := 0, signature := None)
  }

  lemma RequestBodies(a: SignedRequest, b: SignedRequest)
    ensures Body(DumpModel(RequestModel(a))) == Body(DumpModel(RequestModel(b))) <==> SameToTheSecond(a, b)
  {
    RequestFields(a);
    RequestFields(b);
    SameBody(RequestModel(a), RequestModel(b));
    RequestsDumpAlike(a, b);
  }

  lemma SameRequestsDumpAlike(a: SignedRequest, b: SignedRequest)
    requires SameToTheSecond(a, b)
    ensures DumpAlike(RequestModel(a).fields, RequestModel(b).fields)
  {
    var f := RequestModel(a).fields;
    assert b == a.(timestamp := b.timestamp, signature := b.signature);
    assert RequestModel(b).fields == f["timestamp" := Instant(b.timestamp, 0)];
    PlainFields(a);
  }

  lemma AlikeRouting(a: SignedRequest, b: SignedRequest)
    requires DumpAlike(RequestModel(a).fields, RequestModel(b).fields)
    ensures a.federationId == b.federationId && a.requestId == b.requestId && a.sourceNodeId == b.sourceNodeId
    ensures a.targetNodeId == b.targetNodeId && a.httpMethod == b.httpMethod
  {
    var f, g := RequestModel(a).fields, RequestModel(b).fields;
    RoutingFields(a);
    RoutingFields(b);
    assert Dump(f["federation_id"]) == Dump(g["federation_id"]);
    assert Dump(f["request_id"]) == Dump(g["request_id"]);
    assert Dump(f["source_node_id"]) == Dump(g["source_node_id"]);
    assert Dump(f["target_node_id"]) == Dump(g["target_node_id"]);
    assert Dump(f["method"]) == Dump(g["method"]);
  }

  lemma AlikeContent(a: SignedRequest, b: SignedRequest)
    requires DumpAlike(RequestModel(a).fields, RequestModel(b).fields)
    ensures a.timestamp / MICROS_PER_SECOND == b.timestamp / MICROS_PER_SECOND
    ensures a.path == b.path && a.nonce == b.nonce && a.bodySha256 == b.bodySha256
    ensures a.sourceManifestRevision == b.sourceManifestRevision
  {
    var f, g := RequestModel(a).fields, RequestModel(b).fields;
    ContentFields(a);
    ContentFields(b);
    assert Dump(f["path"]) == Dump(g["path"]);
    assert Dump(f["timestamp"]) == Dump(g["timestamp"]);
    assert Dump(f["nonce"]) == Dump(g["nonce"]);
    assert Dump(f["body_sha256"]) == Dump(g["body_sha256"]);
    assert Dump(f["source_manifest_revision"]) == Dump(g["source_manifest_revision"]);
  }

  lemma RequestsDumpAlike(a: SignedRequest, b: SignedRequest)
    ensures SameToTheSecond(a, b) <==> DumpAlike(RequestModel(a).fields, RequestModel(b).fields)
  {
    if SameToTheSecond(a, b) {
      SameRequestsDumpAlike(a, b);
    }
    if DumpAlike(RequestModel(a).fields, RequestModel(b).fields) {
      AlikeRouting(a, b);
      AlikeContent(a, b);
    }
  }

  lemma RequestFields(e: SignedRequest)
    ensures var f := RequestModel(e).fields;
      && AllPresent(f) && Plain(f)
      && f.Keys == {"federation_id", "request_id", "source_node_id", "target_node_id", "method", "path",
                    "timestamp", "nonce", "body_sha256", "source_manifest_revision"}
  {
  }

  lemma RoutingFields(e: SignedRequest)
    ensures var f := RequestModel(e).fields;
      && "federation_id" in f && f["federation_id"] == Text(e.federationId)
      && "request_id" in f && f["request_id"] == Text(e.requestId)
      && "source_node_id" in f && f["source_node_id"] == Text(e.sourceNodeId)
      && "target_node_id" in f && f["target_node_id"] == Text(e.targetNodeId)
      && "method" in f && f["method"] == Text(e.httpMethod)
  {
  }

  lemma ContentFields(e: SignedRequest)
    ensures var f := RequestModel(e).fields;
      && "path" in f && f["path"] == Text(e.path)
      && "timestamp" in f && f["timestamp"] == Instant(e.timestamp, 0)
      && "nonce" in f && f["nonce"] == Text(e.nonce)
      && "body_sha256" in f && f["body_sha256"] == Text(e.bodySha256)
      && "source_manifest_revision" in f && f["source_manifest_revision"] == Number(e.sourceManifestRevision)
  {
  }

  /** The canonical form tells different request bodies apart. */
  ghost predicate RequestsCanonical(c: Crypto) {
    forall a, b :: RequestBytes(c, a) == RequestBytes(c, b) ==> SameToTheSecond(a, b)
  }

  function RequestBytes(c: Crypto, e: SignedRequest): Bytes {
    c.canonical(Body(DumpModel(RequestModel(e))))
  }

  /**
   A signature moved from one request to another verifies exactly when the two
   agree on every field, the timestamp compared in whole seconds.
   */
  lemma MovedRequestSignature(c: Crypto, e: SignedRequest, other: SignedRequest, key: Key, keyId: string)
    requires SignaturesVerify(c) && SignaturesBind(c) && RequestsCanonical(c)
    ensures VerifyRequestSignature(c, other.(signature := SignModel(c, RequestModel(e), key, keyId).signature),
        c.publicJwk(key))
       <==> SameToTheSecond(e, other)
  {
    MovedSignature(c, RequestModel(e), RequestModel(other), key, keyId, c.publicJwk(key));
    RequestBodies(e, other);
  }

  /** sign_model on a request: the copy that comes back has its timestamp in whole seconds. */
  function SignedCopy(c: Crypto, e: SignedRequest, key: Key, keyId: string): SignedRequest {
    e.(timestamp := e.timestamp / MICROS_PER_SECOND * MICROS_PER_SECOND,
       signature := SignModel(c, RequestModel(e), key, keyId).signature)
  }

  /** The signed copy is the model that signing re-validated. */
  lemma SignedCopyIsSignedModel(c: Crypto, e: SignedRequest, key: Key, keyId: string)
    ensures RequestModel(SignedCopy(c, e, key, keyId)) == SignModel(c, RequestModel(e), key, keyId)
  {
    WholeSeconds(e, SignModel(c, RequestModel(e), key, keyId).signature);
    RequestFields(e);
    SignedFields(c, RequestModel(e), key, keyId);
  }

  function RevalidateEach(fields: map<string, Value>): map<string, Value> {
    map k | k in fields :: Validate(Dump(fields[k]))
  }

  predicate PlainBut(fields: map<string, Value>, name: string) {
    name in fields && forall k :: k in fields && k != name ==> fields[k].Text? || fields[k].Number?
  }

  lemma RevalidatedPlain(fields: map<string, Value>, name: string)
    requires PlainBut(fields, name)
    ensures RevalidateEach(fields) == fields[name := Validate(Dump(fields[name]))]
  {
  }

  /** A request in whole seconds is, field by field, what dumping and validating make of the original. */
  lemma WholeSeconds(e: SignedRequest, signature: Option<Signature>)
    ensures var whole := e.(timestamp := e.timestamp / MICROS_PER_SECOND * MICROS_PER_SECOND, signature := signature);
      RequestModel(whole).fields == RevalidateEach(RequestModel(e).fields)
  {
    var second := e.timestamp / MICROS_PER_SECOND * MICROS_PER_SECOND;
    var f := RequestModel(e).fields;
    PlainFields(e);
    RevalidatedPlain(f, "timestamp");
    assert RequestModel(e.(timestamp := second, signature := signature)).fields == f["timestamp" := Instant(second, 0)];
  }

  lemma PlainFields(e: SignedRequest)
    ensures PlainBut(RequestModel(e).fields, "timestamp")
    ensures RequestModel(e).fields["timestamp"] == Instant(e.timestamp, 0)
  {
  }

  lemma SignedFields(c: Crypto, m: Model, key: Key, keyId: string)
    requires AllPresent(m.fields)
    ensures SignModel(c, m, key, keyId).fields == RevalidateEach(m.fields)
  {
    BodyIs(m);
    assert SignDict(c, DumpModel(m), key, keyId) - {SIGNATURE} == DumpEach(m.fields);
  }
}
