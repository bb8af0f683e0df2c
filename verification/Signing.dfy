/**
 Detached signatures over wire models: `sign_dict`, `verify_dict`, `sign_model`
 and `verify_model` of `signing.py`, with the JSON dump and re-validation that
 the wire models of `models.py` go through around every signature.
 */
module Signing {
  import opened Options
  import opened Base64Url

  type Bytes = seq<Byte>

  const MICROS_PER_SECOND := 1_000_000

  // ---------- wire values ----------

  /**
   A field of a wire model.  An instant is a wall-clock reading in microseconds
   since the epoch together with the offset of its zone from UTC.  A model field
   that is None is absent; a None inside a plain dictionary or list is null.  A
   float is its mantissa times two to its exponent.
   */
  datatype Value =
    | Absent
    | Null
    | Flag(flag: bool)
    | Text(text: string)
    | Number(number: int)
    | Fraction(mantissa: int, exponent: int)
    | Instant(wall: int, offset: int)
    | Record(fields: map<string, Value>)
    | Items(items: seq<Value>)

  /** JSON as dumped: an instant is rendered in UTC with whole seconds. */
  datatype Json =
    | JNull
    | JBool(flag: bool)
    | JText(text: string)
    | JNumber(number: int)
    | JFraction(mantissa: int, exponent: int)
    | JInstant(seconds: int)
    | JObject(members: map<string, Json>)
    | JArray(elements: seq<Json>)

  /** model_dump(mode="json", exclude_none=True) of one value */
  function Dump(v: Value): Json {
    match v
    case Absent => JNull
    case Null => JNull
    case Flag(b) => JBool(b)
    case Text(s) => JText(s)
    case Number(n) => JNumber(n)
    case Fraction(m, e) => JFraction(m, e)
    case Instant(wall, offset) => JInstant((wall - offset) / MICROS_PER_SECOND)
    case Record(fields) => JObject(map k | k in fields && fields[k] != Absent :: Dump(fields[k]))
    case Items(items) => JArray(seq(|items|, i requires 0 <= i < |items| => Dump(items[i])))
  }

  function DumpFields(fields: map<string, Value>): map<string, Json> {
    Dump(Record(fields)).members
  }

  /** model_validate of one value: rendered instants come back in UTC. */
  function Validate(j: Json): Value {
    match j
    case JNull => Null
    case JBool(b) => Flag(b)
    case JText(s) => Text(s)
    case JNumber(n) => Number(n)
    case JFraction(m, e) => Fraction(m, e)
    case JInstant(seconds) => Instant(seconds * MICROS_PER_SECOND, 0)
    case JObject(members) => Record(map k | k in members :: Validate(members[k]))
    case JArray(elements) => Items(seq(|elements|, i requires 0 <= i < |elements| => Validate(elements[i])))
  }

  function ValidateFields(members: map<string, Json>): map<string, Value> {
    Validate(JObject(members)).fields
  }

  // ---------- dump after validate ----------

  /** What validating a dump gives: something that dumps alike and is not absent. */
  predicate Fixed(v: Value) {
    Dump(Validate(Dump(v))) == Dump(v) && Validate(Dump(v)) != Absent
  }

  lemma RecordFixed(fields: map<string, Value>)
    requires forall k :: k in fields ==> Fixed(fields[k])
    ensures Fixed(Record(fields))
  {
    var j := DumpFields(fields);
    RevalidatedFields(j);
    forall k | k in j ensures Validate(j[k]) != Absent && Dump(Validate(j[k])) == j[k] {
      assert Fixed(fields[k]);
    }
  }

  lemma RevalidatedFields(j: map<string, Json>)
    ensures (forall k :: k in j ==> Validate(j[k]) != Absent && Dump(Validate(j[k])) == j[k]) ==>
              DumpFields(ValidateFields(j)) == j
  {
  }

  lemma ItemsFixed(items: seq<Value>)
    requires forall i :: 0 <= i < |items| ==> Fixed(items[i])
    ensures Fixed(Items(items))
  {
    forall i | 0 <= i < |items| ensures Dump(Validate(Dump(items[i]))) == Dump(items[i]) {
      assert Fixed(items[i]);
    }
  }

  /** Validating a dump and dumping it again gives the same JSON. */
  lemma {:induction false} DumpIsFixedPoint(v: Value)
    ensures Fixed(v)
  {
    match v
    case Record(fields) =>
      forall k | k in fields ensures Fixed(fields[k]) {
        DumpIsFixedPoint(fields[k]);
      }
      RecordFixed(fields);
    case Items(items) =>
      forall i | 0 <= i < |items| ensures Fixed(items[i]) {
        DumpIsFixedPoint(items[i]);
      }
      ItemsFixed(items);
    case Instant(wall, offset) =>
      var seconds := (wall - offset) / MICROS_PER_SECOND;
      assert seconds * MICROS_PER_SECOND / MICROS_PER_SECOND == seconds;
    case _ =>
  }

  // ---------- what a dump tells apart ----------

  /** What is absent is not dumped with a dictionary. */
  predicate Dumped(fields: map<string, Value>, k: string) {
    k in fields && fields[k] != Absent
  }

  /** The same value up to the zone and the fraction of the second of instants. */
  ghost predicate Alike(a: Value, b: Value)
    decreases a
  {
    match a
    case Absent => b.Absent? || b.Null?
    case Null => b.Absent? || b.Null?
    case Instant(wall, offset) =>
      b.Instant? && (wall - offset) / MICROS_PER_SECOND == (b.wall - b.offset) / MICROS_PER_SECOND
    case Record(fields) =>
      && b.Record?
      && (forall k :: Dumped(fields, k) <==> Dumped(b.fields, k))
      && (forall k :: k in fields && Dumped(fields, k) ==> Alike(fields[k], b.fields[k]))
    case Items(items) =>
      b.Items? && |items| == |b.items| && forall i :: 0 <= i < |items| ==> Alike(items[i], b.items[i])
    case _ => a == b
  }

  lemma DumpedMember(fields: map<string, Value>, k: string)
    ensures k in DumpFields(fields) <==> Dumped(fields, k)
    ensures Dumped(fields, k) ==> DumpFields(fields)[k] == Dump(fields[k])
  {
  }

  lemma SameMembers<V>(d: map<string, V>, e: map<string, V>)
    requires forall k :: k in d <==> k in e
    requires forall k :: k in d ==> d[k] == e[k]
    ensures d == e
  {
  }

  lemma RecordsDumpAlike(f: map<string, Value>, g: map<string, Value>)
    ensures DumpFields(f) == DumpFields(g) <==>
            && (forall k :: Dumped(f, k) <==> Dumped(g, k))
            && (forall k :: k in f && Dumped(f, k) && Dumped(g, k) ==> Dump(f[k]) == Dump(g[k]))
  {
    forall k
      ensures k in DumpFields(f) <==> Dumped(f, k)
      ensures k in DumpFields(g) <==> Dumped(g, k)
      ensures Dumped(f, k) ==> DumpFields(f)[k] == Dump(f[k])
      ensures Dumped(g, k) ==> DumpFields(g)[k] == Dump(g[k])
    {
      DumpedMember(f, k);
      DumpedMember(g, k);
    }
    if (forall k :: Dumped(f, k) <==> Dumped(g, k)) &&
       (forall k :: k in f && Dumped(f, k) && Dumped(g, k) ==> Dump(f[k]) == Dump(g[k]))
    {
      SameMembers(DumpFields(f), DumpFields(g));
    }
  }

  /** A list dumps to a list of the dumps of its items. */
  lemma ItemsDumpAlike(a: seq<Value>, b: seq<Value>)
    ensures Dump(Items(a)) == Dump(Items(b)) <==>
            |a| == |b| && forall i :: 0 <= i < |a| ==> Dump(a[i]) == Dump(b[i])
  {
    var x, y := Dump(Items(a)).elements, Dump(Items(b)).elements;
    assert |x| == |a| && |y| == |b|;
    if x == y {
      forall i | 0 <= i < |a| ensures Dump(a[i]) == Dump(b[i]) {
        assert x[i] == y[i];
      }
    }
    if |a| == |b| && forall i :: 0 <= i < |a| ==> Dump(a[i]) == Dump(b[i]) {
      assert x == y;
    }
  }

  /** Two values dump alike exactly when they are alike: a dump loses the zone and the fraction, and nothing else. */
  lemma {:induction false} DumpsExactly(a: Value, b: Value)
    ensures Dump(a) == Dump(b) <==> Alike(a, b)
  {
    match a
    case Record(fields) =>
      if b.Record? {
        RecordsDumpAlike(fields, b.fields);
        forall k | k in fields && Dumped(fields, k) && Dumped(b.fields, k)
          ensures Dump(fields[k]) == Dump(b.fields[k]) <==> Alike(fields[k], b.fields[k])
        {
          DumpsExactly(fields[k], b.fields[k]);
        }
      }
    case Items(items) =>
      if b.Items? {
        ItemsDumpAlike(items, b.items);
        forall i | 0 <= i < |items| && |items| == |b.items|
          ensures Dump(items[i]) == Dump(b.items[i]) <==> Alike(items[i], b.items[i])
        {
          DumpsExactly(items[i], b.items[i]);
        }
      }
    case _ =>
  }

  // ---------- models and payloads ----------

  datatype Signature = Signature(keyId: string, alg: string, sig: string)

  /** A signable model: its fields other than `signature`, and its signature. */
  datatype Model = Model(fields: map<string, Value>, signature: Option<Signature>)

  type Payload = map<string, Json>

  const SIGNATURE := "signature"

  function DumpSignature(s: Signature): Json {
    JObject(map["key_id" := JText(s.keyId), "alg" := JText(s.alg), "sig" := JText(s.sig)])
  }

  function ParseSignature(j: Json): Option<Signature> {
    if j.JObject? && "key_id" in j.members && "alg" in j.members && "sig" in j.members &&
       j.members["key_id"].JText? && j.members["alg"].JText? && j.members["sig"].JText?
    then Some(Signature(j.members["key_id"].text, j.members["alg"].text, j.members["sig"].text))
    else None
  }

  function DumpModel(m: Model): Payload {
    var body := DumpFields(m.fields) - {SIGNATURE};
    if m.signature.Some? then body[SIGNATURE := DumpSignature(m.signature.value)] else body
  }

  function ValidateModel(p: Payload): Model {
    Model(ValidateFields(p - {SIGNATURE}), if SIGNATURE in p then ParseSignature(p[SIGNATURE]) else None)
  }

  /** The part of a payload that a signature covers. */
  function Body(p: Payload): Payload {
    p - {SIGNATURE}
  }

  // ---------- cryptography, as parameters ----------

  type Key = Bytes
  type Jwk = map<string, string>

  /**
   The primitives the library takes from elsewhere: RFC 8785 canonical bytes,
   Ed25519 over raw bytes, and SHA-256.  Nothing is assumed of them except where
   a lemma asks for one of the laws below.
   */
  datatype Crypto = Crypto(
    canonical: Payload -> Bytes,
    sign: (Key, Bytes) -> Bytes,
    verify: (Jwk, Bytes, Bytes) -> bool,
    publicJwk: Key -> Jwk,
    sha256Hex: Bytes -> string)

  function SignBytes(c: Crypto, key: Key, data: Bytes): string {
    Encode(c.sign(key, data))
  }

  /** verify_bytes: a signature that is not base64url is merely a bad signature. */
  function VerifyBytes(c: Crypto, jwk: Jwk, sig: string, data: Bytes): bool {
    match Decode(sig)
    case None => false
    case Some(raw) => c.verify(jwk, raw, data)
  }

  ghost predicate SignaturesVerify(c: Crypto) {
    forall k, d :: c.verify(c.publicJwk(k), c.sign(k, d), d)
  }

  /** Symbolic signatures: what a key signed verifies for the signed bytes alone, whatever it is verified under. */
  ghost predicate SignaturesBind(c: Crypto) {
    forall jwk, k, d, e :: c.verify(jwk, c.sign(k, d), e) ==> d == e
  }

  /** Of the public halves of keys, as they are advertised, what a key signed verifies under that key's own alone. */
  ghost predicate KeysBind(c: Crypto) {
    forall j, k, d :: c.verify(c.publicJwk(j), c.sign(k, d), d) ==> c.publicJwk(j) == c.publicJwk(k)
  }

  ghost predicate IsPublicHalf(c: Crypto, jwk: Jwk) {
    exists key :: c.publicJwk(key) == jwk
  }

  // ---------- signing and verifying ----------

  function SignDict(c: Crypto, payload: Payload, key: Key, keyId: string): Payload {
    payload[SIGNATURE := DumpSignature(Signature(keyId, "EdDSA", SignBytes(c, key, c.canonical(Body(payload)))))]
  }

  function VerifyDict(c: Crypto, payload: Payload, jwk: Jwk): bool {
    SIGNATURE in payload &&
    match ParseSignature(payload[SIGNATURE])
    case None => false
    case Some(s) => VerifyBytes(c, jwk, s.sig, c.canonical(Body(payload)))
  }

  function SignModel(c: Crypto, m: Model, key: Key, keyId: string): Model {
    ValidateModel(SignDict(c, DumpModel(m), key, keyId))
  }

  predicate VerifyModel(c: Crypto, m: Model, jwk: Jwk) {
    VerifyDict(c, DumpModel(m), jwk)
  }

  // ---------- what signing guarantees ----------

  lemma ParseDumpedSignature(s: Signature)
    ensures ParseSignature(DumpSignature(s)) == Some(s)
  {
  }

  lemma BodyFixed(m: Model)
    ensures DumpFields(ValidateFields(Body(DumpModel(m)))) == Body(DumpModel(m))
  {
    var kept := m.fields - {SIGNATURE};
    assert DumpFields(kept) == DumpFields(m.fields) - {SIGNATURE} == Body(DumpModel(m));
    DumpIsFixedPoint(Record(kept));
    assert Fixed(Record(kept));
  }

  /**
   Signing re-validates the signed payload, and dumping that model again gives
   the signed payload itself: the body is the one that was signed.
   */
  lemma SignedModelDumps(c: Crypto, m: Model, key: Key, keyId: string)
    ensures DumpModel(SignModel(c, m, key, keyId)) == SignDict(c, DumpModel(m), key, keyId)
    ensures Body(DumpModel(SignModel(c, m, key, keyId))) == Body(DumpModel(m))
  {
    var body, signed := Body(DumpModel(m)), SignDict(c, DumpModel(m), key, keyId);
    BodyFixed(m);
    assert signed - {SIGNATURE} == body && body - {SIGNATURE} == body;
    ParseDumpedSignature(Signature(keyId, "EdDSA", SignBytes(c, key, c.canonical(body))));
    assert DumpModel(SignModel(c, m, key, keyId)) == body[SIGNATURE := signed[SIGNATURE]];
  }

  /** Every signed model verifies under the matching public key. */
  lemma SignThenVerify(c: Crypto, m: Model, key: Key, keyId: string)
    requires SignaturesVerify(c)
    ensures VerifyModel(c, SignModel(c, m, key, keyId), c.publicJwk(key))
    ensures SignModel(c, m, key, keyId).signature.Some?
    ensures SignModel(c, m, key, keyId).signature.value.keyId == keyId
  {
    SignedModelDumps(c, m, key, keyId);
    var data := c.canonical(Body(DumpModel(m)));
    RoundTrip(c.sign(key, data));
    ParseDumpedSignature(Signature(keyId, "EdDSA", SignBytes(c, key, data)));
  }

  /** A signed model verifies under the public half of its key and under no other public half. */
  lemma VerifiesUnderOwnKey(c: Crypto, m: Model, key: Key, keyId: string, jwk: Jwk)
    requires SignaturesVerify(c) && KeysBind(c) && IsPublicHalf(c, jwk)
    ensures VerifyModel(c, SignModel(c, m, key, keyId), jwk) <==> jwk == c.publicJwk(key)
  {
    SignThenVerify(c, m, key, keyId);
    SignedModelDumps(c, m, key, keyId);
    var data := c.canonical(Body(DumpModel(m)));
    RoundTrip(c.sign(key, data));
    ParseDumpedSignature(Signature(keyId, "EdDSA", SignBytes(c, key, data)));
  }

  /** Signing again changes nothing: the signature is not part of what is signed. */
  lemma SignTwice(c: Crypto, m: Model, key: Key, keyId: string)
    ensures SignModel(c, SignModel(c, m, key, keyId), key, keyId) == SignModel(c, m, key, keyId)
  {
    SignedModelDumps(c, m, key, keyId);
    var once, twice := SignDict(c, DumpModel(m), key, keyId),
                       SignDict(c, DumpModel(SignModel(c, m, key, keyId)), key, keyId);
    assert once == twice;
  }

  /** What signing attaches. */
  lemma SignatureOf(c: Crypto, m: Model, key: Key, keyId: string)
    ensures SignModel(c, m, key, keyId).signature ==
            Some(Signature(keyId, "EdDSA", SignBytes(c, key, c.canonical(Body(DumpModel(m))))))
  {
    SignedModelDumps(c, m, key, keyId);
    ParseDumpedSignature(Signature(keyId, "EdDSA", SignBytes(c, key, c.canonical(Body(DumpModel(m))))));
  }

  /** The attached signature verifies on the model as it was given, too. */
  lemma SignatureFits(c: Crypto, m: Model, key: Key, keyId: string)
    requires SignaturesVerify(c)
    ensures VerifyModel(c, m.(signature := SignModel(c, m, key, keyId).signature), c.publicJwk(key))
  {
    SignatureOf(c, m, key, keyId);
    var data := c.canonical(Body(DumpModel(m)));
    var signature := Signature(keyId, "EdDSA", SignBytes(c, key, data));
    ParseDumpedSignature(signature);
    assert Body(DumpModel(m.(signature := Some(signature)))) == Body(DumpModel(m));
    RoundTrip(c.sign(key, data));
  }

  /** A model is dumped as its body and its signature. */
  lemma DumpOfBody(m: Model)
    ensures DumpModel(m) == if m.signature.Some? then Body(DumpModel(m))[SIGNATURE := DumpSignature(m.signature.value)]
                            else Body(DumpModel(m))
  {
    var body := DumpFields(m.fields) - {SIGNATURE};
    assert Body(DumpModel(m)) == body;
  }

  lemma SameBodySameVerdict(c: Crypto, m: Model, n: Model, jwk: Jwk)
    requires m.signature == n.signature && Body(DumpModel(m)) == Body(DumpModel(n))
    ensures VerifyModel(c, m, jwk) == VerifyModel(c, n, jwk)
  {
    DumpOfBody(m);
    DumpOfBody(n);
  }

  /**
   A signature carried over to another model verifies exactly when it verifies,
   as raw bytes, for the canonical form of the other body.
   */
  lemma CarriedSignature(c: Crypto, m: Model, other: Model, key: Key, keyId: string, jwk: Jwk)
    ensures VerifyModel(c, other.(signature := SignModel(c, m, key, keyId).signature), jwk)
       <==> var sig := c.sign(key, c.canonical(Body(DumpModel(m))));
            c.verify(jwk, sig, c.canonical(Body(DumpModel(other))))
  {
    SignatureOf(c, m, key, keyId);
    var signature := Signature(keyId, "EdDSA", SignBytes(c, key, c.canonical(Body(DumpModel(m)))));
    ParseDumpedSignature(signature);
    var moved := other.(signature := Some(signature));
    assert Body(DumpModel(moved)) == Body(DumpModel(other));
    RoundTrip(c.sign(key, c.canonical(Body(DumpModel(m)))));
  }

  /** With symbolic signatures, only when the two bodies have one canonical form, and under its own key then. */
  lemma MovedSignature(c: Crypto, m: Model, other: Model, key: Key, keyId: string, jwk: Jwk)
    requires SignaturesVerify(c) && SignaturesBind(c)
    ensures VerifyModel(c, other.(signature := SignModel(c, m, key, keyId).signature), jwk)
        ==> c.canonical(Body(DumpModel(other))) == c.canonical(Body(DumpModel(m)))
    ensures VerifyModel(c, other.(signature := SignModel(c, m, key, keyId).signature), c.publicJwk(key))
       <==> c.canonical(Body(DumpModel(other))) == c.canonical(Body(DumpModel(m)))
  {
    CarriedSignature(c, m, other, key, keyId, jwk);
    CarriedSignature(c, m, other, key, keyId, c.publicJwk(key));
  }

  /** Without a signature, or with one that is not base64url, nothing verifies. */
  lemma UndecodableFails(c: Crypto, m: Model, jwk: Jwk)
    requires m.signature.Some? ==> Decode(m.signature.value.sig) == None
    ensures !VerifyModel(c, m, jwk)
  {
    DumpOfBody(m);
    if m.signature.Some? {
      ParseDumpedSignature(m.signature.value);
    }
  }
}
