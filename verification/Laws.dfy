/**
 The laws that lemmas ask of the cryptographic primitives can be met together:
 a signature that spells out its key and its data, and a canonical form that
 spells out the whole of a payload.
 */
module Laws {
  import opened Options
  import opened Base64Url
  import opened Signing
  import opened Models

  // ---------- spelling values out ----------

  function Pack(key: Bytes, data: Bytes): Bytes {
    if key == [] then [0] + data else [1, key[0]] + Pack(key[1..], data)
  }

  lemma {:induction false} PackInjective(j: Bytes, d: Bytes, k: Bytes, e: Bytes)
    requires Pack(j, d) == Pack(k, e)
    ensures j == k && d == e
  {
    if j == [] {
      assert Pack(j, d)[0] == 0 && Pack(j, d)[1..] == d;
      assert k == [] && Pack(k, e)[1..] == e;
    } else {
      assert Pack(j, d)[0] == 1 && k != [];
      assert Pack(j, d)[1] == j[0] && Pack(k, e)[1] == k[0];
      assert Pack(j, d)[2..] == Pack(j[1..], d) && Pack(k, e)[2..] == Pack(k[1..], e);
      PackInjective(j[1..], d, k[1..], e);
      assert j == [j[0]] + j[1..] && k == [k[0]] + k[1..];
    }
  }

  /** A number in front of further bytes. */
  function Count(n: nat, rest: Bytes): Bytes {
    if n == 0 then [0] + rest else [1] + Count(n - 1, rest)
  }

  lemma {:induction false} CountInjective(m: nat, x: Bytes, n: nat, y: Bytes)
    requires Count(m, x) == Count(n, y)
    ensures m == n && x == y
  {
    assert Count(m, x)[0] == if m == 0 then 0 else 1;
    assert Count(n, y)[0] == if n == 0 then 0 else 1;
    if m == 0 {
      assert Count(m, x)[1..] == x && Count(n, y)[1..] == y;
    } else {
      assert Count(m, x)[1..] == Count(m - 1, x) && Count(n, y)[1..] == Count(n - 1, y);
      CountInjective(m - 1, x, n - 1, y);
    }
  }

  function Whole(i: int, rest: Bytes): Bytes {
    if i >= 0 then [0] + Count(i, rest) else [1] + Count(-i, rest)
  }

  lemma WholeInjective(i: int, x: Bytes, j: int, y: Bytes)
    requires Whole(i, x) == Whole(j, y)
    ensures i == j && x == y
  {
    assert Whole(i, x)[0] == if i >= 0 then 0 else 1;
    assert Whole(j, y)[0] == if j >= 0 then 0 else 1;
    var m, n := if i >= 0 then i else -i, if j >= 0 then j else -j;
    assert Whole(i, x)[1..] == Count(m, x) && Whole(j, y)[1..] == Count(n, y);
    CountInjective(m, x, n, y);
  }

  function Spelled(s: string, rest: Bytes): Bytes {
    if s == "" then [0] + rest else [1] + Count(s[0] as int, Spelled(s[1..], rest))
  }

  lemma {:induction false} SpelledInjective(s: string, x: Bytes, t: string, y: Bytes)
    requires Spelled(s, x) == Spelled(t, y)
    ensures s == t && x == y
  {
    assert Spelled(s, x)[0] == if s == "" then 0 else 1;
    assert Spelled(t, y)[0] == if t == "" then 0 else 1;
    if s == "" {
      assert Spelled(s, x)[1..] == x && Spelled(t, y)[1..] == y;
    } else {
      assert Spelled(s, x)[1..] == Count(s[0] as int, Spelled(s[1..], x));
      assert Spelled(t, y)[1..] == Count(t[0] as int, Spelled(t[1..], y));
      CountInjective(s[0] as int, Spelled(s[1..], x), t[0] as int, Spelled(t[1..], y));
      SpelledInjective(s[1..], x, t[1..], y);
      assert s == [s[0]] + s[1..] && t == [t[0]] + t[1..];
    }
  }

  // ---------- spelling JSON out ----------

  /** The names of an object, in some order that depends on them alone. */
  ghost function Order(names: set<string>): (r: seq<string>)
    ensures forall k :: k in r <==> k in names
  {
    if names == {} then []
    else
      var k :| k in names;
      [k] + Order(names - {k})
  }

  /** Tagged by its kind, and each part of known length in front of the rest. */
  ghost function Spell(j: Json, rest: Bytes): Bytes
    decreases j
  {
    match j
    case JNull => [0] + rest
    case JBool(b) => [1, if b then 1 else 0] + rest
    case JText(s) => [2] + Spelled(s, rest)
    case JNumber(n) => [3] + Whole(n, rest)
    case JFraction(m, e) => [4] + Whole(m, Whole(e, rest))
    case JInstant(t) => [5] + Whole(t, rest)
    case JObject(members) => [6] + SpellMembers(j, Order(members.Keys), rest)
    case JArray(elements) => [7] + SpellElements(j, 0, rest)
  }

  ghost function SpellMembers(j: Json, names: seq<string>, rest: Bytes): Bytes
    requires j.JObject? && forall k :: k in names ==> k in j.members
    decreases j, |names|
  {
    if names == [] then [0] + rest
    else [1] + Spelled(names[0], Spell(j.members[names[0]], SpellMembers(j, names[1..], rest)))
  }

  ghost function SpellElements(j: Json, i: nat, rest: Bytes): Bytes
    requires j.JArray? && i <= |j.elements|
    decreases j, |j.elements| - i
  {
    if i == |j.elements| then [0] + rest
    else [1] + Spell(j.elements[i], SpellElements(j, i + 1, rest))
  }

  lemma SpelledTag(j: Json, rest: Bytes)
    ensures Spell(j, rest) != []
    ensures Spell(j, rest)[0] == match j
      case JNull => 0 case JBool(_) => 1 case JText(_) => 2 case JNumber(_) => 3
      case JFraction(_, _) => 4 case JInstant(_) => 5 case JObject(_) => 6 case JArray(_) => 7
  {
  }

  lemma {:induction false} SpellInjective(j: Json, x: Bytes, k: Json, y: Bytes)
    requires Spell(j, x) == Spell(k, y)
    ensures j == k && x == y
    decreases j
  {
    SpelledTag(j, x);
    SpelledTag(k, y);
    var s, t := Spell(j, x)[1..], Spell(k, y)[1..];
    match j
    case JNull =>
      assert s == x && t == y;
    case JBool(b) =>
      assert s[0] == (if b then 1 else 0) && t[0] == (if k.flag then 1 else 0);
      assert s[1..] == x && t[1..] == y;
    case JText(text) =>
      assert s == Spelled(text, x) && t == Spelled(k.text, y);
      SpelledInjective(text, x, k.text, y);
    case JNumber(n) =>
      assert s == Whole(n, x) && t == Whole(k.number, y);
      WholeInjective(n, x, k.number, y);
    case JFraction(m, e) =>
      assert s == Whole(m, Whole(e, x)) && t == Whole(k.mantissa, Whole(k.exponent, y));
      WholeInjective(m, Whole(e, x), k.mantissa, Whole(k.exponent, y));
      WholeInjective(e, x, k.exponent, y);
    case JInstant(n) =>
      assert s == Whole(n, x) && t == Whole(k.seconds, y);
      WholeInjective(n, x, k.seconds, y);
    case JObject(members) =>
      assert s == SpellMembers(j, Order(members.Keys), x) && t == SpellMembers(k, Order(k.members.Keys), y);
      MembersInjective(j, Order(members.Keys), x, k, Order(k.members.Keys), y);
      assert members.Keys == k.members.Keys;
      assert members == k.members;
    case JArray(elements) =>
      assert s == SpellElements(j, 0, x) && t == SpellElements(k, 0, y);
      ElementsInjective(j, x, k, y, 0);
      assert elements == k.elements;
  }

  lemma {:induction false} MembersInjective(j: Json, names: seq<string>, x: Bytes,
                                            k: Json, others: seq<string>, y: Bytes)
    requires j.JObject? && forall n :: n in names ==> n in j.members
    requires k.JObject? && forall n :: n in others ==> n in k.members
    requires SpellMembers(j, names, x) == SpellMembers(k, others, y)
    ensures names == others && x == y
    ensures forall n :: n in names ==> j.members[n] == k.members[n]
    decreases j, |names|
  {
    var s, t := SpellMembers(j, names, x), SpellMembers(k, others, y);
    assert s[0] == (if names == [] then 0 else 1) && t[0] == (if others == [] then 0 else 1);
    if names == [] {
      assert s[1..] == x && t[1..] == y;
    } else {
      var n, o := names[0], others[0];
      var xs, ys := SpellMembers(j, names[1..], x), SpellMembers(k, others[1..], y);
      assert s[1..] == Spelled(n, Spell(j.members[n], xs)) && t[1..] == Spelled(o, Spell(k.members[o], ys));
      SpelledInjective(n, Spell(j.members[n], xs), o, Spell(k.members[o], ys));
      SpellInjective(j.members[n], xs, k.members[o], ys);
      MembersInjective(j, names[1..], x, k, others[1..], y);
      assert names == [n] + names[1..] && others == [o] + others[1..];
    }
  }

  lemma {:induction false} ElementsInjective(j: Json, x: Bytes, k: Json, y: Bytes, i: nat)
    requires j.JArray? && k.JArray? && i <= |j.elements| && i <= |k.elements|
    requires SpellElements(j, i, x) == SpellElements(k, i, y)
    ensures j.elements[i..] == k.elements[i..] && x == y
    decreases j, |j.elements| - i
  {
    var s, t := SpellElements(j, i, x), SpellElements(k, i, y);
    assert s[0] == (if i == |j.elements| then 0 else 1) && t[0] == (if i == |k.elements| then 0 else 1);
    if i == |j.elements| {
      assert s[1..] == x && t[1..] == y;
    } else {
      var xs, ys := SpellElements(j, i + 1, x), SpellElements(k, i + 1, y);
      assert s[1..] == Spell(j.elements[i], xs) && t[1..] == Spell(k.elements[i], ys);
      SpellInjective(j.elements[i], xs, k.elements[i], ys);
      ElementsInjective(j, x, k, y, i + 1);
      assert j.elements[i..] == [j.elements[i]] + j.elements[i + 1..];
      assert k.elements[i..] == [k.elements[i]] + k.elements[i + 1..];
    }
  }

  // ---------- the primitives ----------

  function Halves(k: Key): Jwk {
    map["kty" := "OKP", "crv" := "Ed25519", "x" := Encode(k)]
  }

  /** It reads the member x alone, as verification of the library does once kty and crv are right. */
  predicate Verifies(jwk: Jwk, sig: Bytes, data: Bytes) {
    "x" in jwk && Decode(jwk["x"]).Some? && sig == Pack(Decode(jwk["x"]).value, data)
  }

  ghost function Spelling(): Crypto {
    Crypto((p: Payload) => Spell(JObject(p), []), (k: Key, d: Bytes) => Pack(k, d),
           (jwk: Jwk, s: Bytes, d: Bytes) => Verifies(jwk, s, d), (k: Key) => Halves(k), (b: Bytes) => "")
  }

  lemma VerifiesOwn(k: Key, d: Bytes)
    ensures Verifies(Halves(k), Pack(k, d), d)
  {
    RoundTrip(k);
  }

  lemma VerifiesSigned(jwk: Jwk, k: Key, d: Bytes, e: Bytes)
    requires Verifies(jwk, Pack(k, d), e)
    ensures d == e && Decode(jwk["x"]) == Some(k)
  {
    PackInjective(Decode(jwk["x"]).value, e, k, d);
  }

  lemma SpelledBodies(p: Payload, q: Payload)
    requires Spelling().canonical(p) == Spelling().canonical(q)
    ensures p == q
  {
    SpellInjective(JObject(p), [], JObject(q), []);
  }

  /** A canonical form that tells different payloads apart tells apart what the three kinds of model sign. */
  lemma SpelledCanonical()
    ensures RequestsCanonical(Spelling()) && NoticesCanonical(Spelling()) && ManifestsCanonical(Spelling())
  {
    var c := Spelling();
    forall a, b | RequestBytes(c, a) == RequestBytes(c, b) ensures SameToTheSecond(a, b) {
      SpelledBodies(Body(DumpModel(RequestModel(a))), Body(DumpModel(RequestModel(b))));
      RequestBodies(a, b);
    }
    forall a, b | NoticeBytes(c, a) == NoticeBytes(c, b) ensures SameNotice(a, b) {
      SpelledBodies(Body(DumpModel(NoticeModel(a))), Body(DumpModel(NoticeModel(b))));
      NoticeBodies(a, b);
    }
    forall a, b | ManifestBytes(c, a) == ManifestBytes(c, b) ensures SameFields(a, b) {
      SpelledBodies(Body(DumpModel(ManifestModel(a))), Body(DumpModel(ManifestModel(b))));
      ManifestBodies(a, b);
    }
  }

  lemma SpelledBinding()
    ensures SignaturesVerify(Spelling()) && SignaturesBind(Spelling()) && KeysBind(Spelling())
  {
    var c := Spelling();
    forall k, d ensures c.verify(c.publicJwk(k), c.sign(k, d), d) {
      VerifiesOwn(k, d);
    }
    forall jwk, k, d, e | c.verify(jwk, c.sign(k, d), e) ensures d == e {
      VerifiesSigned(jwk, k, d, e);
    }
    forall j, k, d | c.verify(c.publicJwk(j), c.sign(k, d), d) ensures c.publicJwk(j) == c.publicJwk(k) {
      VerifiesSigned(c.publicJwk(j), k, d, d);
      RoundTrip(j);
    }
  }

  /** Some primitives meet every law at once, even reading of a key no more than the library reads. */
  lemma LawsCanBeMet()
    ensures exists c: Crypto :: && SignaturesVerify(c) && SignaturesBind(c) && KeysBind(c)
                                && RequestsCanonical(c) && NoticesCanonical(c) && ManifestsCanonical(c)
  {
    SpelledCanonical();
    SpelledBinding();
  }
}
