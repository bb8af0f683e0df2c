/**
 Unpadded base64url as `crypto.py` builds it from the Python standard library:
 encoding strips the padding, decoding restores it and then runs the library's
 lenient decoder, which skips characters outside the alphabet and stops at a
 complete padding sequence.  Section 5 of RFC 4648 fixes the alphabet.
 */
module Base64Url {
  import opened Options
  import opened Texts

  type Byte = b: int | 0 <= b < 256
  type Sextet = n: int | 0 <= n < 64

  // ---------- alphabet ----------

  function CharOf(n: Sextet): char {
    if n < 26 then 'A' + n as char
    else if n < 52 then 'a' + (n - 26) as char
    else if n < 62 then '0' + (n - 52) as char
    else if n == 62 then '-' else '_'
  }

  /** Decoding also accepts '+' and '/': the library only translates '-' and '_' onto them. */
  function SextetOf(c: char): Option<Sextet> {
    if 'A' <= c <= 'Z' then Some(c as int - 'A' as int)
    else if 'a' <= c <= 'z' then Some(c as int - 'a' as int + 26)
    else if '0' <= c <= '9' then Some(c as int - '0' as int + 52)
    else if c == '-' || c == '+' then Some(62)
    else if c == '_' || c == '/' then Some(63)
    else None
  }

  predicate IsUrlAlphabet(c: char) {
    'A' <= c <= 'Z' || 'a' <= c <= 'z' || '0' <= c <= '9' || c == '-' || c == '_'
  }

  predicate InAlphabet(s: string) {
    forall i :: 0 <= i < |s| ==> IsUrlAlphabet(s[i])
  }

  predicate IsAscii(s: string) {
    forall i :: 0 <= i < |s| ==> s[i] as int < 128
  }

  lemma SextetRoundTrip(n: Sextet)
    ensures SextetOf(CharOf(n)) == Some(n) && IsUrlAlphabet(CharOf(n))
  {
  }

  lemma CharRoundTrip(c: char)
    requires IsUrlAlphabet(c)
    ensures SextetOf(c).Some? && CharOf(SextetOf(c).value) == c
  {
  }

  lemma AlphabetIsAscii(s: string)
    requires InAlphabet(s)
    ensures IsAscii(s)
  {
    forall i | 0 <= i < |s| ensures s[i] as int < 128 {
      assert IsUrlAlphabet(s[i]);
    }
  }

  // ---------- three bytes are four sextets ----------

  function S0(x: Byte): Sextet { x / 4 }
  function S1(x: Byte, y: Byte): Sextet { x % 4 * 16 + y / 16 }
  function S2(y: Byte, z: Byte): Sextet { y % 16 * 4 + z / 64 }
  function S3(z: Byte): Sextet { z % 64 }

  function B0(a: Sextet, b: Sextet): Byte { a as int * 4 + b / 16 }
  function B1(b: Sextet, c: Sextet): Byte { (b % 16) as int * 16 + c / 4 }
  function B2(c: Sextet, d: Sextet): Byte { (c % 4) as int * 64 + d }

  lemma BytesOfSextets(x: Byte, y: Byte, z: Byte)
    ensures B0(S0(x), S1(x, y)) == x && B1(S1(x, y), S2(y, z)) == y && B2(S2(y, z), S3(z)) == z
  {
  }

  lemma SextetsOfBytes(a: Sextet, b: Sextet, c: Sextet, d: Sextet)
    ensures S0(B0(a, b)) == a && S1(B0(a, b), B1(b, c)) == b && S2(B1(b, c), B2(c, d)) == c && S3(B2(c, d)) == d
    ensures S1(B0(a, b), 0) == b <==> b % 16 == 0
    ensures S2(B1(b, c), 0) == c <==> c % 4 == 0
  {
  }

  function Quad(a: Sextet, b: Sextet, c: Sextet, d: Sextet): string {
    [CharOf(a), CharOf(b), CharOf(c), CharOf(d)]
  }

  function Triple(a: Sextet, b: Sextet, c: Sextet): string {
    [CharOf(a), CharOf(b), CharOf(c)]
  }

  function Pair(a: Sextet, b: Sextet): string {
    [CharOf(a), CharOf(b)]
  }

  // ---------- encoding ----------

  /** The padded encoder of the standard library, with the url-safe alphabet. */
  function EncodePadded(raw: seq<Byte>): string {
    if raw == [] then ""
    else if |raw| == 1 then Pair(S0(raw[0]), S1(raw[0], 0)) + "=="
    else if |raw| == 2 then Triple(S0(raw[0]), S1(raw[0], raw[1]), S2(raw[1], 0)) + "="
    else Quad(S0(raw[0]), S1(raw[0], raw[1]), S2(raw[1], raw[2]), S3(raw[2])) + EncodePadded(raw[3..])
  }

  /** b64u_encode */
  function Encode(raw: seq<Byte>): string {
    RStrip(EncodePadded(raw), '=')
  }

  // ---------- decoding ----------

  function Pads(n: nat): string {
    seq(n, _ => '=')
  }

  /** Python's `-len(s) % 4`. */
  function MissingPads(n: nat): nat {
    (4 - n % 4) % 4
  }

  /** Prefix a decoded byte to what the rest of the input decodes to. */
  function Emit(b: Byte, rest: Option<seq<Byte>>): Option<seq<Byte>> {
    match rest
    case None => None
    case Some(bytes) => Some([b] + bytes)
  }

  /**
   The lenient decoder: `quad` data characters of the current group have been
   read, `last` is the latest of them, `pads` counts padding characters seen.
   */
  function Parse(s: string, quad: nat, last: Sextet, pads: nat): Option<seq<Byte>>
    requires quad < 4
  {
    if s == "" then
      if quad == 0 then Some([]) else None
    else if s[0] == '=' then
      if quad >= 2 && quad + pads + 1 >= 4 then Some([])
      else Parse(s[1..], quad, last, if quad >= 2 then pads + 1 else pads)
    else
      match SextetOf(s[0])
      case None => Parse(s[1..], quad, last, pads)
      case Some(n) =>
        if quad == 0 then Parse(s[1..], 1, n, 0)
        else if quad == 1 then Emit(B0(last, n), Parse(s[1..], 2, n, 0))
        else if quad == 2 then Emit(B1(last, n), Parse(s[1..], 3, n, 0))
        else Emit(B2(last, n), Parse(s[1..], 0, 0, 0))
  }

  /** b64u_decode; None where the library raises ValueError. */
  function Decode(s: string): Option<seq<Byte>> {
    if IsAscii(s) then Parse(s + Pads(MissingPads(|s|)), 0, 0, 0) else None
  }

  // ---------- what encoding produces ----------

  /** The encoding without padding, group by group: the reference that `Encode` is compared with. */
  function Groups(raw: seq<Byte>): string {
    if raw == [] then ""
    else if |raw| == 1 then Pair(S0(raw[0]), S1(raw[0], 0))
    else if |raw| == 2 then Triple(S0(raw[0]), S1(raw[0], raw[1]), S2(raw[1], 0))
    else Quad(S0(raw[0]), S1(raw[0], raw[1]), S2(raw[1], raw[2]), S3(raw[2])) + Groups(raw[3..])
  }

  lemma QuadInAlphabet(a: Sextet, b: Sextet, c: Sextet, d: Sextet)
    ensures InAlphabet(Quad(a, b, c, d)) && InAlphabet(Triple(a, b, c)) && InAlphabet(Pair(a, b))
  {
    SextetRoundTrip(a);
    SextetRoundTrip(b);
    SextetRoundTrip(c);
    SextetRoundTrip(d);
  }

  lemma {:induction false} GroupsShape(raw: seq<Byte>)
    ensures |Groups(raw)| == (4 * |raw| + 2) / 3
    ensures EncodePadded(raw) == Groups(raw) + Pads(MissingPads(|Groups(raw)|))
    ensures InAlphabet(Groups(raw))
  {
    if |raw| >= 3 {
      GroupsShape(raw[3..]);
      var head := Quad(S0(raw[0]), S1(raw[0], raw[1]), S2(raw[1], raw[2]), S3(raw[2]));
      QuadInAlphabet(S0(raw[0]), S1(raw[0], raw[1]), S2(raw[1], raw[2]), S3(raw[2]));
      AppendPads(head, Groups(raw[3..]));
    } else if |raw| == 2 {
      QuadInAlphabet(S0(raw[0]), S1(raw[0], raw[1]), S2(raw[1], 0), 0);
      assert Pads(1) == "=";
    } else if |raw| == 1 {
      QuadInAlphabet(S0(raw[0]), S1(raw[0], 0), 0, 0);
      assert Pads(2) == "==";
    }
  }

  lemma AppendPads(head: string, tail: string)
    requires |head| == 4
    ensures head + (tail + Pads(MissingPads(|tail|))) == (head + tail) + Pads(MissingPads(|head + tail|))
  {
    assert |head + tail| % 4 == |tail| % 4;
    var p := Pads(MissingPads(|tail|));
    assert head + (tail + p) == (head + tail) + p;
  }

  lemma {:induction false} RStripPads(s: string, n: nat)
    requires s == "" || s[|s| - 1] != '='
    ensures RStrip(s + Pads(n), '=') == s
  {
    if n == 0 {
      assert s + Pads(0) == s;
    } else {
      assert (s + Pads(n))[..|s + Pads(n)| - 1] == s + Pads(n - 1);
      RStripPads(s, n - 1);
    }
  }

  lemma EncodeIsGroups(raw: seq<Byte>)
    ensures Encode(raw) == Groups(raw)
  {
    GroupsShape(raw);
    var g := Groups(raw);
    if g != "" {
      assert IsUrlAlphabet(g[|g| - 1]);
    }
    RStripPads(g, MissingPads(|g|));
  }

  lemma CeilShape(n: nat)
    ensures (4 * n + 2) / 3 % 4 == if n % 3 == 0 then 0 else n % 3 + 1
  {
    var q, r := n / 3, n % 3;
    assert (4 * n + 2) / 3 == 4 * q + (4 * r + 2) / 3;
  }

  /**
   The shape of an encoding: ceil(4n/3) characters, never one more than a
   multiple of four, all from the url-safe alphabet (so no ':' and no '=').
   */
  lemma EncodeShape(raw: seq<Byte>)
    ensures |Encode(raw)| == (4 * |raw| + 2) / 3
    ensures |Encode(raw)| % 4 != 1
    ensures InAlphabet(Encode(raw))
    ensures ':' !in Encode(raw) && '=' !in Encode(raw)
  {
    GroupsShape(raw);
    EncodeIsGroups(raw);
    CeilShape(|raw|);
  }

  /** Decoding restores exactly the padding that encoding stripped. */
  lemma PaddingRestored(raw: seq<Byte>)
    ensures Encode(raw) + Pads(MissingPads(|Encode(raw)|)) == EncodePadded(raw)
  {
    GroupsShape(raw);
    EncodeIsGroups(raw);
  }

  // ---------- round trip ----------

  /** One data character, whatever follows it. */
  lemma ParseData(n: Sextet, rest: string, quad: nat, last: Sextet, pads: nat)
    requires quad < 4
    ensures Parse([CharOf(n)] + rest, quad, last, pads)
         == if quad == 0 then Parse(rest, 1, n, 0)
            else if quad == 1 then Emit(B0(last, n), Parse(rest, 2, n, 0))
            else if quad == 2 then Emit(B1(last, n), Parse(rest, 3, n, 0))
            else Emit(B2(last, n), Parse(rest, 0, 0, 0))
  {
    SextetRoundTrip(n);
    assert ([CharOf(n)] + rest)[1..] == rest;
  }

  /** Four data characters of a fresh group decode to three bytes. */
  lemma ParseQuad(a: Sextet, b: Sextet, c: Sextet, d: Sextet, rest: string)
    ensures Parse(Quad(a, b, c, d) + rest, 0, 0, 0)
         == Emit(B0(a, b), Emit(B1(b, c), Emit(B2(c, d), Parse(rest, 0, 0, 0))))
  {
    var s3 := [CharOf(d)] + rest;
    var s2 := [CharOf(c)] + s3;
    var s1 := [CharOf(b)] + s2;
    assert Quad(a, b, c, d) + rest == [CharOf(a)] + s1;
    ParseData(a, s1, 0, 0, 0);
    ParseData(b, s2, 1, a, 0);
    ParseData(c, s3, 2, b, 0);
    ParseData(d, rest, 3, c, 0);
  }

  lemma ParseTriple(a: Sextet, b: Sextet, c: Sextet)
    ensures Parse(Triple(a, b, c) + "=", 0, 0, 0) == Some([B0(a, b), B1(b, c)])
  {
    var s2 := [CharOf(c)] + "=";
    var s1 := [CharOf(b)] + s2;
    assert Triple(a, b, c) + "=" == [CharOf(a)] + s1;
    ParseData(a, s1, 0, 0, 0);
    ParseData(b, s2, 1, a, 0);
    ParseData(c, "=", 2, b, 0);
    assert Parse("=", 3, c, 0) == Some([]);
    assert [B0(a, b)] + ([B1(b, c)] + []) == [B0(a, b), B1(b, c)];
  }

  lemma ParsePair(a: Sextet, b: Sextet)
    ensures Parse(Pair(a, b) + "==", 0, 0, 0) == Some([B0(a, b)])
  {
    var s1 := [CharOf(b)] + "==";
    assert Pair(a, b) + "==" == [CharOf(a)] + s1;
    ParseData(a, s1, 0, 0, 0);
    ParseData(b, "==", 1, a, 0);
    assert "=="[1..] == "=";
    assert Parse("=", 2, b, 1) == Some([]);
    assert Parse("==", 2, b, 0) == Some([]);
    assert [B0(a, b)] + [] == [B0(a, b)];
  }

  lemma ParseOneByte(x: Byte)
    ensures Parse(EncodePadded([x]), 0, 0, 0) == Some([x])
  {
    BytesOfSextets(x, 0, 0);
    ParsePair(S0(x), S1(x, 0));
  }

  lemma ParseTwoBytes(x: Byte, y: Byte)
    ensures Parse(EncodePadded([x, y]), 0, 0, 0) == Some([x, y])
  {
    BytesOfSextets(x, y, 0);
    ParseTriple(S0(x), S1(x, y), S2(y, 0));
  }

  lemma ParseThreeBytes(x: Byte, y: Byte, z: Byte, rest: seq<Byte>)
    requires Parse(EncodePadded(rest), 0, 0, 0) == Some(rest)
    ensures Parse(EncodePadded([x, y, z] + rest), 0, 0, 0) == Some([x, y, z] + rest)
  {
    BytesOfSextets(x, y, z);
    ParseQuad(S0(x), S1(x, y), S2(y, z), S3(z), EncodePadded(rest));
    assert ([x, y, z] + rest)[3..] == rest;
    assert [x] + ([y] + ([z] + rest)) == [x, y, z] + rest;
  }

  lemma {:induction false} ParseEncodePadded(raw: seq<Byte>)
    ensures Parse(EncodePadded(raw), 0, 0, 0) == Some(raw)
  {
    if |raw| >= 3 {
      ParseEncodePadded(raw[3..]);
      ParseThreeBytes(raw[0], raw[1], raw[2], raw[3..]);
      assert raw == [raw[0], raw[1], raw[2]] + raw[3..];
    } else if |raw| == 2 {
      ParseTwoBytes(raw[0], raw[1]);
      assert raw == [raw[0], raw[1]];
    } else if |raw| == 1 {
      ParseOneByte(raw[0]);
      assert raw == [raw[0]];
    }
  }

  /** Every byte string survives encoding and decoding. */
  lemma RoundTrip(raw: seq<Byte>)
    ensures Decode(Encode(raw)) == Some(raw)
  {
    EncodeShape(raw);
    PaddingRestored(raw);
    ParseEncodePadded(raw);
    AlphabetIsAscii(Encode(raw));
  }

  lemma EncodeInjective(a: seq<Byte>, b: seq<Byte>)
    requires Encode(a) == Encode(b)
    ensures a == b
  {
    RoundTrip(a);
    RoundTrip(b);
  }

  // ---------- which strings decode ----------

  /** The canonical strings: the bits of the last character that no byte uses are zero. */
  predicate ZeroTrailingBits(s: string)
    requires InAlphabet(s)
  {
    |s| > 0 ==>
      var n := (CharRoundTrip(s[|s| - 1]); SextetOf(s[|s| - 1]).value);
      (|s| % 4 == 2 ==> n % 16 == 0) && (|s| % 4 == 3 ==> n % 4 == 0)
  }

  function Sextets(s: string): (r: seq<Sextet>)
    requires InAlphabet(s)
    ensures |r| == |s| && forall i :: 0 <= i < |s| ==> CharOf(r[i]) == s[i]
  {
    if s == "" then []
    else
      CharRoundTrip(s[0]);
      [SextetOf(s[0]).value] + Sextets(s[1..])
  }

  /** What the next lemma says of each string. */
  ghost predicate DecodesAsItShould(s: string)
    requires InAlphabet(s)
  {
    match Decode(s)
    case None => |s| % 4 == 1
    case Some(raw) =>
      |s| % 4 != 1 && |raw| == |s| * 3 / 4 && (Encode(raw) == s <==> ZeroTrailingBits(s))
  }

  /**
   A string over the url-safe alphabet decodes exactly when its length is not
   one more than a multiple of four, and what it decodes to encodes back to it
   exactly when its unused trailing bits are zero.
   */
  lemma {:induction false} DecodesExactly(s: string)
    requires InAlphabet(s)
    ensures DecodesAsItShould(s)
  {
    if |s| >= 4 {
      DecodesExactly(s[4..]);
      DecodesStep(s);
    } else if |s| == 3 {
      DecodeTriple(s);
    } else if |s| == 2 {
      DecodePair(s);
    } else if |s| == 1 {
      DecodeOne(s);
    } else {
      assert s + Pads(0) == "";
      EncodeIsGroups([]);
    }
  }

  lemma DecodesStep(s: string)
    requires InAlphabet(s) && |s| >= 4 && DecodesAsItShould(s[4..])
    ensures DecodesAsItShould(s)
  {
    DecodeQuad(s);
    LengthStep(|s|);
    match Decode(s)
    case None =>
    case Some(raw) =>
      EncodeStep(s, raw, Decode(s[4..]).value);
  }

  lemma LengthStep(n: nat)
    requires n >= 4
    ensures (n - 4) % 4 == n % 4 && n * 3 / 4 == 3 + (n - 4) * 3 / 4
  {
  }

  lemma ZeroTrailingStep(s: string)
    requires InAlphabet(s) && |s| >= 4
    ensures ZeroTrailingBits(s) <==> ZeroTrailingBits(s[4..])
  {
    LengthStep(|s|);
    assert |s| > 4 ==> s[4..][|s| - 5] == s[|s| - 1];
  }

  lemma EncodeStep(s: string, raw: seq<Byte>, tail: seq<Byte>)
    requires InAlphabet(s) && |s| >= 4 && Groups(raw) == s[..4] + Groups(tail)
    requires Encode(tail) == s[4..] <==> ZeroTrailingBits(s[4..])
    ensures Encode(raw) == s <==> ZeroTrailingBits(s)
  {
    ZeroTrailingStep(s);
    EncodeIsGroups(raw);
    EncodeIsGroups(tail);
    SamePrefix(s, Groups(raw), Groups(tail));
  }

  lemma SamePrefix(s: string, t: string, tail: string)
    requires |s| >= 4 && t == s[..4] + tail
    ensures t == s <==> tail == s[4..]
  {
    assert s == s[..4] + s[4..] && t[4..] == tail;
  }

  lemma DecodeQuad(s: string)
    requires InAlphabet(s) && |s| >= 4
    ensures Decode(s).Some? <==> Decode(s[4..]).Some?
    ensures Decode(s).Some? ==> Groups(Decode(s).value) == s[..4] + Groups(Decode(s[4..]).value)
    ensures Decode(s).Some? ==> |Decode(s).value| == 3 + |Decode(s[4..]).value|
  {
    var n, rest := Sextets(s[..4]), s[4..];
    AlphabetIsAscii(s);
    AlphabetIsAscii(rest);
    assert s[..4] == Quad(n[0], n[1], n[2], n[3]);
    AppendPads(s[..4], rest);
    assert s[..4] + rest == s;
    ParseQuad(n[0], n[1], n[2], n[3], rest + Pads(MissingPads(|rest|)));
    SextetsOfBytes(n[0], n[1], n[2], n[3]);
    if Decode(rest).Some? {
      var b0, b1, b2 := B0(n[0], n[1]), B1(n[1], n[2]), B2(n[2], n[3]);
      var all := [b0] + ([b1] + ([b2] + Decode(rest).value));
      assert Decode(s) == Some(all) && all[3..] == Decode(rest).value;
    }
  }

  /** Two decoded bytes encode back to their three characters exactly when the last one's spare bits are zero. */
  lemma TripleBack(a: Sextet, b: Sextet, c: Sextet)
    ensures Groups([B0(a, b), B1(b, c)]) == Triple(a, b, c) <==> c % 4 == 0
  {
    var x, y := B0(a, b), B1(b, c);
    SextetsOfBytes(a, b, c, 0);
    SextetRoundTrip(c);
    SextetRoundTrip(S2(y, 0));
    assert Groups([x, y]) == Triple(a, b, S2(y, 0));
    assert Triple(a, b, c)[2] == CharOf(c) && Triple(a, b, S2(y, 0))[2] == CharOf(S2(y, 0));
  }

  lemma TripleDecodes(s: string, a: Sextet, b: Sextet, c: Sextet)
    requires s == Triple(a, b, c)
    ensures Decode(s) == Some([B0(a, b), B1(b, c)])
  {
    QuadInAlphabet(a, b, c, 0);
    AlphabetIsAscii(s);
    assert Pads(1) == "=";
    ParseTriple(a, b, c);
  }

  lemma DecodeTriple(s: string)
    requires InAlphabet(s) && |s| == 3
    ensures Decode(s).Some? && |Decode(s).value| == 2
    ensures Encode(Decode(s).value) == s <==> ZeroTrailingBits(s)
  {
    var n := Sextets(s);
    assert s == Triple(n[0], n[1], n[2]);
    TripleDecodes(s, n[0], n[1], n[2]);
    EncodeIsGroups(Decode(s).value);
    TripleBack(n[0], n[1], n[2]);
    SextetRoundTrip(n[2]);
  }

  lemma DecodePair(s: string)
    requires InAlphabet(s) && |s| == 2
    ensures Decode(s).Some? && |Decode(s).value| == 1
    ensures Encode(Decode(s).value) == s <==> ZeroTrailingBits(s)
  {
    var n := Sextets(s);
    AlphabetIsAscii(s);
    assert s == Pair(n[0], n[1]) && Pads(2) == "==";
    ParsePair(n[0], n[1]);
    SextetsOfBytes(n[0], n[1], 0, 0);
    EncodeIsGroups([B0(n[0], n[1])]);
    SextetRoundTrip(n[1]);
    SextetRoundTrip(S1(B0(n[0], n[1]), 0));
  }

  lemma DecodeOne(s: string)
    requires InAlphabet(s) && |s| == 1
    ensures Decode(s) == None
  {
    var n := Sextets(s);
    assert s + Pads(3) == [CharOf(n[0])] + "===";
    ParseData(n[0], "===", 0, 0, 0);
    assert "==="[1..] == "==" && "=="[1..] == "=";
    assert Parse("=", 1, n[0], 0) == None;
    assert Parse("==", 1, n[0], 0) == None;
    assert Parse("===", 1, n[0], 0) == None;
  }

  /**
   Over all strings: what a string decodes to encodes back to it exactly when it
   is over the alphabet, of a possible length, and its unused trailing bits are zero.
   */
  lemma EncodesBackExactly(s: string)
    ensures (Decode(s).Some? && Encode(Decode(s).value) == s) <==> InAlphabet(s) && |s| % 4 != 1 && ZeroTrailingBits(s)
  {
    if Decode(s).Some? && Encode(Decode(s).value) == s {
      EncodeShape(Decode(s).value);
    }
    if InAlphabet(s) {
      DecodesExactly(s);
    }
  }

  // ---------- lenient decoding ----------

  predicate IsData(c: char) {
    SextetOf(c).Some?
  }

  function Data(t: string): string {
    if t == "" then "" else if IsData(t[0]) then [t[0]] + Data(t[1..]) else Data(t[1..])
  }

  /** The characters that decoding looks at. */
  function Kept(t: string): string {
    if t == "" then "" else if IsData(t[0]) || t[0] == '=' then [t[0]] + Kept(t[1..]) else Kept(t[1..])
  }

  lemma {:induction false} OthersIgnored(t: string, quad: nat, last: Sextet, pads: nat)
    requires quad < 4
    ensures Parse(t, quad, last, pads) == Parse(Kept(t), quad, last, pads)
  {
    if t != "" {
      var rest := t[1..];
      forall q: nat, l: Sextet, p: nat | q < 4 ensures Parse(rest, q, l, p) == Parse(Kept(rest), q, l, p) {
        OthersIgnored(rest, q, l, p);
      }
      if IsData(t[0]) || t[0] == '=' {
        assert Kept(t)[0] == t[0] && Kept(t)[1..] == Kept(rest);
      }
    }
  }

  /** Padding characters since the last data character, where `pads` came before the string. */
  function Trail(t: string, pads: nat): nat {
    if t == "" then pads
    else if IsData(t[0]) then Trail(t[1..], 0)
    else if t[0] == '=' then Trail(t[1..], pads + 1)
    else Trail(t[1..], pads)
  }

  /** The padding character at i completes a group that was begun, so decoding stops there. */
  predicate Closes(t: string, quad: nat, pads: nat, i: nat) {
    i < |t| && t[i] == '=' &&
    var q := (quad + |Data(t[..i])|) % 4;
    q >= 2 && q + Trail(t[..i], pads) + 1 >= 4
  }

  ghost predicate Parses(t: string, quad: nat, pads: nat) {
    (exists i: nat :: Closes(t, quad, pads, i)) || (quad + |Data(t)|) % 4 == 0
  }

  lemma {:induction false} TrailForgets(t: string, p: nat, q: nat)
    requires Data(t) != ""
    ensures Trail(t, p) == Trail(t, q)
  {
    if !IsData(t[0]) {
      if t[0] == '=' {
        TrailForgets(t[1..], p + 1, q + 1);
      } else {
        TrailForgets(t[1..], p, q);
      }
    }
  }

  function QuadAfter(c: char, quad: nat): nat {
    if IsData(c) then (quad + 1) % 4 else quad
  }

  function PadsAfter(c: char, quad: nat, pads: nat): nat {
    if IsData(c) then 0 else if c == '=' && quad >= 2 then pads + 1 else pads
  }

  lemma ClosesShift(t: string, quad: nat, pads: nat, i: nat)
    requires t != "" && quad < 4
    ensures Closes(t, quad, pads, i + 1) <==> Closes(t[1..], QuadAfter(t[0], quad), PadsAfter(t[0], quad, pads), i)
  {
    if i < |t| - 1 {
      var u, v := t[..i + 1], t[1..][..i];
      assert u[0] == t[0] && u[1..] == v && t[i + 1] == t[1..][i];
      GroupShift(t[0], u, v, quad);
      if t[0] == '=' && quad < 2 && Data(v) != "" {
        TrailForgets(v, pads + 1, pads);
      }
    }
  }

  lemma GroupShift(c: char, u: string, v: string, quad: nat)
    requires u != "" && u[0] == c && u[1..] == v && quad < 4
    ensures (quad + |Data(u)|) % 4 == (QuadAfter(c, quad) + |Data(v)|) % 4
  {
  }

  lemma ParsesShift(t: string, quad: nat, pads: nat)
    requires t != "" && quad < 4 && !Closes(t, quad, pads, 0)
    ensures Parses(t, quad, pads) <==> Parses(t[1..], QuadAfter(t[0], quad), PadsAfter(t[0], quad, pads))
  {
    var q, p := QuadAfter(t[0], quad), PadsAfter(t[0], quad, pads);
    if i: nat :| Closes(t, quad, pads, i) {
      ClosesShift(t, quad, pads, i - 1);
      assert Closes(t[1..], q, p, i - 1);
    }
    if i: nat :| Closes(t[1..], q, p, i) {
      ClosesShift(t, quad, pads, i);
      assert Closes(t, quad, pads, i + 1);
    }
  }

  lemma {:induction false} ParsesExactly(t: string, quad: nat, last: Sextet, pads: nat)
    requires quad < 4
    ensures Parse(t, quad, last, pads).Some? <==> Parses(t, quad, pads)
  {
    if t != "" {
      assert t[..0] == "";
      forall q: nat, l: Sextet, p: nat | q < 4 ensures Parse(t[1..], q, l, p).Some? <==> Parses(t[1..], q, p) {
        ParsesExactly(t[1..], q, l, p);
      }
      if Closes(t, quad, pads, 0) {
        assert Parses(t, quad, pads);
      } else {
        ParsesShift(t, quad, pads);
      }
    }
  }

  /**
   An ASCII string decodes exactly when, with the padding computed from its
   length, some padding character completes a begun group, or its data
   characters make up whole groups.  All other characters count for nothing but
   the length.
   */
  lemma LenientlyDecodes(s: string)
    ensures Decode(s).Some? <==> IsAscii(s) && Parses(s + Pads(MissingPads(|s|)), 0, 0)
    ensures IsAscii(s) ==> Decode(s) == Parse(Kept(s + Pads(MissingPads(|s|))), 0, 0, 0)
  {
    var t := s + Pads(MissingPads(|s|));
    ParsesExactly(t, 0, 0, 0);
    OthersIgnored(t, 0, 0, 0);
  }

  lemma {:induction false} DataAppend(a: string, b: string)
    ensures Data(a + b) == Data(a) + Data(b)
  {
    if a == "" {
      assert a + b == b;
    } else {
      assert (a + b)[1..] == a[1..] + b;
      DataAppend(a[1..], b);
    }
  }

  lemma {:induction false} TrailAppend(a: string, b: string, pads: nat)
    ensures Trail(a + b, pads) == Trail(b, Trail(a, pads))
  {
    if a == "" {
      assert a + b == b;
    } else {
      assert (a + b)[1..] == a[1..] + b;
      TrailAppend(a[1..], b, if IsData(a[0]) then 0 else if a[0] == '=' then pads + 1 else pads);
    }
  }

  lemma {:induction false} PadsAreNoData(n: nat, pads: nat)
    ensures Data(Pads(n)) == "" && Trail(Pads(n), pads) == pads + n
  {
    if n > 0 {
      assert Pads(n)[1..] == Pads(n - 1);
      PadsAreNoData(n - 1, pads + 1);
    }
  }

  lemma {:induction false} NoPadsNoTrail(s: string)
    requires '=' !in s
    ensures Trail(s, 0) == 0
  {
    if s != "" {
      NoPadsNoTrail(s[1..]);
    }
  }

  lemma AtPad(s: string, n: nat, j: nat)
    requires '=' !in s && j < n
    ensures Closes(s + Pads(n), 0, 0, |s| + j) <==> |Data(s)| % 4 >= 2 && |Data(s)| % 4 + j + 1 >= 4
  {
    assert (s + Pads(n))[..|s| + j] == s + Pads(j);
    DataAppend(s, Pads(j));
    TrailAppend(s, Pads(j), 0);
    NoPadsNoTrail(s);
    PadsAreNoData(j, 0);
  }

  /** The groups that the data characters leave unfinished are finished by the padding. */
  predicate Finished(data: nat, pads: nat) {
    data % 4 == 0 || (data % 4 == 2 && pads >= 2) || (data % 4 == 3 && pads >= 1)
  }

  lemma PaddedData(s: string, n: nat)
    ensures Data(s + Pads(n)) == Data(s)
  {
    DataAppend(s, Pads(n));
    PadsAreNoData(n, 0);
    assert Data(s) + "" == Data(s);
  }

  lemma ClosedIsFinished(s: string, n: nat, i: nat)
    requires '=' !in s && Closes(s + Pads(n), 0, 0, i)
    ensures Finished(|Data(s)|, n)
  {
    assert i >= |s|;
    AtPad(s, n, i - |s|);
  }

  lemma FinishedIsClosed(s: string, n: nat)
    requires '=' !in s && Finished(|Data(s)|, n) && |Data(s)| % 4 != 0
    ensures exists i: nat :: Closes(s + Pads(n), 0, 0, i)
  {
    var j := 3 - |Data(s)| % 4;
    AtPad(s, n, j);
    assert Closes(s + Pads(n), 0, 0, |s| + j);
  }

  lemma ParsesUnpadded(s: string, n: nat)
    requires '=' !in s
    ensures Parses(s + Pads(n), 0, 0) <==> Finished(|Data(s)|, n)
  {
    PaddedData(s, n);
    if i: nat :| Closes(s + Pads(n), 0, 0, i) {
      ClosedIsFinished(s, n, i);
    }
    if Finished(|Data(s)|, n) && |Data(s)| % 4 != 0 {
      FinishedIsClosed(s, n);
    }
  }

  lemma {:induction false} PadsAddNothing(n: nat, quad: nat, last: Sextet, pads: nat)
    requires quad < 4 && Parse(Pads(n), quad, last, pads).Some?
    ensures Parse(Pads(n), quad, last, pads).value == []
  {
    if n > 0 {
      assert Pads(n)[1..] == Pads(n - 1);
      if !(quad >= 2 && quad + pads + 1 >= 4) {
        PadsAddNothing(n - 1, quad, last, if quad >= 2 then pads + 1 else pads);
      }
    }
  }

  /** How much padding completes a string has no part in what it decodes to. */
  lemma {:induction false} PaddingCarriesNothing(s: string, m: nat, n: nat, quad: nat, last: Sextet, pads: nat)
    requires quad < 4 && '=' !in s
    requires Parse(s + Pads(m), quad, last, pads).Some? && Parse(s + Pads(n), quad, last, pads).Some?
    ensures Parse(s + Pads(m), quad, last, pads) == Parse(s + Pads(n), quad, last, pads)
  {
    if s == "" {
      assert s + Pads(m) == Pads(m) && s + Pads(n) == Pads(n);
      PadsAddNothing(m, quad, last, pads);
      PadsAddNothing(n, quad, last, pads);
    } else {
      assert (s + Pads(m))[1..] == s[1..] + Pads(m) && (s + Pads(n))[1..] == s[1..] + Pads(n);
      match SextetOf(s[0])
      case None =>
        PaddingCarriesNothing(s[1..], m, n, quad, last, pads);
      case Some(d) =>
        PaddingCarriesNothing(s[1..], m, n, (quad + 1) % 4, if quad == 3 then 0 else d, 0);
    }
  }

  lemma {:induction false} KeptPads(n: nat)
    ensures Kept(Pads(n)) == Pads(n)
  {
    if n > 0 {
      assert Pads(n)[1..] == Pads(n - 1);
      KeptPads(n - 1);
      assert ['='] + Pads(n - 1) == Pads(n);
    }
  }

  lemma {:induction false} KeptUnpadded(s: string, n: nat)
    requires '=' !in s
    ensures Kept(s + Pads(n)) == Data(s) + Pads(n)
  {
    if s == "" {
      assert s + Pads(n) == Pads(n) && Data(s) + Pads(n) == Pads(n);
      KeptPads(n);
    } else {
      var rest := s[1..];
      assert (s + Pads(n))[1..] == rest + Pads(n);
      KeptUnpadded(rest, n);
      assert [s[0]] + (Data(rest) + Pads(n)) == ([s[0]] + Data(rest)) + Pads(n);
    }
  }

  lemma {:induction false} DataIsData(s: string)
    ensures Data(Data(s)) == Data(s) && IsAscii(Data(s)) && '=' !in Data(s)
  {
    if s != "" {
      DataIsData(s[1..]);
      if IsData(s[0]) {
        assert Data(s)[1..] == Data(s[1..]);
      }
    }
  }

  lemma UnpaddedIsItsData(s: string)
    requires '=' !in s && IsAscii(s)
    ensures Decode(s) == Parse(Data(s) + Pads(MissingPads(|s|)), 0, 0, 0)
  {
    OthersIgnored(s + Pads(MissingPads(|s|)), 0, 0, 0);
    KeptUnpadded(s, MissingPads(|s|));
  }

  lemma UnpaddedParses(s: string)
    requires '=' !in s
    ensures Decode(s).Some? <==> IsAscii(s) && Finished(|Data(s)|, MissingPads(|s|))
  {
    ParsesExactly(s + Pads(MissingPads(|s|)), 0, 0, 0);
    ParsesUnpadded(s, MissingPads(|s|));
  }

  lemma FinishedAlone(data: nat, pads: nat)
    requires Finished(data, pads)
    ensures Finished(data, MissingPads(data))
  {
  }

  /**
   A string without padding characters decodes exactly when it is ASCII and the
   padding computed from its whole length finishes the groups of its data
   characters, and then to what its data characters alone decode to.
   */
  lemma UnpaddedDecodes(s: string)
    requires '=' !in s
    ensures Decode(s).Some? <==> IsAscii(s) && Finished(|Data(s)|, MissingPads(|s|))
    ensures Decode(s).Some? ==> Decode(s) == Decode(Data(s))
  {
    UnpaddedParses(s);
    if Decode(s).Some? {
      var d := Data(s);
      DataIsData(s);
      FinishedAlone(|d|, MissingPads(|s|));
      UnpaddedParses(d);
      UnpaddedIsItsData(s);
      UnpaddedIsItsData(d);
      PaddingCarriesNothing(d, MissingPads(|s|), MissingPads(|d|), 0, 0, 0);
    }
  }

  lemma {:induction false} AlphabetIsData(s: string)
    requires InAlphabet(s)
    ensures Data(s) == s && '=' !in s
  {
    if s != "" {
      CharRoundTrip(s[0]);
      AlphabetIsData(s[1..]);
    }
  }

  lemma WithStray(s: string, c: char)
    requires InAlphabet(s) && !IsData(c) && c != '=' && c as int < 128
    ensures Data(s + [c]) == s && '=' !in s + [c] && IsAscii(s + [c])
  {
    AlphabetIsData(s);
    AlphabetIsAscii(s);
    DataAppend(s, [c]);
    assert [c][1..] == "" && Data([c]) == "";
    assert s + "" == s;
  }

  lemma StrayLength(n: nat)
    ensures var k := (4 * n + 2) / 3; Finished(k, MissingPads(k + 1)) <==> n % 3 == 0
  {
    CeilShape(n);
    var k := (4 * n + 2) / 3;
    assert k % 4 == 3 ==> (k + 1) % 4 == 0;
    assert k % 4 == 2 ==> (k + 1) % 4 == 3;
  }

  /**
   A stray character is skipped, but its length is not: behind an encoding it is
   harmless exactly when the encoding is made of whole groups.
   */
  lemma StrayCharacter(raw: seq<Byte>, c: char)
    requires !IsData(c) && c != '=' && c as int < 128
    ensures Decode(Encode(raw) + [c]) == if |raw| % 3 == 0 then Some(raw) else None
  {
    var s := Encode(raw);
    EncodeShape(raw);
    StrayLength(|raw|);
    WithStray(s, c);
    UnpaddedDecodes(s + [c]);
    RoundTrip(raw);
  }
}
