/** Compact JWS with ES256 only (jws.rs), and the public keys mandates name (jwk.rs). */
module Jws {
  import opened Results
  import opened Json
  import opened Codec
  import opened SdJwt

  datatype Decoded = Decoded(header: Object, payload: Object)

  const ES256: string := "ES256"

  function JsonObject(c: Codec, text: string): Result<Object> {
    match c.decode(text)
    case Some(Obj(m)) => Ok(m)
    case _ => Err(Malformed)
  }

  function Decode(c: Codec, compact: string): Result<Decoded> {
    var parts := SplitOn(compact, '.');
    var _ :- Check(|parts| == 3, Malformed);
    var header :- JsonObject(c, parts[0]);
    var payload :- JsonObject(c, parts[1]);
    Ok(Decoded(header, payload))
  }

  function SignatureText(compact: string): string {
    compact[PastLast(compact, '.')..]
  }

  function Verify(c: Codec, compact: string, key: PublicJwk): Result<Decoded> {
    var decoded :- Decode(c, compact);
    var _ :- Check(AsStr(Get(decoded.header, "alg")) == Some(ES256), UnsupportedAlgorithm);
    var _ :- Check(!Has(decoded.header, "crit"), Malformed);
    match c.checkSignature(key, SigningInput(compact), SignatureText(compact))
    case NotBase64 => Err(Malformed)
    case Rejected => Err(BadSignature)
    case Verified => Ok(decoded)
  }

  function InputText(c: Codec, header: Object, payload: Object): string {
    c.encode(Obj(header)) + "." + c.encode(Obj(payload))
  }

  function Sign(c: Codec, header: Object, payload: Object, key: SigningKey): string {
    InputText(c, header, payload) + "." + c.sign(key, InputText(c, header, payload))
  }

  /** `PublicJwk::from_value`: a P-256 public key that carries no private part. */
  function ReadJwk(c: Codec, v: Value): Result<PublicJwk> {
    var _ :- Check(v.Obj?, InvalidKey);
    var m := v.fields;
    var _ :- Check(AsStr(Get(m, "kty")) == Some("EC"), InvalidKey);
    var _ :- Check(AsStr(Get(m, "crv")) == Some("P-256"), InvalidKey);
    var _ :- Check(!Has(m, "d"), InvalidKey);
    var x :- ReadCoordinate(c, Get(m, "x"));
    var y :- ReadCoordinate(c, Get(m, "y"));
    var _ :- Check(c.onCurve(PublicJwk(x, y)), InvalidKey);
    Ok(PublicJwk(x, y))
  }

  function ReadCoordinate(c: Codec, v: Option<Value>): Result<seq<nat>> {
    var _ :- Check(AsStr(v).Some?, InvalidKey);
    match c.bytes(AsStr(v).value)
    case None => Err(Malformed)
    case Some(bytes) => if |bytes| == 32 then Ok(bytes) else Err(InvalidKey)
  }

  /** `PublicJwk::to_value`. */
  function JwkOf(c: Codec, key: PublicJwk): Value {
    Obj([Field("kty", Str("EC")), Field("crv", Str("P-256")), Field("x", Str(c.base64(key.x))), Field("y", Str(c.base64(key.y)))])
  }

  // ----- What a JWK says -----

  /** Base64url text of exactly these 32 bytes. */
  predicate Spells(c: Codec, v: Option<Value>, bytes: seq<nat>) {
    |bytes| == 32 && match v case Some(Str(text)) => c.bytes(text) == Some(bytes) case _ => false
  }

  /** `v` is a P-256 public key in JWK form, and the key is `key`. */
  predicate IsJwk(c: Codec, v: Value, key: PublicJwk) {
    && v.Obj?
    && Get(v.fields, "kty") == Some(Str("EC")) && Get(v.fields, "crv") == Some(Str("P-256")) && Get(v.fields, "d") == None
    && Spells(c, Get(v.fields, "x"), key.x) && Spells(c, Get(v.fields, "y"), key.y) && c.onCurve(key)
  }

  /** A key is read exactly from a JWK that says it: the type and curve by name, no private part,
      and either coordinate under its own name. */
  lemma ReadJwkExactly(c: Codec, v: Value, key: PublicJwk)
    ensures ReadJwk(c, v) == Ok(key) <==> IsJwk(c, v, key)
  {
    if v.Obj? {
      CoordinateExactly(c, Get(v.fields, "x"), key.x);
      CoordinateExactly(c, Get(v.fields, "y"), key.y);
      hide ReadCoordinate, Spells, Get;
    }
  }

  lemma CoordinateExactly(c: Codec, v: Option<Value>, bytes: seq<nat>)
    ensures ReadCoordinate(c, v) == Ok(bytes) <==> Spells(c, v, bytes)
  {
  }

  /** What was written is read back. */
  lemma JwkReadsBack(c: Codec, key: PublicJwk)
    requires |key.x| == |key.y| == 32 && c.onCurve(key)
    requires c.bytes(c.base64(key.x)) == Some(key.x) && c.bytes(c.base64(key.y)) == Some(key.y)
    ensures ReadJwk(c, JwkOf(c, key)) == Ok(key)
  {
    JwkFields(c, key);
    hide Get, JwkOf;
    ReadJwkExactly(c, JwkOf(c, key), key);
  }

  lemma JwkFields(c: Codec, key: PublicJwk)
    ensures JwkOf(c, key).Obj?
    ensures var m := JwkOf(c, key).fields;
            && Distinct(m) && Get(m, "kty") == Some(Str("EC")) && Get(m, "crv") == Some(Str("P-256")) && Get(m, "d") == None
            && Get(m, "x") == Some(Str(c.base64(key.x))) && Get(m, "y") == Some(Str(c.base64(key.y)))
  {
    var m := JwkOf(c, key).fields;
    assert |"kty"| == |"crv"| == 3 && "kty"[0] != "crv"[0] && "x"[0] != "y"[0] && "d"[0] != "x"[0] && "d"[0] != "y"[0];
    hide Get;
    GetAt(m, 0);
    GetAt(m, 1);
    GetAt(m, 2);
    GetAt(m, 3);
    GetAbsent(m, "d");
  }

  // ----- A signed JWT reads back -----

  lemma SplitHead(a: string, rest: string)
    requires '.' !in a
    ensures SplitOn(a + "." + rest, '.') == [a] + SplitOn(rest, '.')
  {
    var whole := a + "." + rest;
    FirstOfAt(whole, '.', |a|);
    assert whole[..|a|] == a && whole[|a| + 1..] == rest;
  }

  lemma SplitThree(a: string, b: string, s: string)
    requires '.' !in a && '.' !in b && '.' !in s
    ensures SplitOn(a + "." + b + "." + s, '.') == [a, b, s]
  {
    var tail, whole := b + "." + s, a + "." + b + "." + s;
    assert whole == a + "." + tail;
    assert SplitOn(whole, '.') == [a] + SplitOn(tail, '.') by { SplitHead(a, tail); }
    assert SplitOn(tail, '.') == [b] + SplitOn(s, '.') by { SplitHead(b, s); }
    assert SplitOn(s, '.') == [s] by { FirstOfNone(s, '.'); }
  }

  lemma SplitParts(compact: string, input: string, s: string)
    requires compact == input + "." + s && '.' !in s
    ensures SigningInput(compact) == input && SignatureText(compact) == s
  {
    PastLastAt(input, '.', s);
    assert compact[..|input|] == input && compact[|input| + 1..] == s;
  }

  /** A hop is identified by what is signed of it, not by the signature; a text without a dot by
      all of it. */
  lemma HopIdExactly(c: Codec, input: string, signature: string)
    requires '.' !in signature
    ensures HopId(c, input + "." + signature) == c.digest(input) && HopId(c, signature) == c.digest(signature)
  {
    SplitParts(input + "." + signature, input, signature);
  }

  predicate Readable(m: Object) {
    WellFormed(Obj(m)) && Fits(Obj(m), READABLE_DEPTH)
  }

  lemma TokensJoin(h: string, p: string, s: string)
    requires IsToken(h) && IsToken(p) && IsToken(s)
    ensures var jwt := h + "." + p + "." + s;
            && jwt != "" && '~' !in jwt && SplitOn(jwt, '.') == [h, p, s]
            && SigningInput(jwt) == h + "." + p && SignatureText(jwt) == s
  {
    SplitThree(h, p, s);
    TokenHas(s, '.');
    SplitParts(h + "." + p + "." + s, h + "." + p, s);
    TokenHas(h, '~');
    TokenHas(p, '~');
    TokenHas(s, '~');
  }

  lemma SignedText(c: Codec, header: Object, payload: Object, key: SigningKey)
    requires JsonSound(c) && SignSound(c)
    ensures var jwt := Sign(c, header, payload, key);
            && jwt != "" && '~' !in jwt && SigningInput(jwt) == InputText(c, header, payload)
            && SignatureText(jwt) == c.sign(key, InputText(c, header, payload))
            && SplitOn(jwt, '.') == [c.encode(Obj(header)), c.encode(Obj(payload)), SignatureText(jwt)]
  {
    var h, p := c.encode(Obj(header)), c.encode(Obj(payload));
    var s := c.sign(key, h + "." + p);
    assert IsToken(h) && IsToken(p) && IsToken(s);
    hide SplitOn, SigningInput, SignatureText, IsToken;
    TokensJoin(h, p, s);
  }

  /** What is signed with ES256 verifies under the signer's key and gives the contents back. */
  lemma SignedVerifies(c: Codec, header: Object, payload: Object, key: SigningKey)
    requires JsonSound(c) && SignSound(c) && Readable(header) && Readable(payload)
    requires Get(header, "alg") == Some(Str(ES256)) && !Has(header, "crit")
    ensures Decode(c, Sign(c, header, payload, key)) == Ok(Decoded(header, payload))
    ensures Verify(c, Sign(c, header, payload, key), key.public) == Ok(Decoded(header, payload))
  {
    SignedText(c, header, payload, key);
    assert c.decode(c.encode(Obj(header))) == Some(Obj(header));
    assert c.decode(c.encode(Obj(payload))) == Some(Obj(payload));
  }

  /** The signing input fixes what a JWT says. */
  lemma SameInputSameContents(c: Codec, a: string, b: string)
    requires Decode(c, a).Ok? && Decode(c, b).Ok? && SigningInput(a) == SigningInput(b)
    ensures Decode(c, a) == Decode(c, b)
  {
    ThreeParts(a);
    ThreeParts(b);
    CutAt('.', SplitOn(a, '.')[0], SplitOn(a, '.')[1], SplitOn(b, '.')[0], SplitOn(b, '.')[1]);
  }

  /** The text after the first dot, when there is one. */
  lemma SplitRest(s: string) returns (rest: string)
    requires |SplitOn(s, '.')| > 1
    ensures SplitOn(s, '.')[1..] == SplitOn(rest, '.')
    ensures s == SplitOn(s, '.')[0] + "." + rest && '.' !in SplitOn(s, '.')[0]
  {
    var i := FirstOf(s, '.');
    rest := s[i + 1..];
    assert s == s[..i] + "." + rest;
  }

  lemma LastTwoParts(s: string)
    requires |SplitOn(s, '.')| == 2
    ensures s == SplitOn(s, '.')[0] + "." + SplitOn(s, '.')[1] && '.' !in SplitOn(s, '.')[1]
  {
    var last := SplitRest(s);
    assert FirstOf(last, '.') == |last|;
  }

  lemma CutAtLastDot(a: string, b: string, last: string)
    requires '.' !in last
    ensures SigningInput(a + "." + (b + "." + last)) == a + "." + b
  {
    var s := a + "." + (b + "." + last);
    assert s == (a + "." + b) + "." + last;
    SplitParts(s, a + "." + b, last);
  }

  lemma ThreeParts(s: string)
    requires |SplitOn(s, '.')| == 3
    ensures SigningInput(s) == SplitOn(s, '.')[0] + "." + SplitOn(s, '.')[1] && '.' !in SplitOn(s, '.')[0]
  {
    hide SplitOn, SigningInput;
    var p := SplitOn(s, '.');
    var rest := SplitRest(s);
    LastTwoParts(rest);
    CutAtLastDot(p[0], p[1..][0], p[1..][1]);
  }
}
