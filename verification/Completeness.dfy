/** What is issued honestly is accepted, for every number of delegations up to the limit. */
module Completeness {
  import opened Results
  import opened Json
  import opened Codec
  import opened Wire
  import opened SdJwt
  import opened Builder
  import opened RoundTrip
  import opened Restoration
  import opened Jws
  import Chain
  import opened ChainTheorems
  import opened Issue

  /** One hop as its signer states it. The first is the open mandate, whose `aud`, `nonce`
      and `iat` are not used. */
  datatype HopSpec = HopSpec(mandate: Object, sd: Disclosable, key: SigningKey, aud: string, nonce: string, iat: int, salts: seq<string>)

  function BuiltBy(c: Codec, spec: HopSpec): Result<(Value, Built)> {
    DelegatePayload(c, spec.mandate, spec.sd, Built([], spec.salts))
  }

  // ----- Payloads and headers read back -----

  lemma BuiltFits(c: Codec, spec: HopSpec)
    requires BuiltBy(c, spec).Ok?
    ensures WellFormed(BuiltBy(c, spec).value.0) && Fits(BuiltBy(c, spec).value.0, 3)
  {
  }

  predicate PlainFields(m: Object) {
    forall f | f in m :: f.key != SD && (f.key == DELEGATE_PAYLOAD || f.value.Int? || f.value.Str?)
  }

  lemma PlainCarries(payload: Object, built: Value)
    requires Distinct(payload) && PlainFields(payload) && Get(payload, DELEGATE_PAYLOAD) == Some(built)
    requires AlgAccepted(payload)
    ensures Carries(payload, built)
  {
  }

  lemma PlainReadable(payload: Object, built: Value)
    requires Distinct(payload) && PlainFields(payload) && Get(payload, DELEGATE_PAYLOAD) == Some(built)
    requires WellFormed(built) && Fits(built, 3)
    requires forall f | f in payload && f.value.Int? :: I64_MIN <= f.value.i <= I64_MAX
    ensures Readable(payload)
  {
    FitsMore(built, 3, READABLE_DEPTH - 1);
    forall f | f in payload ensures WellFormed(f.value) && Fits(f.value, READABLE_DEPTH - 1) {
      var i :| 0 <= i < |payload| && payload[i] == f;
      GetAt(payload, i);
    }
  }

  lemma OpenPayloadFacts(built: Value)
    ensures var p := OpenPayload(built);
            && Distinct(p) && PlainFields(p) && AlgAccepted(p) && Get(p, "delegate_payload") == Some(built)
            && Get(p, "_sd_alg") == Some(Str("sha-256"))
            && (forall f | f in p && f.key != DELEGATE_PAYLOAD :: !f.value.Int?)
  {
    var p := OpenPayload(built);
    GetAt(p, 0);
    GetAt(p, 1);
  }

  lemma HopPayloadDistinct(built: Value, iat: int, aud: string, nonce: string, prevDigest: string)
    ensures Distinct(HopPayload(built, iat, aud, nonce, prevDigest))
  {
    assert |"iat"| == |"aud"| == 3 && |"nonce"| == 5 && |"sd_hash"| == |SD_ALG_KEY| == 7;
    assert "iat"[0] != "aud"[0] && "sd_hash"[0] != SD_ALG_KEY[0];
    assert |DELEGATE_PAYLOAD| == 16;
  }

  lemma HopPayloadPlain(built: Value, iat: int, aud: string, nonce: string, prevDigest: string)
    ensures var p := HopPayload(built, iat, aud, nonce, prevDigest);
            && PlainFields(p) && (forall f | f in p && f.key != DELEGATE_PAYLOAD && f.value.Int? :: f.value.i == iat)
  {
  }

  /** The claims of an issued hop, by key. */
  lemma HopPayloadFacts(built: Value, iat: int, aud: string, nonce: string, prevDigest: string)
    ensures var p := HopPayload(built, iat, aud, nonce, prevDigest);
            && Distinct(p) && PlainFields(p) && Get(p, "delegate_payload") == Some(built)
            && Get(p, "_sd_alg") == Some(Str("sha-256"))
            && (forall f | f in p && f.key != DELEGATE_PAYLOAD && f.value.Int? :: f.value.i == iat)
            && Get(p, "iat") == Some(Int(iat)) && Get(p, "aud") == Some(Str(aud)) && Get(p, "nonce") == Some(Str(nonce))
            && Get(p, "sd_hash") == Some(Str(prevDigest))
            && (forall k | k !in PAYLOAD_KEYS :: Get(p, k) == None)
  {
    var p := HopPayload(built, iat, aud, nonce, prevDigest);
    HopPayloadDistinct(built, iat, aud, nonce, prevDigest);
    HopPayloadPlain(built, iat, aud, nonce, prevDigest);
    hide Get, PlainFields, Distinct;
    assert Get(p, DELEGATE_PAYLOAD) == Some(built) by { GetAt(p, 0); }
    assert Get(p, "iat") == Some(Int(iat)) by { GetAt(p, 1); }
    assert Get(p, "aud") == Some(Str(aud)) by { GetAt(p, 2); }
    assert Get(p, "nonce") == Some(Str(nonce)) by { GetAt(p, 3); }
    assert Get(p, "sd_hash") == Some(Str(prevDigest)) by { GetAt(p, 4); }
    assert Get(p, SD_ALG_KEY) == Some(Str(SD_ALG)) by { GetAt(p, 5); }
    forall k | k !in PAYLOAD_KEYS ensures Get(p, k) == None {
      OtherKeysAbsent(built, iat, aud, nonce, prevDigest, k);
    }
  }

  lemma OtherKeysAbsent(built: Value, iat: int, aud: string, nonce: string, prevDigest: string, key: string)
    requires key !in PAYLOAD_KEYS
    ensures Get(HopPayload(built, iat, aud, nonce, prevDigest), key) == None
  {
    var p := HopPayload(built, iat, aud, nonce, prevDigest);
    assert forall i | 0 <= i < |p| :: p[i].key in PAYLOAD_KEYS;
    GetAbsent(p, key);
  }

  const PAYLOAD_KEYS: set<string> := {DELEGATE_PAYLOAD, "iat", "aud", "nonce", "sd_hash", SD_ALG_KEY}

  lemma HeaderReadable(typ: string, key: SigningKey)
    ensures Distinct(Header(typ, key)) && Readable(Header(typ, key))
  {
  }

  lemma HeaderFacts(typ: string, key: SigningKey)
    ensures var h := Header(typ, key);
            && Readable(h) && Get(h, "alg") == Some(Str("ES256")) && Get(h, "typ") == Some(Str(typ)) && !Has(h, "crit")
            && Get(h, "kid") == match key.kid case Some(kid) => Some(Str(kid)) case None => None
  {
    var h := Header(typ, key);
    HeaderReadable(typ, key);
    hide Get, Readable, Distinct;
    GetAt(h, 0);
    GetAt(h, 1);
    GetAbsent(h, "crit");
    if key.kid.Some? { GetAt(h, 2); } else { GetAbsent(h, "kid"); }
  }

  // ----- One issued segment -----

  predicate GoodSpec(spec: HopSpec) {
    DistinctTexts(spec.salts) && Issuable(spec.mandate) && Sensible(spec.mandate, spec.sd)
  }

  lemma WrittenSeparable(c: Codec, b: Built, salts: seq<string>)
    requires StrictBase64(c) && Salted(c, b, salts)
    ensures Separable(b.disclosures)
  {
    forall d | d in b.disclosures ensures d != "" && '~' !in d {
      var i :| 0 <= i < |b.disclosures| && b.disclosures[i] == d;
      assert WrittenWith(c, d, salts[i]);
      TokenHas(d, '~');
    }
  }

  /** What the verifier reads off a segment signed over `payload`. */
  ghost predicate ReadsBack(c: Codec, spec: HopSpec, text: string, header: Object, payload: Object, m: Object) {
    && IsSegment(text)
    && Decode(c, JwtOf(text)) == Ok(Decoded(header, payload)) && SignedBy(c, JwtOf(text), spec.key.public, header)
    && Distinct(m) && SameFields(m, spec.mandate)
    && Disclosures(Segment(text, JwtOf(text))).Ok?
    && Resolve(c, payload, Disclosures(Segment(text, JwtOf(text))).value) == Ok(Opened(payload, m))
  }

  lemma SegmentReadsBack(c: Codec, spec: HopSpec, typ: string, payload: Object) returns (m: Object)
    requires Sound(c) && GoodSpec(spec) && BuiltBy(c, spec).Ok? && Readable(payload)
    requires Carries(payload, BuiltBy(c, spec).value.0)
    ensures ReadsBack(c, spec, SegmentText(Sign(c, Header(typ, spec.key), payload, spec.key), BuiltBy(c, spec).value.1.disclosures),
                      Header(typ, spec.key), payload, m)
  {
    var header := Header(typ, spec.key);
    var jwt := Sign(c, header, payload, spec.key);
    var b := BuiltBy(c, spec).value.1;
    HeaderFacts(typ, spec.key);
    SignedText(c, header, payload, spec.key);
    SignedVerifies(c, header, payload, spec.key);
    DelegateWrites(c, spec.mandate, spec.sd, spec.salts);
    WrittenSeparable(c, b, spec.salts);
    WrittenSegmentReads(jwt, b.disclosures);
    m := BuilderRoundTrip(c, spec.mandate, spec.sd, spec.salts, payload);
  }

  // ----- A whole issued chain -----

  /** The segments a surface and its holders write, each over the one before. */
  predicate IssuedBy(c: Codec, specs: seq<HopSpec>, segments: seq<string>) {
    && |specs| == |segments| > 0
    && IssueOpen(c, specs[0].mandate, specs[0].sd, specs[0].key, specs[0].salts) == Ok(segments[0])
    && forall i | 1 <= i < |specs| :: IssuedAfter(c, specs[i], segments[i - 1], segments[i])
  }

  predicate IssuedAfter(c: Codec, spec: HopSpec, prev: string, segment: string) {
    Present(c, prev, spec.mandate, spec.sd, spec.key, spec.aud, spec.nonce, spec.iat, spec.salts) == Ok(segment)
  }

  function TypAt(specs: seq<HopSpec>, i: nat): string
    requires i < |specs|
  {
    if i == 0 then Chain.DC_SD_JWT else HopTyp(specs[i].mandate)
  }

  function PayloadAt(c: Codec, specs: seq<HopSpec>, segments: seq<string>, i: nat): Object
    requires i < |specs| == |segments| && BuiltBy(c, specs[i]).Ok?
  {
    var built := BuiltBy(c, specs[i]).value.0;
    if i == 0 then OpenPayload(built) else HopPayload(built, specs[i].iat, specs[i].aud, specs[i].nonce, c.digest(segments[i - 1]))
  }

  predicate TimelySpec(spec: HopSpec) {
    I64_MIN <= spec.iat <= I64_MAX
  }

  lemma PayloadFacts(c: Codec, specs: seq<HopSpec>, segments: seq<string>, i: nat)
    requires i < |specs| == |segments| && BuiltBy(c, specs[i]).Ok? && TimelySpec(specs[i])
    ensures Readable(PayloadAt(c, specs, segments, i))
    ensures Carries(PayloadAt(c, specs, segments, i), BuiltBy(c, specs[i]).value.0)
  {
    var built := BuiltBy(c, specs[i]).value.0;
    var payload := PayloadAt(c, specs, segments, i);
    BuiltFits(c, specs[i]);
    if i == 0 {
      OpenPayloadFacts(built);
    } else {
      HopPayloadFacts(built, specs[i].iat, specs[i].aud, specs[i].nonce, c.digest(segments[i - 1]));
    }
    PlainCarries(payload, built);
    PlainReadable(payload, built);
  }

  lemma IssuedText(c: Codec, specs: seq<HopSpec>, segments: seq<string>, i: nat)
    requires IssuedBy(c, specs, segments) && i < |specs|
    ensures BuiltBy(c, specs[i]).Ok?
    ensures segments[i] == SegmentText(Sign(c, Header(TypAt(specs, i), specs[i].key), PayloadAt(c, specs, segments, i), specs[i].key),
                                       BuiltBy(c, specs[i]).value.1.disclosures)
  {
    if i > 0 { assert IssuedAfter(c, specs[i], segments[i - 1], segments[i]); }
  }

  lemma IssuedReadsBack(c: Codec, specs: seq<HopSpec>, segments: seq<string>, i: nat) returns (m: Object)
    requires Sound(c) && IssuedBy(c, specs, segments) && i < |specs| && GoodSpec(specs[i]) && TimelySpec(specs[i])
    ensures BuiltBy(c, specs[i]).Ok?
    ensures ReadsBack(c, specs[i], segments[i], Header(TypAt(specs, i), specs[i].key), PayloadAt(c, specs, segments, i), m)
  {
    IssuedText(c, specs, segments, i);
    PayloadFacts(c, specs, segments, i);
    m := SegmentReadsBack(c, specs[i], TypAt(specs, i), PayloadAt(c, specs, segments, i));
  }

  function ClaimsOf(payload: Object, m: Object): Object {
    SwapRemove(Opened(payload, m), DELEGATE_PAYLOAD)
  }

  lemma ClaimsGet(payload: Object, m: Object, built: Value)
    requires Carries(payload, built)
    ensures Get(Opened(payload, m), DELEGATE_PAYLOAD) == Some(Arr([Obj(m)]))
    ensures forall k | k != DELEGATE_PAYLOAD && k != SD_ALG_KEY :: Get(ClaimsOf(payload, m), k) == Get(payload, k)
  {
    SwapRemoveEffect(payload, SD_ALG_KEY);
    InsertEffect(SwapRemove(payload, SD_ALG_KEY), DELEGATE_PAYLOAD, Arr([Obj(m)]));
    SwapRemoveEffect(Opened(payload, m), DELEGATE_PAYLOAD);
  }

  /** What the signers must get right for their chain to be accepted. */
  ghost predicate Honest(c: Codec, specs: seq<HopSpec>, rootKey: Chain.RootKey, opts: Chain.VerifyOptions) {
    && 2 <= |specs| <= MAX_HOPS
    && (forall i | 0 <= i < |specs| :: GoodSpec(specs[i]) && TimelySpec(specs[i]) && InTime(specs[i].mandate, opts))
    && rootKey(Header(Chain.DC_SD_JWT, specs[0].key)) == Some(specs[0].key.public)
    && CompleteOpenMandate(specs[0].mandate)
    && (forall i | 1 <= i < |specs| :: HandedOver(c, specs[i - 1], specs[i], specs[0], opts) && (Has(specs[i].mandate, "cnf") <==> i < |specs| - 1))
    && AddressesVerifier(specs[|specs| - 1], opts)
  }

  /** A hop is signed by the key the previous mandate names, keeps its type, and is dated. */
  ghost predicate HandedOver(c: Codec, prev: HopSpec, spec: HopSpec, root: HopSpec, opts: Chain.VerifyOptions) {
    && NamesKey(c, prev.mandate, spec.key.public)
    && Get(spec.mandate, "vct") == Get(root.mandate, "vct")
    && spec.iat - opts.clockSkew <= opts.now
  }

  predicate AddressesVerifier(spec: HopSpec, opts: Chain.VerifyOptions) {
    spec.aud == opts.aud && spec.nonce == opts.nonce && opts.now <= spec.iat + opts.maxClosingAge
  }

  /** The claims of an issued hop after the root. */
  lemma HopClaims(c: Codec, specs: seq<HopSpec>, segments: seq<string>, i: nat, m: Object)
    requires 0 < i < |specs| == |segments| && BuiltBy(c, specs[i]).Ok? && TimelySpec(specs[i])
    ensures var claims := ClaimsOf(PayloadAt(c, specs, segments, i), m);
            && Get(claims, "iat") == Some(Int(specs[i].iat)) && Get(claims, "exp") == None && Get(claims, "nbf") == None
            && Get(claims, "aud") == Some(Str(specs[i].aud)) && Get(claims, "nonce") == Some(Str(specs[i].nonce))
            && Get(claims, "sd_hash") == Some(Str(c.digest(segments[i - 1]))) && Get(claims, "issuer_jwt_hash") == None
  {
    hide BuiltBy, ClaimsOf, Get, HopPayload, OpenPayload, PlainFields, Carries;
    var built := BuiltBy(c, specs[i]).value.0;
    var payload := PayloadAt(c, specs, segments, i);
    PayloadFacts(c, specs, segments, i);
    ClaimsGet(payload, m, built);
    HopPayloadFacts(built, specs[i].iat, specs[i].aud, specs[i].nonce, c.digest(segments[i - 1]));
    HopClaimNames();
  }

  lemma HopClaimNames()
    ensures {"iat", "aud", "nonce", "sd_hash", "exp", "nbf", "issuer_jwt_hash"} !! {DELEGATE_PAYLOAD, SD_ALG_KEY}
    ensures "exp" !in PAYLOAD_KEYS && "nbf" !in PAYLOAD_KEYS && "issuer_jwt_hash" !in PAYLOAD_KEYS
  {
    assert "sd_hash"[0] != SD_ALG_KEY[0];
    assert "exp"[0] != "iat"[0] && "nbf"[0] != "iat"[0] && "exp"[0] != "aud"[0] && "nbf"[0] != "aud"[0];
  }

  lemma RootClaims(c: Codec, specs: seq<HopSpec>, segments: seq<string>, m: Object, opts: Chain.VerifyOptions)
    requires 0 < |specs| == |segments| && BuiltBy(c, specs[0]).Ok? && TimelySpec(specs[0])
    ensures InTime(ClaimsOf(PayloadAt(c, specs, segments, 0), m), opts)
  {
    var built := BuiltBy(c, specs[0]).value.0;
    var payload := PayloadAt(c, specs, segments, 0);
    PayloadFacts(c, specs, segments, 0);
    ClaimsGet(payload, m, built);
    HopClaimNames();
    GetAbsent(payload, "exp");
    GetAbsent(payload, "iat");
    GetAbsent(payload, "nbf");
  }

  lemma SameFieldsSameChecks(m: Object, mandate: Object, opts: Chain.VerifyOptions)
    requires SameFields(m, mandate)
    ensures InTime(m, opts) == InTime(mandate, opts) && CompleteOpenMandate(m) == CompleteOpenMandate(mandate)
    ensures Get(m, "cnf") == Get(mandate, "cnf") && Has(m, "cnf") == Has(mandate, "cnf")
  {
    assert Get(m, "cnf") == Get(mandate, "cnf");
    assert Get(m, "exp") == Get(mandate, "exp") && Get(m, "iat") == Get(mandate, "iat") && Get(m, "nbf") == Get(mandate, "nbf");
    assert Get(m, "vct") == Get(mandate, "vct");
  }

  /** The verified hop a segment reads back as. */
  function HopOf(c: Codec, text: string, kind: Chain.HopKind): Chain.VerifiedHop {
    var nothing := Chain.VerifiedHop("", kind, [], [], []);
    match Decode(c, JwtOf(text))
    case Ok(signed) =>
      (match Chain.ReadHop(c, Segment(text, JwtOf(text)), signed, kind) case Ok(hop) => hop case Err(_) => nothing)
    case Err(_) => nothing
  }

  function HopsOf(c: Codec, segments: seq<string>): (hops: seq<Chain.VerifiedHop>)
    ensures |hops| == |segments|
    ensures forall i | 0 <= i < |hops| :: hops[i] == HopOf(c, segments[i], KindAt(i, |segments|))
  {
    seq(|segments|, i requires 0 <= i < |segments| => HopOf(c, segments[i], KindAt(i, |segments|)))
  }

  lemma ReadsBackAsHop(c: Codec, spec: HopSpec, text: string, header: Object, payload: Object, m: Object,
                       kind: Chain.HopKind)
    requires ReadsBack(c, spec, text, header, payload, m)
    requires Get(Opened(payload, m), DELEGATE_PAYLOAD) == Some(Arr([Obj(m)]))
    ensures HopOf(c, text, kind) == Chain.VerifiedHop(HopId(c, JwtOf(text)), kind, header, ClaimsOf(payload, m), m)
    ensures Discloses(c, Segment(text, JwtOf(text)), HopOf(c, text, kind))
  {
    hide Resolve, Disclosures, HopId, Opened, Verify, Decode, IsSegment, Get;
  }

  /** Segment `i` reads back as a hop signed by its signer, with the mandate it states. */
  ghost predicate IsHopOf(c: Codec, spec: HopSpec, typ: string, kind: Chain.HopKind, text: string, payload: Object) {
    var hop := HopOf(c, text, kind);
    && IsSegment(text)
    && hop.id == HopId(c, JwtOf(text)) && hop.kind == kind && hop.header == Header(typ, spec.key)
    && SignedBy(c, JwtOf(text), spec.key.public, hop.header) && Discloses(c, Segment(text, JwtOf(text)), hop)
    && SameFields(hop.mandate, spec.mandate) && hop.claims == ClaimsOf(payload, hop.mandate)
  }

  lemma IssuedIsHop(c: Codec, specs: seq<HopSpec>, segments: seq<string>, i: nat)
    requires Sound(c) && IssuedBy(c, specs, segments) && i < |specs| && GoodSpec(specs[i]) && TimelySpec(specs[i])
    ensures BuiltBy(c, specs[i]).Ok?
    ensures IsHopOf(c, specs[i], TypAt(specs, i), KindAt(i, |specs|), segments[i], PayloadAt(c, specs, segments, i))
  {
    var m := IssuedReadsBack(c, specs, segments, i);
    var payload := PayloadAt(c, specs, segments, i);
    PayloadFacts(c, specs, segments, i);
    ClaimsGet(payload, m, BuiltBy(c, specs[i]).value.0);
    ReadsBackAsHop(c, specs[i], segments[i], Header(TypAt(specs, i), specs[i].key), payload, m, KindAt(i, |specs|));
  }

  lemma IssuedAnchored(c: Codec, specs: seq<HopSpec>, segments: seq<string>, rootKey: Chain.RootKey,
                       opts: Chain.VerifyOptions, i: nat)
    requires Sound(c) && Honest(c, specs, rootKey, opts) && IssuedBy(c, specs, segments) && Chain.Cut(Parsed(segments)) && i < |specs|
    ensures Anchored(c, rootKey, Parsed(segments), HopsOf(c, segments), i)
  {
    var hops := HopsOf(c, segments);
    IssuedIsHop(c, specs, segments, i);
    KeyHandedOver(c, specs, segments, rootKey, opts, i);
    TypFits(c, specs, rootKey, opts, i);
  }

  lemma TypFits(c: Codec, specs: seq<HopSpec>, rootKey: Chain.RootKey, opts: Chain.VerifyOptions, i: nat)
    requires Honest(c, specs, rootKey, opts) && i < |specs|
    ensures TypOf(KindAt(i, |specs|), AsStr(Get(Header(TypAt(specs, i), specs[i].key), "typ")))
  {
    HeaderFacts(TypAt(specs, i), specs[i].key);
  }

  lemma KeyHandedOver(c: Codec, specs: seq<HopSpec>, segments: seq<string>, rootKey: Chain.RootKey,
                      opts: Chain.VerifyOptions, i: nat)
    requires Sound(c) && Honest(c, specs, rootKey, opts) && IssuedBy(c, specs, segments) && i < |specs|
    ensures KeyAt(c, rootKey, HopsOf(c, segments), i) == Some(specs[i].key.public)
  {
    hide Sound, GoodSpec, TimelySpec, BuiltBy, PayloadAt, IsSegment, IsJwk, Get, KeyNamedBy;
    if i == 0 {
      IssuedIsHop(c, specs, segments, 0);
    } else {
      assert HandedOver(c, specs[i - 1], specs[i], specs[0], opts);
      IssuedIsHop(c, specs, segments, i - 1);
      SameFieldsSameChecks(HopsOf(c, segments)[i - 1].mandate, specs[i - 1].mandate, opts);
      NamedKeyIsOne(c, HopsOf(c, segments)[i - 1], specs[i].key.public);
    }
  }

  lemma IssuedChecked(c: Codec, specs: seq<HopSpec>, segments: seq<string>, rootKey: Chain.RootKey,
                      opts: Chain.VerifyOptions, i: nat)
    requires Sound(c) && Honest(c, specs, rootKey, opts) && IssuedBy(c, specs, segments) && i < |specs|
    ensures Checked(c, opts, Parsed(segments), HopsOf(c, segments), i)
    ensures SameFields(HopsOf(c, segments)[i].mandate, specs[i].mandate)
  {
    var hop := HopsOf(c, segments)[i];
    IssuedIsHop(c, specs, segments, i);
    SameFieldsSameChecks(hop.mandate, specs[i].mandate, opts);
    if i == 0 {
      RootClaims(c, specs, segments, hop.mandate, opts);
    } else {
      IssuedIsHop(c, specs, segments, 0);
      IssuedFollows(c, specs, segments, rootKey, opts, i, hop, HopsOf(c, segments)[0]);
    }
  }

  lemma IssuedFollows(c: Codec, specs: seq<HopSpec>, segments: seq<string>, rootKey: Chain.RootKey,
                      opts: Chain.VerifyOptions, i: nat,
                      hop: Chain.VerifiedHop, root: Chain.VerifiedHop)
    requires Honest(c, specs, rootKey, opts) && 0 < i < |specs| == |segments| && BuiltBy(c, specs[i]).Ok?
    requires SameFields(hop.mandate, specs[i].mandate) && SameFields(root.mandate, specs[0].mandate)
    requires hop.claims == ClaimsOf(PayloadAt(c, specs, segments, i), hop.mandate) && hop.kind == KindAt(i, |specs|)
    ensures InTime(hop.claims, opts) && Follows(c, hop, Parsed(segments)[i - 1], root, opts)
  {
    hide ClaimsOf, PayloadAt, BuiltBy, Get, InTime, BoundTo, AddressedTo, IsJwk;
    assert HandedOver(c, specs[i - 1], specs[i], specs[0], opts);
    HopClaims(c, specs, segments, i, hop.mandate);
    ClaimsFollow(c, specs[i], hop.claims, Parsed(segments)[i - 1], opts);
    assert hop.kind.Closing? <==> i == |specs| - 1;
    assert Has(hop.mandate, "cnf") == Has(specs[i].mandate, "cnf") by { SameFieldsSameChecks(hop.mandate, specs[i].mandate, opts); }
    SameVct(hop.mandate, specs[i].mandate, root.mandate, specs[0].mandate);
  }

  lemma SameVct(m: Object, mandate: Object, r: Object, root: Object)
    requires SameFields(m, mandate) && SameFields(r, root)
    requires Get(mandate, "vct") == Get(root, "vct") && AsStr(Get(root, "vct")).Some?
    ensures Chain.SameType(Get(m, "vct"), Get(r, "vct"))
  {
    assert Get(m, "vct") == Get(mandate, "vct") && Get(r, "vct") == Get(root, "vct");
  }

  /** The claims an issuer writes are dated, bound to the previous segment and addressed. */
  lemma ClaimsFollow(c: Codec, spec: HopSpec, claims: Object, prev: Segment, opts: Chain.VerifyOptions)
    requires TimelySpec(spec) && spec.iat - opts.clockSkew <= opts.now
    requires Get(claims, "iat") == Some(Int(spec.iat)) && Get(claims, "exp") == None && Get(claims, "nbf") == None
    requires Get(claims, "aud") == Some(Str(spec.aud)) && Get(claims, "nonce") == Some(Str(spec.nonce))
    requires Get(claims, "sd_hash") == Some(Str(c.digest(prev.canonical))) && Get(claims, "issuer_jwt_hash") == None
    ensures InTime(claims, opts) && BoundTo(c, claims, prev) && Get(claims, "iat").Some?
    ensures AddressesVerifier(spec, opts) ==> AddressedTo(claims, opts)
  {
  }

  lemma IssuedSplits(c: Codec, specs: seq<HopSpec>, segments: seq<string>, rootKey: Chain.RootKey,
                     opts: Chain.VerifyOptions)
    requires Sound(c) && Honest(c, specs, rootKey, opts) && IssuedBy(c, specs, segments)
    requires Utf8Len(Join(segments)) <= MAX_CHAIN_BYTES
    ensures Split(Join(segments)) == Ok(Parsed(segments)) && Chain.Cut(Parsed(segments))
  {
    forall i | 0 <= i < |segments| ensures IsSegment(segments[i]) { IssuedIsHop(c, specs, segments, i); }
    SplitInvertsJoin(segments);
    Chain.SplitIsCut(Join(segments));
  }

  lemma IssuedLinked(c: Codec, specs: seq<HopSpec>, segments: seq<string>, rootKey: Chain.RootKey,
                     opts: Chain.VerifyOptions)
    requires Sound(c) && Honest(c, specs, rootKey, opts) && IssuedBy(c, specs, segments) && Chain.Cut(Parsed(segments))
    ensures AllLinked(c, rootKey, opts, Parsed(segments), HopsOf(c, segments))
    ensures forall i | 0 <= i < |specs| :: SameFields(HopsOf(c, segments)[i].mandate, specs[i].mandate)
  {
    forall i | 0 <= i < |specs|
      ensures Linked(c, rootKey, opts, Parsed(segments), HopsOf(c, segments), i)
      ensures SameFields(HopsOf(c, segments)[i].mandate, specs[i].mandate)
    {
      IssuedAnchored(c, specs, segments, rootKey, opts, i);
      IssuedChecked(c, specs, segments, rootKey, opts, i);
    }
  }

  /** Completeness: a chain issued hop by hop, with any number of delegations up to the
      limit, is accepted, and yields exactly the issued mandates in order. */
  lemma IssuedChainIsAccepted(c: Codec, specs: seq<HopSpec>, segments: seq<string>, rootKey: Chain.RootKey,
                              opts: Chain.VerifyOptions)
    requires Sound(c) && opts.Valid() && Honest(c, specs, rootKey, opts) && IssuedBy(c, specs, segments)
    requires Utf8Len(Join(segments)) <= MAX_CHAIN_BYTES
    ensures Chain.VerifyChain(c, Join(segments), rootKey, opts) == Ok(HopsOf(c, segments))
    ensures |HopsOf(c, segments)| == |specs|
    ensures forall i | 0 <= i < |specs| :: SameFields(HopsOf(c, segments)[i].mandate, specs[i].mandate)
  {
    IssuedSplits(c, specs, segments, rootKey, opts);
    IssuedLinked(c, specs, segments, rootKey, opts);
    AcceptedExactly(c, Join(segments), rootKey, opts, HopsOf(c, segments));
  }
}
