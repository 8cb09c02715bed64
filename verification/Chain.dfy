/** Verifying a mandate chain (chain.rs): the per-hop checks, in their order, and the loop
    over the segments. */
module Chain {
  import opened Results
  import opened Json
  import opened Codec
  import opened Wire
  import opened SdJwt
  import opened Jws

  const DC_SD_JWT: string := "dc+sd-jwt"
  const EXAMPLE_SD_JWT: string := "example+sd-jwt"
  const TYP_CLOSING: string := "kb+sd-jwt"
  const TYP_DELEGATION: string := "kb+sd-jwt+kb"

  /** `now` and the tolerances are 64-bit integers; the tolerances come from `u32`. */
  datatype VerifyOptions = VerifyOptions(aud: string, nonce: string, now: int, clockSkew: int, maxClosingAge: int) {
    predicate Valid() {
      && I64_MIN <= now <= I64_MAX
      && 0 <= clockSkew <= 0xFFFF_FFFF && 0 <= maxClosingAge <= 0xFFFF_FFFF
    }
  }

  datatype HopKind = Root | Delegation | Closing

  datatype VerifiedHop = VerifiedHop(id: string, kind: HopKind, header: Object, claims: Object, mandate: Object)

  type RootKey = Object -> Option<PublicJwk>

  // ----- Times -----

  function Clamp(n: int): int {
    if n < I64_MIN then I64_MIN else if n > I64_MAX then I64_MAX else n
  }

  function SaturatingAdd(a: int, b: int): int {
    Clamp(a + b)
  }

  function SaturatingSub(a: int, b: int): int {
    Clamp(a - b)
  }

  function Time(m: Object, name: string): Result<Option<int>> {
    match Get(m, name)
    case None => Ok(None)
    case Some(v) => if AsI64(v).Some? then Ok(AsI64(v)) else Err(Malformed)
  }

  function CheckStarted(m: Object, name: string, opts: VerifyOptions): Result<()> {
    var t :- Time(m, name);
    Check(!(t.Some? && t.value > SaturatingAdd(opts.now, opts.clockSkew)), NotYetValid)
  }

  function CheckTimes(m: Object, opts: VerifyOptions): Result<()> {
    var exp :- Time(m, "exp");
    var _ :- Check(!(exp.Some? && opts.now > SaturatingAdd(exp.value, opts.clockSkew)), Expired);
    var _ :- CheckStarted(m, "iat", opts);
    CheckStarted(m, "nbf", opts)
  }

  // ----- The other checks -----

  function CheckOpenMandate(mandate: Object): Result<()> {
    var _ :- Check(AsStr(Get(mandate, "vct")).Some?, BadChain);
    var _ :- Check(match CnfJwk(mandate) case Some(Obj(_)) => true case _ => false, BadChain);
    Check(match Get(mandate, "exp") case Some(v) => AsI64(v).Some? case None => false, BadChain)
  }

  function CnfJwk(mandate: Object): Option<Value> {
    match Get(mandate, "cnf")
    case Some(cnf) => Member(cnf, "jwk")
    case None => None
  }

  function BoundKey(c: Codec, prev: VerifiedHop): Result<PublicJwk> {
    match CnfJwk(prev.mandate)
    case Some(jwk) => ReadJwk(c, jwk)
    case None => Err(BadChain)
  }

  /** The single mandate, and the claims that remain. */
  function SingleMandate(claims: Object): Result<(Object, Object)> {
    match Get(claims, DELEGATE_PAYLOAD)
    case Some(Arr(items)) =>
      if |items| == 1 && items[0].Obj? then Ok((items[0].fields, SwapRemove(claims, DELEGATE_PAYLOAD)))
      else Err(BadChain)
    case _ => Err(BadChain)
  }

  function CheckBinding(c: Codec, claims: Object, prev: Segment): Result<()> {
    match (Get(claims, "sd_hash"), Get(claims, "issuer_jwt_hash"))
    case (Some(v), None) => Check(v == Str(c.digest(prev.canonical)), BadBinding)
    case (None, Some(v)) => Check(v == Str(c.digest(prev.jwt)), BadBinding)
    case _ => Err(BadBinding)
  }

  function CheckClosing(claims: Object, opts: VerifyOptions): Result<()> {
    var _ :- Check(AsStr(Get(claims, "aud")) == Some(opts.aud), AudienceMismatch);
    var _ :- Check(AsStr(Get(claims, "nonce")) == Some(opts.nonce), NonceMismatch);
    var iat := match Get(claims, "iat")
               case Some(v) => if AsI64(v).Some? then AsI64(v).value else I64_MIN
               case None => I64_MIN;
    Check(SaturatingSub(opts.now, iat) <= opts.maxClosingAge, Stale)
  }

  predicate SameType(a: Option<Value>, b: Option<Value>) {
    match (a, b)
    case (Some(v), Some(w)) => JsonEq(v, w)
    case _ => a == b
  }

  function CheckPosition(kind: HopKind, isLast: bool, hasCnf: bool, claims: Object, opts: VerifyOptions): Result<()> {
    match (kind, isLast)
    case (Closing, true) => if hasCnf then Err(BadChain) else CheckClosing(claims, opts)
    case (Delegation, false) => Check(hasCnf, BadChain)
    case _ => Err(BadChain)
  }

  /** The checks on every hop after the root. */
  function CheckHop(c: Codec, kind: HopKind, isLast: bool, claims: Object, mandate: Object, prev: Segment,
                    root: Object, opts: VerifyOptions): Result<()> {
    var _ :- CheckBinding(c, claims, prev);
    var _ :- Check(match Get(claims, "iat") case Some(v) => v.Int? || v.Float? case None => false, Malformed);
    var _ :- CheckPosition(kind, isLast, Has(mandate, "cnf"), claims, opts);
    Check(SameType(Get(mandate, "vct"), Get(root, "vct")), BadChain)
  }

  // ----- The loop -----

  predicate Cut(segments: seq<Segment>) {
    forall i | 0 <= i < |segments| :: |segments[i].jwt| <= |segments[i].canonical|
  }

  /** The role a hop claims by its `typ`, and the key it must be signed with. */
  function KindAndKey(c: Codec, rootKey: RootKey, header: Object, hops: seq<VerifiedHop>): Result<(HopKind,
                      PublicJwk)> {
    var typ := match AsStr(Get(header, "typ")) case Some(s) => s case None => "";
    if hops == [] then
      var _ :- Check(typ == DC_SD_JWT || typ == EXAMPLE_SD_JWT, BadChain);
      var key := rootKey(header);
      var _ :- Check(key.Some?, UnknownIssuer);
      Ok((Root, key.value))
    else
      var kind :- if typ == TYP_CLOSING then Ok(Closing) else if typ == TYP_DELEGATION then Ok(Delegation) else Err(BadChain);
      var key :- BoundKey(c, hops[|hops| - 1]);
      Ok((kind, key))
  }

  /** What one signed segment discloses: its claims and its single mandate. */
  function ReadHop(c: Codec, seg: Segment, signed: Decoded, kind: HopKind): Result<VerifiedHop>
    requires |seg.jwt| <= |seg.canonical|
  {
    var ds :- Disclosures(seg);
    var resolved :- Resolve(c, signed.payload, ds);
    var (mandate, claims) :- SingleMandate(resolved);
    Ok(VerifiedHop(HopId(c, seg.jwt), kind, signed.header, claims, mandate))
  }

  function CheckRead(c: Codec, opts: VerifyOptions, segments: seq<Segment>, hops: seq<VerifiedHop>,
                     hop: VerifiedHop): Result<()>
    requires |hops| < |segments|
  {
    var i := |hops|;
    var _ :- CheckTimes(hop.claims, opts);
    var _ :- CheckTimes(hop.mandate, opts);
    if i > 0
    then CheckHop(c, hop.kind, i == |segments| - 1, hop.claims, hop.mandate, segments[i - 1], hops[0].mandate, opts)
    else CheckOpenMandate(hop.mandate)
  }

  function VerifyHop(c: Codec, rootKey: RootKey, opts: VerifyOptions, segments: seq<Segment>,
                     hops: seq<VerifiedHop>): Result<VerifiedHop>
    requires |hops| < |segments| && Cut(segments)
  {
    var seg := segments[|hops|];
    var unverified :- Decode(c, seg.jwt);
    var (kind, key) :- KindAndKey(c, rootKey, unverified.header, hops);
    var verified :- Verify(c, seg.jwt, key);
    var hop :- ReadHop(c, seg, verified, kind);
    var _ :- CheckRead(c, opts, segments, hops, hop);
    Ok(hop)
  }

  function VerifyFrom(c: Codec, rootKey: RootKey, opts: VerifyOptions, segments: seq<Segment>,
                      hops: seq<VerifiedHop>): Result<seq<VerifiedHop>>
    requires |hops| <= |segments| && Cut(segments)
    decreases |segments| - |hops|
  {
    if |hops| == |segments| then Ok(hops)
    else
      var hop :- VerifyHop(c, rootKey, opts, segments, hops);
      VerifyFrom(c, rootKey, opts, segments, hops + [hop])
  }

  lemma SplitIsCut(chain: string)
    requires Split(chain).Ok?
    ensures Cut(Split(chain).value) && 2 <= |Split(chain).value| <= MAX_HOPS
  {
    SplitIsJoin(chain);
    var segs := Split(chain).value;
    forall i | 0 <= i < |segs| ensures |segs[i].jwt| <= |segs[i].canonical| {
      assert Parsed(Canonicals(segs))[i] == segs[i];
    }
  }

  function VerifyChain(c: Codec, chain: string, rootKey: RootKey, opts: VerifyOptions): Result<seq<VerifiedHop>> {
    var segments :- Split(chain);
    SplitIsCut(chain);
    VerifyFrom(c, rootKey, opts, segments, [])
  }

  /** One turn of the loop of `verify_chain`. */
  method VerifySegment(c: Codec, rootKey: RootKey, opts: VerifyOptions, segments: seq<Segment>, hops: seq<VerifiedHop>)
    returns (hop: Result<VerifiedHop>)
    requires |hops| < |segments| && Cut(segments)
    ensures hop == VerifyHop(c, rootKey, opts, segments, hops)
  {
    var i := |hops|;
    var seg := segments[i];
    var unverified :- Decode(c, seg.jwt);
    var role :- KindAndKey(c, rootKey, unverified.header, hops);
    var verified :- Verify(c, seg.jwt, role.1);
    var ds :- Disclosures(seg);
    var resolved :- ResolvePayload(c, verified.payload, ds);
    var parts :- SingleMandate(resolved);
    var mandate, claims := parts.0, parts.1;
    var _ :- CheckTimes(claims, opts);
    var _ :- CheckTimes(mandate, opts);
    if i > 0 {
      var _ :- CheckHop(c, role.0, i == |segments| - 1, claims, mandate, segments[i - 1], hops[0].mandate, opts);
    } else {
      var _ :- CheckOpenMandate(mandate);
    }
    hop := Ok(VerifiedHop(HopId(c, seg.jwt), role.0, verified.header, claims, mandate));
  }

  /** `verify_chain` of chain.rs. */
  method VerifyPresentation(c: Codec, chain: string, rootKey: RootKey, opts: VerifyOptions)
    returns (r: Result<seq<VerifiedHop>>)
    ensures r == VerifyChain(c, chain, rootKey, opts)
  {
    var segments :- Split(chain);
    SplitIsCut(chain);
    var hops: seq<VerifiedHop> := [];
    for i := 0 to |segments|
      invariant |hops| == i
      invariant VerifyChain(c, chain, rootKey, opts) == VerifyFrom(c, rootKey, opts, segments, hops)
    {
      var hop :- VerifySegment(c, rootKey, opts, segments, hops);
      hops := hops + [hop];
    }
    r := Ok(hops);
  }
}
