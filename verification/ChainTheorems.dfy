/** What an accepted chain is: an exact description of its hops, and the interval of clock
    values at which it is accepted. */
module ChainTheorems {
  import opened Results
  import opened Json
  import opened Codec
  import opened Wire
  import opened SdJwt
  import opened Jws
  import opened Chain

  // ----- One hop, declaratively -----

  predicate IntegerOrAbsent(m: Object, name: string) {
    match Get(m, name) case None => true case Some(v) => AsI64(v).Some?
  }

  /** Over unbounded integers: not past `exp` plus the tolerance, and not before `iat` or
      `nbf` less the tolerance. */
  predicate InTime(m: Object, opts: VerifyOptions) {
    && (match Get(m, "exp") case None => true case Some(v) => AsI64(v).Some? && opts.now <= v.i + opts.clockSkew)
    && StartedBy(m, "iat", opts) && StartedBy(m, "nbf", opts)
  }

  predicate StartedBy(m: Object, name: string, opts: VerifyOptions) {
    match Get(m, name) case None => true case Some(v) => AsI64(v).Some? && v.i - opts.clockSkew <= opts.now
  }

  function KindAt(i: nat, n: nat): HopKind {
    if i == 0 then Root else if i == n - 1 then Closing else Delegation
  }

  predicate TypOf(kind: HopKind, typ: Option<string>) {
    match kind
    case Root => typ == Some("dc+sd-jwt") || typ == Some("example+sd-jwt")
    case Delegation => typ == Some("kb+sd-jwt+kb")
    case Closing => typ == Some("kb+sd-jwt")
  }

  /** The mandate's `cnf` names `key` in JWK form. */
  predicate NamesKey(c: Codec, mandate: Object, key: PublicJwk) {
    match Get(mandate, "cnf")
    case Some(Obj(cnf)) => (match Get(cnf, "jwk") case Some(v) => IsJwk(c, v, key) case None => false)
    case _ => false
  }

  ghost function KeyNamedBy(c: Codec, mandate: Object): Option<PublicJwk> {
    if exists key :: NamesKey(c, mandate, key) then
      var key :| NamesKey(c, mandate, key);
      Some(key)
    else None
  }

  /** The key hop `i` must be signed with: a trusted surface's, or the one the previous hop
      names. */
  ghost function KeyAt(c: Codec, rootKey: RootKey, hops: seq<VerifiedHop>, i: nat): Option<PublicJwk>
    requires i < |hops|
  {
    if i == 0 then rootKey(hops[0].header) else KeyNamedBy(c, hops[i - 1].mandate)
  }

  /** A mandate names at most one key, and it is the one the code reads. */
  lemma NamedKeyIsRead(c: Codec, hop: VerifiedHop, key: PublicJwk)
    ensures NamesKey(c, hop.mandate, key) <==> BoundKey(c, hop) == Ok(key)
  {
    hide ReadJwk, IsJwk;
    if CnfJwk(hop.mandate).Some? { ReadJwkExactly(c, CnfJwk(hop.mandate).value, key); }
  }

  lemma NamedKeyIsOne(c: Codec, hop: VerifiedHop, key: PublicJwk)
    ensures KeyNamedBy(c, hop.mandate) == Some(key) <==> BoundKey(c, hop) == Ok(key)
    ensures KeyNamedBy(c, hop.mandate) == Some(key) <==> NamesKey(c, hop.mandate, key)
  {
    hide NamesKey, BoundKey;
    forall k ensures NamesKey(c, hop.mandate, k) <==> BoundKey(c, hop) == Ok(k) {
      NamedKeyIsRead(c, hop, k);
    }
  }

  predicate SignedBy(c: Codec, jwt: string, key: PublicJwk, header: Object) {
    && Decode(c, jwt).Ok? && Decode(c, jwt).value.header == header
    && Get(header, "alg") == Some(Str("ES256")) && Get(header, "crit") == None
    && c.checkSignature(key, SigningInput(jwt), SignatureText(jwt)) == Verified
  }

  /** Everything is disclosed, and it is exactly one mandate. */
  predicate Discloses(c: Codec, segment: Segment, hop: VerifiedHop)
    requires |segment.jwt| <= |segment.canonical| && Decode(c, segment.jwt).Ok?
  {
    && Disclosures(segment).Ok?
    && var resolved := Resolve(c, Decode(c, segment.jwt).value.payload, Disclosures(segment).value);
    && resolved.Ok?
    && Get(resolved.value, "delegate_payload") == Some(Arr([Obj(hop.mandate)]))
    && hop.claims == SwapRemove(resolved.value, "delegate_payload")
  }

  predicate CompleteOpenMandate(mandate: Object) {
    && AsStr(Get(mandate, "vct")).Some?
    && (match Get(mandate, "cnf")
        case Some(Obj(cnf)) => (match Get(cnf, "jwk") case Some(Obj(_)) => true case _ => false)
        case _ => false)
    && Get(mandate, "exp").Some? && AsI64(Get(mandate, "exp").value).Some?
  }

  /** Exactly one of the two hashes, and it is the previous hop's. */
  predicate BoundTo(c: Codec, claims: Object, prev: Segment) {
    || (Get(claims, "sd_hash") == Some(Str(c.digest(prev.canonical))) && Get(claims, "issuer_jwt_hash") == None)
    || (Get(claims, "sd_hash") == None && Get(claims, "issuer_jwt_hash") == Some(Str(c.digest(prev.jwt))))
  }

  predicate AddressedTo(claims: Object, opts: VerifyOptions) {
    && Get(claims, "aud") == Some(Str(opts.aud)) && Get(claims, "nonce") == Some(Str(opts.nonce))
    && Get(claims, "iat").Some? && AsI64(Get(claims, "iat").value).Some?
    && opts.now <= Get(claims, "iat").value.i + opts.maxClosingAge
  }

  predicate Follows(c: Codec, hop: VerifiedHop, prev: Segment, root: VerifiedHop, opts: VerifyOptions) {
    && BoundTo(c, hop.claims, prev)
    && Get(hop.claims, "iat").Some?
    && SameType(Get(hop.mandate, "vct"), Get(root.mandate, "vct"))
    && (if hop.kind.Closing? then !Has(hop.mandate, "cnf") && AddressedTo(hop.claims, opts) else Has(hop.mandate, "cnf"))
  }

  /** Kind, key, signature and disclosures: what does not depend on the clock. */
  ghost predicate Anchored(c: Codec, rootKey: RootKey, segments: seq<Segment>, hops: seq<VerifiedHop>, i: nat)
    requires i < |hops| == |segments| && Cut(segments)
  {
    && hops[i].id == HopId(c, segments[i].jwt)
    && hops[i].kind == KindAt(i, |hops|) && TypOf(hops[i].kind, AsStr(Get(hops[i].header, "typ")))
    && KeyAt(c, rootKey, hops, i).Some?
    && SignedBy(c, segments[i].jwt, KeyAt(c, rootKey, hops, i).value, hops[i].header)
    && Discloses(c, segments[i], hops[i])
  }

  predicate Checked(c: Codec, opts: VerifyOptions, segments: seq<Segment>, hops: seq<VerifiedHop>, i: nat)
    requires i < |hops| == |segments|
  {
    && InTime(hops[i].claims, opts) && InTime(hops[i].mandate, opts)
    && if i == 0 then CompleteOpenMandate(hops[0].mandate)
       else hops[i].kind == KindAt(i, |hops|) && Follows(c, hops[i], segments[i - 1], hops[0], opts)
  }

  ghost predicate Linked(c: Codec, rootKey: RootKey, opts: VerifyOptions, segments: seq<Segment>, hops: seq<VerifiedHop>,
                   i: nat)
    requires i < |hops| == |segments| && Cut(segments)
  {
    Anchored(c, rootKey, segments, hops, i) && Checked(c, opts, segments, hops, i)
  }

  lemma TimesExact(m: Object, opts: VerifyOptions)
    requires opts.Valid()
    ensures CheckTimes(m, opts).Ok? <==> InTime(m, opts)
  {
  }

  lemma ClosingExact(claims: Object, opts: VerifyOptions)
    requires opts.Valid() && IntegerOrAbsent(claims, "iat") && Get(claims, "iat").Some?
    ensures CheckClosing(claims, opts).Ok? <==> AddressedTo(claims, opts)
  {
  }

  lemma FollowsExact(c: Codec, kind: HopKind, i: nat, n: nat, claims: Object, mandate: Object, id: string,
                     header: Object,
                     prev: Segment, root: VerifiedHop, opts: VerifyOptions)
    requires opts.Valid() && 0 < i < n && !kind.Root? && InTime(claims, opts)
    ensures CheckHop(c, kind, i == n - 1, claims, mandate, prev, root.mandate, opts).Ok?
       <==> kind == KindAt(i, n) && Follows(c, VerifiedHop(id, kind, header, claims, mandate), prev, root, opts)
  {
    hide InTime, CheckClosing, AddressedTo, SameType, CheckBinding, BoundTo;
    BindingExact(c, claims, prev);
    InTimeIat(claims, opts);
    if Get(claims, "iat").Some? {
      ClosingExact(claims, opts);
    }
  }

  lemma InTimeIat(m: Object, opts: VerifyOptions)
    requires InTime(m, opts)
    ensures IntegerOrAbsent(m, "iat")
  {
  }

  lemma BindingExact(c: Codec, claims: Object, prev: Segment)
    ensures CheckBinding(c, claims, prev).Ok? <==> BoundTo(c, claims, prev)
  {
  }

  lemma SingleMandateExact(resolved: Object, hop: VerifiedHop)
    ensures SingleMandate(resolved) == Ok((hop.mandate, hop.claims))
       <==> Get(resolved, DELEGATE_PAYLOAD) == Some(Arr([Obj(hop.mandate)])) && hop.claims == SwapRemove(resolved, DELEGATE_PAYLOAD)
  {
    match Get(resolved, DELEGATE_PAYLOAD)
    case Some(Arr(items)) =>
      if |items| == 1 { assert items == [items[0]]; }
    case _ =>
  }

  lemma RootTyp(kind: HopKind, typ: Option<string>)
    ensures kind.Root? && TypOf(kind, typ)
       <==> kind == Root && typ.Some? && (typ.value == DC_SD_JWT || typ.value == EXAMPLE_SD_JWT)
  {
  }

  lemma LaterTyp(kind: HopKind, typ: Option<string>)
    ensures !kind.Root? && TypOf(kind, typ)
       <==> typ.Some? && (if typ.value == TYP_CLOSING then kind == Closing else typ.value == TYP_DELEGATION && kind == Delegation)
  {
    assert |TYP_CLOSING| == 9 && |TYP_DELEGATION| == 12;
  }

  lemma KeyExact(c: Codec, rootKey: RootKey, hops: seq<VerifiedHop>, i: nat, key: PublicJwk)
    requires i < |hops|
    ensures KindAndKey(c, rootKey, hops[i].header, hops[..i]) == Ok((hops[i].kind, key))
       <==> (hops[i].kind.Root? <==> i == 0) && TypOf(hops[i].kind, AsStr(Get(hops[i].header, "typ")))
            && KeyAt(c, rootKey, hops, i) == Some(key)
  {
    hide BoundKey, KeyNamedBy, NamesKey, TypOf;
    if i > 0 {
      assert hops[..i][|hops[..i]| - 1] == hops[i - 1];
      NamedKeyIsOne(c, hops[i - 1], key);
      LaterTyp(hops[i].kind, AsStr(Get(hops[i].header, "typ")));
    } else {
      RootTyp(hops[i].kind, AsStr(Get(hops[i].header, "typ")));
    }
  }

  lemma ReadExact(c: Codec, seg: Segment, hop: VerifiedHop)
    requires |seg.jwt| <= |seg.canonical| && Decode(c, seg.jwt).Ok? && Decode(c, seg.jwt).value.header == hop.header
    ensures ReadHop(c, seg, Decode(c, seg.jwt).value, hop.kind) == Ok(hop)
       <==> hop.id == HopId(c, seg.jwt) && Discloses(c, seg, hop)
  {
    var payload := Decode(c, seg.jwt).value.payload;
    if Disclosures(seg).Ok? && Resolve(c, payload, Disclosures(seg).value).Ok? {
      SingleMandateExact(Resolve(c, payload, Disclosures(seg).value).value, hop);
    }
  }

  lemma CheckExact(c: Codec, opts: VerifyOptions, segments: seq<Segment>, hops: seq<VerifiedHop>, i: nat)
    requires opts.Valid() && i < |hops| == |segments| && (hops[i].kind.Root? <==> i == 0)
    ensures CheckRead(c, opts, segments, hops[..i], hops[i]).Ok? <==> Checked(c, opts, segments, hops, i)
  {
    hide CheckTimes, InTime, CheckHop, Follows;
    var hop := hops[i];
    TimesExact(hop.claims, opts);
    TimesExact(hop.mandate, opts);
    if i > 0 && InTime(hop.claims, opts) {
      assert hops[..i][0] == hops[0];
      FollowsExact(c, hop.kind, i, |hops|, hop.claims, hop.mandate, hop.id, hop.header, segments[i - 1], hops[0], opts);
    }
  }

  /** The hop checks of the code accept exactly the linked hops. */
  lemma HopExact(c: Codec, rootKey: RootKey, opts: VerifyOptions, segments: seq<Segment>, hops: seq<VerifiedHop>,
                 i: nat)
    requires opts.Valid() && 1 < |hops| && i < |hops| == |segments| && Cut(segments)
    ensures VerifyHop(c, rootKey, opts, segments, hops[..i]) == Ok(hops[i]) <==> Linked(c, rootKey, opts, segments, hops, i)
  {
    if VerifyHop(c, rootKey, opts, segments, hops[..i]) == Ok(hops[i]) {
      AcceptedIsLinked(c, rootKey, opts, segments, hops, i);
    }
    if Linked(c, rootKey, opts, segments, hops, i) {
      LinkedIsAccepted(c, rootKey, opts, segments, hops, i);
    }
  }

  lemma VerifyExact(c: Codec, jwt: string, key: PublicJwk, header: Object)
    requires Decode(c, jwt).Ok? && Decode(c, jwt).value.header == header
    ensures SignedBy(c, jwt, key, header) ==> Verify(c, jwt, key) == Decode(c, jwt)
    ensures Verify(c, jwt, key).Ok? ==> SignedBy(c, jwt, key, header) && Verify(c, jwt, key) == Decode(c, jwt)
  {
  }

  lemma AcceptedIsLinked(c: Codec, rootKey: RootKey, opts: VerifyOptions, segments: seq<Segment>,
                         hops: seq<VerifiedHop>, i: nat)
    requires opts.Valid() && 1 < |hops| && i < |hops| == |segments| && Cut(segments)
    requires VerifyHop(c, rootKey, opts, segments, hops[..i]) == Ok(hops[i])
    ensures Linked(c, rootKey, opts, segments, hops, i)
  {
    hide Decode, Verify, KindAndKey, CheckRead, Follows, InTime, SignedBy, Discloses, KeyAt, TypOf, HopId, SingleMandate, Resolve;
    var seg, hop := segments[i], hops[i];
    var decoded := Decode(c, seg.jwt).value;
    var (kind, key) := KindAndKey(c, rootKey, decoded.header, hops[..i]).value;
    VerifyExact(c, seg.jwt, key, decoded.header);
    assert ReadHop(c, seg, decoded, kind) == Ok(hop);
    assert kind == hop.kind && decoded.header == hop.header;
    KeyExact(c, rootKey, hops, i, key);
    ReadExact(c, seg, hop);
    CheckExact(c, opts, segments, hops, i);
  }

  lemma LinkedIsAccepted(c: Codec, rootKey: RootKey, opts: VerifyOptions, segments: seq<Segment>,
                         hops: seq<VerifiedHop>, i: nat)
    requires opts.Valid() && 1 < |hops| && i < |hops| == |segments| && Cut(segments)
    requires Linked(c, rootKey, opts, segments, hops, i)
    ensures VerifyHop(c, rootKey, opts, segments, hops[..i]) == Ok(hops[i])
  {
    hide CheckRead, Checked, Discloses, KeyAt, TypOf, HopId, ReadHop, KindAndKey;
    var seg, hop := segments[i], hops[i];
    var key := KeyAt(c, rootKey, hops, i).value;
    KeyExact(c, rootKey, hops, i, key);
    VerifyExact(c, seg.jwt, key, hop.header);
    ReadExact(c, seg, hop);
    CheckExact(c, opts, segments, hops, i);
  }

  // ----- The whole chain -----

  ghost predicate AllLinked(c: Codec, rootKey: RootKey, opts: VerifyOptions, segments: seq<Segment>, hops: seq<VerifiedHop>) {
    && |hops| == |segments| && Cut(segments)
    && forall i | 0 <= i < |hops| :: Linked(c, rootKey, opts, segments, hops, i)
  }

  predicate Pushes(c: Codec, rootKey: RootKey, opts: VerifyOptions, segments: seq<Segment>, hops: seq<VerifiedHop>,
                   i: nat)
    requires i < |hops| == |segments| && Cut(segments)
  {
    VerifyHop(c, rootKey, opts, segments, hops[..i]) == Ok(hops[i])
  }

  lemma LoopStep(c: Codec, rootKey: RootKey, opts: VerifyOptions, segments: seq<Segment>, hops: seq<VerifiedHop>,
                 n: nat)
    requires n < |hops| == |segments| && Cut(segments)
    ensures VerifyFrom(c, rootKey, opts, segments, hops[..n]) == Ok(hops)
       <==> Pushes(c, rootKey, opts, segments, hops, n) && VerifyFrom(c, rootKey, opts, segments, hops[..n + 1]) == Ok(hops)
  {
    hide VerifyHop, Cut;
    var hop := VerifyHop(c, rootKey, opts, segments, hops[..n]);
    assert hops[..n] + [hops[n]] == hops[..n + 1];
    if hop.Ok? && hop.value != hops[n] {
      OtherHop(c, rootKey, opts, segments, hops, n, hop.value);
    }
  }

  lemma {:induction false} LoopExact(c: Codec, rootKey: RootKey, opts: VerifyOptions, segments: seq<Segment>,
                                     hops: seq<VerifiedHop>, n: nat)
    requires n <= |hops| == |segments| && Cut(segments)
    ensures VerifyFrom(c, rootKey, opts, segments, hops[..n]) == Ok(hops)
       <==> forall i | n <= i < |hops| :: Pushes(c, rootKey, opts, segments, hops, i)
    decreases |hops| - n
  {
    if n == |hops| {
      assert hops[..n] == hops;
    } else {
      LoopStep(c, rootKey, opts, segments, hops, n);
      LoopExact(c, rootKey, opts, segments, hops, n + 1);
    }
  }

  /** The loop never changes a hop it has pushed. */
  lemma OtherHop(c: Codec, rootKey: RootKey, opts: VerifyOptions, segments: seq<Segment>, hops: seq<VerifiedHop>,
                 n: nat, hop: VerifiedHop)
    requires n < |hops| == |segments| && Cut(segments) && hop != hops[n]
    ensures VerifyFrom(c, rootKey, opts, segments, hops[..n] + [hop]) != Ok(hops)
  {
    LoopKeeps(c, rootKey, opts, segments, hops[..n] + [hop]);
    assert (hops[..n] + [hop])[n] == hop;
  }

  lemma {:induction false} LoopKeeps(c: Codec, rootKey: RootKey, opts: VerifyOptions, segments: seq<Segment>,
                                     hops: seq<VerifiedHop>)
    requires |hops| <= |segments| && Cut(segments)
    ensures VerifyFrom(c, rootKey, opts, segments, hops).Ok?
        ==> hops <= VerifyFrom(c, rootKey, opts, segments, hops).value && |VerifyFrom(c, rootKey, opts, segments, hops).value| == |segments|
    decreases |segments| - |hops|
  {
    if |hops| < |segments| {
      var hop := VerifyHop(c, rootKey, opts, segments, hops);
      if hop.Ok? { LoopKeeps(c, rootKey, opts, segments, hops + [hop.value]); }
    }
  }

  /** A chain is accepted with the given hops exactly when it splits into as many segments
      and every hop is linked: root key, key hand-over, bindings, kinds by position, times,
      audience and nonce. */
  lemma AcceptedExactly(c: Codec, chain: string, rootKey: RootKey, opts: VerifyOptions, hops: seq<VerifiedHop>)
    requires opts.Valid()
    ensures VerifyChain(c, chain, rootKey, opts) == Ok(hops)
       <==> Split(chain).Ok? && AllLinked(c, rootKey, opts, Split(chain).value, hops)
  {
    if Split(chain).Ok? {
      SplitIsCut(chain);
      var segments := Split(chain).value;
      LoopKeeps(c, rootKey, opts, segments, []);
      if |hops| == |segments| {
        assert hops[..0] == [];
        LoopExact(c, rootKey, opts, segments, hops, 0);
        forall i | 0 <= i < |hops|
          ensures Pushes(c, rootKey, opts, segments, hops, i) <==> Linked(c, rootKey, opts, segments, hops, i)
        {
          HopExact(c, rootKey, opts, segments, hops, i);
        }
      }
    }
  }
}
