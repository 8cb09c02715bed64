/** Why a chain is refused: the error class of every check, and what the clock alone does to a
    chain that is otherwise sound. */
module Refusals {
  import opened Results
  import opened Json
  import opened Codec
  import opened Wire
  import opened SdJwt
  import opened Jws
  import opened Chain
  import opened ChainTheorems

  // ----- Times -----

  /** There, but not a 64-bit integer. */
  predicate Unreadable(m: Object, name: string) {
    match Get(m, name)
    case None => false
    case Some(Int(t)) => !(-0x8000_0000_0000_0000 <= t <= 0x7FFF_FFFF_FFFF_FFFF)
    case Some(_) => true
  }

  predicate Passed(m: Object, name: string, opts: VerifyOptions) {
    !Unreadable(m, name) && match Get(m, name) case Some(Int(t)) => t + opts.clockSkew < opts.now case _ => false
  }

  predicate ToCome(m: Object, name: string, opts: VerifyOptions) {
    !Unreadable(m, name) && match Get(m, name) case Some(Int(t)) => opts.now + opts.clockSkew < t case _ => false
  }

  /** `exp` comes first, then `iat`, then `nbf`; each is read before it is compared. */
  lemma TimesRefused(m: Object, opts: VerifyOptions)
    requires opts.Valid()
    ensures var r := CheckTimes(m, opts);
            && (r == Err(Expired) <==> Passed(m, "exp", opts))
            && (r == Err(NotYetValid) <==>
                  && !Unreadable(m, "exp") && !Passed(m, "exp", opts) && !Unreadable(m, "iat")
                  && (ToCome(m, "iat", opts) || ToCome(m, "nbf", opts)))
            && (r == Err(Malformed) <==>
                  && !Passed(m, "exp", opts)
                  && (Unreadable(m, "exp") || Unreadable(m, "iat") || (!ToCome(m, "iat", opts) && Unreadable(m, "nbf"))))
            && (r.Ok? || r.error in {Expired, NotYetValid, Malformed})
  {
  }

  predicate TooOld(claims: Object, opts: VerifyOptions) {
    match Get(claims, "iat")
    case Some(Int(t)) => (if Unreadable(claims, "iat") then -0x8000_0000_0000_0000 else t) + opts.maxClosingAge < opts.now
    case _ => -0x8000_0000_0000_0000 + opts.maxClosingAge < opts.now
  }

  /** The audience, the nonce and the age of a closing hop, in this order. */
  lemma ClosingRefused(claims: Object, opts: VerifyOptions)
    requires opts.Valid()
    ensures var r := CheckClosing(claims, opts);
            && (r == Err(AudienceMismatch) <==> Get(claims, "aud") != Some(Str(opts.aud)))
            && (r == Err(NonceMismatch) <==> Get(claims, "aud") == Some(Str(opts.aud)) && Get(claims, "nonce") != Some(Str(opts.nonce)))
            && (r == Err(Stale) <==>
                  Get(claims, "aud") == Some(Str(opts.aud)) && Get(claims, "nonce") == Some(Str(opts.nonce)) && TooOld(claims, opts))
            && (r.Ok? || r.error in {AudienceMismatch, NonceMismatch, Stale})
  {
  }

  // ----- Signatures and keys -----

  /** A compact JWS is three texts between two dots, the first two encoding objects. */
  lemma DecodeExactly(c: Codec, jwt: string, h: Object, p: Object)
    ensures Decode(c, jwt) == Ok(Decoded(h, p))
       <==> exists a, b, s :: IsCompact(jwt, a, b, s) && c.decode(a) == Some(Obj(h)) && c.decode(b) == Some(Obj(p))
    ensures Decode(c, jwt).Err? ==> Decode(c, jwt) == Err(Malformed)
  {
    hide SplitOn;
    var parts := SplitOn(jwt, '.');
    if Decode(c, jwt) == Ok(Decoded(h, p)) {
      ThreeTexts(jwt);
      assert IsCompact(jwt, parts[0], parts[1], parts[2]);
    }
    if a, b, s :| IsCompact(jwt, a, b, s) && c.decode(a) == Some(Obj(h)) && c.decode(b) == Some(Obj(p)) {
      SplitThree(a, b, s);
    }
  }

  predicate IsCompact(jwt: string, a: string, b: string, s: string) {
    jwt == a + "." + b + "." + s && '.' !in a && '.' !in b && '.' !in s
  }

  lemma ThreeTexts(s: string)
    requires |SplitOn(s, '.')| == 3
    ensures var parts := SplitOn(s, '.'); IsCompact(s, parts[0], parts[1], parts[2])
  {
    hide SplitOn;
    var parts := SplitOn(s, '.');
    var rest := SplitRest(s);
    var last := SplitRest(rest);
    LastTwoParts(rest);
    assert s == parts[0] + "." + (parts[1] + "." + parts[2]);
  }

  /** The algorithm is checked before `crit`, and both before the signature. */
  lemma SignatureRefused(c: Codec, jwt: string, key: PublicJwk)
    ensures var r := Verify(c, jwt, key);
            match Decode(c, jwt)
            case Err(_) => r == Err(Malformed)
            case Ok(Decoded(header, _)) =>
              && (r == Err(UnsupportedAlgorithm) <==> Get(header, "alg") != Some(Str("ES256")))
              && (r == Err(BadSignature) <==>
                    && Get(header, "alg") == Some(Str("ES256")) && Get(header, "crit") == None
                    && c.checkSignature(key, SigningInput(jwt), SignatureText(jwt)) == Rejected)
              && (r.Ok? || r.error in {UnsupportedAlgorithm, BadSignature, Malformed})
  {
    hide SplitOn;
    DecodeExactly(c, jwt, [], []);
  }

  /** A text that is not base64url. */
  predicate NotBase64Text(c: Codec, v: Option<Value>) {
    match v case Some(Str(s)) => c.bytes(s) == None case _ => false
  }

  predicate SpellsSome(c: Codec, v: Option<Value>) {
    match v case Some(Str(s)) => c.bytes(s).Some? && |c.bytes(s).value| == 32 case _ => false
  }

  /** Only a coordinate that is no base64url is malformed; everything else is an invalid key. */
  lemma JwkRefused(c: Codec, v: Value)
    ensures ReadJwk(c, v) == Err(Malformed) <==>
              && Member(v, "kty") == Some(Str("EC")) && Member(v, "crv") == Some(Str("P-256")) && v.Obj? && Get(v.fields, "d") == None
              && (NotBase64Text(c, Member(v, "x")) || (SpellsSome(c, Member(v, "x")) && NotBase64Text(c, Member(v, "y"))))
    ensures ReadJwk(c, v).Err? ==> ReadJwk(c, v).error in {Malformed, InvalidKey}
  {
  }

  /** The first hop by its type and by a trusted key; every other by its type and the key the
      one before it names. */
  lemma KeyRefused(c: Codec, rootKey: RootKey, header: Object, hops: seq<VerifiedHop>)
    ensures var r, typ := KindAndKey(c, rootKey, header, hops), Get(header, "typ");
            if hops == [] then
              var known := typ == Some(Str("dc+sd-jwt")) || typ == Some(Str("example+sd-jwt"));
              && (r == Err(BadChain) <==> !known)
              && (r == Err(UnknownIssuer) <==> known && rootKey(header) == None)
              && (r.Ok? || r.error in {BadChain, UnknownIssuer})
            else
              var known := typ == Some(Str("kb+sd-jwt")) || typ == Some(Str("kb+sd-jwt+kb"));
              (r == Err(BadChain) <==> !known || CnfJwk(hops[|hops| - 1].mandate) == None)
  {
    if hops != [] && CnfJwk(hops[|hops| - 1].mandate).Some? {
      JwkRefused(c, CnfJwk(hops[|hops| - 1].mandate).value);
      hide ReadJwk;
    }
  }

  // ----- Hops -----

  predicate IsNumber(v: Option<Value>) {
    v.Some? && (v.value.Int? || v.value.Float?)
  }

  /** A delegation stands anywhere but last and names the next key; a closing hop stands last
      and names none. */
  predicate WellPlaced(kind: HopKind, isLast: bool, mandate: Object) {
    match kind
    case Root => false
    case Delegation => !isLast && Get(mandate, "cnf").Some?
    case Closing => isLast && Get(mandate, "cnf").None?
  }

  /** After the binding and the date come the place of the hop, for a closing hop its address
      and age, and last the type of the mandate. */
  lemma HopRefused(c: Codec, kind: HopKind, isLast: bool, claims: Object, mandate: Object, prev: Segment, root: Object,
                   opts: VerifyOptions)
    ensures var r := CheckHop(c, kind, isLast, claims, mandate, prev, root, opts);
            && (r == Err(BadBinding) <==> !BoundTo(c, claims, prev))
            && (r == Err(Malformed) <==> BoundTo(c, claims, prev) && !IsNumber(Get(claims, "iat")))
            && (BoundTo(c, claims, prev) && IsNumber(Get(claims, "iat")) ==>
                  if !WellPlaced(kind, isLast, mandate) then r == Err(BadChain)
                  else if kind == Closing && CheckClosing(claims, opts).Err? then r == CheckClosing(claims, opts)
                  else r == if SameType(Get(mandate, "vct"), Get(root, "vct")) then Ok(()) else Err(BadChain))
  {
    hide SameType;
    BindingExact(c, claims, prev);
  }

  /** Anything but one disclosed mandate, and an open mandate without type, key or expiry, is a
      bad chain. */
  lemma MandateRefused(claims: Object, mandate: Object)
    ensures SingleMandate(claims).Err? ==> SingleMandate(claims) == Err(BadChain)
    ensures CheckOpenMandate(mandate) == if CompleteOpenMandate(mandate) then Ok(()) else Err(BadChain)
  {
    hide SwapRemove;
  }

  // ----- The clock -----

  /** The errors the clock alone can bring about: later, and earlier. */
  predicate ClockError(e: Error, later: bool) {
    if later then e == Expired || e == Stale else e == NotYetValid
  }

  /** The same, or refused for the clock. */
  predicate SameButForClock<T(==)>(r: Result<T>, before: Result<T>, later: bool) {
    r == before || (r.Err? && ClockError(r.error, later))
  }

  predicate ClockOnly(r: Result<()>, later: bool) {
    r.Err? ==> ClockError(r.error, later)
  }

  predicate Moved(opts: VerifyOptions, other: VerifyOptions, later: bool) {
    && opts.Valid() && other.Valid() && other == opts.(now := other.now)
    && (if later then opts.now <= other.now else other.now <= opts.now)
  }

  lemma TimesMove(m: Object, opts: VerifyOptions, other: VerifyOptions, later: bool)
    requires Moved(opts, other, later) && CheckTimes(m, opts).Ok?
    ensures ClockOnly(CheckTimes(m, other), later)
  {
    hide CheckTimes;
    TimesRefused(m, opts);
    TimesRefused(m, other);
    TimesExact(m, opts);
    TimesExact(m, other);
  }

  lemma ClosingMoves(claims: Object, opts: VerifyOptions, other: VerifyOptions, later: bool)
    requires Moved(opts, other, later) && CheckClosing(claims, opts).Ok?
    ensures ClockOnly(CheckClosing(claims, other), later)
  {
    hide CheckClosing;
    ClosingRefused(claims, opts);
    ClosingRefused(claims, other);
  }

  lemma HopMoves(c: Codec, kind: HopKind, isLast: bool, claims: Object, mandate: Object, prev: Segment, root: Object,
                 opts: VerifyOptions, other: VerifyOptions, later: bool)
    requires Moved(opts, other, later) && CheckHop(c, kind, isLast, claims, mandate, prev, root, opts).Ok?
    ensures ClockOnly(CheckHop(c, kind, isLast, claims, mandate, prev, root, other), later)
  {
    hide CheckHop, CheckClosing, BoundTo, SameType;
    HopRefused(c, kind, isLast, claims, mandate, prev, root, opts);
    HopRefused(c, kind, isLast, claims, mandate, prev, root, other);
    if kind == Closing && CheckClosing(claims, opts).Ok? { ClosingMoves(claims, opts, other, later); }
  }

  lemma TurnMoves(c: Codec, rootKey: RootKey, opts: VerifyOptions, other: VerifyOptions, segments: seq<Segment>,
                  hops: seq<VerifiedHop>, later: bool)
    requires |hops| < |segments| && Cut(segments) && Moved(opts, other, later)
    requires VerifyHop(c, rootKey, opts, segments, hops).Ok?
    ensures SameButForClock(VerifyHop(c, rootKey, other, segments, hops), VerifyHop(c, rootKey, opts, segments, hops), later)
  {
    hide Decode, KindAndKey, Verify, ReadHop, CheckTimes, CheckHop, CheckOpenMandate;
    var hop := VerifyHop(c, rootKey, opts, segments, hops).value;
    TimesMove(hop.claims, opts, other, later);
    TimesMove(hop.mandate, opts, other, later);
    if hops != [] {
      HopMoves(c, hop.kind, |hops| == |segments| - 1, hop.claims, hop.mandate, segments[|hops| - 1], hops[0].mandate, opts, other, later);
    }
  }

  lemma {:induction false} LoopMoves(c: Codec, rootKey: RootKey, opts: VerifyOptions, other: VerifyOptions,
                                     segments: seq<Segment>, hops: seq<VerifiedHop>, later: bool)
    requires |hops| <= |segments| && Cut(segments) && Moved(opts, other, later)
    requires VerifyFrom(c, rootKey, opts, segments, hops).Ok?
    ensures SameButForClock(VerifyFrom(c, rootKey, other, segments, hops), VerifyFrom(c, rootKey, opts, segments, hops), later)
    decreases |segments| - |hops|
  {
    if |hops| < |segments| {
      hide VerifyHop;
      TurnMoves(c, rootKey, opts, other, segments, hops, later);
      LoopMoves(c, rootKey, opts, other, segments, hops + [VerifyHop(c, rootKey, opts, segments, hops).value], later);
    }
  }

  /** A chain that is accepted at one time is at any later time accepted with the same hops, or
      refused as expired or stale; and at any earlier time accepted, or refused as not yet
      valid. */
  lemma ClockMoves(c: Codec, chain: string, rootKey: RootKey, opts: VerifyOptions, now: int)
    requires opts.Valid() && I64_MIN <= now <= I64_MAX && VerifyChain(c, chain, rootKey, opts).Ok?
    ensures var r := VerifyChain(c, chain, rootKey, opts.(now := now));
            || r == VerifyChain(c, chain, rootKey, opts)
            || (if opts.now <= now then r == Err(Expired) || r == Err(Stale) else r == Err(NotYetValid))
  {
    SplitIsCut(chain);
    hide Split, VerifyFrom;
    LoopMoves(c, rootKey, opts, opts.(now := now), Split(chain).value, [], opts.now <= now);
  }
}
