/** The closing hop commits to the whole chain, and a fixed chain is accepted during one
    interval of clock values. */
module Commitment {
  import opened Results
  import opened Json
  import opened Codec
  import opened Wire
  import opened SdJwt
  import opened Resolution
  import opened Jws
  import opened Chain
  import opened ChainTheorems

  lemma AcceptedLinks(c: Codec, chain: string, rootKey: RootKey, opts: VerifyOptions)
    requires opts.Valid() && VerifyChain(c, chain, rootKey, opts).Ok?
    ensures Split(chain).Ok? && AllLinked(c, rootKey, opts, Split(chain).value, VerifyChain(c, chain, rootKey, opts).value)
    ensures 2 <= |Split(chain).value| <= MAX_HOPS
  {
    AcceptedExactly(c, chain, rootKey, opts, VerifyChain(c, chain, rootKey, opts).value);
    SplitIsCut(chain);
  }

  lemma LinkedShape(c: Codec, rootKey: RootKey, opts: VerifyOptions, segments: seq<Segment>, hops: seq<VerifiedHop>,
                    i: nat)
    requires i < |hops| && AllLinked(c, rootKey, opts, segments, hops)
    ensures hops[i].kind == KindAt(i, |hops|) && Get(hops[i].mandate, "vct") == Get(hops[0].mandate, "vct")
  {
    hide Get, SignedBy, Discloses, InTime, BoundTo, AddressedTo;
    assert Linked(c, rootKey, opts, segments, hops, 0) && Linked(c, rootKey, opts, segments, hops, i);
  }

  /** An accepted chain always has 2 to 8 hops: a root, delegations, a closing hop. */
  lemma AcceptedShape(c: Codec, chain: string, rootKey: RootKey, opts: VerifyOptions)
    requires opts.Valid() && VerifyChain(c, chain, rootKey, opts).Ok?
    ensures var hops := VerifyChain(c, chain, rootKey, opts).value;
            && 2 <= |hops| <= MAX_HOPS && Split(chain).Ok? && AllLinked(c, rootKey, opts, Split(chain).value, hops)
            && (forall i | 0 <= i < |hops| :: hops[i].kind == KindAt(i, |hops|))
            && (forall i | 0 <= i < |hops| :: Get(hops[i].mandate, "vct") == Get(hops[0].mandate, "vct"))
  {
    hide VerifyChain, Split, Get, KindAt, Linked;
    var hops := VerifyChain(c, chain, rootKey, opts).value;
    AcceptedLinks(c, chain, rootKey, opts);
    var segments := Split(chain).value;
    forall i | 0 <= i < |hops|
      ensures hops[i].kind == KindAt(i, |hops|) && Get(hops[i].mandate, "vct") == Get(hops[0].mandate, "vct")
    {
      LinkedShape(c, rootKey, opts, segments, hops, i);
    }
  }

  // ----- Commitment -----

  /** The same signing input: the same verified hop, the same place in its chain when it is a
      root, and the same JWT before it otherwise. */
  lemma SameInputSameHop(c: Codec, keyA: RootKey, optsA: VerifyOptions, a: seq<Segment>, g: seq<VerifiedHop>, i: nat,
                         keyB: RootKey, optsB: VerifyOptions, b: seq<Segment>, h: seq<VerifiedHop>, j: nat)
    requires DigestSound(c) && JwtsFirst(a) && JwtsFirst(b)
    requires AllLinked(c, keyA, optsA, a, g) && i < |g|
    requires AllLinked(c, keyB, optsB, b, h) && j < |h|
    requires SigningInput(a[i].jwt) == SigningInput(b[j].jwt)
    ensures g[i] == h[j] && (i == 0 <==> j == 0)
    ensures i > 0 ==> a[i - 1].jwt == b[j - 1].jwt
    ensures Disclosures(a[i]).Ok? && Disclosures(b[j]).Ok?
    ensures multiset(Disclosures(a[i]).value) == multiset(Disclosures(b[j]).value)
  {
    assert Linked(c, keyA, optsA, a, g, i) && Linked(c, keyB, optsB, b, h, j);
    hide SigningInput, SignedBy, Discloses, Disclosures, TypOf;
    SameInputSameDisclosed(c, a[i], g[i], KeyAt(c, keyA, g, i).value, b[j], h[j], KeyAt(c, keyB, h, j).value);
    TypFixesKind(g[i].kind, h[j].kind, AsStr(Get(g[i].header, "typ")));
    if i > 0 {
      BindingFixesJwt(c, g[i].claims, a[i - 1], b[j - 1]);
    }
  }

  lemma TypFixesKind(a: HopKind, b: HopKind, typ: Option<string>)
    requires TypOf(a, typ) && TypOf(b, typ)
    ensures a == b
  {
    assert |DC_SD_JWT| == 9 && |EXAMPLE_SD_JWT| == 14 && |TYP_DELEGATION| == 12 && |TYP_CLOSING| == 9;
    assert DC_SD_JWT[0] != TYP_CLOSING[0];
  }

  lemma SameInputSameDisclosed(c: Codec, a: Segment, x: VerifiedHop, keyA: PublicJwk, b: Segment, y: VerifiedHop, keyB: PublicJwk)
    requires DigestSound(c) && |a.jwt| <= |a.canonical| && |b.jwt| <= |b.canonical|
    requires SignedBy(c, a.jwt, keyA, x.header) && SignedBy(c, b.jwt, keyB, y.header)
    requires Discloses(c, a, x) && Discloses(c, b, y) && SigningInput(a.jwt) == SigningInput(b.jwt)
    ensures x.header == y.header && x.claims == y.claims && x.mandate == y.mandate
    ensures Disclosures(a).Ok? && Disclosures(b).Ok?
    ensures multiset(Disclosures(a).value) == multiset(Disclosures(b).value)
  {
    hide SigningInput, Disclosures, Resolve, Decode;
    SameInputSameContents(c, a.jwt, b.jwt);
    ResolutionDetermined(c, Decode(c, a.jwt).value.payload, Disclosures(a).value, Disclosures(b).value);
  }

  /** The binding of a hop fixes the JWT of the one before. */
  lemma BindingFixesJwt(c: Codec, claims: Object, a: Segment, b: Segment)
    requires DigestSound(c) && BoundTo(c, claims, a) && BoundTo(c, claims, b)
    requires a.jwt == JwtOf(a.canonical) && b.jwt == JwtOf(b.canonical)
    ensures a.jwt == b.jwt
  {
  }

  predicate JwtsFirst(segments: seq<Segment>) {
    forall i | 0 <= i < |segments| :: segments[i].jwt == JwtOf(segments[i].canonical)
  }

  lemma SplitJwtsFirst(chain: string)
    requires Split(chain).Ok?
    ensures JwtsFirst(Split(chain).value)
  {
    SplitIsJoin(chain);
    var segs := Split(chain).value;
    forall i | 0 <= i < |segs| ensures segs[i].jwt == JwtOf(segs[i].canonical) {
      assert Parsed(Canonicals(segs))[i] == segs[i];
    }
  }

  /** The first `n` hops are the same, and so are all their JWTs but the last. */
  predicate AgreeUpTo(a: seq<Segment>, g: seq<VerifiedHop>, b: seq<Segment>, h: seq<VerifiedHop>, n: nat)
    requires n <= |a| == |g| && n <= |b| == |h|
  {
    && (forall k | 0 <= k < n :: g[k] == h[k])
    && (forall k | 0 <= k < n - 1 :: a[k].jwt == b[k].jwt)
  }

  /** Going back from equal signing inputs at `i` and `j`, both chains reach their root at
      the same time, and agree on every hop on the way. */
  lemma {:induction false} StepBack(c: Codec, keyA: RootKey, optsA: VerifyOptions, a: seq<Segment>,
                                    g: seq<VerifiedHop>, i: nat,
                                    keyB: RootKey, optsB: VerifyOptions, b: seq<Segment>, h: seq<VerifiedHop>, j: nat)
    requires DigestSound(c) && JwtsFirst(a) && JwtsFirst(b)
    requires AllLinked(c, keyA, optsA, a, g) && i < |g|
    requires AllLinked(c, keyB, optsB, b, h) && j < |h|
    requires SigningInput(a[i].jwt) == SigningInput(b[j].jwt)
    ensures i == j && AgreeUpTo(a, g, b, h, i + 1)
  {
    hide Linked, JwtsFirst, Disclosures, SigningInput, DigestSound, AgreeUpTo;
    StartAgrees(a, g, b, h);
    SameInputSameHop(c, keyA, optsA, a, g, i, keyB, optsB, b, h, j);
    if i > 0 {
      StepBack(c, keyA, optsA, a, g, i - 1, keyB, optsB, b, h, j - 1);
      AgreeFurther(a, g, b, h, i);
    }
  }

  lemma StartAgrees(a: seq<Segment>, g: seq<VerifiedHop>, b: seq<Segment>, h: seq<VerifiedHop>)
    ensures 0 < |a| == |g| && 0 < |b| == |h| && g[0] == h[0] ==> AgreeUpTo(a, g, b, h, 1)
  {
  }

  lemma AgreeFurther(a: seq<Segment>, g: seq<VerifiedHop>, b: seq<Segment>, h: seq<VerifiedHop>, n: nat)
    requires 0 < n < |a| == |g| && n < |b| == |h|
    requires AgreeUpTo(a, g, b, h, n) && g[n] == h[n] && a[n - 1].jwt == b[n - 1].jwt
    ensures AgreeUpTo(a, g, b, h, n + 1)
  {
  }

  function ClosingInput(segments: seq<Segment>): string
    requires segments != []
  {
    SigningInput(segments[|segments| - 1].jwt)
  }

  predicate SameJwtsBefore(a: seq<Segment>, b: seq<Segment>) {
    |a| == |b| && forall k | 0 <= k < |a| - 1 :: a[k].jwt == b[k].jwt
  }

  lemma LinkedCommit(c: Codec, keyA: RootKey, optsA: VerifyOptions, a: seq<Segment>, g: seq<VerifiedHop>,
                     keyB: RootKey, optsB: VerifyOptions, b: seq<Segment>, h: seq<VerifiedHop>)
    requires DigestSound(c) && JwtsFirst(a) && JwtsFirst(b) && a != [] && b != []
    requires AllLinked(c, keyA, optsA, a, g) && AllLinked(c, keyB, optsB, b, h)
    requires ClosingInput(a) == ClosingInput(b)
    ensures g == h && SameJwtsBefore(a, b)
  {
    StepBack(c, keyA, optsA, a, g, |g| - 1, keyB, optsB, b, h, |h| - 1);
  }

  /** The closing hop commits to the chain: two accepted chains whose closing JWTs have the
      same signing input have the same length, the same earlier JWTs and the same verified
      hops, whatever keys and clocks they were verified with. */
  lemma ClosingCommits(c: Codec, chainA: string, keyA: RootKey, optsA: VerifyOptions,
                       chainB: string, keyB: RootKey, optsB: VerifyOptions)
    requires DigestSound(c) && optsA.Valid() && optsB.Valid()
    requires VerifyChain(c, chainA, keyA, optsA).Ok? && VerifyChain(c, chainB, keyB, optsB).Ok?
    requires Split(chainA).value != [] && Split(chainB).value != []
    requires ClosingInput(Split(chainA).value) == ClosingInput(Split(chainB).value)
    ensures VerifyChain(c, chainA, keyA, optsA) == VerifyChain(c, chainB, keyB, optsB)
    ensures SameJwtsBefore(Split(chainA).value, Split(chainB).value)
  {
    AcceptedLinks(c, chainA, keyA, optsA);
    AcceptedLinks(c, chainB, keyB, optsB);
    SplitJwtsFirst(chainA);
    SplitJwtsFirst(chainB);
    LinkedCommit(c, keyA, optsA, Split(chainA).value, VerifyChain(c, chainA, keyA, optsA).value,
                 keyB, optsB, Split(chainB).value, VerifyChain(c, chainB, keyB, optsB).value);
  }

  /** Equal hop identifiers mean the same verified hop at the same place, disclosed by the
      same disclosures up to order, across any two accepted chains. */
  lemma IdFixesMandate(c: Codec, chainA: string, keyA: RootKey, optsA: VerifyOptions, i: nat,
                       chainB: string, keyB: RootKey, optsB: VerifyOptions, j: nat)
    requires DigestSound(c) && optsA.Valid() && optsB.Valid()
    requires VerifyChain(c, chainA, keyA, optsA).Ok? && VerifyChain(c, chainB, keyB, optsB).Ok?
    requires i < |VerifyChain(c, chainA, keyA, optsA).value| && j < |VerifyChain(c, chainB, keyB, optsB).value|
    requires VerifyChain(c, chainA, keyA, optsA).value[i].id == VerifyChain(c, chainB, keyB, optsB).value[j].id
    ensures VerifyChain(c, chainA, keyA, optsA).value[i] == VerifyChain(c, chainB, keyB, optsB).value[j] && i == j
    ensures i < |Split(chainA).value| && i < |Split(chainB).value| && Cut(Split(chainA).value) && Cut(Split(chainB).value)
    ensures Disclosures(Split(chainA).value[i]).Ok? && Disclosures(Split(chainB).value[i]).Ok?
    ensures multiset(Disclosures(Split(chainA).value[i]).value) == multiset(Disclosures(Split(chainB).value[i]).value)
  {
    var g, h := VerifyChain(c, chainA, keyA, optsA).value, VerifyChain(c, chainB, keyB, optsB).value;
    var a, b := Split(chainA).value, Split(chainB).value;
    AcceptedLinks(c, chainA, keyA, optsA);
    AcceptedLinks(c, chainB, keyB, optsB);
    SplitJwtsFirst(chainA);
    SplitJwtsFirst(chainB);
    SameIdSameInput(c, keyA, optsA, a, g, i, keyB, optsB, b, h, j);
    StepBack(c, keyA, optsA, a, g, i, keyB, optsB, b, h, j);
    SameInputSameHop(c, keyA, optsA, a, g, i, keyB, optsB, b, h, j);
  }

  lemma SameIdSameInput(c: Codec, keyA: RootKey, optsA: VerifyOptions, a: seq<Segment>, g: seq<VerifiedHop>, i: nat,
                        keyB: RootKey, optsB: VerifyOptions, b: seq<Segment>, h: seq<VerifiedHop>, j: nat)
    requires DigestSound(c) && AllLinked(c, keyA, optsA, a, g) && AllLinked(c, keyB, optsB, b, h)
    requires i < |g| && j < |h| && g[i].id == h[j].id
    ensures SigningInput(a[i].jwt) == SigningInput(b[j].jwt)
  {
    assert Linked(c, keyA, optsA, a, g, i) && Linked(c, keyB, optsB, b, h, j);
  }

  // ----- The acceptance window -----

  function Max(a: int, b: int): int { if a < b then b else a }
  function Min(a: int, b: int): int { if a < b then a else b }

  function TimeOr(m: Object, name: string, default: int): int {
    match Get(m, name) case Some(v) => (if v.Int? then v.i else default) case None => default
  }

  /** The earliest and the latest clock value one object of claims allows. */
  function Earliest(m: Object, skew: int): int {
    Max(TimeOr(m, "iat", I64_MIN), TimeOr(m, "nbf", I64_MIN)) - skew
  }

  function Latest(m: Object, skew: int): int {
    TimeOr(m, "exp", I64_MAX) + skew
  }

  /** Over all hops: the latest of the starts, and the earliest of the ends. */
  function WindowStart(hops: seq<VerifiedHop>, skew: int): int {
    if hops == [] then I64_MIN
    else Max(Max(Earliest(hops[0].claims, skew), Earliest(hops[0].mandate, skew)), WindowStart(hops[1..], skew))
  }

  function WindowEnd(hops: seq<VerifiedHop>, skew: int): int {
    if hops == [] then I64_MAX
    else Min(Min(Latest(hops[0].claims, skew), Latest(hops[0].mandate, skew)), WindowEnd(hops[1..], skew))
  }

  /** The closing hop's age limit ends the window too. */
  function ClosingEnd(hops: seq<VerifiedHop>, age: int): int
    requires hops != []
  {
    TimeOr(hops[|hops| - 1].claims, "iat", I64_MIN) + age
  }

  predicate IntegerTimes(m: Object) {
    IntegerOrAbsent(m, "exp") && IntegerOrAbsent(m, "iat") && IntegerOrAbsent(m, "nbf")
  }

  lemma InTimeExactly(m: Object, opts: VerifyOptions)
    requires opts.Valid() && IntegerTimes(m)
    ensures InTime(m, opts) <==> Earliest(m, opts.clockSkew) <= opts.now <= Latest(m, opts.clockSkew)
  {
  }

  predicate HopInTime(hop: VerifiedHop, opts: VerifyOptions) {
    InTime(hop.claims, opts) && InTime(hop.mandate, opts)
  }

  lemma HopInTimeExactly(hop: VerifiedHop, opts: VerifyOptions)
    requires opts.Valid() && IntegerTimes(hop.claims) && IntegerTimes(hop.mandate)
    ensures HopInTime(hop, opts)
       <==> Max(Earliest(hop.claims, opts.clockSkew), Earliest(hop.mandate, opts.clockSkew)) <= opts.now
            <= Min(Latest(hop.claims, opts.clockSkew), Latest(hop.mandate, opts.clockSkew))
  {
    InTimeExactly(hop.claims, opts);
    InTimeExactly(hop.mandate, opts);
    hide InTime, IntegerTimes, Earliest, Latest;
  }

  lemma AllInTime(hops: seq<VerifiedHop>, opts: VerifyOptions)
    requires hops != []
    ensures (forall i | 0 <= i < |hops| :: HopInTime(hops[i], opts))
       <==> HopInTime(hops[0], opts) && (forall i | 0 <= i < |hops| - 1 :: HopInTime(hops[1..][i], opts))
  {
    hide HopInTime;
    assert forall i | 0 <= i < |hops| - 1 :: hops[1..][i] == hops[i + 1];
  }

  lemma {:induction false} WindowExactly(hops: seq<VerifiedHop>, opts: VerifyOptions)
    requires opts.Valid() && forall i | 0 <= i < |hops| :: IntegerTimes(hops[i].claims) && IntegerTimes(hops[i].mandate)
    ensures (forall i | 0 <= i < |hops| :: HopInTime(hops[i], opts))
       <==> WindowStart(hops, opts.clockSkew) <= opts.now <= WindowEnd(hops, opts.clockSkew)
  {
    if hops != [] {
      hide HopInTime, IntegerTimes, Earliest, Latest;
      HopInTimeExactly(hops[0], opts);
      WindowExactly(hops[1..], opts);
      AllInTime(hops, opts);
    }
  }

  /** Everything but the clock, at one hop. */
  lemma LinkedAtAnotherTime(c: Codec, rootKey: RootKey, opts: VerifyOptions, now: int, segments: seq<Segment>,
                            hops: seq<VerifiedHop>, i: nat)
    requires i < |hops| == |segments| && 1 < |hops| && Cut(segments) && Linked(c, rootKey, opts, segments, hops, i)
    ensures Linked(c, rootKey, opts.(now := now), segments, hops, i)
       <==> HopInTime(hops[i], opts.(now := now))
            && (i == |hops| - 1 ==> now <= ClosingEnd(hops, opts.maxClosingAge))
  {
    var later := opts.(now := now);
    if i > 0 {
      FollowsAtAnotherTime(c, hops[i], segments[i - 1], hops[0], opts, now);
    }
    assert Linked(c, rootKey, later, segments, hops, i) <==> Checked(c, later, segments, hops, i);
  }

  lemma FollowsAtAnotherTime(c: Codec, hop: VerifiedHop, prev: Segment, root: VerifiedHop, opts: VerifyOptions,
                             now: int)
    requires Follows(c, hop, prev, root, opts)
    ensures Follows(c, hop, prev, root, opts.(now := now))
       <==> (hop.kind.Closing? ==> now <= TimeOr(hop.claims, "iat", I64_MIN) + opts.maxClosingAge)
  {
  }

  /** A chain that is accepted at some time is accepted, with the same hops, at exactly the
      clock values of one interval. */
  lemma AcceptedDuringWindow(c: Codec, chain: string, rootKey: RootKey, opts: VerifyOptions, now: int)
    requires opts.Valid() && opts.(now := now).Valid() && VerifyChain(c, chain, rootKey, opts).Ok?
    ensures var hops := VerifyChain(c, chain, rootKey, opts).value;
            && hops != []
            && (VerifyChain(c, chain, rootKey, opts.(now := now)) == Ok(hops)
                <==> WindowStart(hops, opts.clockSkew) <= now <= WindowEnd(hops, opts.clockSkew)
                     && now <= ClosingEnd(hops, opts.maxClosingAge))
            && (VerifyChain(c, chain, rootKey, opts.(now := now)).Ok?
                ==> VerifyChain(c, chain, rootKey, opts.(now := now)) == Ok(hops))
  {
    var later := opts.(now := now);
    var hops, segments := VerifyChain(c, chain, rootKey, opts).value, Split(chain).value;
    AcceptedShape(c, chain, rootKey, opts);
    AcceptedExactly(c, chain, rootKey, later, hops);
    forall i | 0 <= i < |hops|
      ensures IntegerTimes(hops[i].claims) && IntegerTimes(hops[i].mandate)
      ensures Linked(c, rootKey, later, segments, hops, i)
         <==> HopInTime(hops[i], later)
              && (i == |hops| - 1 ==> now <= ClosingEnd(hops, opts.maxClosingAge))
    {
      assert Linked(c, rootKey, opts, segments, hops, i);
      LinkedAtAnotherTime(c, rootKey, opts, now, segments, hops, i);
    }
    WindowExactly(hops, later);
    if VerifyChain(c, chain, rootKey, later).Ok? {
      SameHopsAtAnyTime(c, chain, rootKey, opts, later);
    }
  }

  lemma SameHopsAtAnyTime(c: Codec, chain: string, rootKey: RootKey, opts: VerifyOptions, later: VerifyOptions)
    requires opts.Valid() && later.Valid()
    requires VerifyChain(c, chain, rootKey, opts).Ok? && VerifyChain(c, chain, rootKey, later).Ok?
    ensures VerifyChain(c, chain, rootKey, opts) == VerifyChain(c, chain, rootKey, later)
  {
    var g, h := VerifyChain(c, chain, rootKey, opts).value, VerifyChain(c, chain, rootKey, later).value;
    var segments := Split(chain).value;
    AcceptedShape(c, chain, rootKey, opts);
    AcceptedShape(c, chain, rootKey, later);
    forall i | 0 <= i < |g| ensures g[i] == h[i] {
      assert Linked(c, rootKey, opts, segments, g, i) && Linked(c, rootKey, later, segments, h, i);
    }
    assert g == h;
  }
}
