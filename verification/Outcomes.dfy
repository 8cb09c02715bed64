/** What a pass means to the user: the closed mandate said this very call, and everything the
    mandates impose permits it. */
module Outcomes {
  import opened Results
  import opened Json
  import opened Codec
  import opened SdJwt
  import opened Resolution
  import opened Wire
  import opened Jws
  import opened Chain
  import opened ChainTheorems
  import opened Commitment
  import opened Constraints
  import opened Decisions
  import opened Permissions
  import opened Equality

  // ----- Verified mandates are well-formed -----

  lemma DecodedIsFormed(c: Codec, jwt: string)
    requires JsonSound(c) && Decode(c, jwt).Ok?
    ensures WellFormed(Obj(Decode(c, jwt).value.payload))
  {
    hide WellFormed;
  }

  lemma DisclosedIsFormed(c: Codec, segment: Segment, hop: VerifiedHop)
    requires JsonSound(c) && |segment.jwt| <= |segment.canonical| && Decode(c, segment.jwt).Ok? && Discloses(c, segment, hop)
    ensures WellFormed(Obj(hop.mandate))
  {
    var payload, ds := Decode(c, segment.jwt).value.payload, Disclosures(segment).value;
    DecodedIsFormed(c, segment.jwt);
    ResolvedIsClean(c, payload, ds);
    var m := Resolve(c, payload, ds).value;
    hide Resolve, Decode, Disclosures, JsonSound;
    MemberFormed(Obj(m), "delegate_payload");
    assert Arr([Obj(hop.mandate)]).items[0] in Arr([Obj(hop.mandate)]).items;
  }

  lemma VerifiedAreFormed(c: Codec, chain: string, rootKey: RootKey, opts: VerifyOptions)
    requires JsonSound(c) && opts.Valid() && VerifyChain(c, chain, rootKey, opts).Ok?
    ensures MandatesFormed(VerifyChain(c, chain, rootKey, opts).value)
  {
    var hops := VerifyChain(c, chain, rootKey, opts).value;
    AcceptedShape(c, chain, rootKey, opts);
    var segments := Split(chain).value;
    hide VerifyChain, Split, WellFormed, Discloses, SignedBy, Checked;
    forall i | 0 <= i < |hops| ensures WellFormed(Obj(hops[i].mandate)) {
      assert Linked(c, rootKey, opts, segments, hops, i);
      DecodedWhenSigned(c, rootKey, segments, hops, i);
      DisclosedIsFormed(c, segments[i], hops[i]);
    }
  }

  lemma DecodedWhenSigned(c: Codec, rootKey: RootKey, segments: seq<Segment>, hops: seq<VerifiedHop>, i: nat)
    requires i < |hops| == |segments| && Cut(segments) && Anchored(c, rootKey, segments, hops, i)
    ensures Decode(c, segments[i].jwt).Ok? && |segments[i].jwt| <= |segments[i].canonical|
  {
  }

  // ----- A pass -----

  /** A call passes only if every constraint of every authorizing hop permits it, by name and
      word, and the closed mandate states it. */
  lemma PassIsPermitted(config: Config, p: Presentation, call: Call, now: int, s: Stores)
    requires config.Valid() && I64_MIN <= now <= I64_MAX && NoLockErrors(s) && JsonSound(config.codec)
    requires Decide(config, Some(p), call, now, s).0.Pass?
    ensures var opts := VerifyOptions(p.aud, p.nonce, now, config.clockSkew, config.maxClosingAge);
            var r := VerifyChain(config.codec, p.chain, config.keyFor, opts);
            && r.Ok? && Shaped(r.value) && MandatesFormed(r.value)
            && Permitted(r.value, call) && AllRecognized(r.value) && States(r.value[|r.value| - 1].mandate, call)
  {
    var opts := VerifyOptions(p.aud, p.nonce, now, config.clockSkew, config.maxClosingAge);
    DecideExactly(config, p, call, now, s);
    VerifiedAreFormed(config.codec, p.chain, config.keyFor, opts);
    hide VerifyChain, Evaluate, Decide, States, Permitted, AllRecognized, MandatesFormed, Shaped;
    CoveredExactly(VerifyChain(config.codec, p.chain, config.keyFor, opts).value, call);
  }

  lemma StatedAreEqual(closed: Object, a: Call, b: Call)
    requires WellFormed(Obj(closed)) && WellFormed(Arr(a.authorizationDetails)) && WellFormed(Arr(b.authorizationDetails))
    requires States(closed, a) && States(closed, b)
    ensures a.rpc == b.rpc && a.taskId == b.taskId && JsonEq(Arr(a.authorizationDetails), Arr(b.authorizationDetails))
  {
    var details := Get(closed, "authorization_details").value;
    MemberFormed(Obj(closed), "authorization_details");
    JsonEqExactly(details, Arr(a.authorizationDetails));
    JsonEqExactly(details, Arr(b.authorizationDetails));
    JsonEqExactly(Arr(a.authorizationDetails), Arr(b.authorizationDetails));
    hide JsonEq, WellFormed, Arranged;
  }

  /** One closing hop, one call: two calls that pass with presentations closed by the same
      signing input have the same method, the same task and equal details, whoever verified
      them and whenever. */
  lemma OneClosingOneCall(configA: Config, p: Presentation, a: Call, nowA: int, s: Stores,
                          configB: Config, q: Presentation, b: Call, nowB: int, t: Stores)
    requires configA.Valid() && configB.Valid() && configA.codec == configB.codec
    requires I64_MIN <= nowA <= I64_MAX && I64_MIN <= nowB <= I64_MAX && NoLockErrors(s) && NoLockErrors(t)
    requires DigestSound(configA.codec) && JsonSound(configA.codec)
    requires WellFormed(Arr(a.authorizationDetails)) && WellFormed(Arr(b.authorizationDetails))
    requires Decide(configA, Some(p), a, nowA, s).0.Pass? && Decide(configB, Some(q), b, nowB, t).0.Pass?
    requires Split(p.chain).Ok? && Split(q.chain).Ok? && Split(p.chain).value != [] && Split(q.chain).value != []
    requires ClosingInput(Split(p.chain).value) == ClosingInput(Split(q.chain).value)
    ensures a.rpc == b.rpc && a.taskId == b.taskId && JsonEq(Arr(a.authorizationDetails), Arr(b.authorizationDetails))
  {
    var optsA := VerifyOptions(p.aud, p.nonce, nowA, configA.clockSkew, configA.maxClosingAge);
    var optsB := VerifyOptions(q.aud, q.nonce, nowB, configB.clockSkew, configB.maxClosingAge);
    hide Decide, VerifyChain, Split, States, Permitted, AllRecognized, WellFormed, ClosingInput, JsonEq;
    PassIsPermitted(configA, p, a, nowA, s);
    PassIsPermitted(configB, q, b, nowB, t);
    ClosingCommits(configA.codec, p.chain, configA.keyFor, optsA, q.chain, configB.keyFor, optsB);
    var hops := VerifyChain(configA.codec, p.chain, configA.keyFor, optsA).value;
    StatedAreEqual(hops[|hops| - 1].mandate, a, b);
  }
}
