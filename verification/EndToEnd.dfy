/** From signed mandates to passes: the limits and the revocations of a mandate hold for every
    chain that relies on it, in every run. */
module EndToEnd {
  import opened Results
  import opened Json
  import opened Codec
  import opened SdJwt
  import opened Wire
  import opened Chain
  import opened ChainTheorems
  import opened Commitment
  import opened Constraints
  import opened Permissions
  import opened Decisions
  import opened Interleaving

  function Verified(config: Config, p: Presentation, now: int): Result<seq<VerifiedHop>> {
    VerifyChain(config.codec, p.chain, config.keyFor, VerifyOptions(p.aud, p.nonce, now, config.clockSkew, config.maxClosingAge))
  }

  /** At `now` the presented chain is accepted, and hop `i` of it is an authorizing hop whose JWT
      has the signing input `x`. */
  ghost predicate Authorizes(config: Config, p: Presentation, now: int, i: nat, x: string) {
    && I64_MIN <= now <= I64_MAX && Verified(config, p, now).Ok?
    && i < |Verified(config, p, now).value| - 1
    && i < |Split(p.chain).value| && SigningInput(Split(p.chain).value[i].jwt) == x
  }

  /** The call was started with an accepted chain that relies on the mandate signed as `x`. */
  ghost predicate ReliesOn(config: Config, job: Job, x: string)
    requires config.Valid()
  {
    exists p, call, now, i :: Authorizes(config, p, now, i, x) && Prepare(config, Some(p), call, now) == Ready(job)
  }

  /** The mandate limits its uses to `n`. */
  ghost predicate LimitsTo(hop: VerifiedHop, n: nat) {
    exists c :: Imposes(hop, c) && LimitsUses(c, n)
  }

  // ----- From hops to identifiers -----

  lemma {:induction false} AuthorizingIdsHas(hops: seq<VerifiedHop>, i: nat)
    requires i < |hops| && !hops[i].kind.Closing?
    ensures hops[i].id in AuthorizingIds(hops)
  {
    if i > 0 { AuthorizingIdsHas(hops[1..], i - 1); }
  }

  lemma AuthorizingHop(config: Config, p: Presentation, now: int, i: nat, x: string)
    requires config.Valid() && Authorizes(config, p, now, i, x)
    ensures Shaped(Verified(config, p, now).value) && Verified(config, p, now).value[i].id == config.codec.digest(x)
    ensures config.codec.digest(x) in AuthorizingIds(Verified(config, p, now).value)
  {
    var hops := Verified(config, p, now).value;
    AcceptedShape(config.codec, p.chain, config.keyFor, config.Options(p, now));
    assert Linked(config.codec, config.keyFor, config.Options(p, now), Split(p.chain).value, hops, i);
    AuthorizingIdsHas(hops, i);
  }

  // ----- From constraints to limits -----

  /** A call that can pass is limited by every limit of every authorizing hop. */
  lemma PassingJobIsLimited(config: Config, p: Presentation, call: Call, now: int, i: nat, x: string, n: nat, job: Job)
    requires config.Valid() && Authorizes(config, p, now, i, x) && Prepare(config, Some(p), call, now) == Ready(job)
    requires LimitsTo(Verified(config, p, now).value[i], n) && job.verdict.Consume?
    ensures (config.codec.digest(x), n) in job.UseLimits()
  {
    var hops := Verified(config, p, now).value;
    AuthorizingHop(config, p, now, i, x);
    var c :| Imposes(hops[i], c) && LimitsUses(c, n);
    assert ImposedAt(hops, i, c);
    hide VerifyChain, Authorizes, Evaluate, LimitsTo, LimitsUses, Imposes;
    assert Evaluate(hops, call).Covered? && job.UseLimits() == Evaluate(hops, call).limits;
    LimitsAreImposed(hops, call, config.codec.digest(x), n);
  }

  // ----- Where calls come from -----

  /** The call was started with a chain that was accepted then. */
  ghost predicate Presented(config: Config, job: Job)
    requires config.Valid()
  {
    exists p, call, now :: I64_MIN <= now <= I64_MAX && Prepare(config, Some(p), call, now) == Ready(job)
  }

  /** A call that is not yet denied was presented a chain, and passes only by its verdict. */
  ghost predicate Founded(config: Config, t: Thread)
    requires config.Valid()
  {
    && t.job.Formed()
    && ((t.phase.Done? && !t.Passed()) || Presented(config, t.job))
    && (t.Passed() ==> t.job.verdict.Consume?)
  }

  lemma StartedIsFounded(config: Config, p: Option<Presentation>, call: Call, now: int)
    requires config.Valid() && I64_MIN <= now <= I64_MAX
    ensures Founded(config, Started(config, p, call, now))
  {
    PreparedIsFormed(config, p, call, now);
    hide VerifyChain;
    match Prepare(config, p, call, now)
    case Decided(d) => assert Started(config, p, call, now).phase == Done(d);
    case Ready(job) => assert p.Some? && Prepare(config, Some(p.value), call, now) == Ready(job);
  }

  lemma StaysFounded(config: Config, t: Thread, s: Stores)
    requires config.Valid() && Founded(config, t)
    ensures Founded(config, t.(phase := Advance(t.job, t.phase, s).0))
  {
    hide Presented;
  }

  lemma StepKeepsFounded(config: Config, sys: System, e: Event, t: nat)
    requires config.Valid() && (forall u | u in sys.threads :: Founded(config, u)) && t < |Interleaving.Step(config, sys, e).threads|
    ensures Founded(config, Interleaving.Step(config, sys, e).threads[t])
  {
    hide Founded, Started, Advance;
    if t < |sys.threads| {
      assert sys.threads[t] in sys.threads;
      StaysFounded(config, sys.threads[t], sys.stores);
    } else {
      StartedIsFounded(config, e.presentation, e.call, e.now);
    }
  }

  /** In every run, every call that passes was started with a chain that was accepted, and its
      verdict grants it. */
  lemma {:induction false} EveryCallIsFounded(config: Config, events: seq<Event>)
    requires config.Valid()
    ensures forall t | t in Run(config, events).threads :: Founded(config, t)
    decreases |events|
  {
    if events != [] {
      var sys, e := Run(config, events[..|events| - 1]), events[|events| - 1];
      EveryCallIsFounded(config, events[..|events| - 1]);
      hide Founded;
      forall i | 0 <= i < |Run(config, events).threads| ensures Founded(config, Run(config, events).threads[i]) {
        StepKeepsFounded(config, sys, e, i);
      }
    }
  }

  // ----- Limits -----

  /** Calls that passed relying on the mandate signed as `x`. */
  ghost function PassesOn(config: Config, x: string): Thread -> nat
    requires config.Valid()
  {
    (t: Thread) => if t.Passed() && ReliesOn(config, t.job, x) then 1 else 0
  }

  /** A mandate is what its signing input says, so a limit seen in one chain holds in all. */
  lemma LimitEverywhere(config: Config, p: Presentation, now: int, i: nat, x: string, n: nat, t: Thread)
    requires config.Valid() && DigestSound(config.codec) && Authorizes(config, p, now, i, x)
    requires LimitsTo(Verified(config, p, now).value[i], n)
    requires t.job.verdict.Consume? && ReliesOn(config, t.job, x)
    ensures (config.codec.digest(x), n) in t.job.UseLimits()
  {
    var q, call, later, j :| Authorizes(config, q, later, j, x) && Prepare(config, Some(q), call, later) == Ready(t.job);
    AuthorizingHop(config, p, now, i, x);
    AuthorizingHop(config, q, later, j, x);
    IdFixesMandate(config.codec, p.chain, config.keyFor, config.Options(p, now), i,
                   q.chain, config.keyFor, config.Options(q, later), j);
    PassingJobIsLimited(config, q, call, later, j, x, n, t.job);
  }

  lemma {:induction false} SumAtMost(threads: seq<Thread>, a: Thread -> nat, b: Thread -> nat)
    requires forall t | t in threads :: a(t) <= b(t)
    ensures Sum(threads, a) <= Sum(threads, b)
  {
    if threads != [] {
      var before, last := threads[..|threads| - 1], threads[|threads| - 1];
      assert threads == before + [last];
      SumAtMost(before, a, b);
    }
  }

  /** A use limit is kept end to end: once some accepted chain shows that the mandate signed as
      `x` allows `n` uses, no run has more than `n` passing calls that rely on that mandate, in
      whatever chains, interleaved in whatever way. */
  lemma MandateLimitHolds(config: Config, events: seq<Event>, p: Presentation, now: int, i: nat, x: string, n: nat)
    requires config.Valid() && DigestSound(config.codec) && Authorizes(config, p, now, i, x)
    requires LimitsTo(Verified(config, p, now).value[i], n)
    ensures Sum(Run(config, events).threads, PassesOn(config, x)) <= n
  {
    var threads, id := Run(config, events).threads, config.codec.digest(x);
    RunIsSafe(config, events, "", id, n);
    EveryCallIsFounded(config, events);
    hide Run, Founded, Authorizes, LimitsTo, PassesOn, PassesUnderLimit;
    forall t | t in threads ensures PassesOn(config, x)(t) <= PassesUnderLimit(id, n)(t) {
      PassIsLimited(config, p, now, i, x, n, t);
    }
    SumAtMost(threads, PassesOn(config, x), PassesUnderLimit(id, n));
  }

  lemma PassIsLimited(config: Config, p: Presentation, now: int, i: nat, x: string, n: nat, t: Thread)
    requires config.Valid() && DigestSound(config.codec) && Authorizes(config, p, now, i, x)
    requires LimitsTo(Verified(config, p, now).value[i], n) && Founded(config, t)
    ensures PassesOn(config, x)(t) <= PassesUnderLimit(config.codec.digest(x), n)(t)
  {
    hide Authorizes, LimitsTo, ReliesOn, Verified, DigestSound, Presented;
    if t.Passed() && ReliesOn(config, t.job, x) {
      LimitEverywhere(config, p, now, i, x, n, t);
    }
  }

  // ----- Revocation -----

  lemma ReliesOnId(config: Config, job: Job, x: string)
    requires config.Valid() && ReliesOn(config, job, x)
    ensures config.codec.digest(x) in job.ids
  {
    var p, call, now, i :| Authorizes(config, p, now, i, x) && Prepare(config, Some(p), call, now) == Ready(job);
    AuthorizingHop(config, p, now, i, x);
  }

  /** Revocation end to end: once the mandate signed as `x` was revoked, a call that relies on it
      passes in no run if it started later or had yet to read that revocation. */
  lemma RevokedMandateNeverPasses(config: Config, events: seq<Event>, m: nat, t: nat, x: string)
    requires config.Valid() && 0 < m <= |events| && events[m - 1] == RevokeHop(config.codec.digest(x))
    requires t < |Run(config, events).threads| && ReliesOn(config, Run(config, events).threads[t].job, x)
    requires var mid := Run(config, events[..m]); t < |mid.threads| ==> YetToRead(mid.threads[t], config.codec.digest(x))
    ensures !Run(config, events).threads[t].Passed()
  {
    ReliesOnId(config, Run(config, events).threads[t].job, x);
    RevokedNeverPasses(config, events, m, t, config.codec.digest(x));
  }
}
