/** What the stores hold after any history of interleaved steps, read off the history; and the
    safety of a run in numbers of calls. */
module Histories {
  import opened Results
  import opened Json
  import opened Chain
  import opened Constraints
  import opened Decisions
  import opened Interleaving

  // ----- The stores -----

  lemma RunSnoc(config: Config, events: seq<Event>)
    requires config.Valid() && events != []
    ensures Run(config, events) == Interleaving.Step(config, Run(config, events[..|events| - 1]), events[|events| - 1])
  {
    hide Interleaving.Step;
  }

  /** What a call's own step does to the stores, its counts aside. */
  lemma AdvanceStores(job: Job, phase: Phase, s: Stores)
    ensures var s' := Advance(job, phase, s).1;
            && s'.noncesPoisoned == s.noncesPoisoned && s'.revocationsPoisoned == s.revocationsPoisoned
            && s'.usesPoisoned == s.usesPoisoned && s'.revoked == s.revoked
            && s'.issued == if phase == AtNonce && !s.noncesPoisoned then s.issued - {job.nonce} else s.issued
  {
    hide UsesLeft, Recorded;
  }

  /** What a step does to them. */
  lemma StepStores(config: Config, sys: System, e: Event)
    requires config.Valid()
    ensures var s, s' := sys.stores, Interleaving.Step(config, sys, e).stores;
            && (s'.noncesPoisoned <==> s.noncesPoisoned || e == PoisonNonces)
            && (s'.revocationsPoisoned <==> s.revocationsPoisoned || e == PoisonRevocations)
            && (s'.usesPoisoned <==> s.usesPoisoned || e == PoisonUses)
            && s'.revoked == (if e.RevokeHop? && !s.revocationsPoisoned then s.revoked + {e.id} else s.revoked)
            && s'.issued == if s.noncesPoisoned then s.issued
                            else if e.IssueNonce? then s.issued + {e.nonce}
                            else if e.RunThread? && e.t < |sys.threads| && sys.threads[e.t].phase == AtNonce
                            then s.issued - {sys.threads[e.t].job.nonce}
                            else s.issued
  {
    if e.RunThread? && e.t < |sys.threads| { AdvanceStores(sys.threads[e.t].job, sys.threads[e.t].phase, sys.stores); }
    hide Advance, Started;
  }

  /** A lock is poisoned exactly once that has happened. */
  lemma {:induction false} PoisonExactly(config: Config, events: seq<Event>)
    requires config.Valid()
    ensures var s := Run(config, events).stores;
            && (s.noncesPoisoned <==> PoisonNonces in events)
            && (s.revocationsPoisoned <==> PoisonRevocations in events)
            && (s.usesPoisoned <==> PoisonUses in events)
    decreases |events|
  {
    if events != [] {
      var before, e := events[..|events| - 1], events[|events| - 1];
      PoisonExactly(config, before);
      RunSnoc(config, events);
      StepStores(config, Run(config, before), e);
      hide Run, Interleaving.Step;
      assert events == before + [e];
    }
  }

  /** At step `i`, `id` was revoked while the lock still worked. */
  predicate RevokedAt(events: seq<Event>, i: nat, id: string) {
    i < |events| && events[i] == RevokeHop(id) && PoisonRevocations !in events[..i]
  }

  ghost predicate EverRevoked(events: seq<Event>, id: string) {
    exists i: nat :: RevokedAt(events, i, id)
  }

  /** A hop is revoked exactly when at some time it was, for good. */
  lemma {:induction false} RevokedExactly(config: Config, events: seq<Event>, id: string)
    requires config.Valid()
    ensures id in Run(config, events).stores.revoked <==> EverRevoked(events, id)
    decreases |events|
  {
    if events != [] {
      var before, n := events[..|events| - 1], |events| - 1;
      RevokedExactly(config, before, id);
      PoisonExactly(config, before);
      RunSnoc(config, events);
      StepStores(config, Run(config, before), events[n]);
      hide Run, Interleaving.Step;
      assert events == before + [events[n]];
      assert forall i | 0 <= i < n :: before[..i] == events[..i];
      if i: nat :| RevokedAt(before, i, id) { assert RevokedAt(events, i, id); }
      if i: nat :| RevokedAt(events, i, id) && i < n { assert RevokedAt(before, i, id); }
      assert id in Run(config, events).stores.revoked <==> id in Run(config, before).stores.revoked || RevokedAt(events, n, id);
    }
  }

  /** Step `i` is a call taking the nonce `n`. */
  predicate TakesNonce(config: Config, events: seq<Event>, i: nat, n: string)
    requires config.Valid()
  {
    && i < |events| && events[i].RunThread? && PoisonNonces !in events[..i]
    && var threads := Run(config, events[..i]).threads;
    && events[i].t < |threads| && threads[events[i].t].phase == AtNonce && threads[events[i].t].job.nonce == n
  }

  predicate IssuedAt(events: seq<Event>, i: nat, n: string) {
    i < |events| && events[i] == IssueNonce(n) && PoisonNonces !in events[..i]
  }

  /** Issued at `i` and not taken since. */
  ghost predicate LiveSince(config: Config, events: seq<Event>, i: nat, n: string)
    requires config.Valid()
  {
    IssuedAt(events, i, n) && forall j: nat | i < j :: !TakesNonce(config, events, j, n)
  }

  lemma IssueStep(config: Config, events: seq<Event>, n: string)
    requires config.Valid() && events != []
    ensures n in Run(config, events).stores.issued
       <==> || IssuedAt(events, |events| - 1, n)
            || (n in Run(config, events[..|events| - 1]).stores.issued && !TakesNonce(config, events, |events| - 1, n))
  {
    PoisonExactly(config, events[..|events| - 1]);
    RunSnoc(config, events);
    StepStores(config, Run(config, events[..|events| - 1]), events[|events| - 1]);
    hide Run, Interleaving.Step;
  }

  lemma LiveEarlier(config: Config, events: seq<Event>, i: nat, n: string)
    requires config.Valid() && i < |events| - 1
    ensures LiveSince(config, events, i, n)
       <==> LiveSince(config, events[..|events| - 1], i, n) && !TakesNonce(config, events, |events| - 1, n)
  {
    var before := events[..|events| - 1];
    hide Run;
    forall j: nat | j < |before| ensures before[..j] == events[..j] && TakesNonce(config, before, j, n) == TakesNonce(config, events, j, n) {
      assert before[..j] == events[..j];
    }
    if LiveSince(config, events, i, n) {
      forall j: nat | i < j ensures !TakesNonce(config, before, j, n) {
        assert !TakesNonce(config, events, j, n);
      }
    }
    if LiveSince(config, before, i, n) && !TakesNonce(config, events, |events| - 1, n) {
      forall j: nat | i < j ensures !TakesNonce(config, events, j, n) {
        assert !TakesNonce(config, before, j, n);
      }
    }
  }

  ghost predicate Live(config: Config, events: seq<Event>, n: string)
    requires config.Valid()
  {
    exists i: nat :: LiveSince(config, events, i, n)
  }

  /** A nonce is live exactly when it was issued and no call has taken it since. */
  lemma {:induction false} LiveExactly(config: Config, events: seq<Event>, n: string)
    requires config.Valid()
    ensures n in Run(config, events).stores.issued <==> Live(config, events, n)
    decreases |events|
  {
    if events != [] {
      var last := |events| - 1;
      LiveExactly(config, events[..last], n);
      IssueStep(config, events, n);
      hide Run, TakesNonce;
      if IssuedAt(events, last, n) { LastIsLive(config, events, n); }
      forall i: nat | i < last
        ensures LiveSince(config, events, i, n) <==> LiveSince(config, events[..last], i, n) && !TakesNonce(config, events, last, n)
      {
        LiveEarlier(config, events, i, n);
      }
      assert forall i: nat | LiveSince(config, events[..last], i, n) :: i < last;
      assert forall i: nat | LiveSince(config, events, i, n) :: i <= last;
    }
  }

  lemma LastIsLive(config: Config, events: seq<Event>, n: string)
    requires config.Valid() && events != [] && IssuedAt(events, |events| - 1, n)
    ensures LiveSince(config, events, |events| - 1, n)
  {
    hide Run;
  }

  // ----- Numbers of calls -----

  /** The calls that have passed with the nonce `n`. */
  function PassedWith(threads: seq<Thread>, n: string): set<nat> {
    set t: nat | t < |threads| && threads[t].phase.Done? && threads[t].phase.decision.Pass? && threads[t].job.nonce == n
  }

  /** The calls that have passed under a limit of `limit` uses of `id`. */
  function PassedUnder(threads: seq<Thread>, id: string, limit: nat): set<nat> {
    set t: nat |
      && t < |threads| && threads[t].phase.Done? && threads[t].phase.decision.Pass?
      && threads[t].job.verdict.Consume? && (id, limit) in threads[t].job.verdict.limits
  }

  function TimesIssued(events: seq<Event>, n: string): set<nat> {
    set i: nat | i < |events| && events[i] == IssueNonce(n)
  }

  lemma {:induction false} PassedWithCounts(threads: seq<Thread>, n: string)
    ensures |PassedWith(threads, n)| == Sum(threads, PassesWithNonce(n))
  {
    if threads != [] {
      var last := |threads| - 1;
      PassedWithCounts(threads[..last], n);
      assert PassedWith(threads, n) == PassedWith(threads[..last], n) + if PassesWithNonce(n)(threads[last]) == 1 then {last} else {};
    }
  }

  lemma {:induction false} PassedUnderCounts(threads: seq<Thread>, id: string, limit: nat)
    ensures |PassedUnder(threads, id, limit)| == Sum(threads, PassesUnderLimit(id, limit))
  {
    if threads != [] {
      var last := |threads| - 1;
      PassedUnderCounts(threads[..last], id, limit);
      assert PassedUnder(threads, id, limit)
          == PassedUnder(threads[..last], id, limit) + if PassesUnderLimit(id, limit)(threads[last]) == 1 then {last} else {};
    }
  }

  lemma {:induction false} TimesIssuedCounts(events: seq<Event>, n: string)
    ensures |TimesIssued(events, n)| == IssuesOf(events, n)
  {
    if events != [] {
      var last := |events| - 1;
      TimesIssuedCounts(events[..last], n);
      assert TimesIssued(events, n) == TimesIssued(events[..last], n) + if events[last] == IssueNonce(n) then {last} else {};
    }
  }

  /** In every history no more calls pass with a nonce than it was issued times, and no more
      pass under a limit than it allows. */
  lemma NoMorePasses(config: Config, events: seq<Event>, n: string, id: string, limit: nat)
    requires config.Valid()
    ensures |PassedWith(Run(config, events).threads, n)| <= |TimesIssued(events, n)|
    ensures |PassedUnder(Run(config, events).threads, id, limit)| <= limit
  {
    hide Run;
    RunIsSafe(config, events, n, id, limit);
    PassedWithCounts(Run(config, events).threads, n);
    PassedUnderCounts(Run(config, events).threads, id, limit);
    TimesIssuedCounts(events, n);
  }

  // ----- A call that may pass does -----

  /** Mandates of which none was ever revoked, closed for this call and covering it with uses
      left, and a nonce that is live. */
  ghost predicate Entitled(config: Config, events: seq<Event>, hops: seq<VerifiedHop>, call: Call, nonce: string)
    requires config.Valid() && Shaped(hops)
  {
    && (forall i | 0 <= i < |hops| - 1 :: !EverRevoked(events, hops[i].id))
    && States(hops[|hops| - 1].mandate, call)
    && Evaluate(hops, call).Covered? && !SomeLimitReached(Evaluate(hops, call).limits, Run(config, events).stores)
    && Live(config, events, nonce)
  }

  predicate NoPoison(events: seq<Event>) {
    PoisonNonces !in events && PoisonRevocations !in events && PoisonUses !in events
  }

  lemma EntitledDecision(config: Config, events: seq<Event>, p: Presentation, hops: seq<VerifiedHop>, call: Call, now: int)
    requires config.Valid() && I64_MIN <= now <= I64_MAX && NoPoison(events)
    requires VerifyChain(config.codec, p.chain, config.keyFor, config.Options(p, now)) == Ok(hops)
    requires Shaped(hops) && Entitled(config, events, hops, call, p.nonce)
    ensures Decide(config, Some(p), call, now, Run(config, events).stores).0.Pass?
  {
    hide VerifyChain, Run, Decide, States, SomeLimitReached, Shaped, Evaluate, EverRevoked, Live;
    PoisonExactly(config, events);
    LiveExactly(config, events, p.nonce);
    forall i | 0 <= i < |hops| - 1 ensures hops[i].id !in Run(config, events).stores.revoked {
      RevokedExactly(config, events, hops[i].id);
    }
    DecideExactly(config, p, call, now, Run(config, events).stores);
  }

  /** After every history without lock errors, a call that is entitled passes once it is started
      and left alone. */
  lemma EntitledPasses(config: Config, events: seq<Event>, p: Presentation, hops: seq<VerifiedHop>, call: Call, now: int, k: nat)
    requires config.Valid() && I64_MIN <= now <= I64_MAX && NoPoison(events)
    requires VerifyChain(config.codec, p.chain, config.keyFor, config.Options(p, now)) == Ok(hops)
    requires Shaped(hops) && Entitled(config, events, hops, call, p.nonce)
    ensures var sys, t := Run(config, events + [StartCall(Some(p), call, now)]), |Run(config, events).threads|;
            && |sys.threads| == t + 1
            && (Rank(sys.threads[t].job, sys.threads[t].phase) <= k ==>
                  |RunOnly(config, sys, t, k).threads| == t + 1 && RunOnly(config, sys, t, k).threads[t].Passed())
  {
    var e := StartCall(Some(p), call, now);
    var sys0, sys := Run(config, events), Run(config, events + [e]);
    RunSnoc(config, events + [e]);
    assert (events + [e])[..|events|] == events;
    EntitledDecision(config, events, p, hops, call, now);
    var t := |sys0.threads|;
    assert sys == System(sys0.stores, sys0.threads + [Started(config, Some(p), call, now)]);
    StartedDecides(config, p, call, now, sys0.stores);
    hide Run, Started, Entitled, Decide, RunAlone, RunOnly, Interleaving.Step, VerifyChain, Shaped;
    if Rank(sys.threads[t].job, sys.threads[t].phase) <= k {
      AloneIsDecide(config, sys, t, k);
    }
  }

  lemma StartedDecides(config: Config, p: Presentation, call: Call, now: int, s: Stores)
    requires config.Valid() && I64_MIN <= now <= I64_MAX
    ensures var thread := Started(config, Some(p), call, now);
            RunAlone(thread.job, thread.phase, s) == Decide(config, Some(p), call, now, s)
  {
    hide Prepare;
  }
}
