/** Any number of concurrent `decide` calls over shared stores, with nonces issued, mandates
    revoked and locks poisoned in between: every store operation is one atomic step. */
module Interleaving {
  import opened Results
  import opened Json
  import opened Constraints
  import opened Decisions

  datatype Thread = Thread(job: Job, phase: Phase) {
    predicate Passed() { phase.Done? && phase.decision.Pass? }
  }

  datatype System = System(stores: Stores, threads: seq<Thread>)

  datatype Event =
    | IssueNonce(nonce: string)
    | RevokeHop(id: string)
    | StartCall(presentation: Option<Presentation>, call: Call, now: int)
    | RunThread(t: nat)
    | PoisonNonces
    | PoisonRevocations
    | PoisonUses

  const INITIAL: System := System(Stores({}, {}, map[], false, false, false), [])

  function Started(config: Config, presentation: Option<Presentation>, call: Call, now: int): Thread
    requires config.Valid() && I64_MIN <= now <= I64_MAX
  {
    match Prepare(config, presentation, call, now)
    case Decided(d) => Thread(Job([], Refuse(d), ""), Done(d))
    case Ready(job) => Thread(job, AfterReads(job, 0))
  }

  /** One step; a call at a time no `i64` can hold, or of a thread there is none of, is no step. */
  function Step(config: Config, sys: System, e: Event): System
    requires config.Valid()
  {
    var s := sys.stores;
    match e
    case IssueNonce(n) => if s.noncesPoisoned then sys else sys.(stores := s.(issued := s.issued + {n}))
    case RevokeHop(id) => if s.revocationsPoisoned then sys else sys.(stores := s.(revoked := s.revoked + {id}))
    case StartCall(p, call, now) =>
      if I64_MIN <= now <= I64_MAX then sys.(threads := sys.threads + [Started(config, p, call, now)]) else sys
    case RunThread(t) =>
      if t < |sys.threads| then
        var (phase, s') := Advance(sys.threads[t].job, sys.threads[t].phase, s);
        System(s', sys.threads[t := sys.threads[t].(phase := phase)])
      else sys
    case PoisonNonces => sys.(stores := s.(noncesPoisoned := true))
    case PoisonRevocations => sys.(stores := s.(revocationsPoisoned := true))
    case PoisonUses => sys.(stores := s.(usesPoisoned := true))
  }

  /** The system after a whole history of steps, from empty stores. */
  function Run(config: Config, events: seq<Event>): System
    requires config.Valid()
    decreases |events|
  {
    if events == [] then INITIAL else Step(config, Run(config, events[..|events| - 1]), events[|events| - 1])
  }

  // ----- Counting over threads -----

  function Sum(threads: seq<Thread>, weight: Thread -> nat): nat {
    if threads == [] then 0 else Sum(threads[..|threads| - 1], weight) + weight(threads[|threads| - 1])
  }

  lemma {:induction false} SumUpdated(threads: seq<Thread>, t: nat, x: Thread, weight: Thread -> nat)
    requires t < |threads|
    ensures Sum(threads[t := x], weight) + weight(threads[t]) == Sum(threads, weight) + weight(x)
  {
    var last := |threads| - 1;
    if t == last {
      assert threads[t := x][..last] == threads[..last];
    } else {
      assert threads[t := x][..last] == threads[..last][t := x];
      SumUpdated(threads[..last], t, x, weight);
    }
  }

  lemma SumAppended(threads: seq<Thread>, x: Thread, weight: Thread -> nat)
    ensures Sum(threads + [x], weight) == Sum(threads, weight) + weight(x)
  {
    assert (threads + [x])[..|threads|] == threads;
  }

  /** Calls that took the nonce `n` and have not been denied since. */
  function HoldsNonce(n: string): Thread -> nat {
    (t: Thread) => if t.job.nonce == n && (t.phase.AtUses? || t.Passed()) then 1 else 0
  }

  function PassesWithNonce(n: string): Thread -> nat {
    (t: Thread) => if t.job.nonce == n && t.Passed() then 1 else 0
  }

  function PassesUnderLimit(id: string, limit: nat): Thread -> nat {
    (t: Thread) => if t.Passed() && (id, limit) in t.job.UseLimits() then 1 else 0
  }

  /** How often `id` occurs in the limits. */
  function Entries(limits: Limits, id: string): nat {
    if limits == [] then 0 else (if limits[0].0 == id then 1 else 0) + Entries(limits[1..], id)
  }

  /** The entries of `id` a call recorded. */
  function UsesRecorded(id: string): Thread -> nat {
    (t: Thread) => if t.Passed() then Entries(t.job.UseLimits(), id) else 0
  }

  function IssuesOf(events: seq<Event>, n: string): nat {
    if events == [] then 0
    else IssuesOf(events[..|events| - 1], n) + (if events[|events| - 1] == IssueNonce(n) then 1 else 0)
  }

  lemma {:induction false} RecordedCounts(counts: Counts, limits: Limits, id: string)
    ensures CountOf(Recorded(counts, limits), id) == CountOf(counts, id) + Entries(limits, id)
    decreases |limits|
  {
    if limits != [] {
      RecordedCounts(counts[limits[0].0 := CountOf(counts, limits[0].0) + 1], limits[1..], id);
    }
  }

  lemma {:induction false} EntriesOfMember(limits: Limits, id: string, limit: nat)
    requires (id, limit) in limits
    ensures Entries(limits, id) >= 1
  {
    if limits[0] != (id, limit) {
      EntriesOfMember(limits[1..], id, limit);
    }
  }

  // ----- What every step keeps -----

  /** What one store operation of a call can do. */
  lemma AdvanceEffect(job: Job, phase: Phase, s: Stores)
    requires job.Formed() && !phase.Done?
    ensures var (p, s') := Advance(job, phase, s);
            && (p.Done? && p.decision.Pass? ==>
                  (phase.AtUses? && UsesLeft(s.counts, job.UseLimits()) && s' == s.(counts := Recorded(s.counts, job.UseLimits()))))
            && (p.AtUses? ==> (phase.AtNonce? && job.nonce in s.issued && s' == s.(issued := s.issued - {job.nonce})))
            && (!(p.Done? && p.decision.Pass?) && !p.AtUses? ==> s' == s)
  {
  }

  ghost predicate Kept(sys: System, events: seq<Event>) {
    && (forall t | t in sys.threads :: t.job.Formed())
    && (forall n :: Sum(sys.threads, HoldsNonce(n)) + (if n in sys.stores.issued then 1 else 0) <= IssuesOf(events, n))
    && (forall id :: CountOf(sys.stores.counts, id) == Sum(sys.threads, UsesRecorded(id)))
    && (forall id, k :: Sum(sys.threads, PassesUnderLimit(id, k)) <= k)
    && (forall id, k :: Sum(sys.threads, PassesUnderLimit(id, k)) <= CountOf(sys.stores.counts, id))
  }

  lemma StartedIsFormed(config: Config, presentation: Option<Presentation>, call: Call, now: int)
    requires config.Valid() && I64_MIN <= now <= I64_MAX
    ensures var t := Started(config, presentation, call, now); t.job.Formed() && !t.Passed() && !t.phase.AtUses?
  {
    PreparedIsFormed(config, presentation, call, now);
  }

  lemma RunKeeps(config: Config, sys: System, events: seq<Event>, t: nat)
    requires config.Valid() && Kept(sys, events) && t < |sys.threads| && !sys.threads[t].phase.Done?
    ensures Kept(Step(config, sys, RunThread(t)), events)
  {
    var thread, s, next := sys.threads[t], sys.stores, Step(config, sys, RunThread(t));
    var x := next.threads[t];
    AdvanceEffect(thread.job, thread.phase, s);
    forall u | u in next.threads ensures u.job.Formed() {
      assert u in sys.threads || u == x;
    }
    forall n
      ensures Sum(next.threads, HoldsNonce(n)) + (if n in next.stores.issued then 1 else 0) <= IssuesOf(events, n)
    {
      SumUpdated(sys.threads, t, x, HoldsNonce(n));
    }
    forall id
      ensures CountOf(next.stores.counts, id) == Sum(next.threads, UsesRecorded(id))
      ensures CountOf(next.stores.counts, id) >= CountOf(s.counts, id)
    {
      SumUpdated(sys.threads, t, x, UsesRecorded(id));
      RecordedCounts(s.counts, x.job.UseLimits(), id);
    }
    forall id, k
      ensures Sum(next.threads, PassesUnderLimit(id, k)) <= k
      ensures Sum(next.threads, PassesUnderLimit(id, k)) <= CountOf(next.stores.counts, id)
    {
      SumUpdated(sys.threads, t, x, PassesUnderLimit(id, k));
      if x.Passed() && (id, k) in x.job.UseLimits() {
        RecordedCounts(s.counts, x.job.UseLimits(), id);
        EntriesOfMember(x.job.UseLimits(), id, k);
      }
    }
  }

  lemma StartKeeps(config: Config, sys: System, events: seq<Event>, x: Thread)
    requires config.Valid() && Kept(sys, events) && x.job.Formed() && !x.Passed() && !x.phase.AtUses?
    ensures Kept(sys.(threads := sys.threads + [x]), events)
  {
    forall n ensures Sum(sys.threads + [x], HoldsNonce(n)) == Sum(sys.threads, HoldsNonce(n)) {
      SumAppended(sys.threads, x, HoldsNonce(n));
    }
    forall id ensures Sum(sys.threads + [x], UsesRecorded(id)) == Sum(sys.threads, UsesRecorded(id)) {
      SumAppended(sys.threads, x, UsesRecorded(id));
    }
    forall id, k ensures Sum(sys.threads + [x], PassesUnderLimit(id, k)) == Sum(sys.threads, PassesUnderLimit(id, k)) {
      SumAppended(sys.threads, x, PassesUnderLimit(id, k));
    }
  }

  lemma ThreadEventKeeps(config: Config, sys: System, events: seq<Event>, e: Event)
    requires config.Valid() && Kept(sys, events) && (e.RunThread? || e.StartCall?)
    ensures Kept(Step(config, sys, e), events)
  {
    match e {
      case RunThread(t) =>
        if t < |sys.threads| {
          if sys.threads[t].phase.Done? {
            assert sys.threads[t := sys.threads[t].(phase := sys.threads[t].phase)] == sys.threads;
          } else {
            RunKeeps(config, sys, events, t);
          }
        }
      case StartCall(p, call, now) =>
        if I64_MIN <= now <= I64_MAX {
          StartedIsFormed(config, p, call, now);
          StartKeeps(config, sys, events, Started(config, p, call, now));
        }
    }
  }

  /** Nonces issued, hops revoked, locks poisoned: no thread changes. */
  lemma StoreEventKeeps(config: Config, sys: System, before: seq<Event>, e: Event)
    requires config.Valid() && Kept(sys, before) && !e.RunThread? && !e.StartCall?
    ensures Kept(Step(config, sys, e), before + [e])
  {
    assert (before + [e])[..|before|] == before;
    assert forall n :: IssuesOf(before + [e], n) == IssuesOf(before, n) + (if e == IssueNonce(n) then 1 else 0);
  }

  lemma {:induction false} EveryRunKeeps(config: Config, events: seq<Event>)
    requires config.Valid()
    ensures Kept(Run(config, events), events)
    decreases |events|
  {
    if events != [] {
      var before := events[..|events| - 1];
      var sys, e := Run(config, before), events[|events| - 1];
      EveryRunKeeps(config, before);
      assert events == before + [e];
      if e.RunThread? || e.StartCall? {
        assert forall n :: IssuesOf(before, n) == IssuesOf(events, n);
        assert Kept(sys, events);
        ThreadEventKeeps(config, sys, events, e);
      } else {
        StoreEventKeeps(config, sys, before, e);
      }
    }
  }

  // ----- Safety of every run -----

  lemma {:induction false} PassesHoldNonces(threads: seq<Thread>, n: string)
    ensures Sum(threads, PassesWithNonce(n)) <= Sum(threads, HoldsNonce(n))
  {
    if threads != [] {
      PassesHoldNonces(threads[..|threads| - 1], n);
    }
  }

  /** In every run: no nonce passes more often than it was issued, no more calls pass under
      a limit than it allows, and the count of a mandate is the number of its entries in the
      limits of the calls that passed. */
  lemma RunIsSafe(config: Config, events: seq<Event>, n: string, id: string, limit: nat)
    requires config.Valid()
    ensures var sys := Run(config, events);
            && Sum(sys.threads, PassesWithNonce(n)) <= IssuesOf(events, n)
            && Sum(sys.threads, PassesUnderLimit(id, limit)) <= limit
            && CountOf(sys.stores.counts, id) == Sum(sys.threads, UsesRecorded(id))
  {
    EveryRunKeeps(config, events);
    PassesHoldNonces(Run(config, events).threads, n);
  }

  // ----- Counts and passes -----

  /** Calls that passed under at least one limit of `id`. */
  function PassesNaming(id: string): Thread -> nat {
    (t: Thread) => if t.Passed() && Entries(t.job.UseLimits(), id) > 0 then 1 else 0
  }

  predicate NamesOnce(t: Thread, id: string) {
    t.Passed() ==> Entries(t.job.UseLimits(), id) <= 1
  }

  lemma {:induction false} NamedOnceCountsOnce(threads: seq<Thread>, id: string)
    ensures Sum(threads, PassesNaming(id)) <= Sum(threads, UsesRecorded(id))
    ensures Sum(threads, PassesNaming(id)) == Sum(threads, UsesRecorded(id)) <==> forall t | t in threads :: NamesOnce(t, id)
  {
    if threads != [] {
      var before, last := threads[..|threads| - 1], threads[|threads| - 1];
      NamedOnceCountsOnce(before, id);
      assert threads == before + [last];
      AllNameOnce(before, last, id);
    }
  }

  lemma AllNameOnce(before: seq<Thread>, last: Thread, id: string)
    ensures (forall t | t in before + [last] :: NamesOnce(t, id)) <==> (forall t | t in before :: NamesOnce(t, id)) && NamesOnce(last, id)
  {
    assert last in before + [last] && forall t | t in before :: t in before + [last];
  }

  /** The count of a mandate is at least the number of calls that passed under it, and equal to
      it exactly when no call that passed had two entries of it. */
  lemma CountIsPassesExactly(config: Config, events: seq<Event>, id: string)
    requires config.Valid()
    ensures var sys := Run(config, events);
            && Sum(sys.threads, PassesNaming(id)) <= CountOf(sys.stores.counts, id)
            && (CountOf(sys.stores.counts, id) == Sum(sys.threads, PassesNaming(id))
                <==> forall t | t in sys.threads :: NamesOnce(t, id))
  {
    EveryRunKeeps(config, events);
    NamedOnceCountsOnce(Run(config, events).threads, id);
  }

  // ----- Revocation -----

  /** The call still has to ask whether `id` is revoked. */
  predicate YetToRead(thread: Thread, id: string) {
    thread.phase.Reading? && exists j | thread.phase.next <= j < |thread.job.ids| :: thread.job.ids[j] == id
  }

  /** The call cannot pass any more. */
  predicate Doomed(thread: Thread, id: string) {
    thread.job.Formed() && (YetToRead(thread, id) || (thread.phase.Done? && !thread.Passed()))
  }

  /** Revoked, or unreadable. */
  predicate Closed(s: Stores, id: string) {
    id in s.revoked || s.revocationsPoisoned
  }

  lemma DoomedStaysDoomed(thread: Thread, s: Stores, id: string)
    requires Closed(s, id) && Doomed(thread, id)
    ensures Doomed(thread.(phase := Advance(thread.job, thread.phase, s).0), id)
  {
  }

  lemma StepKeepsDoomed(config: Config, sys: System, e: Event, t: nat, id: string)
    requires config.Valid() && Closed(sys.stores, id)
    requires t < |sys.threads| && Doomed(sys.threads[t], id)
    ensures var next := Step(config, sys, e);
            Closed(next.stores, id) && t < |next.threads| && Doomed(next.threads[t], id)
  {
    DoomedStaysDoomed(sys.threads[t], sys.stores, id);
  }

  lemma StartedIsDoomed(config: Config, sys: System, e: Event, id: string)
    requires config.Valid()
    ensures var next := Step(config, sys, e);
            |next.threads| > |sys.threads| && id in next.threads[|sys.threads|].job.ids ==> Doomed(next.threads[|sys.threads|], id)
  {
    if e.StartCall? && I64_MIN <= e.now <= I64_MAX {
      StartedIsFormed(config, e.presentation, e.call, e.now);
    }
  }

  lemma StepKeepsClosed(config: Config, sys: System, e: Event, id: string)
    requires config.Valid()
    ensures Closed(sys.stores, id) || e == RevokeHop(id) ==> Closed(Step(config, sys, e).stores, id)
    ensures |sys.threads| <= |Step(config, sys, e).threads| <= |sys.threads| + 1
    ensures forall t | 0 <= t < |sys.threads| :: Step(config, sys, e).threads[t].job == sys.threads[t].job
  {
  }

  /** Once `id` was revoked (the first `m` events end with it), a call that relies on it and
      had yet to read its revocation, or had yet to start, never passes. */
  lemma {:induction false} RevokedNeverPasses(config: Config, events: seq<Event>, m: nat, t: nat, id: string)
    requires config.Valid() && 0 < m <= |events| && events[m - 1] == RevokeHop(id)
    requires t < |Run(config, events).threads| && id in Run(config, events).threads[t].job.ids
    requires var mid := Run(config, events[..m]); t < |mid.threads| ==> YetToRead(mid.threads[t], id)
    ensures Closed(Run(config, events).stores, id) && Doomed(Run(config, events).threads[t], id)
    ensures !Run(config, events).threads[t].Passed()
    decreases |events|
  {
    var before := events[..|events| - 1];
    var sys, e := Run(config, before), events[|events| - 1];
    StepKeepsClosed(config, sys, e, id);
    if |events| == m {
      assert events[..m] == events;
      EveryRunKeeps(config, events);
      assert Run(config, events).threads[t] in Run(config, events).threads;
    } else {
      assert before[..m] == events[..m];
      ClosedSince(config, before, m, id);
      if t < |sys.threads| {
        RevokedNeverPasses(config, before, m, t, id);
        StepKeepsDoomed(config, sys, e, t, id);
      } else {
        StartedIsDoomed(config, sys, e, id);
      }
    }
  }

  lemma {:induction false} ClosedSince(config: Config, events: seq<Event>, m: nat, id: string)
    requires config.Valid() && 0 < m <= |events| && events[m - 1] == RevokeHop(id)
    ensures Closed(Run(config, events).stores, id)
    decreases |events|
  {
    var before := events[..|events| - 1];
    StepKeepsClosed(config, Run(config, before), events[|events| - 1], id);
    if |events| > m {
      ClosedSince(config, before, m, id);
    }
  }

  // ----- Uninterrupted calls -----

  /** The system after thread `t` alone took `k` steps. */
  function RunOnly(config: Config, sys: System, t: nat, k: nat): System
    requires config.Valid()
    decreases k
  {
    if k == 0 then sys else RunOnly(config, Step(config, sys, RunThread(t)), t, k - 1)
  }

  /** A call no other step comes between ends with the decision, and leaves the stores, of
      the uninterrupted `decide`. */
  lemma {:induction false} AloneIsDecide(config: Config, sys: System, t: nat, k: nat)
    requires config.Valid() && t < |sys.threads| && Rank(sys.threads[t].job, sys.threads[t].phase) <= k
    ensures var thread := sys.threads[t];
            var (d, s') := RunAlone(thread.job, thread.phase, sys.stores);
            RunOnly(config, sys, t, k) == System(s', sys.threads[t := thread.(phase := Done(d))])
    decreases k
  {
    var thread := sys.threads[t];
    if k == 0 {
      assert sys.threads == sys.threads[t := thread];
    } else {
      var next := Step(config, sys, RunThread(t));
      AdvanceProgresses(thread.job, thread.phase, sys.stores);
      AloneIsDecide(config, next, t, k - 1);
      var (d, s') := RunAlone(thread.job, thread.phase, sys.stores);
      assert next.threads[t := thread.(phase := Done(d))] == sys.threads[t := thread.(phase := Done(d))];
    }
  }
}
