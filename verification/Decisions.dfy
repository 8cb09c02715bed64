/** How one call is decided (lib.rs of the decision engine): what is fixed before the stores
    are asked, and the atomic store operations that follow, one after the other. */
module Decisions {
  import opened Results
  import opened Json
  import opened Codec
  import opened Chain
  import opened Commitment
  import opened Constraints

  datatype DenyReason = InvalidCredential | InvalidMandate | Denied

  datatype ChallengeReason = ApprovalRequired | UnresolvedConstraint

  datatype Decision =
    | Pass(mandateId: string, purpose: Option<string>, release: Release)
    | Deny(reason: DenyReason)
    | Challenge(why: ChallengeReason)

  datatype Presentation = Presentation(chain: string, aud: string, nonce: string)

  /** What an engine is configured with, besides its stores. */
  datatype Config = Config(codec: Codec, keyFor: RootKey, clockSkew: int, maxClosingAge: int) {
    predicate Valid() {
      0 <= clockSkew <= 0xFFFF_FFFF && 0 <= maxClosingAge <= 0xFFFF_FFFF
    }

    function Options(p: Presentation, now: int): VerifyOptions {
      VerifyOptions(p.aud, p.nonce, now, clockSkew, maxClosingAge)
    }
  }

  predicate DescribesCall(closed: Object, call: Call) {
    && AsStr(Get(closed, "method")) == Some(call.rpc)
    && AsStr(Get(closed, "task_id")) == Some(call.taskId)
    && match Get(closed, "authorization_details")
       case Some(Arr(details)) => JsonEq(Arr(details), Arr(call.authorizationDetails))
       case _ => false
  }

  function AuthorizingIds(hops: seq<VerifiedHop>): seq<string> {
    if hops == [] then []
    else (if hops[0].kind.Closing? then [] else [hops[0].id]) + AuthorizingIds(hops[1..])
  }

  // ----- Before the stores -----

  /** What follows when no authorizing hop is revoked. */
  datatype Verdict = Refuse(decision: Decision) | Consume(limits: Limits, grant: Decision)

  datatype Job = Job(ids: seq<string>, verdict: Verdict, nonce: string) {
    /** Only a job that consumes can pass. */
    predicate Formed() {
      match verdict case Refuse(d) => !d.Pass? case Consume(_, grant) => grant.Pass?
    }

    function UseLimits(): Limits {
      match verdict case Refuse(_) => [] case Consume(limits, _) => limits
    }
  }

  datatype Prepared = Decided(decision: Decision) | Ready(job: Job)

  function VerdictOn(hops: seq<VerifiedHop>, call: Call): Verdict
    requires Shaped(hops)
  {
    if !DescribesCall(hops[|hops| - 1].mandate, call) then Refuse(Deny(InvalidMandate))
    else
      match Evaluate(hops, call)
      case Covered(purpose, limits) => Consume(limits, Pass(hops[0].id, purpose, call.release))
      case Refused => Refuse(Deny(InvalidMandate))
      case Unresolved => Refuse(Challenge(UnresolvedConstraint))
  }

  lemma VerifiedIsShaped(config: Config, p: Presentation, now: int)
    requires config.Valid() && I64_MIN <= now <= I64_MAX
    ensures var r := VerifyChain(config.codec, p.chain, config.keyFor, config.Options(p, now)); r.Ok? ==> Shaped(r.value)
  {
    if VerifyChain(config.codec, p.chain, config.keyFor, config.Options(p, now)).Ok? {
      AcceptedShape(config.codec, p.chain, config.keyFor, config.Options(p, now));
    }
  }

  function Prepare(config: Config, presentation: Option<Presentation>, call: Call, now: int): Prepared
    requires config.Valid() && I64_MIN <= now <= I64_MAX
  {
    match presentation
    case None => Decided(Challenge(ApprovalRequired))
    case Some(p) =>
      VerifiedIsShaped(config, p, now);
      match VerifyChain(config.codec, p.chain, config.keyFor, config.Options(p, now))
      case Err(_) => Decided(Deny(InvalidCredential))
      case Ok(hops) => Ready(Job(AuthorizingIds(hops), VerdictOn(hops, call), p.nonce))
  }

  lemma PreparedIsFormed(config: Config, presentation: Option<Presentation>, call: Call, now: int)
    requires config.Valid() && I64_MIN <= now <= I64_MAX
    ensures match Prepare(config, presentation, call, now) case Decided(d) => !d.Pass? case Ready(job) => job.Formed()
  {
    if presentation.Some? { VerifiedIsShaped(config, presentation.value, now); }
  }

  // ----- The stores, and the operations on them -----

  type Counts = map<string, nat>

  /** The contents behind the three mutexes, and which of them are poisoned. */
  datatype Stores = Stores(issued: set<string>, revoked: set<string>, counts: Counts,
                           noncesPoisoned: bool, revocationsPoisoned: bool, usesPoisoned: bool)

  function CountOf(counts: Counts, id: string): nat {
    if id in counts then counts[id] else 0
  }

  predicate UsesLeft(counts: Counts, limits: Limits) {
    forall i | 0 <= i < |limits| :: CountOf(counts, limits[i].0) < limits[i].1
  }

  /** One use more for every entry. */
  function Recorded(counts: Counts, limits: Limits): Counts
    decreases |limits|
  {
    if limits == [] then counts
    else Recorded(counts[limits[0].0 := CountOf(counts, limits[0].0) + 1], limits[1..])
  }

  datatype Phase = Reading(next: nat) | AtNonce | AtUses | Done(decision: Decision)

  function AfterReads(job: Job, read: nat): Phase {
    if read < |job.ids| then Reading(read)
    else match job.verdict case Refuse(d) => Done(d) case Consume(_, _) => AtNonce
  }

  /** One atomic store operation of a call; a poisoned lock ends the call in a denial. */
  function Advance(job: Job, phase: Phase, s: Stores): (Phase, Stores) {
    match phase
    case Reading(i) =>
      if s.revocationsPoisoned then (Done(Deny(Denied)), s)
      else if i < |job.ids| && job.ids[i] in s.revoked then (Done(Deny(InvalidMandate)), s)
      else (AfterReads(job, i + 1), s)
    case AtNonce =>
      if s.noncesPoisoned then (Done(Deny(Denied)), s)
      else if job.nonce in s.issued then (AtUses, s.(issued := s.issued - {job.nonce}))
      else (Done(Deny(InvalidCredential)), s)
    case AtUses =>
      if s.usesPoisoned then (Done(Deny(Denied)), s)
      else if job.verdict.Consume? && UsesLeft(s.counts, job.verdict.limits) then
        (Done(job.verdict.grant), s.(counts := Recorded(s.counts, job.verdict.limits)))
      else (Done(Deny(InvalidMandate)), s)
    case Done(_) => (phase, s)
  }

  function Rank(job: Job, phase: Phase): nat {
    match phase
    case Reading(i) => 3 + (if i < |job.ids| then |job.ids| - i else 0)
    case AtNonce => 2
    case AtUses => 1
    case Done(_) => 0
  }

  lemma AdvanceProgresses(job: Job, phase: Phase, s: Stores)
    ensures phase.Done? || Rank(job, Advance(job, phase, s).0) < Rank(job, phase)
  {
  }

  /** A call that runs without interruption. */
  function RunAlone(job: Job, phase: Phase, s: Stores): (Decision, Stores)
    decreases Rank(job, phase)
  {
    match phase
    case Done(d) => (d, s)
    case _ =>
      AdvanceProgresses(job, phase, s);
      var (phase', s') := Advance(job, phase, s);
      RunAlone(job, phase', s')
  }

  /** `Engine::decide`, uninterrupted. */
  function Decide(config: Config, presentation: Option<Presentation>, call: Call, now: int, s: Stores): (Decision,
                  Stores)
    requires config.Valid() && I64_MIN <= now <= I64_MAX
  {
    match Prepare(config, presentation, call, now)
    case Decided(d) => (d, s)
    case Ready(job) => RunAlone(job, AfterReads(job, 0), s)
  }

  // ----- What an uninterrupted decision comes to -----

  predicate NoLockErrors(s: Stores) {
    !s.noncesPoisoned && !s.revocationsPoisoned && !s.usesPoisoned
  }

  /** Everything that must be true of the stores for a job to pass. */
  predicate StoresAllow(job: Job, s: Stores) {
    && (forall i | 0 <= i < |job.ids| :: job.ids[i] !in s.revoked)
    && job.nonce in s.issued && UsesLeft(s.counts, job.UseLimits())
  }

  predicate NoneRevokedFrom(job: Job, i: nat, s: Stores) {
    forall j | i <= j < |job.ids| :: job.ids[j] !in s.revoked
  }

  lemma {:induction false} ReadsDecide(job: Job, i: nat, s: Stores)
    requires !s.revocationsPoisoned && i <= |job.ids|
    ensures RunAlone(job, AfterReads(job, i), s)
         == if NoneRevokedFrom(job, i, s) then RunAlone(job, AfterReads(job, |job.ids|), s) else (Deny(InvalidMandate), s)
    decreases |job.ids| - i
  {
    if i < |job.ids| && job.ids[i] !in s.revoked {
      ReadsDecide(job, i + 1, s);
    }
  }

  /** The reads as one step: a poisoned lock, then a revoked hop, then the rest of the job. */
  lemma ReadsOutcome(job: Job, s: Stores)
    ensures RunAlone(job, AfterReads(job, 0), s)
         == if s.revocationsPoisoned && job.ids != [] then (Deny(Denied), s)
            else if exists id | id in job.ids :: id in s.revoked then (Deny(InvalidMandate), s)
            else RunAlone(job, AfterReads(job, |job.ids|), s)
  {
    if job.ids != [] && !s.revocationsPoisoned {
      ReadsDecide(job, 0, s);
      if !NoneRevokedFrom(job, 0, s) {
        var j :| 0 <= j < |job.ids| && job.ids[j] in s.revoked;
        assert job.ids[j] in job.ids;
      }
    }
  }

  /** The stores after a pass: the nonce gone, and one use more for every limit. */
  function Spent(job: Job, s: Stores): Stores
    requires job.verdict.Consume?
  {
    s.(issued := s.issued - {job.nonce}, counts := Recorded(s.counts, job.verdict.limits))
  }

  /** The job gets as far as its nonce, and finds it live. */
  predicate BurnsNonce(job: Job, s: Stores) {
    job.verdict.Consume? && NoneRevokedFrom(job, 0, s) && job.nonce in s.issued
  }

  /** An uninterrupted job without lock errors: it passes exactly when its verdict consumes
      and the stores allow it; passing burns the nonce and records every use; finding the
      uses spent burns only the nonce; any other outcome changes nothing. */
  lemma JobOutcome(job: Job, s: Stores)
    requires NoLockErrors(s) && job.Formed()
    ensures var (d, s') := RunAlone(job, AfterReads(job, 0), s);
            && (d.Pass? <==> job.verdict.Consume? && StoresAllow(job, s))
            && (d.Pass? ==> d == job.verdict.grant && s' == Spent(job, s))
            && (!d.Pass? ==> s' == if BurnsNonce(job, s) then s.(issued := s.issued - {job.nonce}) else s)
  {
    ReadsDecide(job, 0, s);
    if NoneRevokedFrom(job, 0, s) && job.verdict.Consume? {
      var (p1, s1) := Advance(job, AtNonce, s);
      assert RunAlone(job, AtNonce, s) == RunAlone(job, p1, s1);
      if job.nonce in s.issued {
        var (p2, s2) := Advance(job, AtUses, s1);
        assert RunAlone(job, AtUses, s1) == RunAlone(job, p2, s2);
      }
    }
  }

  /** The closed mandate states this call: its method, its task, and details equal to its own. */
  ghost predicate States(closed: Object, call: Call) {
    && Get(closed, "method") == Some(Str(call.rpc)) && Get(closed, "task_id") == Some(Str(call.taskId))
    && exists details :: Get(closed, "authorization_details") == Some(Arr(details)) && JsonEq(Arr(details), Arr(call.authorizationDetails))
  }

  lemma DescribesExactly(closed: Object, call: Call)
    ensures DescribesCall(closed, call) <==> States(closed, call)
  {
    hide JsonEq;
  }

  predicate SomeRevoked(hops: seq<VerifiedHop>, s: Stores) {
    exists i | 0 <= i < |hops| - 1 :: hops[i].id in s.revoked
  }

  predicate SomeLimitReached(limits: Limits, s: Stores) {
    exists i | 0 <= i < |limits| :: var (id, n) := limits[i]; (if id in s.counts then s.counts[id] else 0) >= n
  }

  /** The decision on a verified chain, question by question. */
  ghost function Outcome(hops: seq<VerifiedHop>, call: Call, nonce: string, s: Stores): Decision
    requires Shaped(hops)
  {
    if SomeRevoked(hops, s) || !States(hops[|hops| - 1].mandate, call) then Deny(InvalidMandate)
    else
      match Evaluate(hops, call)
      case Refused => Deny(InvalidMandate)
      case Unresolved => Challenge(UnresolvedConstraint)
      case Covered(purpose, limits) =>
        if nonce !in s.issued then Deny(InvalidCredential)
        else if SomeLimitReached(limits, s) then Deny(InvalidMandate)
        else Pass(hops[0].id, purpose, call.release)
  }

  lemma {:induction false} AuthorizingIdsAre(hops: seq<VerifiedHop>, n: nat)
    requires n < |hops| && hops[|hops| - 1].kind.Closing? && forall i | n <= i < |hops| - 1 :: !hops[i].kind.Closing?
    ensures forall id :: id in AuthorizingIds(hops[n..]) <==> exists i :: n <= i < |hops| - 1 && hops[i].id == id
    decreases |hops| - n
  {
    assert hops[n..][0] == hops[n] && hops[n..][1..] == hops[n + 1..];
    if n < |hops| - 1 {
      AuthorizingIdsAre(hops, n + 1);
    } else {
      assert hops[n + 1..] == [];
    }
  }

  lemma RevokedExactly(hops: seq<VerifiedHop>, s: Stores)
    requires Shaped(hops)
    ensures SomeRevoked(hops, s) <==> exists id | id in AuthorizingIds(hops) :: id in s.revoked
  {
    assert hops[0..] == hops;
    AuthorizingIdsAre(hops, 0);
    hide AuthorizingIds;
  }

  lemma LimitsExactly(limits: Limits, s: Stores)
    ensures SomeLimitReached(limits, s) <==> !UsesLeft(s.counts, limits)
  {
  }

  lemma JobDecides(job: Job, s: Stores)
    requires NoLockErrors(s) && job.Formed()
    ensures RunAlone(job, AfterReads(job, 0), s).0
         == if exists id | id in job.ids :: id in s.revoked then Deny(InvalidMandate)
            else match job.verdict
                 case Refuse(d) => d
                 case Consume(limits, grant) =>
                   if job.nonce !in s.issued then Deny(InvalidCredential)
                   else if !UsesLeft(s.counts, limits) then Deny(InvalidMandate)
                   else grant
  {
    ReadsOutcome(job, s);
    if job.verdict.Consume? {
      var (p1, s1) := Advance(job, AtNonce, s);
      assert RunAlone(job, AtNonce, s) == RunAlone(job, p1, s1);
      if job.nonce in s.issued {
        var (p2, s2) := Advance(job, AtUses, s1);
        assert RunAlone(job, AtUses, s1) == RunAlone(job, p2, s2);
      }
    }
  }

  lemma VerifiedDecides(hops: seq<VerifiedHop>, call: Call, nonce: string, s: Stores)
    requires Shaped(hops) && NoLockErrors(s)
    ensures var job := Job(AuthorizingIds(hops), VerdictOn(hops, call), nonce);
            RunAlone(job, AfterReads(job, 0), s).0 == Outcome(hops, call, nonce, s)
  {
    assert |hops| >= 2;
    hide Evaluate, AuthorizingIds, DescribesCall, States, RunAlone, SomeRevoked, SomeLimitReached, UsesLeft, Shaped;
    JobDecides(Job(AuthorizingIds(hops), VerdictOn(hops, call), nonce), s);
    RevokedExactly(hops, s);
    DescribesExactly(hops[|hops| - 1].mandate, call);
    if Evaluate(hops, call).Covered? { LimitsExactly(Evaluate(hops, call).limits, s); }
  }

  /** Without a presentation there is a challenge to get approval, whatever the call. */
  lemma NothingPresented(config: Config, call: Call, now: int, s: Stores)
    requires config.Valid() && I64_MIN <= now <= I64_MAX
    ensures Decide(config, None, call, now, s) == (Challenge(ApprovalRequired), s)
  {
    hide VerifyChain, VerdictOn, RunAlone;
  }

  /** The whole decision without lock errors: a chain that does not verify for this audience,
      nonce and time is no credential, and one that does is decided question by question. */
  lemma DecidesByTable(config: Config, p: Presentation, call: Call, now: int, s: Stores)
    requires config.Valid() && I64_MIN <= now <= I64_MAX && NoLockErrors(s)
    ensures var opts := VerifyOptions(p.aud, p.nonce, now, config.clockSkew, config.maxClosingAge);
            var r := VerifyChain(config.codec, p.chain, config.keyFor, opts);
            && (r.Err? ==> Decide(config, Some(p), call, now, s) == (Deny(InvalidCredential), s))
            && (r.Ok? ==> Shaped(r.value) && Decide(config, Some(p), call, now, s).0 == Outcome(r.value, call, p.nonce, s))
  {
    VerifiedIsShaped(config, p, now);
    hide VerifyChain, AuthorizingIds, VerdictOn, RunAlone, Outcome, AfterReads, Shaped;
    match VerifyChain(config.codec, p.chain, config.keyFor, config.Options(p, now))
    case Err(_) =>
    case Ok(hops) => VerifiedDecides(hops, call, p.nonce, s);
  }

  /** Pass exactly when the chain verifies, no authorizing hop is revoked, the closed mandate
      holds this method, this task and equal details, the constraints cover the call, the nonce
      is live and every limit has a use left; the pass names the root's mandate. */
  lemma DecideExactly(config: Config, p: Presentation, call: Call, now: int, s: Stores)
    requires config.Valid() && I64_MIN <= now <= I64_MAX && NoLockErrors(s)
    ensures var opts := VerifyOptions(p.aud, p.nonce, now, config.clockSkew, config.maxClosingAge);
            var r := VerifyChain(config.codec, p.chain, config.keyFor, opts);
            var d := Decide(config, Some(p), call, now, s).0;
            && (d.Pass? <==>
                  && r.Ok? && Shaped(r.value)
                  && (forall i | 0 <= i < |r.value| - 1 :: r.value[i].id !in s.revoked)
                  && States(r.value[|r.value| - 1].mandate, call)
                  && Evaluate(r.value, call).Covered?
                  && p.nonce in s.issued
                  && !SomeLimitReached(Evaluate(r.value, call).limits, s))
            && (d.Pass? ==> d == Pass(r.value[0].id, Evaluate(r.value, call).purpose, call.release))
  {
    DecidesByTable(config, p, call, now, s);
    hide VerifyChain, Evaluate, Decide, States, SomeLimitReached, Shaped;
  }

  /** The job got as far as an operation whose lock is poisoned. */
  predicate MeetsPoison(job: Job, s: Stores) {
    || (job.ids != [] && s.revocationsPoisoned)
    || (NoneRevokedFrom(job, 0, s) && job.verdict.Consume?
        && (s.noncesPoisoned || (job.nonce in s.issued && s.usesPoisoned)))
  }

  /** A storage error on the way ends in a denial, never in a pass; the reads and the nonce
      that came before it keep their effect. */
  lemma StorageErrorDenies(job: Job, s: Stores)
    requires job.Formed() && MeetsPoison(job, s)
    ensures RunAlone(job, AfterReads(job, 0), s).0 == Deny(Denied)
    ensures RunAlone(job, AfterReads(job, 0), s).1.counts == s.counts && RunAlone(job, AfterReads(job, 0), s).1.revoked == s.revoked
  {
    if !(job.ids != [] && s.revocationsPoisoned) {
      if job.ids != [] { ReadsDecide(job, 0, s); }
      var (p1, s1) := Advance(job, AtNonce, s);
      assert RunAlone(job, AtNonce, s) == RunAlone(job, p1, s1);
      if !s.noncesPoisoned {
        var (p2, s2) := Advance(job, AtUses, s1);
        assert RunAlone(job, AtUses, s1) == RunAlone(job, p2, s2);
      }
    }
  }

  // ----- Two limits of one hop -----

  const TWO_USES: Value := Obj([Field("type", Str(MAX_USES)), Field("max_uses", Int(2))])

  /** A root with the constraint of two uses twice over, and a closing hop. */
  function LimitedTwice(id: string, closing: VerifiedHop): seq<VerifiedHop> {
    [VerifiedHop(id, Root, [], [], [Field("constraints", Arr([TWO_USES, TWO_USES]))]), closing]
  }

  lemma TwoUsesStep(p: Progress, id: string, after: nat, call: Call)
    ensures Step(p, Item(id, after, TWO_USES), call) == Some(p.(limits := p.limits + [(id, 2)]))
  {
    GetAt(TWO_USES.fields, 0);
    GetAt(TWO_USES.fields, 1);
    assert |MAX_USES| == 15 && |AUTHORIZATION_DETAILS| == 28 && |PURPOSE| == 14 && |RELEASE| == 14;
  }

  lemma LimitedTwiceEvaluates(id: string, closing: VerifiedHop, call: Call)
    requires closing.kind.Closing?
    ensures Shaped(LimitedTwice(id, closing))
    ensures Evaluate(LimitedTwice(id, closing), call) == Covered(call.purpose, [(id, 2), (id, 2)])
  {
    var hops := LimitedTwice(id, closing);
    GetAt(hops[0].mandate, 0);
    var items := ItemsOf(id, 0, [TWO_USES, TWO_USES]);
    var p := Progress(call.purpose, [], false);
    var p1, p2 := p.(limits := [(id, 2)]), p.(limits := [(id, 2), (id, 2)]);
    hide Step;
    TwoUsesStep(p, id, 0, call);
    TwoUsesStep(p1, id, 0, call);
    assert items[1..][0] == Item(id, 0, TWO_USES) && items[1..][1..] == [];
    assert p.limits + [(id, 2)] == p1.limits && p1.limits + [(id, 2)] == p2.limits;
    assert Fold(p1, items[1..], call) == Some(p2);
    assert Fold(p, items, call) == Some(p2);
    assert FoldHops(p2, hops, 1, call) == Some(p2);
  }

  /** With that chain one pass counts two uses, so the second is refused though two were allowed. */
  lemma LimitedTwicePassesOnce(id: string, closing: VerifiedHop, call: Call)
    requires closing.kind.Closing?
    ensures Shaped(LimitedTwice(id, closing)) && Evaluate(LimitedTwice(id, closing), call).Covered?
    ensures var limits := Evaluate(LimitedTwice(id, closing), call).limits;
            && limits == [(id, 2), (id, 2)]
            && UsesLeft(map[], limits) && CountOf(Recorded(map[], limits), id) == 2 && !UsesLeft(Recorded(map[], limits), limits)
  {
    LimitedTwiceEvaluates(id, closing, call);
    hide Evaluate;
    var limits: Limits := [(id, 2), (id, 2)];
    assert Recorded(map[id := 1], limits[1..]) == map[id := 2] by { assert limits[1..][1..] == []; }
    assert Recorded(map[], limits) == map[id := 2];
    assert CountOf(map[id := 2], limits[0].0) >= limits[0].1;
  }
}
