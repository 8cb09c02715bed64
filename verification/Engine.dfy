/** The in-memory stores (memory.rs) and the engine over them (lib.rs), as objects that
    change in place. */
module Engine {
  import opened Results
  import opened Json
  import opened Chain
  import opened Constraints
  import opened Decisions

  /** A failed lock. */
  datatype Locked<+T> = Held(value: T) | Poisoned

  class MemoryNonces {
    var issued: set<string>
    var poisoned: bool

    constructor ()
      ensures issued == {} && !poisoned
    {
      issued, poisoned := {}, false;
    }

    /** Issues `nonce`, fresh from the random source. */
    method Issue(nonce: string)
      modifies this
      ensures issued == (if poisoned then old(issued) else old(issued) + {nonce}) && poisoned == old(poisoned)
    {
      if !poisoned { issued := issued + {nonce}; }
    }

    /** True exactly for a live nonce, which is live no longer. */
    method ConsumeNonce(nonce: string) returns (ok: Locked<bool>)
      modifies this
      ensures poisoned == old(poisoned)
      ensures ok == if poisoned then Poisoned else Held(nonce in old(issued))
      ensures issued == if poisoned then old(issued) else old(issued) - {nonce}
    {
      if poisoned { return Poisoned; }
      ok := Held(nonce in issued);
      issued := issued - {nonce};
    }
  }

  class MemoryRevocations {
    var revoked: set<string>
    var poisoned: bool

    constructor ()
      ensures revoked == {} && !poisoned
    {
      revoked, poisoned := {}, false;
    }

    method Revoke(id: string)
      modifies this
      ensures revoked == (if poisoned then old(revoked) else old(revoked) + {id}) && poisoned == old(poisoned)
    {
      if !poisoned { revoked := revoked + {id}; }
    }

    method IsRevoked(id: string) returns (r: Locked<bool>)
      ensures r == if poisoned then Poisoned else Held(id in revoked)
    {
      r := if poisoned then Poisoned else Held(id in revoked);
    }
  }

  class MemoryUses {
    var counts: Counts
    var poisoned: bool

    constructor ()
      ensures counts == map[] && !poisoned
    {
      counts, poisoned := map[], false;
    }

    method Count(id: string) returns (n: nat)
      ensures n == if poisoned then 0 else CountOf(counts, id)
    {
      n := if poisoned || id !in counts then 0 else counts[id];
    }

    /** Records one use of every entry if all have one left, and nothing otherwise. */
    method TryConsume(limits: Limits) returns (ok: Locked<bool>)
      modifies this
      ensures poisoned == old(poisoned)
      ensures ok == if poisoned then Poisoned else Held(UsesLeft(old(counts), limits))
      ensures counts == if ok == Held(true) then Recorded(old(counts), limits) else old(counts)
    {
      if poisoned { return Poisoned; }
      for i := 0 to |limits|
        invariant counts == old(counts)
        invariant forall j | 0 <= j < i :: CountOf(counts, limits[j].0) < limits[j].1
      {
        if CountOf(counts, limits[i].0) >= limits[i].1 { return Held(false); }
      }
      assert limits[0..] == limits;
      for i := 0 to |limits|
        invariant Recorded(counts, limits[i..]) == Recorded(old(counts), limits)
        invariant poisoned == old(poisoned)
      {
        assert limits[i..][0] == limits[i] && limits[i..][1..] == limits[i + 1..];
        counts := counts[limits[i].0 := CountOf(counts, limits[i].0) + 1];
      }
      assert limits[|limits|..] == [];
      ok := Held(true);
    }
  }

  class DecisionEngine {
    const config: Config
    const nonces: MemoryNonces
    const revocations: MemoryRevocations
    const uses: MemoryUses

    constructor (config: Config, nonces: MemoryNonces, revocations: MemoryRevocations, uses: MemoryUses)
      ensures this.config == config && this.nonces == nonces && this.revocations == revocations && this.uses == uses
    {
      this.config, this.nonces, this.revocations, this.uses := config, nonces, revocations, uses;
    }

    ghost function View(): Stores
      reads nonces, revocations, uses
    {
      Stores(nonces.issued, revocations.revoked, uses.counts, nonces.poisoned, revocations.poisoned, uses.poisoned)
    }

    /** `Engine::decide`. */
    method DecideCall(presentation: Option<Presentation>, call: Call, now: int) returns (d: Decision)
      requires config.Valid() && I64_MIN <= now <= I64_MAX
      modifies nonces, uses
      ensures (d, View()) == Decide(config, presentation, call, now, old(View()))
      ensures presentation.None? ==> d == Challenge(ApprovalRequired) && View() == old(View())
    {
      if presentation.None? {
        return Challenge(ApprovalRequired);
      }
      var r := DecidePresented(presentation.value, call, now);
      match r
      case Held(decision) => d := decision;
      case Poisoned => d := Deny(Denied);
    }

    /** What a result of `decide_presented` decides: a backend error is a denial. */
    function Settled(r: Locked<Decision>): Decision {
      match r case Held(d) => d case Poisoned => Deny(Denied)
    }

    /** Asks for every authorizing hop whether it is revoked, and stops at the first that is. */
    method AnyRevoked(hops: seq<VerifiedHop>) returns (r: Locked<bool>)
      ensures r.Poisoned? <==> revocations.poisoned && AuthorizingIds(hops) != []
      ensures r.Held? ==> (r.value <==> exists id | id in AuthorizingIds(hops) :: id in revocations.revoked)
    {
      assert hops[0..] == hops;
      for i := 0 to |hops|
        invariant revocations.poisoned ==> AuthorizingIds(hops) == AuthorizingIds(hops[i..])
        invariant forall id | id in AuthorizingIds(hops[i..]) :: id in AuthorizingIds(hops)
        invariant forall id | id in AuthorizingIds(hops) && id in revocations.revoked :: id in AuthorizingIds(hops[i..])
      {
        assert hops[i..][0] == hops[i] && hops[i..][1..] == hops[i + 1..];
        if !hops[i].kind.Closing? {
          var revoked := revocations.IsRevoked(hops[i].id);
          if revoked.Poisoned? { return Poisoned; }
          if revoked.value { return Held(true); }
        }
      }
      assert hops[|hops|..] == [];
      r := Held(false);
    }

    /** The nonce, and then the uses. */
    method Spend(ghost ids: seq<string>, nonce: string, limits: Limits, grant: Decision) returns (r: Locked<Decision>)
      modifies nonces, uses
      ensures (Settled(r), View()) == RunAlone(Job(ids, Consume(limits, grant), nonce), AtNonce, old(View()))
    {
      ghost var job, s0 := Job(ids, Consume(limits, grant), nonce), View();
      var live := nonces.ConsumeNonce(nonce);
      assert RunAlone(job, AtNonce, s0) == RunAlone(job, Advance(job, AtNonce, s0).0, Advance(job, AtNonce, s0).1);
      if live.Poisoned? { return Poisoned; }
      if !live.value {
        assert nonces.issued == s0.issued;
        return Held(Deny(InvalidCredential));
      }
      ghost var s1 := View();
      assert (AtUses, s1) == Advance(job, AtNonce, s0);
      var within := uses.TryConsume(limits);
      assert RunAlone(job, AtUses, s1) == RunAlone(job, Advance(job, AtUses, s1).0, Advance(job, AtUses, s1).1);
      if within.Poisoned? { return Poisoned; }
      if !within.value { return Held(Deny(InvalidMandate)); }
      r := Held(grant);
    }

    /** `decide_presented`: the store operations run one after the other. */
    method DecidePresented(p: Presentation, call: Call, now: int) returns (r: Locked<Decision>)
      requires config.Valid() && I64_MIN <= now <= I64_MAX
      modifies nonces, uses
      ensures (Settled(r), View()) == Decide(config, Some(p), call, now, old(View()))
    {
      VerifiedIsShaped(config, p, now);
      var chain := VerifyPresentation(config.codec, p.chain, config.keyFor, config.Options(p, now));
      if chain.Err? { return Held(Deny(InvalidCredential)); }
      r := DecideVerified(chain.value, p.nonce, call);
    }

    /** What follows once the chain is verified. */
    method DecideVerified(hops: seq<VerifiedHop>, nonce: string, call: Call) returns (r: Locked<Decision>)
      requires Shaped(hops)
      modifies nonces, uses
      ensures var job := Job(AuthorizingIds(hops), VerdictOn(hops, call), nonce);
              (Settled(r), View()) == RunAlone(job, AfterReads(job, 0), old(View()))
    {
      ghost var job := Job(AuthorizingIds(hops), VerdictOn(hops, call), nonce);
      ReadsOutcome(job, View());
      var revoked := AnyRevoked(hops);
      if revoked.Poisoned? { return Poisoned; }
      if revoked.value { return Held(Deny(InvalidMandate)); }
      if !DescribesCall(hops[|hops| - 1].mandate, call) { return Held(Deny(InvalidMandate)); }
      var evaluation := EvaluateCall(hops, call);
      if evaluation.Refused? { return Held(Deny(InvalidMandate)); }
      if evaluation.Unresolved? { return Held(Challenge(UnresolvedConstraint)); }
      r := Spend(job.ids, nonce, evaluation.limits, Pass(hops[0].id, evaluation.purpose, call.release));
    }
  }
}
