/** What evaluating the constraints of a chain decides: an exact description that does not
    mention order, and delegation that only narrows. */
module Narrowing {
  import opened Results
  import opened Json
  import opened Chain
  import opened Constraints

  // ----- One constraint alone -----

  function KindOf(item: Item): Option<string> {
    AsStr(Member(item.c, "type"))
  }

  /** The constraint is well-formed and, purposes aside, admits the call. */
  predicate Holds(item: Item, call: Call) {
    match KindOf(item)
    case None => false
    case Some(kind) =>
      && (kind == AUTHORIZATION_DETAILS ==> DetailsHold(item.c, call))
      && (kind == PURPOSE ==> AsStr(Member(item.c, "purpose")).Some?)
      && (kind == RELEASE ==> ReleaseHolds(item.c, call))
      && (kind == MAX_USES ==> UseLimit(item.c).Some?)
      && (kind == DELEGATION ==> DepthHolds(item.c, item.after))
  }

  predicate Unknown(item: Item) {
    KindOf(item).Some? && KindOf(item).value !in {AUTHORIZATION_DETAILS, PURPOSE, RELEASE, MAX_USES, DELEGATION}
  }

  function PurposeOf(item: Item): Option<string> {
    if KindOf(item) == Some(PURPOSE) then AsStr(Member(item.c, "purpose")) else None
  }

  function LimitOf(item: Item): Limits {
    if KindOf(item) == Some(MAX_USES) && UseLimit(item.c).Some? then [(item.id, UseLimit(item.c).value)] else []
  }

  function LimitsOf(items: seq<Item>): Limits {
    if items == [] then [] else LimitOf(items[0]) + LimitsOf(items[1..])
  }

  /** Every purpose required is the call's, when it declares one, and all are the same. */
  predicate PurposesAgree(declared: Option<string>, items: seq<Item>) {
    && (forall i | 0 <= i < |items| && PurposeOf(items[i]).Some? :: declared.Some? ==> PurposeOf(items[i]) == declared)
    && (forall i, j | 0 <= i < |items| && 0 <= j < |items| && PurposeOf(items[i]).Some? && PurposeOf(items[j]).Some? ::
          PurposeOf(items[i]) == PurposeOf(items[j]))
  }

  predicate AllHold(items: seq<Item>, call: Call) {
    forall i | 0 <= i < |items| :: Holds(items[i], call)
  }

  predicate SomeUnknown(items: seq<Item>) {
    exists i :: 0 <= i < |items| && Unknown(items[i])
  }

  /** `purpose` is the declared one or the one required; with neither there is none. */
  predicate IsPurpose(declared: Option<string>, items: seq<Item>, purpose: Option<string>) {
    && (declared.Some? ==> purpose == declared)
    && (forall i | 0 <= i < |items| && PurposeOf(items[i]).Some? :: purpose == PurposeOf(items[i]))
    && (declared.None? && (forall i | 0 <= i < |items| :: PurposeOf(items[i]).None?) ==> purpose.None?)
  }

  lemma StepExact(p: Progress, item: Item, call: Call)
    ensures Step(p, item, call).Some?
       <==> Holds(item, call) && (PurposeOf(item).Some? && p.purpose.Some? ==> PurposeOf(item) == p.purpose)
    ensures Step(p, item, call).Some? ==>
              Step(p, item, call).value == Progress(if PurposeOf(item).Some? then PurposeOf(item) else p.purpose,
                                                    p.limits + LimitOf(item), p.unknown || Unknown(item))
  {
    DistinctKinds();
    if LimitOf(item) == [] { assert p.limits + LimitOf(item) == p.limits; }
  }

  lemma DistinctKinds()
    ensures AUTHORIZATION_DETAILS !in {PURPOSE, RELEASE, MAX_USES, DELEGATION}
    ensures PURPOSE !in {RELEASE, MAX_USES, DELEGATION} && RELEASE !in {MAX_USES, DELEGATION} && MAX_USES != DELEGATION
  {
    assert |AUTHORIZATION_DETAILS| == 28 && |PURPOSE| == 14 && |RELEASE| == 14 && |MAX_USES| == 15 && |DELEGATION| == 17;
    assert PURPOSE[7] == 'p' && RELEASE[7] == 'r';
  }

  /** The result of a fold from `p`, without going through the items in order. */
  ghost predicate FoldGives(p: Progress, items: seq<Item>, call: Call, result: Option<Progress>) {
    && (result.Some? <==> AllHold(items, call) && PurposesAgree(p.purpose, items))
    && (result.Some? ==>
          && result.value.limits == p.limits + LimitsOf(items)
          && (result.value.unknown <==> p.unknown || SomeUnknown(items))
          && IsPurpose(p.purpose, items, result.value.purpose))
  }

  lemma AllHoldHead(head: Item, rest: seq<Item>, call: Call)
    ensures AllHold([head] + rest, call) <==> Holds(head, call) && AllHold(rest, call)
  {
    var items := [head] + rest;
    assert items[0] == head && forall i | 0 < i < |items| :: items[i] == rest[i - 1];
    if AllHold(items, call) {
      forall i | 0 <= i < |rest| ensures Holds(rest[i], call) { assert Holds(items[i + 1], call); }
    }
  }

  lemma LimitsCons(head: Item, rest: seq<Item>)
    ensures LimitsOf([head] + rest) == LimitOf(head) + LimitsOf(rest)
  {
    assert ([head] + rest)[1..] == rest;
  }

  lemma Reassociate(a: Limits, b: Limits, c: Limits)
    ensures (a + b) + c == a + (b + c)
  {
  }

  lemma FoldGivesMore(p: Progress, head: Item, rest: seq<Item>, call: Call, result: Option<Progress>)
    requires Step(p, head, call).Some? && FoldGives(Step(p, head, call).value, rest, call, result)
    ensures FoldGives(p, [head] + rest, call, result)
  {
    var p1 := Step(p, head, call).value;
    StepExact(p, head, call);
    hide Step, Holds, PurposeOf, Unknown, AllHold, SomeUnknown, PurposesAgree, IsPurpose, LimitOf, LimitsOf;
    AllHoldHead(head, rest, call);
    PurposesHead(p.purpose, p1.purpose, head, rest);
    UnknownHead(head, rest);
    if result.Some? {
      PurposeHead(p.purpose, p1.purpose, head, rest, result.value.purpose);
      LimitsCons(head, rest);
      Reassociate(p.limits, LimitOf(head), LimitsOf(rest));
    }
  }

  lemma FoldGivesNone(p: Progress, head: Item, rest: seq<Item>, call: Call)
    requires Step(p, head, call).None?
    ensures FoldGives(p, [head] + rest, call, None)
  {
    StepExact(p, head, call);
    AllHoldHead(head, rest, call);
    assert ([head] + rest)[0] == head;
  }

  lemma {:induction false} FoldExact(p: Progress, items: seq<Item>, call: Call)
    ensures FoldGives(p, items, call, Fold(p, items, call))
    decreases |items|
  {
    if items == [] {
      assert p.limits + [] == p.limits;
    } else {
      var head, rest := items[0], items[1..];
      assert items == [head] + rest;
      var p1 := Step(p, head, call);
      if p1.Some? {
        FoldExact(p1.value, rest, call);
        FoldGivesMore(p, head, rest, call, Fold(p1.value, rest, call));
      } else {
        FoldGivesNone(p, head, rest, call);
      }
    }
  }

  lemma UnknownHead(head: Item, rest: seq<Item>)
    ensures SomeUnknown([head] + rest) <==> Unknown(head) || SomeUnknown(rest)
  {
    var items := [head] + rest;
    if Unknown(head) { assert Unknown(items[0]); }
    if SomeUnknown(rest) {
      var i :| 0 <= i < |rest| && Unknown(rest[i]);
      assert Unknown(items[i + 1]);
    }
  }

  lemma PurposesHead(declared: Option<string>, next: Option<string>, head: Item, rest: seq<Item>)
    requires PurposeOf(head).Some? && declared.Some? ==> PurposeOf(head) == declared
    requires next == if PurposeOf(head).Some? then PurposeOf(head) else declared
    ensures PurposesAgree(declared, [head] + rest) <==> PurposesAgree(next, rest)
  {
    var items := [head] + rest;
    assert forall i | 0 < i < |items| :: items[i] == rest[i - 1];
    if PurposesAgree(declared, items) {
      forall i | 0 <= i < |rest| && PurposeOf(rest[i]).Some? ensures next.Some? ==> PurposeOf(rest[i]) == next {
        assert rest[i] == items[i + 1] && items[0] == head;
      }
      forall i, j | 0 <= i < |rest| && 0 <= j < |rest| && PurposeOf(rest[i]).Some? && PurposeOf(rest[j]).Some?
        ensures PurposeOf(rest[i]) == PurposeOf(rest[j])
      {
        assert rest[i] == items[i + 1] && rest[j] == items[j + 1];
      }
    }
  }

  lemma PurposeHead(declared: Option<string>, next: Option<string>, head: Item, rest: seq<Item>,
                    purpose: Option<string>)
    requires PurposeOf(head).Some? && declared.Some? ==> PurposeOf(head) == declared
    requires next == if PurposeOf(head).Some? then PurposeOf(head) else declared
    requires IsPurpose(next, rest, purpose)
    ensures IsPurpose(declared, [head] + rest, purpose)
  {
    var items := [head] + rest;
    assert forall i | 0 < i < |items| :: items[i] == rest[i - 1];
    if declared.None? && forall i | 0 <= i < |items| :: PurposeOf(items[i]).None? {
      assert items[0] == head;
      forall i | 0 <= i < |rest| ensures PurposeOf(rest[i]).None? { assert rest[i] == items[i + 1]; }
    }
  }

  // ----- The whole chain -----

  /** Every authorizing hop's constraints are a list. */
  predicate Listed(hops: seq<VerifiedHop>, i: nat)
  {
    forall j | i <= j < |hops| - 1 :: ConstraintsOf(hops[j].mandate).Some?
  }

  /** The constraints of the hops from `i` on, in chain order. */
  function ItemsFrom(hops: seq<VerifiedHop>, i: nat): seq<Item>
    requires Listed(hops, i)
    decreases |hops| - i
  {
    if i >= |hops| - 1 then []
    else ItemsOf(hops[i].id, |hops| - 2 - i, ConstraintsOf(hops[i].mandate).value) + ItemsFrom(hops, i + 1)
  }

  lemma {:induction false} FoldJoins(p: Progress, a: seq<Item>, b: seq<Item>, call: Call)
    ensures Fold(p, a + b, call) == match Fold(p, a, call) case None => None case Some(p1) => Fold(p1, b, call)
    decreases |a|
  {
    if a == [] {
      assert a + b == b;
    } else {
      assert (a + b)[0] == a[0] && (a + b)[1..] == a[1..] + b;
      var p1 := Step(p, a[0], call);
      if p1.Some? { FoldJoins(p1.value, a[1..], b, call); }
    }
  }

  lemma {:induction false} FoldHopsExact(p: Progress, hops: seq<VerifiedHop>, i: nat, call: Call)
    requires Shaped(hops) && i <= |hops| - 1
    ensures FoldHops(p, hops, i, call) == if Listed(hops, i) then Fold(p, ItemsFrom(hops, i), call) else None
    decreases |hops| - i
  {
    if i < |hops| - 1 && ConstraintsOf(hops[i].mandate).Some? {
      var items := ItemsOf(hops[i].id, |hops| - 2 - i, ConstraintsOf(hops[i].mandate).value);
      var p1 := Fold(p, items, call);
      assert Listed(hops, i) <==> Listed(hops, i + 1);
      if p1.Some? { FoldHopsExact(p1.value, hops, i + 1, call); }
      if Listed(hops, i) { FoldJoins(p, items, ItemsFrom(hops, i + 1), call); }
    }
  }

  /** The call is admitted by every authorizing hop. */
  predicate Admitted(hops: seq<VerifiedHop>, call: Call) {
    && Listed(hops, 0)
    && AllHold(ItemsFrom(hops, 0), call) && PurposesAgree(call.purpose, ItemsFrom(hops, 0))
  }

  /** Refused exactly when some authorizing hop has a malformed or failing constraint or the
      purposes conflict; otherwise unresolved exactly when some type is unknown; otherwise
      covered, with the one purpose and every use limit in chain order. */
  lemma EvaluateExact(hops: seq<VerifiedHop>, call: Call)
    requires Shaped(hops)
    ensures Evaluate(hops, call).Refused? <==> !Admitted(hops, call)
    ensures Evaluate(hops, call).Unresolved? <==> Admitted(hops, call) && SomeUnknown(ItemsFrom(hops, 0))
    ensures Evaluate(hops, call).Covered? ==>
              && Listed(hops, 0)
              && Evaluate(hops, call).limits == LimitsOf(ItemsFrom(hops, 0))
              && IsPurpose(call.purpose, ItemsFrom(hops, 0), Evaluate(hops, call).purpose)
  {
    var p := Progress(call.purpose, [], false);
    FoldHopsExact(p, hops, 0, call);
    if Listed(hops, 0) {
      FoldExact(p, ItemsFrom(hops, 0), call);
      assert [] + LimitsOf(ItemsFrom(hops, 0)) == LimitsOf(ItemsFrom(hops, 0));
    }
  }

  // ----- The order of constraints does not matter -----

  lemma {:induction false} LimitsJoin(a: seq<Item>, b: seq<Item>)
    ensures LimitsOf(a + b) == LimitsOf(a) + LimitsOf(b)
  {
    if a == [] {
      assert a + b == b;
    } else {
      assert (a + b)[0] == a[0] && (a + b)[1..] == a[1..] + b;
      LimitsJoin(a[1..], b);
    }
  }

  lemma RemoveOne<T>(a: seq<T>, b: seq<T>, j: nat)
    requires multiset(a) == multiset(b) && a != [] && j < |b| && b[j] == a[0]
    ensures multiset(a[1..]) == multiset(b[..j] + b[j + 1..])
  {
    assert a == [a[0]] + a[1..];
    assert b == b[..j] + [b[j]] + b[j + 1..];
    assert multiset(a[1..]) == multiset(a) - multiset{a[0]};
    assert multiset(b[..j] + b[j + 1..]) == multiset(b[..j]) + multiset(b[j + 1..]);
    assert multiset(b) == multiset(b[..j]) + multiset{b[j]} + multiset(b[j + 1..]);
    assert multiset(b[..j] + b[j + 1..]) == multiset(b) - multiset{b[j]};
  }

  lemma {:induction false} LimitsOfPermutation(a: seq<Item>, b: seq<Item>)
    requires multiset(a) == multiset(b)
    ensures multiset(LimitsOf(a)) == multiset(LimitsOf(b))
    decreases |a|
  {
    if a == [] {
      assert |multiset(b)| == 0;
      assert b == [];
    } else {
      assert a[0] in multiset(b);
      var j :| 0 <= j < |b| && b[j] == a[0];
      assert b == b[..j] + [b[j]] + b[j + 1..];
      assert a == [a[0]] + a[1..];
      RemoveOne(a, b, j);
      LimitsOfPermutation(a[1..], b[..j] + b[j + 1..]);
      LimitsJoin(b[..j], b[j + 1..]);
      LimitsJoin(b[..j] + [b[j]], b[j + 1..]);
      LimitsJoin(b[..j], [b[j]]);
      assert LimitsOf([b[j]]) == LimitOf(a[0]) + [] == LimitOf(a[0]);
    }
  }

  lemma SameMembers(a: seq<Item>, b: seq<Item>)
    requires multiset(a) == multiset(b)
    ensures forall x :: x in a <==> x in b
  {
    forall x ensures x in a <==> x in b { assert x in a <==> x in multiset(a); assert x in b <==> x in multiset(b); }
  }

  lemma MembersDecide(a: seq<Item>, b: seq<Item>, call: Call, declared: Option<string>)
    requires forall x :: x in a <==> x in b
    ensures AllHold(a, call) ==> AllHold(b, call)
    ensures SomeUnknown(a) ==> SomeUnknown(b)
    ensures PurposesAgree(declared, a) ==> PurposesAgree(declared, b)
  {
    forall i | 0 <= i < |b| ensures exists j :: 0 <= j < |a| && a[j] == b[i] { assert b[i] in a; }
    if SomeUnknown(a) {
      var i :| 0 <= i < |a| && Unknown(a[i]);
      assert a[i] in b;
    }
  }

  lemma PurposeUnique(declared: Option<string>, a: seq<Item>, b: seq<Item>, p: Option<string>, q: Option<string>)
    requires forall x :: x in a <==> x in b
    requires IsPurpose(declared, a, p) && IsPurpose(declared, b, q)
    ensures p == q
  {
    if declared.None? {
      if i :| 0 <= i < |a| && PurposeOf(a[i]).Some? {
        assert a[i] in b;
        var j :| 0 <= j < |b| && b[j] == a[i];
      } else {
        forall j | 0 <= j < |b| ensures PurposeOf(b[j]).None? { assert b[j] in a; }
      }
    }
  }

  /** Hop by hop the same identifier and the same constraints, in any order. */
  predicate Reordered(hops: seq<VerifiedHop>, others: seq<VerifiedHop>) {
    && |hops| == |others|
    && forall i | 0 <= i < |hops| - 1 ::
         && hops[i].id == others[i].id
         && (ConstraintsOf(hops[i].mandate).Some? <==> ConstraintsOf(others[i].mandate).Some?)
         && (ConstraintsOf(hops[i].mandate).Some?
             ==> multiset(ConstraintsOf(hops[i].mandate).value) == multiset(ConstraintsOf(others[i].mandate).value))
  }

  lemma OneMore<T>(head: T, rest: seq<T>, x: T)
    ensures multiset([head] + rest)[x] == (if head == x then 1 else 0) + multiset(rest)[x]
  {
  }

  lemma ItemsOfHead(id: string, after: nat, cs: seq<Value>)
    requires cs != []
    ensures ItemsOf(id, after, cs) == [Item(id, after, cs[0])] + ItemsOf(id, after, cs[1..]) && cs == [cs[0]] + cs[1..]
  {
  }

  lemma {:induction false} ItemsCount(id: string, after: nat, cs: seq<Value>, x: Item)
    ensures multiset(ItemsOf(id, after, cs))[x] == if x.id == id && x.after == after then multiset(cs)[x.c] else 0
    decreases |cs|
  {
    if cs != [] {
      hide *;
      ItemsCount(id, after, cs[1..], x);
      ItemsOfHead(id, after, cs);
      OneMore(Item(id, after, cs[0]), ItemsOf(id, after, cs[1..]), x);
      OneMore(cs[0], cs[1..], x.c);
    }
  }

  lemma ItemsOfPermutation(id: string, after: nat, a: seq<Value>, b: seq<Value>)
    requires multiset(a) == multiset(b)
    ensures multiset(ItemsOf(id, after, a)) == multiset(ItemsOf(id, after, b))
  {
    forall x ensures multiset(ItemsOf(id, after, a))[x] == multiset(ItemsOf(id, after, b))[x] {
      ItemsCount(id, after, a, x);
      ItemsCount(id, after, b, x);
    }
  }

  lemma ItemsCons(hops: seq<VerifiedHop>, i: nat)
    requires Listed(hops, i) && i < |hops| - 1
    ensures ItemsFrom(hops, i) == ItemsOf(hops[i].id, |hops| - 2 - i, ConstraintsOf(hops[i].mandate).value) + ItemsFrom(hops, i + 1)
  {
  }

  lemma JoinedAlike(a: seq<Item>, b: seq<Item>, c: seq<Item>, d: seq<Item>)
    requires multiset(a) == multiset(b) && multiset(c) == multiset(d)
    ensures multiset(a + c) == multiset(b + d)
  {
  }

  lemma ReorderedAt(hops: seq<VerifiedHop>, others: seq<VerifiedHop>, i: nat)
    requires Reordered(hops, others) && Listed(hops, i) && Listed(others, i) && i < |hops| - 1
    ensures |hops| == |others| && hops[i].id == others[i].id && Listed(hops, i + 1) && Listed(others, i + 1)
    ensures ConstraintsOf(hops[i].mandate).Some? && ConstraintsOf(others[i].mandate).Some?
    ensures multiset(ConstraintsOf(hops[i].mandate).value) == multiset(ConstraintsOf(others[i].mandate).value)
  {
    hide ConstraintsOf;
  }

  lemma {:induction false} ItemsReordered(hops: seq<VerifiedHop>, others: seq<VerifiedHop>, i: nat)
    requires Reordered(hops, others) && Listed(hops, i) && Listed(others, i)
    ensures multiset(ItemsFrom(hops, i)) == multiset(ItemsFrom(others, i))
    decreases |hops| - i
  {
    hide ItemsOf, ConstraintsOf;
    if i >= |hops| - 1 {
      assert ItemsFrom(hops, i) == [] && ItemsFrom(others, i) == [];
    } else {
      hide *;
      ReorderedAt(hops, others, i);
      var a, b := ConstraintsOf(hops[i].mandate).value, ConstraintsOf(others[i].mandate).value;
      ItemsReordered(hops, others, i + 1);
      ItemsOfPermutation(hops[i].id, |hops| - 2 - i, a, b);
      ItemsCons(hops, i);
      ItemsCons(others, i);
      JoinedAlike(ItemsOf(hops[i].id, |hops| - 2 - i, a), ItemsOf(hops[i].id, |hops| - 2 - i, b),
                  ItemsFrom(hops, i + 1), ItemsFrom(others, i + 1));
    }
  }

  /** Reordering the constraints within hops changes neither the outcome nor the purpose,
      and keeps the use limits as a multiset. */
  lemma EvaluateIgnoresOrder(hops: seq<VerifiedHop>, others: seq<VerifiedHop>, call: Call)
    requires Shaped(hops) && Shaped(others) && Reordered(hops, others)
    ensures var (e, f) := (Evaluate(hops, call), Evaluate(others, call));
            && (e.Refused? <==> f.Refused?) && (e.Unresolved? <==> f.Unresolved?)
            && (e.Covered? ==> e.purpose == f.purpose && multiset(e.limits) == multiset(f.limits))
  {
    EvaluateExact(hops, call);
    EvaluateExact(others, call);
    assert Listed(hops, 0) <==> Listed(others, 0);
    if Listed(hops, 0) {
      var a, b := ItemsFrom(hops, 0), ItemsFrom(others, 0);
      ItemsReordered(hops, others, 0);
      SameMembers(a, b);
      MembersDecide(a, b, call, call.purpose);
      MembersDecide(b, a, call, call.purpose);
      if Evaluate(hops, call).Covered? {
        PurposeUnique(call.purpose, a, b, Evaluate(hops, call).purpose, Evaluate(others, call).purpose);
        LimitsOfPermutation(a, b);
      }
    }
  }

  // ----- Delegation only narrows -----

  /** The number of delegation hops after hop `i`. */
  function DelegationsAfter(hops: seq<VerifiedHop>, i: nat): nat
    requires i < |hops|
    decreases |hops| - i
  {
    if i == |hops| - 1 then 0
    else (if hops[i + 1].kind.Delegation? then 1 else 0) + DelegationsAfter(hops, i + 1)
  }

  /** What `access.delegation` is checked against never underflows: it is the number of later
      delegations. */
  lemma {:induction false} DepthCountsDelegations(hops: seq<VerifiedHop>, i: nat)
    requires Shaped(hops) && i < |hops| - 1
    ensures |hops| - 2 - i == DelegationsAfter(hops, i)
    decreases |hops| - i
  {
    if i < |hops| - 2 { DepthCountsDelegations(hops, i + 1); }
  }

  function Without(hops: seq<VerifiedHop>, d: nat): seq<VerifiedHop>
    requires d < |hops|
  {
    hops[..d] + hops[d + 1..]
  }

  lemma WithoutShaped(hops: seq<VerifiedHop>, d: nat)
    requires Shaped(hops) && 0 < d < |hops| - 1
    ensures Shaped(Without(hops, d))
  {
  }

  /** The same constraints, with room for at least as many delegations after them. */
  ghost predicate Relaxed(tight: seq<Item>, loose: seq<Item>) {
    |tight| == |loose| && forall i | 0 <= i < |tight| ::
      tight[i].id == loose[i].id && tight[i].c == loose[i].c && loose[i].after <= tight[i].after
  }

  lemma {:induction false} RelaxedLimits(tight: seq<Item>, loose: seq<Item>)
    requires Relaxed(tight, loose)
    ensures LimitsOf(tight) == LimitsOf(loose)
  {
    if tight != [] {
      assert Relaxed(tight[1..], loose[1..]);
      RelaxedLimits(tight[1..], loose[1..]);
    }
  }

  /** The items of the hops `lo` up to `hi`. */
  function ItemsBetween(hops: seq<VerifiedHop>, lo: nat, hi: nat): seq<Item>
    requires lo <= hi <= |hops| - 1 && Listed(hops, lo)
    decreases hi - lo
  {
    if lo == hi then []
    else ItemsOf(hops[lo].id, |hops| - 2 - lo, ConstraintsOf(hops[lo].mandate).value) + ItemsBetween(hops, lo + 1, hi)
  }

  lemma {:induction false} ItemsSplit(hops: seq<VerifiedHop>, lo: nat, mid: nat)
    requires lo <= mid <= |hops| - 1 && Listed(hops, lo)
    ensures Listed(hops, mid) && ItemsFrom(hops, lo) == ItemsBetween(hops, lo, mid) + ItemsFrom(hops, mid)
    decreases mid - lo
  {
    if lo < mid { ItemsSplit(hops, lo + 1, mid); }
  }

  lemma {:induction false} BeforeRelaxed(hops: seq<VerifiedHop>, d: nat, lo: nat)
    requires Shaped(hops) && lo <= d && 0 < d < |hops| - 1 && Listed(hops, lo) && Listed(Without(hops, d), lo)
    ensures Relaxed(ItemsBetween(hops, lo, d), ItemsBetween(Without(hops, d), lo, d))
    decreases d - lo
  {
    if lo < d {
      assert Without(hops, d)[lo] == hops[lo];
      BeforeRelaxed(hops, d, lo + 1);
    }
  }

  lemma {:induction false} AfterSame(hops: seq<VerifiedHop>, d: nat, i: nat)
    requires Shaped(hops) && 0 < d < |hops| - 1 && d <= i <= |hops| - 2
    requires Listed(hops, i + 1) && Listed(Without(hops, d), i)
    ensures ItemsFrom(Without(hops, d), i) == ItemsFrom(hops, i + 1)
    decreases |hops| - i
  {
    var fewer := Without(hops, d);
    assert |fewer| == |hops| - 1;
    if i < |hops| - 2 {
      assert fewer[i] == hops[i + 1];
      AfterSame(hops, d, i + 1);
      hide ConstraintsOf, ItemsOf, Without, Shaped, Listed;
      assert ItemsFrom(fewer, i) == ItemsOf(fewer[i].id, |fewer| - 2 - i, ConstraintsOf(fewer[i].mandate).value) + ItemsFrom(fewer, i + 1);
    }
  }

  lemma WithoutListed(hops: seq<VerifiedHop>, d: nat)
    requires Shaped(hops) && 0 < d < |hops| - 1 && Listed(hops, 0)
    ensures Listed(Without(hops, d), 0)
  {
    var fewer := Without(hops, d);
    forall j | 0 <= j < |fewer| - 1 ensures ConstraintsOf(fewer[j].mandate).Some? {
      assert fewer[j] == hops[if j < d then j else j + 1];
    }
  }

  /** Where item `i` of the shorter chain was in the longer one. */
  lemma StillThere(before: seq<Item>, gone: seq<Item>, after: seq<Item>, loose: seq<Item>, i: nat) returns (j: nat)
    requires Relaxed(before, loose) && i < |loose + after|
    ensures j < |before + gone + after|
    ensures var (x, y) := ((before + gone + after)[j], (loose + after)[i]);
            x.id == y.id && x.c == y.c && y.after <= x.after
  {
    j := if i < |loose| then i else i + |gone|;
  }

  lemma RelaxedHolds(x: Item, y: Item, call: Call)
    requires x.c == y.c && y.after <= x.after && Holds(x, call) && !Unknown(x)
    ensures Holds(y, call) && !Unknown(y) && PurposeOf(y) == PurposeOf(x)
  {
    hide DetailsHold, ReleaseHolds, UseLimit;
  }

  lemma FewerStillAdmit(before: seq<Item>, gone: seq<Item>, after: seq<Item>, loose: seq<Item>, call: Call)
    requires Relaxed(before, loose)
    requires AllHold(before + gone + after, call) && PurposesAgree(call.purpose, before + gone + after)
    requires !SomeUnknown(before + gone + after)
    ensures AllHold(loose + after, call) && PurposesAgree(call.purpose, loose + after) && !SomeUnknown(loose + after)
  {
    var all, fewer := before + gone + after, loose + after;
    hide Holds, Unknown, PurposeOf, Relaxed;
    forall i | 0 <= i < |fewer|
      ensures Holds(fewer[i], call) && !Unknown(fewer[i])
      ensures exists j :: 0 <= j < |all| && PurposeOf(all[j]) == PurposeOf(fewer[i])
    {
      var j := StillThere(before, gone, after, loose, i);
      assert Holds(all[j], call) && !Unknown(all[j]);
      RelaxedHolds(all[j], fewer[i], call);
    }
  }

  lemma PurposeKept(before: seq<Item>, gone: seq<Item>, after: seq<Item>, loose: seq<Item>, declared: Option<string>,
                    p: Option<string>, q: Option<string>)
    requires Relaxed(before, loose)
    requires IsPurpose(declared, before + gone + after, p) && IsPurpose(declared, loose + after, q)
    ensures q.Some? ==> q == p
  {
    var all, fewer := before + gone + after, loose + after;
    if declared.None? && q.Some? {
      var i :| 0 <= i < |fewer| && PurposeOf(fewer[i]).Some?;
      var j := if i < |loose| then i else i + |gone|;
      assert all[j].c == fewer[i].c;
      assert PurposeOf(all[j]) == PurposeOf(fewer[i]);
    }
  }

  /** Removing a delegation hop from a covered chain leaves it covered, with the other hops'
      limits as they were and any purpose it still forces unchanged. */
  lemma DelegationOnlyNarrows(hops: seq<VerifiedHop>, d: nat, call: Call)
    requires Shaped(hops) && 0 < d < |hops| - 1 && Evaluate(hops, call).Covered?
    ensures Shaped(Without(hops, d)) && Evaluate(Without(hops, d), call).Covered?
    ensures var (p, q) := (Evaluate(hops, call).purpose, Evaluate(Without(hops, d), call).purpose); q.Some? ==> q == p
    ensures Listed(hops, 0) && Listed(hops, d + 1)
    ensures var before, after := LimitsOf(ItemsBetween(hops, 0, d)), LimitsOf(ItemsFrom(hops, d + 1));
            && Evaluate(hops, call).limits == before + LimitsOf(ItemsBetween(hops, d, d + 1)) + after
            && Evaluate(Without(hops, d), call).limits == before + after
  {
    hide Evaluate, ItemsFrom, ItemsBetween, LimitsOf, AllHold, PurposesAgree, SomeUnknown, IsPurpose, Relaxed;
    var fewer := Without(hops, d);
    WithoutShaped(hops, d);
    EvaluateExact(hops, call);
    WithoutListed(hops, d);
    ItemsSplit(hops, 0, d);
    ItemsSplit(hops, d, d + 1);
    ItemsSplit(fewer, 0, d);
    BeforeRelaxed(hops, d, 0);
    AfterSame(hops, d, d);
    var before, gone, after := ItemsBetween(hops, 0, d), ItemsBetween(hops, d, d + 1), ItemsFrom(hops, d + 1);
    var loose := ItemsBetween(fewer, 0, d);
    assert ItemsFrom(hops, 0) == before + gone + after;
    FewerStillAdmit(before, gone, after, loose, call);
    EvaluateExact(fewer, call);
    PurposeKept(before, gone, after, loose, call.purpose, Evaluate(hops, call).purpose, Evaluate(fewer, call).purpose);
    RelaxedLimits(before, loose);
    LimitsJoin(before + gone, after);
    LimitsJoin(before, gone);
    LimitsJoin(loose, after);
  }

  // ----- Matching is transitive -----

  lemma KeyCoveredTransitive(b: Object, c: Object, key: string, allowed: Value)
    requires KeyCovered(b, key, allowed) && Get(b, key).Some? && KeyCovered(c, key, Get(b, key).value)
    ensures KeyCovered(c, key, allowed)
  {
    if Dimension(key) {
      var middle, inner := Get(b, key).value.items, Get(c, key).value.items;
      forall v | v in inner ensures Contains(allowed.items, v) {
        var x :| x in middle && JsonEq(x, v);
        var y :| y in allowed.items && JsonEq(y, x);
        JsonEqTransitive(y, x, v);
      }
    } else {
      JsonEqTransitive(Get(c, key).value, Get(b, key).value, allowed);
    }
  }

  /** An allowance covered by another covers only what the other covers. */
  lemma CoversTransitive(a: Value, b: Value, c: Value)
    requires Covers(a, b) && Covers(b, c)
    ensures Covers(a, c)
  {
    forall f | f in a.fields && f.key != "type" ensures KeyCovered(c.fields, f.key, f.value) {
      assert KeyCovered(b.fields, f.key, f.value);
      var g := b.fields[Find(b.fields, f.key)];
      assert g in b.fields && KeyCovered(c.fields, g.key, g.value);
      KeyCoveredTransitive(b.fields, c.fields, f.key, f.value);
    }
  }

  function Allowances(c: Value): Option<seq<Value>> {
    match Member(c, "authorization_details") case Some(Arr(allowed)) => Some(allowed) case _ => None
  }

  /** A delegation whose allowances are each covered by the root's admits only requests that
      the root admits. */
  lemma CoveredDelegationAdmitsLess(root: Value, delegated: Value, call: Call)
    requires Allowances(root).Some? && Allowances(delegated).Some?
    requires forall b | b in Allowances(delegated).value :: SomeCovers(Allowances(root).value, b)
    requires DetailsHold(delegated, call)
    ensures DetailsHold(root, call)
  {
    forall r | r in call.authorizationDetails ensures SomeCovers(Allowances(root).value, r) {
      assert SomeCovers(Allowances(delegated).value, r);
      var b :| b in Allowances(delegated).value && Covers(b, r);
      assert SomeCovers(Allowances(root).value, b);
      var a :| a in Allowances(root).value && Covers(a, b);
      CoversTransitive(a, b, r);
    }
  }
}
