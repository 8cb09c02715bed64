/** What the `access.*` constraints permit, said of the mandates themselves: by the names and the
    words they hold, hop by hop, without the evaluation. */
module Permissions {
  import opened Results
  import opened Json
  import opened Chain
  import opened Constraints
  import opened Narrowing

  // ----- One constraint -----

  /** Every requested item is among the allowed ones. */
  predicate Within(allowed: Value, requested: Option<Value>) {
    && allowed.Arr? && requested.Some? && requested.value.Arr?
    && forall v | v in requested.value.items :: exists a | a in allowed.items :: JsonEq(a, v)
  }

  /** RFC 9396: the same type; the request states every restricted dimension and stays within it;
      any other key has the same value. */
  ghost predicate Allows(allowed: Object, requested: Object) {
    && (match Get(allowed, "type") case Some(Str(t)) => Get(requested, "type") == Some(Str(t)) case _ => false)
    && forall key | Get(allowed, key).Some? && key != "type" :: AllowsKey(allowed, requested, key)
  }

  predicate AllowsKey(allowed: Object, requested: Object, key: string)
    requires Get(allowed, key).Some?
  {
    var v := Get(allowed, key).value;
    if key in {"actions", "fields", "locations"} then Within(v, Get(requested, key))
    else Get(requested, key).Some? && JsonEq(Get(requested, key).value, v)
  }

  /** Every requested detail is allowed by one of the list. */
  ghost predicate AllowsAll(allowed: seq<Value>, details: seq<Value>) {
    forall r | r in details :: r.Obj? && exists a | a in allowed :: a.Obj? && Allows(a.fields, r.fields)
  }

  ghost predicate PermitsDetails(c: Value, call: Call) {
    match Member(c, "authorization_details") case Some(Arr(allowed)) => AllowsAll(allowed, call.authorizationDetails) case _ => false
  }

  predicate PermitsRelease(c: Value, call: Call) {
    Member(c, "release") == Some(Str("records")) || (Member(c, "release") == Some(Str("answer-only")) && call.release == AnswerOnly)
  }

  /** The constraint limits the uses of its mandate to `n`. */
  predicate LimitsUses(c: Value, n: nat) {
    Member(c, "type") == Some(Str("access.max_uses")) && Member(c, "max_uses") == Some(Int(n)) && 1 <= n <= 0xFFFF_FFFF_FFFF_FFFF
  }

  predicate PermitsDepth(c: Value, delegationsAfter: nat) {
    match Member(c, "max_depth") case Some(Int(n)) => delegationsAfter <= n <= 0xFFFF_FFFF_FFFF_FFFF case _ => false
  }

  predicate RequiresPurpose(c: Value, purpose: string) {
    Member(c, "type") == Some(Str("access.purpose")) && Member(c, "purpose") == Some(Str(purpose))
  }

  predicate KnownType(kind: string) {
    kind in {"access.authorization_details", "access.purpose", "access.release", "access.max_uses", "access.delegation"}
  }

  /** Well-formed, and, purposes aside, no bar to the call; of an unknown type it may be anything. */
  ghost predicate Permits(c: Value, delegationsAfter: nat, call: Call) {
    match Member(c, "type")
    case Some(Str(kind)) =>
      && (kind == "access.authorization_details" ==> PermitsDetails(c, call))
      && (kind == "access.purpose" ==> exists p :: RequiresPurpose(c, p))
      && (kind == "access.release" ==> PermitsRelease(c, call))
      && (kind == "access.max_uses" ==> exists n :: LimitsUses(c, n))
      && (kind == "access.delegation" ==> PermitsDepth(c, delegationsAfter))
    case _ => false
  }

  predicate Recognized(c: Value) {
    match Member(c, "type") case Some(Str(kind)) => KnownType(kind) case _ => false
  }

  lemma DimensionNames(key: string)
    ensures Dimension(key) <==> key in {"actions", "fields", "locations"}
  {
  }

  lemma KeyExactly(a: Object, r: Object, key: string)
    requires Get(a, key).Some?
    ensures KeyCovered(r, key, Get(a, key).value) <==> AllowsKey(a, r, key)
  {
    DimensionNames(key);
    hide Dimension;
  }

  /** One allowance covers one requested detail exactly as RFC 9396 asks. */
  lemma CoversExactly(a: Value, r: Value)
    requires WellFormed(a)
    ensures Covers(a, r) <==> a.Obj? && r.Obj? && Allows(a.fields, r.fields)
  {
    if a.Obj? && r.Obj? {
      var m, n := a.fields, r.fields;
      forall f | f in m ensures Get(m, f.key) == Some(f.value) && (KeyCovered(n, f.key, f.value) <==> AllowsKey(m, n, f.key)) {
        var i :| 0 <= i < |m| && m[i] == f;
        GetAt(m, i);
        KeyExactly(m, n, f.key);
      }
      forall key | Get(m, key).Some? ensures m[Find(m, key)] in m && m[Find(m, key)].key == key {}
      hide KeyCovered, AllowsKey;
    }
  }

  lemma DetailsExactly(c: Value, call: Call)
    requires WellFormed(c)
    ensures DetailsHold(c, call) <==> PermitsDetails(c, call)
  {
    match Member(c, "authorization_details")
    case Some(Arr(allowed)) =>
      MemberFormed(c, "authorization_details");
      forall r | r in call.authorizationDetails
        ensures SomeCovers(allowed, r) <==> r.Obj? && exists a | a in allowed :: a.Obj? && Allows(a.fields, r.fields)
      {
        forall a | a in allowed ensures Covers(a, r) <==> a.Obj? && r.Obj? && Allows(a.fields, r.fields) {
          CoversExactly(a, r);
        }
        hide Covers, Allows;
      }
    case _ =>
  }

  lemma MemberFormed(c: Value, key: string)
    requires WellFormed(c) && Member(c, key).Some?
    ensures WellFormed(Member(c, key).value)
  {
    assert c.fields[Find(c.fields, key)] in c.fields;
  }

  lemma ReleaseExactly(c: Value, call: Call)
    ensures ReleaseHolds(c, call) <==> PermitsRelease(c, call)
  {
    assert |"records"| == 7 && |"answer-only"| == 11;
  }

  lemma UsesExactly(c: Value, n: nat)
    requires KindIs(c, "access.max_uses")
    ensures UseLimit(c) == Some(n) <==> LimitsUses(c, n)
  {
  }

  lemma DepthExactly(c: Value, after: nat)
    ensures DepthHolds(c, after) <==> PermitsDepth(c, after)
  {
  }

  predicate KindIs(c: Value, kind: string) {
    Member(c, "type") == Some(Str(kind))
  }

  lemma PurposeExactly(c: Value, p: string)
    requires KindIs(c, "access.purpose")
    ensures AsStr(Member(c, "purpose")) == Some(p) <==> RequiresPurpose(c, p)
  {
  }

  lemma PermitsExactly(item: Item, call: Call)
    requires WellFormed(item.c)
    ensures Holds(item, call) <==> Permits(item.c, item.after, call)
    ensures Holds(item, call) ==> (Unknown(item) <==> !Recognized(item.c))
  {
    var c := item.c;
    DetailsExactly(c, call);
    ReleaseExactly(c, call);
    DepthExactly(c, item.after);
    if KindIs(c, "access.max_uses") && UseLimit(c).Some? { UsesExactly(c, UseLimit(c).value); }
    if KindIs(c, "access.max_uses") && exists n :: LimitsUses(c, n) {
      var n :| LimitsUses(c, n);
      UsesExactly(c, n);
    }
    if KindIs(c, "access.purpose") && AsStr(Member(c, "purpose")).Some? { PurposeExactly(c, AsStr(Member(c, "purpose")).value); }
    hide DetailsHold, PermitsDetails, ReleaseHolds, PermitsRelease, DepthHolds, PermitsDepth, UseLimit, LimitsUses, Get;
  }

  // ----- The whole chain -----

  /** `c` is one of the hop's constraints. */
  predicate Imposes(hop: VerifiedHop, c: Value) {
    match Get(hop.mandate, "constraints") case Some(Arr(items)) => c in items case _ => false
  }

  predicate ListsConstraints(hop: VerifiedHop) {
    match Get(hop.mandate, "constraints") case None => true case Some(Arr(_)) => true case _ => false
  }

  /** Authorizing hop `i` imposes `c`. */
  ghost predicate ImposedAt(hops: seq<VerifiedHop>, i: nat, c: Value) {
    i < |hops| - 1 && Imposes(hops[i], c)
  }

  /** Some authorizing hop requires the purpose. */
  ghost predicate Required(hops: seq<VerifiedHop>, purpose: string) {
    exists i: nat, c | ImposedAt(hops, i, c) :: RequiresPurpose(c, purpose)
  }

  ghost predicate OnePurpose(hops: seq<VerifiedHop>, declared: Option<string>) {
    && (forall p | Required(hops, p) :: declared.Some? ==> p == declared.value)
    && (forall p, q | Required(hops, p) && Required(hops, q) :: p == q)
  }

  /** Every authorizing hop lists its constraints and every one of them permits the call; the
      purposes are one. */
  ghost predicate Permitted(hops: seq<VerifiedHop>, call: Call)
    requires Shaped(hops)
  {
    && (forall i | 0 <= i < |hops| - 1 :: ListsConstraints(hops[i]))
    && (forall i: nat, c | ImposedAt(hops, i, c) :: Permits(c, DelegationsAfter(hops, i), call))
    && OnePurpose(hops, call.purpose)
  }

  ghost predicate AllRecognized(hops: seq<VerifiedHop>) {
    forall i: nat, c | ImposedAt(hops, i, c) :: Recognized(c)
  }

  ghost predicate MandatesFormed(hops: seq<VerifiedHop>) {
    forall i | 0 <= i < |hops| :: WellFormed(Obj(hops[i].mandate))
  }

  lemma ListedExactly(hops: seq<VerifiedHop>)
    ensures Listed(hops, 0) <==> forall i | 0 <= i < |hops| - 1 :: ListsConstraints(hops[i])
  {
    forall i | 0 <= i < |hops| ensures ConstraintsOf(hops[i].mandate).Some? <==> ListsConstraints(hops[i]) {}
    hide ConstraintsOf, ListsConstraints;
  }

  lemma ImposedIsFormed(hop: VerifiedHop, c: Value)
    requires WellFormed(Obj(hop.mandate)) && Imposes(hop, c)
    ensures WellFormed(c)
  {
    MemberFormed(Obj(hop.mandate), "constraints");
  }

  /** The items of the evaluation are the constraints imposed, each with the number of later
      delegations. */
  lemma {:induction false} ItemsAreImposed(hops: seq<VerifiedHop>, from: nat, x: Item)
    requires Shaped(hops) && Listed(hops, from)
    ensures x in ItemsFrom(hops, from)
       <==> exists i: nat :: from <= i && ImposedAt(hops, i, x.c) && x.id == hops[i].id && x.after == DelegationsAfter(hops, i)
    decreases |hops| - from
  {
    if from < |hops| - 1 {
      ItemsAreImposed(hops, from + 1, x);
      DepthCountsDelegations(hops, from);
      HopItems(hops, from, x);
      ItemsCons(hops, from);
      hide ItemsFrom, ItemsOf, ImposedAt, DelegationsAfter, Shaped, Listed;
    }
  }

  lemma HopItems(hops: seq<VerifiedHop>, i: nat, x: Item)
    requires Shaped(hops) && Listed(hops, i) && i < |hops| - 1
    ensures x in ItemsOf(hops[i].id, |hops| - 2 - i, ConstraintsOf(hops[i].mandate).value)
       <==> ImposedAt(hops, i, x.c) && x.id == hops[i].id && x.after == |hops| - 2 - i
  {
    var cs := ConstraintsOf(hops[i].mandate).value;
    var items := ItemsOf(hops[i].id, |hops| - 2 - i, cs);
    if x.c in cs {
      var k :| 0 <= k < |cs| && cs[k] == x.c;
      assert items[k] == Item(hops[i].id, |hops| - 2 - i, x.c);
    }
  }

  /** Membership of the item for one imposed constraint. */
  lemma ImposedIsItem(hops: seq<VerifiedHop>, i: nat, c: Value)
    requires Shaped(hops) && Listed(hops, 0) && ImposedAt(hops, i, c)
    ensures Item(hops[i].id, DelegationsAfter(hops, i), c) in ItemsFrom(hops, 0)
  {
    ItemsAreImposed(hops, 0, Item(hops[i].id, DelegationsAfter(hops, i), c));
  }

  lemma AllHoldExactly(hops: seq<VerifiedHop>, call: Call)
    requires Shaped(hops) && Listed(hops, 0) && MandatesFormed(hops)
    ensures AllHold(ItemsFrom(hops, 0), call)
       <==> forall i: nat, c | ImposedAt(hops, i, c) :: Permits(c, DelegationsAfter(hops, i), call)
  {
    var items := ItemsFrom(hops, 0);
    if AllHold(items, call) {
      forall i: nat, c | ImposedAt(hops, i, c) ensures Permits(c, DelegationsAfter(hops, i), call) {
        ImposedIsItem(hops, i, c);
        ImposedIsFormed(hops[i], c);
        PermitsExactly(Item(hops[i].id, DelegationsAfter(hops, i), c), call);
        hide Holds, Permits;
      }
    }
    if forall i: nat, c | ImposedAt(hops, i, c) :: Permits(c, DelegationsAfter(hops, i), call) {
      forall k | 0 <= k < |items| ensures Holds(items[k], call) {
        hide Holds, Permits;
        assert items[k] in items;
        ItemsAreImposed(hops, 0, items[k]);
        var i: nat :| ImposedAt(hops, i, items[k].c) && items[k].after == DelegationsAfter(hops, i);
        ImposedIsFormed(hops[i], items[k].c);
        PermitsExactly(items[k], call);
      }
    }
  }

  lemma ItemKnown(hops: seq<VerifiedHop>, call: Call, x: Item)
    requires Shaped(hops) && Listed(hops, 0) && MandatesFormed(hops) && x in ItemsFrom(hops, 0) && Holds(x, call)
    ensures exists i: nat :: ImposedAt(hops, i, x.c)
    ensures Unknown(x) <==> !Recognized(x.c)
  {
    hide Holds, Unknown, Recognized, Permits, ItemsFrom;
    ItemsAreImposed(hops, 0, x);
    var i: nat :| ImposedAt(hops, i, x.c);
    ImposedIsFormed(hops[i], x.c);
    PermitsExactly(x, call);
  }

  lemma UnknownExactly(hops: seq<VerifiedHop>, call: Call)
    requires Shaped(hops) && Listed(hops, 0) && MandatesFormed(hops) && AllHold(ItemsFrom(hops, 0), call)
    ensures SomeUnknown(ItemsFrom(hops, 0)) <==> !AllRecognized(hops)
  {
    var items := ItemsFrom(hops, 0);
    hide Holds, Unknown, Recognized, ItemsFrom, ImposedAt, Shaped, Listed, MandatesFormed;
    forall x | x in items ensures (exists i: nat :: ImposedAt(hops, i, x.c)) && (Unknown(x) <==> !Recognized(x.c)) {
      var k :| 0 <= k < |items| && items[k] == x;
      assert Holds(items[k], call);
      ItemKnown(hops, call, x);
    }
    if SomeUnknown(items) {
      var k :| 0 <= k < |items| && Unknown(items[k]);
      assert items[k] in items;
    }
    if i: nat, c :| ImposedAt(hops, i, c) && !Recognized(c) {
      ImposedBounds(hops, i, c);
      ImposedIsItem(hops, i, c);
      SomeUnknownAt(items, Item(hops[i].id, DelegationsAfter(hops, i), c));
    }
  }

  lemma ImposedBounds(hops: seq<VerifiedHop>, i: nat, c: Value)
    requires ImposedAt(hops, i, c)
    ensures i < |hops| - 1
  {
  }

  lemma SomeUnknownAt(items: seq<Item>, x: Item)
    requires x in items && Unknown(x)
    ensures SomeUnknown(items)
  {
    var k :| 0 <= k < |items| && items[k] == x;
  }

  lemma PurposeOfExactly(item: Item, p: string)
    ensures PurposeOf(item) == Some(p) <==> RequiresPurpose(item.c, p)
  {
  }

  ghost predicate SomeWants(items: seq<Item>, p: string) {
    exists k :: 0 <= k < |items| && PurposeOf(items[k]) == Some(p)
  }

  lemma RequiredExactly(hops: seq<VerifiedHop>, p: string)
    requires Shaped(hops) && Listed(hops, 0)
    ensures Required(hops, p) <==> SomeWants(ItemsFrom(hops, 0), p)
  {
    var items := ItemsFrom(hops, 0);
    hide PurposeOf, RequiresPurpose, ItemsFrom, ImposedAt;
    if Required(hops, p) {
      var i: nat, c :| ImposedAt(hops, i, c) && RequiresPurpose(c, p);
      ImposedIsItem(hops, i, c);
      var x := Item(hops[i].id, DelegationsAfter(hops, i), c);
      var k :| 0 <= k < |items| && items[k] == x;
      PurposeOfExactly(x, p);
    }
    if k :| 0 <= k < |items| && PurposeOf(items[k]) == Some(p) {
      assert items[k] in items;
      ItemsAreImposed(hops, 0, items[k]);
      PurposeOfExactly(items[k], p);
    }
  }

  lemma PurposesExactly(hops: seq<VerifiedHop>, declared: Option<string>)
    requires Shaped(hops) && Listed(hops, 0)
    ensures PurposesAgree(declared, ItemsFrom(hops, 0)) <==> OnePurpose(hops, declared)
  {
    var items := ItemsFrom(hops, 0);
    hide Required, ItemsFrom, SomeWants, PurposesAgree, PurposeOf;
    forall p ensures Required(hops, p) <==> SomeWants(items, p) {
      RequiredExactly(hops, p);
    }
    WantsAgree(items, declared);
  }

  lemma WantsAgree(items: seq<Item>, declared: Option<string>)
    ensures PurposesAgree(declared, items)
       <==> (forall p | SomeWants(items, p) :: declared.Some? ==> p == declared.value)
            && (forall p, q | SomeWants(items, p) && SomeWants(items, q) :: p == q)
  {
    hide PurposeOf;
    if PurposesAgree(declared, items) {
      forall p, q | SomeWants(items, p) && SomeWants(items, q) ensures p == q {
        var i :| 0 <= i < |items| && PurposeOf(items[i]) == Some(p);
        var j :| 0 <= j < |items| && PurposeOf(items[j]) == Some(q);
      }
    }
    if forall p, q | SomeWants(items, p) && SomeWants(items, q) :: p == q {
      forall i | 0 <= i < |items| && PurposeOf(items[i]).Some? ensures SomeWants(items, PurposeOf(items[i]).value) {
      }
    }
  }

  /** A call is covered if and only if every constraint of every authorizing hop permits it, all
      of them are of known types, and the purposes are one; it is unresolved if only a type is
      unknown, and refused otherwise. */
  lemma CoveredExactly(hops: seq<VerifiedHop>, call: Call)
    requires Shaped(hops) && MandatesFormed(hops)
    ensures Evaluate(hops, call).Covered? <==> Permitted(hops, call) && AllRecognized(hops)
    ensures Evaluate(hops, call).Unresolved? <==> Permitted(hops, call) && !AllRecognized(hops)
  {
    EvaluateExact(hops, call);
    ListedExactly(hops);
    hide Evaluate, Listed, ItemsFrom, AllHold, SomeUnknown, PurposesAgree, OnePurpose, AllRecognized, ListsConstraints, Permits, MandatesFormed;
    if Listed(hops, 0) {
      AllHoldExactly(hops, call);
      PurposesExactly(hops, call.purpose);
      if AllHold(ItemsFrom(hops, 0), call) { UnknownExactly(hops, call); }
    }
  }

  // ----- What a covered call comes with -----

  lemma LimitOfExactly(item: Item, id: string, n: nat)
    ensures (id, n) in LimitOf(item) <==> item.id == id && LimitsUses(item.c, n)
  {
  }

  lemma {:induction false} LimitsOfMembers(items: seq<Item>, id: string, n: nat)
    ensures (id, n) in LimitsOf(items) <==> exists x :: x in items && x.id == id && LimitsUses(x.c, n)
  {
    hide LimitOf, LimitsUses;
    if items != [] {
      LimitsOfMembers(items[1..], id, n);
      LimitOfExactly(items[0], id, n);
      assert items == [items[0]] + items[1..];
    }
  }

  /** The limits of a covered call are exactly the use limits its authorizing hops impose, each
      under the hop's identifier. */
  lemma LimitsAreImposed(hops: seq<VerifiedHop>, call: Call, id: string, n: nat)
    requires Shaped(hops) && Evaluate(hops, call).Covered?
    ensures (id, n) in Evaluate(hops, call).limits
       <==> exists i: nat, c :: ImposedAt(hops, i, c) && hops[i].id == id && LimitsUses(c, n)
  {
    EvaluateExact(hops, call);
    hide Evaluate, ItemsFrom, LimitsUses, LimitsOf;
    LimitsOfMembers(ItemsFrom(hops, 0), id, n);
    if x :| x in ItemsFrom(hops, 0) && x.id == id && LimitsUses(x.c, n) {
      ItemsAreImposed(hops, 0, x);
    }
    if i: nat, c :| ImposedAt(hops, i, c) && hops[i].id == id && LimitsUses(c, n) {
      ImposedIsItem(hops, i, c);
    }
  }

  /** The purpose of a covered call is the declared one, or else the one required; with neither
      there is none. */
  lemma PurposeIsRequired(hops: seq<VerifiedHop>, call: Call)
    requires Shaped(hops) && Evaluate(hops, call).Covered?
    ensures var purpose := Evaluate(hops, call).purpose;
            && (call.purpose.Some? ==> purpose == call.purpose)
            && (forall p | Required(hops, p) :: purpose == Some(p))
            && (call.purpose.None? && (forall p :: !Required(hops, p)) ==> purpose == None)
  {
    EvaluateExact(hops, call);
    hide Evaluate, ItemsFrom, PurposeOf, Required, SomeWants, PurposesAgree, IsPurpose;
    forall p ensures Required(hops, p) <==> SomeWants(ItemsFrom(hops, 0), p) {
      RequiredExactly(hops, p);
    }
    WantedPurpose(ItemsFrom(hops, 0), call.purpose, Evaluate(hops, call).purpose);
  }

  lemma WantedPurpose(items: seq<Item>, declared: Option<string>, purpose: Option<string>)
    requires PurposesAgree(declared, items) && IsPurpose(declared, items, purpose)
    ensures declared.Some? ==> purpose == declared
    ensures forall p | SomeWants(items, p) :: purpose == Some(p)
    ensures declared.None? && (forall p :: !SomeWants(items, p)) ==> purpose == None
  {
    hide PurposeOf;
    if i :| 0 <= i < |items| && PurposeOf(items[i]) == purpose && purpose.Some? {
      assert SomeWants(items, purpose.value);
    }
  }

  // ----- Laws -----

  /** Every release cap of a covered call is one of the two words, and it is `records` when the
      call releases records. */
  lemma ReleaseIsCapped(hops: seq<VerifiedHop>, call: Call, i: nat, c: Value)
    requires Shaped(hops) && MandatesFormed(hops) && Evaluate(hops, call).Covered?
    requires ImposedAt(hops, i, c) && Member(c, "type") == Some(Str("access.release"))
    ensures Member(c, "release") == Some(Str("records")) || Member(c, "release") == Some(Str("answer-only"))
    ensures call.release == Records ==> Member(c, "release") == Some(Str("records"))
  {
    CoveredExactly(hops, call);
    hide Evaluate;
    assert Permits(c, DelegationsAfter(hops, i), call);
  }

  /** The call asks for no more. */
  predicate AsksLess(less: Call, more: Call) {
    && less.purpose == more.purpose
    && (less.release == AnswerOnly || less.release == more.release)
    && forall r | r in less.authorizationDetails :: r in more.authorizationDetails
  }

  /** A chain that covers a call covers every call that asks for less. */
  lemma LessIsCovered(hops: seq<VerifiedHop>, less: Call, more: Call)
    requires Shaped(hops) && MandatesFormed(hops) && Evaluate(hops, more).Covered? && AsksLess(less, more)
    ensures Evaluate(hops, less).Covered?
  {
    CoveredExactly(hops, more);
    CoveredExactly(hops, less);
    hide Evaluate, AllRecognized, OnePurpose, MandatesFormed;
    forall i: nat, c | ImposedAt(hops, i, c) ensures Permits(c, DelegationsAfter(hops, i), less) {
      assert Permits(c, DelegationsAfter(hops, i), more);
      PermitsLess(c, DelegationsAfter(hops, i), less, more);
    }
  }

  lemma PermitsLess(c: Value, after: nat, less: Call, more: Call)
    requires Permits(c, after, more) && AsksLess(less, more)
    ensures Permits(c, after, less)
  {
    hide Allows, LimitsUses, PermitsDepth, RequiresPurpose;
  }
}
