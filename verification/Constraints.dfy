/** The `access.*` constraints of a chain against one call (constraints.rs): a fold over the
    authorizing hops and, within each, over its constraints. */
module Constraints {
  import opened Results
  import opened Json
  import opened Chain
  import opened ChainTheorems

  datatype Release = AnswerOnly | Records

  datatype Call = Call(rpc: string, taskId: string, authorizationDetails: seq<Value>, purpose: Option<string>, release: Release)

  type Limits = seq<(string, nat)>

  datatype Evaluation = Covered(purpose: Option<string>, limits: Limits) | Refused | Unresolved

  const AUTHORIZATION_DETAILS: string := "access.authorization_details"
  const PURPOSE: string := "access.purpose"
  const RELEASE: string := "access.release"
  const MAX_USES: string := "access.max_uses"
  const DELEGATION: string := "access.delegation"

  // ----- Single constraints -----

  function ParseRelease(s: string): Option<Release> {
    if s == "answer-only" then Some(AnswerOnly) else if s == "records" then Some(Records) else None
  }

  predicate Dimension(key: string) {
    key == "actions" || key == "fields" || key == "locations"
  }

  predicate Contains(allowed: seq<Value>, v: Value) {
    exists x | x in allowed :: JsonEq(x, v)
  }

  predicate Subset(requested: Object, key: string, allowed: Value) {
    && allowed.Arr?
    && match Get(requested, key)
       case Some(Arr(items)) => forall v | v in items :: Contains(allowed.items, v)
       case _ => false
  }

  predicate KeyCovered(requested: Object, key: string, allowed: Value) {
    if Dimension(key) then Subset(requested, key, allowed)
    else Get(requested, key).Some? && JsonEq(Get(requested, key).value, allowed)
  }

  /** RFC 9396 matching of one allowance against one requested detail. */
  predicate Covers(allowed: Value, requested: Value) {
    && allowed.Obj? && requested.Obj?
    && AsStr(Get(allowed.fields, "type")).Some? && Get(requested.fields, "type") == Get(allowed.fields, "type")
    && forall f | f in allowed.fields && f.key != "type" :: KeyCovered(requested.fields, f.key, f.value)
  }

  predicate SomeCovers(allowed: seq<Value>, requested: Value) {
    exists a | a in allowed :: Covers(a, requested)
  }

  predicate DetailsHold(c: Value, call: Call) {
    match Member(c, "authorization_details")
    case Some(Arr(allowed)) => forall r | r in call.authorizationDetails :: SomeCovers(allowed, r)
    case _ => false
  }

  predicate ReleaseHolds(c: Value, call: Call) {
    match AsStr(Member(c, "release"))
    case Some(s) =>
      (match ParseRelease(s)
       case Some(cap) => !(call.release == Records && cap == AnswerOnly)
       case None => false)
    case None => false
  }

  function UseLimit(c: Value): Option<nat> {
    match AsU64(Member(c, "max_uses"))
    case Some(n) => if n >= 1 then Some(n) else None
    case None => None
  }

  predicate DepthHolds(c: Value, delegationsAfter: nat) {
    match AsU64(Member(c, "max_depth"))
    case Some(max) => delegationsAfter <= max
    case None => false
  }

  // ----- The fold -----

  /** One constraint of one hop: the hop's identifier and the delegations after it. */
  datatype Item = Item(id: string, after: nat, c: Value)

  datatype Progress = Progress(purpose: Option<string>, limits: Limits, unknown: bool)

  /** What one constraint does to the progress; nothing when it refuses the call. */
  function Step(p: Progress, item: Item, call: Call): Option<Progress> {
    match AsStr(Member(item.c, "type"))
    case None => None
    case Some(kind) =>
      if kind == AUTHORIZATION_DETAILS then (if DetailsHold(item.c, call) then Some(p) else None)
      else if kind == PURPOSE then
        match AsStr(Member(item.c, "purpose"))
        case None => None
        case Some(required) => if p.purpose.Some? && p.purpose.value != required then None else Some(p.(purpose := Some(required)))
      else if kind == RELEASE then (if ReleaseHolds(item.c, call) then Some(p) else None)
      else if kind == MAX_USES then
        match UseLimit(item.c)
        case None => None
        case Some(n) => Some(p.(limits := p.limits + [(item.id, n)]))
      else if kind == DELEGATION then (if DepthHolds(item.c, item.after) then Some(p) else None)
      else Some(p.(unknown := true))
  }

  function Fold(p: Progress, items: seq<Item>, call: Call): Option<Progress>
    decreases |items|
  {
    if items == [] then Some(p)
    else
      match Step(p, items[0], call)
      case None => None
      case Some(p1) => Fold(p1, items[1..], call)
  }

  function ConstraintsOf(mandate: Object): Option<seq<Value>> {
    match Get(mandate, "constraints")
    case None => Some([])
    case Some(Arr(items)) => Some(items)
    case _ => None
  }

  function ItemsOf(id: string, after: nat, cs: seq<Value>): (items: seq<Item>)
    ensures |items| == |cs| && forall i | 0 <= i < |cs| :: items[i] == Item(id, after, cs[i])
  {
    seq(|cs|, i requires 0 <= i < |cs| => Item(id, after, cs[i]))
  }

  /** A root, any delegations and a closing hop: what `verify_chain` hands over. */
  predicate Shaped(hops: seq<VerifiedHop>) {
    |hops| >= 2 && forall i | 0 <= i < |hops| :: hops[i].kind == KindAt(i, |hops|)
  }

  /** Hop by hop, from hop `i` on. */
  function FoldHops(p: Progress, hops: seq<VerifiedHop>, i: nat, call: Call): Option<Progress>
    requires Shaped(hops) && i <= |hops| - 1
    decreases |hops| - i
  {
    if i == |hops| - 1 then Some(p)
    else
      match ConstraintsOf(hops[i].mandate)
      case None => None
      case Some(cs) =>
        (match Fold(p, ItemsOf(hops[i].id, |hops| - 2 - i, cs), call)
         case None => None
         case Some(p1) => FoldHops(p1, hops, i + 1, call))
  }

  function Conclude(p: Option<Progress>): Evaluation {
    match p
    case None => Refused
    case Some(p) => if p.unknown then Unresolved else Covered(p.purpose, p.limits)
  }

  function Evaluate(hops: seq<VerifiedHop>, call: Call): Evaluation
    requires Shaped(hops)
  {
    Conclude(FoldHops(Progress(call.purpose, [], false), hops, 0, call))
  }

  // ----- The code -----

  /** `constrain_purpose`: writes the purpose it requires. */
  method ConstrainPurpose(c: Value, purpose: Option<string>) returns (ok: bool, newPurpose: Option<string>)
    ensures ok <==> AsStr(Member(c, "purpose")).Some? && (purpose.Some? ==> purpose == AsStr(Member(c, "purpose")))
    ensures newPurpose == if ok then AsStr(Member(c, "purpose")) else purpose
  {
    var required := AsStr(Member(c, "purpose"));
    newPurpose := purpose;
    if required.None? { return false, purpose; }
    if purpose.Some? && purpose.value != required.value { return false, purpose; }
    return true, required;
  }

  /** `evaluate` of constraints.rs. */
  method EvaluateCall(hops: seq<VerifiedHop>, call: Call) returns (r: Evaluation)
    requires Shaped(hops)
    ensures r == Evaluate(hops, call)
  {
    hide DetailsHold, ReleaseHolds, UseLimit, DepthHolds, ConstraintsOf, Member, AsStr;
    var purpose, limits: Limits, unknown := call.purpose, [], false;
    var i := 0;
    while i < |hops|
      invariant 0 <= i <= |hops|
      invariant i < |hops| ==> Evaluate(hops, call) == Conclude(FoldHops(Progress(purpose, limits, unknown), hops, i, call))
      invariant i == |hops| ==> Evaluate(hops, call) == Conclude(Some(Progress(purpose, limits, unknown)))
    {
      if !hops[i].kind.Closing? {
        var constraints := ConstraintsOf(hops[i].mandate);
        if constraints.None? { return Refused; }
        ghost var items := ItemsOf(hops[i].id, |hops| - 2 - i, constraints.value);
        ghost var whole := Fold(Progress(purpose, limits, unknown), items, call);
        var j := 0;
        while j < |constraints.value|
          invariant 0 <= j <= |constraints.value|
          invariant whole == Fold(Progress(purpose, limits, unknown), items[j..], call)
          invariant whole.None? ==> Evaluate(hops, call) == Refused
        {
          var c := constraints.value[j];
          assert items[j..][0] == Item(hops[i].id, |hops| - 2 - i, c) && items[j..][1..] == items[j + 1..];
          var kind := AsStr(Member(c, "type"));
          var ok := false;
          if kind.None? {
            return Refused;
          } else if kind.value == AUTHORIZATION_DETAILS {
            ok := DetailsHold(c, call);
          } else if kind.value == PURPOSE {
            ok, purpose := ConstrainPurpose(c, purpose);
          } else if kind.value == RELEASE {
            ok := ReleaseHolds(c, call);
          } else if kind.value == MAX_USES {
            var n := UseLimit(c);
            ok := n.Some?;
            if ok { limits := limits + [(hops[i].id, n.value)]; }
          } else if kind.value == DELEGATION {
            ok := DepthHolds(c, |hops| - 2 - i);
          } else {
            unknown, ok := true, true;
          }
          if !ok { return Refused; }
          j := j + 1;
        }
        assert items[j..] == [];
      }
      i := i + 1;
    }
    r := if unknown then Unresolved else Covered(purpose, limits);
  }
}
