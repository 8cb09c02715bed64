/** What is signed of an agent card (canonical.rs; A2A v1.0, section 8.4.1), as functions of the
    card: `Strip` walks it along the message schema, `CleanEmpty` prunes it further in the SDK's
    form, and `Payload` is the canonical text of the rest. */
module Card {
  import opened Results
  import opened Json
  import opened Schema
  import opened Numbers
  import opened Jcs

  datatype Mode = SpecForm | A2aSdkForm

  const SIGNATURES: string := "signatures"

  /** A value an implicit field of this shape and kind is dropped at. */
  predicate IsDefault(v: Value, shape: Shape, kind: Kind) {
    match (shape, kind, v)
    case (Repeated, _, Arr(items)) => items == []
    case (Keyed, _, Obj(m)) => m == []
    case (Single, Text, Str(s)) => s == ""
    case (Single, Flag, Bool(b)) => !b
    case (Single, Numeric, Int(i)) => i == 0
    case (Single, Numeric, Float(d)) => d.magnitude == 0
    case (Single, Enumeration, Int(i)) => i == 0
    case (Single, Enumeration, Str(s)) => |s| >= 12 && s[|s| - 12..] == "_UNSPECIFIED"
    case _ => false
  }

  // ----- Removing defaults -----

  function Strip(v: Value, message: MessageName, mode: Mode, depth: nat): Option<Value>
    decreases Size(v), 0
  {
    if depth > MAX_DEPTH then None
    else if !v.Obj? then Some(v)
    else match StripFields(v.fields, message, mode, depth) case None => None case Some(m) => Some(Obj(m))
  }

  function StripFields(m: Object, message: MessageName, mode: Mode, depth: nat): Option<Object>
    decreases FieldsSize(m), 2
  {
    if m == [] then Some([])
    else
      match StripField(m[0], message, mode, depth)
      case None => None
      case Some(head) => (match StripFields(m[1..], message, mode, depth) case None => None case Some(rest) => Some(head + rest))
  }

  /** One field: kept, with its value stripped, or dropped. */
  function StripField(f: Field, message: MessageName, mode: Mode, depth: nat): Option<Object>
    decreases Size(f.value), 2
  {
    match FieldOf(message, f.key)
    case None => Some(if mode.SpecForm? then [f] else [])
    case Some(spec) =>
      match StripTyped(f.value, spec, mode, depth)
      case None => None
      case Some(v) => Some(if spec.presence != Implicit || !IsDefault(v, spec.shape, spec.kind) then [Field(f.key, v)] else [])
  }

  function StripTyped(v: Value, spec: Spec, mode: Mode, depth: nat): Option<Value>
    decreases Size(v), 1
  {
    match (spec.shape, spec.kind, v)
    case (Single, Message(name), v) => Strip(v, name, mode, depth + 1)
    case (Repeated, Message(name), Arr(items)) =>
      (match StripItems(items, name, mode, depth + 1) case None => None case Some(xs) => Some(Arr(xs)))
    case (Keyed, Message(name), Obj(entries)) =>
      (match StripEntries(entries, name, mode, depth + 1) case None => None case Some(es) => Some(Obj(es)))
    case _ => Some(v)
  }

  function StripItems(items: seq<Value>, message: MessageName, mode: Mode, depth: nat): (r: Option<seq<Value>>)
    ensures r.Some? ==> |r.value| == |items|
    decreases ItemsSize(items), 0
  {
    if items == [] then Some([])
    else
      match Strip(items[0], message, mode, depth)
      case None => None
      case Some(v) => (match StripItems(items[1..], message, mode, depth) case None => None case Some(rest) => Some([v] + rest))
  }

  function StripEntries(entries: Object, message: MessageName, mode: Mode, depth: nat): (r: Option<Object>)
    ensures r.Some? ==> |r.value| == |entries|
    decreases FieldsSize(entries), 0
  {
    if entries == [] then Some([])
    else
      match Strip(entries[0].value, message, mode, depth)
      case None => None
      case Some(v) =>
        (match StripEntries(entries[1..], message, mode, depth)
         case None => None
         case Some(rest) => Some([Field(entries[0].key, v)] + rest))
  }

  // ----- Removing every empty value -----

  function CleanEmpty(v: Value): Option<Value>
    decreases Size(v)
  {
    match v
    case Obj(m) => var kept := CleanFields(m); if kept == [] then None else Some(Obj(kept))
    case Arr(items) => var kept := CleanItems(items); if kept == [] then None else Some(Arr(kept))
    case Str(s) => if s == "" then None else Some(v)
    case _ => Some(v)
  }

  function CleanFields(m: Object): Object
    decreases FieldsSize(m)
  {
    if m == [] then []
    else
      (match CleanEmpty(m[0].value) case None => [] case Some(v) => [Field(m[0].key, v)]) + CleanFields(m[1..])
  }

  function CleanItems(items: seq<Value>): seq<Value>
    decreases ItemsSize(items)
  {
    if items == [] then []
    else (match CleanEmpty(items[0]) case None => [] case Some(v) => [v]) + CleanItems(items[1..])
  }

  // ----- The payload -----

  function Unsigned(card: Value): Value {
    if card.Obj? then Obj(SwapRemove(card.fields, SIGNATURES)) else card
  }

  function Prepared(card: Value, mode: Mode): Option<Value> {
    match Strip(Unsigned(card), AgentCard, mode, 0)
    case None => None
    case Some(v) =>
      if mode.SpecForm? then Some(v) else Some(match CleanEmpty(v) case None => Null case Some(w) => w)
  }

  function Payload(fl: Floats, card: Value, mode: Mode): Option<string> {
    match Prepared(card, mode) case None => None case Some(v) => Canon(fl, v, 0)
  }

  // ----- The code -----

  /** `strip`'s loop over the fields of one message, into an output map. */
  method StripObject(m: Object, message: MessageName, mode: Mode, depth: nat) returns (r: Option<Object>)
    requires Distinct(m)
    ensures r == StripFields(m, message, mode, depth)
  {
    hide Follows, FieldOf, StripTyped, IsDefault;
    var out: Object := [];
    assert m[0..] == m;
    FollowsStart(StripFields(m, message, mode, depth));
    for i := 0 to |m|
      invariant Follows(StripFields(m, message, mode, depth), out, StripFields(m[i..], message, mode, depth))
      invariant forall f | f in out :: exists j :: 0 <= j < i && m[j].key == f.key
    {
      var f, before := m[i], out;
      assert m[i..][0] == f && m[i..][1..] == m[i + 1..];
      NoKeyYet(m, i, out);
      var kept: Object := [];
      match FieldOf(message, f.key) {
        case None =>
          if mode.SpecForm? {
            kept := [f];
            out := Insert(out, f.key, f.value);
          }
        case Some(spec) =>
          var stripped := StripTyped(f.value, spec, mode, depth);
          if stripped.None? {
            FollowsNone(StripFields(m, message, mode, depth), before);
            return None;
          }
          if spec.presence != Implicit || !IsDefault(stripped.value, spec.shape, spec.kind) {
            kept := [Field(f.key, stripped.value)];
            out := Insert(out, f.key, stripped.value);
          }
      }
      assert StripField(f, message, mode, depth) == Some(kept) && out == before + kept;
      FollowsStep(StripFields(m, message, mode, depth), before, kept, StripFields(m[i + 1..], message, mode, depth));
      assert forall g | g in kept :: g.key == m[i].key;
    }
    assert m[|m|..] == [];
    FollowsEnd(StripFields(m, message, mode, depth), out);
    r := Some(out);
  }

  ghost predicate Follows(whole: Option<Object>, done: Object, rest: Option<Object>) {
    whole == match rest case None => None case Some(m) => Some(done + m)
  }

  lemma FollowsStart(whole: Option<Object>)
    ensures Follows(whole, [], whole)
  {
    if whole.Some? { assert [] + whole.value == whole.value; }
  }

  lemma FollowsEnd(whole: Option<Object>, done: Object)
    requires Follows(whole, done, Some([]))
    ensures whole == Some(done)
  {
    assert done + [] == done;
  }

  lemma FollowsNone(whole: Option<Object>, done: Object)
    requires Follows(whole, done, None)
    ensures whole == None
  {
  }

  lemma FollowsStep(whole: Option<Object>, done: Object, kept: Object, rest: Option<Object>)
    requires Follows(whole, done, match rest case None => None case Some(m) => Some(kept + m))
    ensures Follows(whole, done + kept, rest)
  {
    if rest.Some? { assert done + kept + rest.value == done + (kept + rest.value); }
  }

  lemma NoKeyYet(m: Object, i: nat, out: Object)
    requires Distinct(m) && i < |m|
    requires forall f | f in out :: exists j :: 0 <= j < i && m[j].key == f.key
    ensures forall v :: Insert(out, m[i].key, v) == out + [Field(m[i].key, v)]
  {
    forall k | 0 <= k < |out| ensures out[k].key != m[i].key {
      assert out[k] in out;
    }
  }
}
