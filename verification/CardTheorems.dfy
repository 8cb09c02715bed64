/** What the two forms of a card payload keep and where they differ. */
module CardTheorems {
  import opened Results
  import opened Json
  import opened Schema
  import opened Jcs
  import opened Card

  // ----- The depth guard never fires -----

  lemma {:induction false} StripSucceeds(v: Value, message: MessageName, mode: Mode, depth: nat)
    requires depth + Rank(message) <= MAX_DEPTH
    ensures Strip(v, message, mode, depth).Some?
    decreases Size(v), 0
  {
    if v.Obj? {
      StripFieldsSucceeds(v.fields, message, mode, depth);
    }
  }

  lemma {:induction false} StripFieldsSucceeds(m: Object, message: MessageName, mode: Mode, depth: nat)
    requires depth + Rank(message) <= MAX_DEPTH
    ensures StripFields(m, message, mode, depth).Some?
    decreases FieldsSize(m), 2
  {
    if m != [] {
      hide FieldOf, Rank, StripField;
      FieldSucceeds(m[0], message, mode, depth);
      StripFieldsSucceeds(m[1..], message, mode, depth);
    }
  }

  lemma {:induction false} FieldSucceeds(f: Field, message: MessageName, mode: Mode, depth: nat)
    requires depth + Rank(message) <= MAX_DEPTH
    ensures StripField(f, message, mode, depth).Some?
    decreases Size(f.value), 2
  {
    hide FieldOf, Rank, StripTyped, IsDefault;
    SchemaIsAcyclic(message, f.key);
    if FieldOf(message, f.key).Some? {
      TypedSucceeds(f.value, FieldOf(message, f.key).value, message, mode, depth);
    }
  }

  lemma {:induction false} TypedSucceeds(v: Value, spec: Spec, message: MessageName, mode: Mode, depth: nat)
    requires depth + Rank(message) <= MAX_DEPTH && Nests(message, spec)
    ensures StripTyped(v, spec, mode, depth).Some?
    decreases Size(v), 1
  {
    if spec.kind.Message? {
      match (spec.shape, v)
      case (Single, _) => StripSucceeds(v, spec.kind.name, mode, depth + 1);
      case (Repeated, Arr(items)) => ItemsSucceed(items, spec.kind.name, mode, depth + 1);
      case (Keyed, Obj(entries)) => EntriesSucceed(entries, spec.kind.name, mode, depth + 1);
      case _ =>
    }
  }

  lemma {:induction false} ItemsSucceed(items: seq<Value>, message: MessageName, mode: Mode, depth: nat)
    requires depth + Rank(message) <= MAX_DEPTH
    ensures StripItems(items, message, mode, depth).Some?
    decreases ItemsSize(items), 0
  {
    if items != [] {
      StripSucceeds(items[0], message, mode, depth);
      ItemsSucceed(items[1..], message, mode, depth);
    }
  }

  lemma {:induction false} EntriesSucceed(entries: Object, message: MessageName, mode: Mode, depth: nat)
    requires depth + Rank(message) <= MAX_DEPTH
    ensures StripEntries(entries, message, mode, depth).Some?
    decreases FieldsSize(entries), 0
  {
    if entries != [] {
      StripSucceeds(entries[0].value, message, mode, depth);
      EntriesSucceed(entries[1..], message, mode, depth);
    }
  }

  /** Stripping a card never meets the depth limit, however deep the card is: the only
      error of the payload is RFC 8785's. */
  lemma StrippingNeverFails(card: Value, mode: Mode)
    ensures Prepared(card, mode).Some?
  {
    StripSucceeds(Unsigned(card), AgentCard, mode, 0);
  }

  // ----- Stripping twice -----

  lemma {:induction false} StripAgain(v: Value, message: MessageName, mode: Mode, depth: nat)
    requires Strip(v, message, mode, depth).Some?
    ensures Strip(Strip(v, message, mode, depth).value, message, mode, depth) == Strip(v, message, mode, depth)
    decreases Size(v), 0
  {
    if v.Obj? {
      StripFieldsAgain(v.fields, message, mode, depth);
    }
  }

  lemma {:induction false} StripFieldsAgain(m: Object, message: MessageName, mode: Mode, depth: nat)
    requires StripFields(m, message, mode, depth).Some?
    ensures StripFields(StripFields(m, message, mode, depth).value, message, mode, depth) == StripFields(m, message, mode, depth)
    decreases FieldsSize(m), 2
  {
    if m != [] {
      var head := StripField(m[0], message, mode, depth).value;
      var rest := StripFields(m[1..], message, mode, depth).value;
      StripFieldAgain(m[0], message, mode, depth);
      StripFieldsAgain(m[1..], message, mode, depth);
      hide FieldOf, StripField;
      if head == [] {
        assert head + rest == rest;
      } else {
        assert (head + rest)[0] == head[0] && (head + rest)[1..] == rest;
      }
    }
  }

  lemma {:induction false} StripFieldAgain(f: Field, message: MessageName, mode: Mode, depth: nat)
    requires StripField(f, message, mode, depth).Some?
    ensures var kept := StripField(f, message, mode, depth).value;
            |kept| <= 1 && (kept != [] ==> StripField(kept[0], message, mode, depth) == Some(kept))
    decreases Size(f.value), 2
  {
    hide FieldOf;
    var spec := FieldOf(message, f.key);
    if spec.Some? {
      TypedAgain(f.value, spec.value, mode, depth);
    }
  }

  lemma {:induction false} TypedAgain(v: Value, spec: Spec, mode: Mode, depth: nat)
    requires StripTyped(v, spec, mode, depth).Some?
    ensures StripTyped(StripTyped(v, spec, mode, depth).value, spec, mode, depth) == StripTyped(v, spec, mode, depth)
    decreases Size(v), 1
  {
    if spec.kind.Message? {
      match (spec.shape, v)
      case (Single, _) => StripAgain(v, spec.kind.name, mode, depth + 1);
      case (Repeated, Arr(items)) => ItemsAgain(items, spec.kind.name, mode, depth + 1);
      case (Keyed, Obj(entries)) => EntriesAgain(entries, spec.kind.name, mode, depth + 1);
      case _ =>
    }
  }

  lemma {:induction false} ItemsAgain(items: seq<Value>, message: MessageName, mode: Mode, depth: nat)
    requires StripItems(items, message, mode, depth).Some?
    ensures StripItems(StripItems(items, message, mode, depth).value, message, mode, depth) == StripItems(items, message, mode, depth)
    decreases ItemsSize(items), 0
  {
    if items != [] {
      StripAgain(items[0], message, mode, depth);
      ItemsAgain(items[1..], message, mode, depth);
      var done := StripItems(items, message, mode, depth).value;
      assert done[1..] == StripItems(items[1..], message, mode, depth).value;
    }
  }

  lemma {:induction false} EntriesAgain(entries: Object, message: MessageName, mode: Mode, depth: nat)
    requires StripEntries(entries, message, mode, depth).Some?
    ensures StripEntries(StripEntries(entries, message, mode, depth).value, message, mode, depth)
         == StripEntries(entries, message, mode, depth)
    decreases FieldsSize(entries), 0
  {
    if entries != [] {
      StripAgain(entries[0].value, message, mode, depth);
      EntriesAgain(entries[1..], message, mode, depth);
      var done := StripEntries(entries, message, mode, depth).value;
      assert done[1..] == StripEntries(entries[1..], message, mode, depth).value;
    }
  }

  // ----- Removing empty values -----

  /** No empty string, list or object at any depth. */
  predicate NoEmpty(v: Value) {
    match v
    case Str(s) => s != ""
    case Arr(items) => items != [] && forall x | x in items :: NoEmpty(x)
    case Obj(m) => m != [] && forall f | f in m :: NoEmpty(f.value)
    case _ => true
  }

  /** Nothing but empty strings, lists and objects. */
  predicate Hollow(v: Value) {
    match v
    case Str(s) => s == ""
    case Arr(items) => forall x | x in items :: Hollow(x)
    case Obj(m) => forall f | f in m :: Hollow(f.value)
    case _ => false
  }

  /** Cleaning leaves nothing exactly of a hollow value, and otherwise no empty value; it
      changes nothing exactly where there was no empty value, and shrinks the rest. */
  lemma {:induction false} CleanEmptyExactly(v: Value)
    ensures CleanEmpty(v) == None <==> Hollow(v)
    ensures CleanEmpty(v).Some? ==> NoEmpty(CleanEmpty(v).value) && Size(CleanEmpty(v).value) <= Size(v)
    ensures NoEmpty(v) ==> CleanEmpty(v) == Some(v)
    ensures CleanEmpty(v).Some? && !NoEmpty(v) ==> Size(CleanEmpty(v).value) < Size(v)
    decreases Size(v)
  {
    match v
    case Arr(items) => CleanItemsExactly(items);
    case Obj(m) => CleanFieldsExactly(m);
    case _ =>
  }

  lemma {:induction false} CleanItemsExactly(items: seq<Value>)
    ensures CleanItems(items) == [] <==> forall x | x in items :: Hollow(x)
    ensures (forall x | x in CleanItems(items) :: NoEmpty(x)) && ItemsSize(CleanItems(items)) <= ItemsSize(items)
    ensures (forall x | x in items :: NoEmpty(x)) ==> CleanItems(items) == items
    ensures !(forall x | x in items :: NoEmpty(x)) ==> ItemsSize(CleanItems(items)) < ItemsSize(items)
    decreases ItemsSize(items)
  {
    if items != [] {
      CleanEmptyExactly(items[0]);
      CleanItemsExactly(items[1..]);
      assert items == [items[0]] + items[1..];
      var kept := CleanItems(items);
      if CleanEmpty(items[0]).Some? {
        assert kept[0] == CleanEmpty(items[0]).value && kept[1..] == CleanItems(items[1..]);
      } else {
        assert kept == CleanItems(items[1..]);
        HollowIsEmpty(items[0]);
      }
    }
  }

  lemma {:induction false} CleanFieldsExactly(m: Object)
    ensures CleanFields(m) == [] <==> forall f | f in m :: Hollow(f.value)
    ensures (forall f | f in CleanFields(m) :: NoEmpty(f.value)) && FieldsSize(CleanFields(m)) <= FieldsSize(m)
    ensures (forall f | f in m :: NoEmpty(f.value)) ==> CleanFields(m) == m
    ensures !(forall f | f in m :: NoEmpty(f.value)) ==> FieldsSize(CleanFields(m)) < FieldsSize(m)
    decreases FieldsSize(m)
  {
    if m != [] {
      CleanEmptyExactly(m[0].value);
      CleanFieldsExactly(m[1..]);
      assert m == [m[0]] + m[1..];
      var kept := CleanFields(m);
      if CleanEmpty(m[0].value).Some? {
        assert kept[0] == Field(m[0].key, CleanEmpty(m[0].value).value) && kept[1..] == CleanFields(m[1..]);
      } else {
        assert kept == CleanFields(m[1..]);
        HollowIsEmpty(m[0].value);
      }
    }
  }

  lemma {:induction false} HollowIsEmpty(v: Value)
    requires Hollow(v)
    ensures !NoEmpty(v)
  {
    match v
    case Arr(items) => if items != [] { HollowIsEmpty(items[0]); }
    case Obj(m) => if m != [] { HollowIsEmpty(m[0].value); }
    case _ =>
  }

  /** Cleaning twice is cleaning once. */
  lemma CleanEmptyAgain(v: Value)
    requires CleanEmpty(v).Some?
    ensures CleanEmpty(CleanEmpty(v).value) == CleanEmpty(v)
  {
    CleanEmptyExactly(v);
    CleanEmptyExactly(CleanEmpty(v).value);
  }

  // ----- Where the two forms agree -----

  /** Every field at a message position is one the schema knows. */
  predicate NoUnknown(v: Value, message: MessageName)
    decreases v, 0
  {
    v.Obj? ==> forall f | f in v.fields :: FieldOf(message, f.key).Some? && NoUnknownIn(f.value, FieldOf(message, f.key).value)
  }

  predicate NoUnknownIn(v: Value, spec: Spec)
    decreases v, 1
  {
    match (spec.shape, spec.kind, v)
    case (Single, Message(name), v) => NoUnknown(v, name)
    case (Repeated, Message(name), Arr(items)) => forall x | x in items :: NoUnknown(x, name)
    case (Keyed, Message(name), Obj(entries)) => forall e | e in entries :: NoUnknown(e.value, name)
    case _ => true
  }

  /** The same value when nothing is unknown, and otherwise fewer fields in the SDK's form. */
  ghost predicate Compares(spec: Option<Value>, sdk: Option<Value>, known: bool) {
    spec.Some? && sdk.Some? ==>
      if known then spec == sdk else Size(sdk.value) < Size(spec.value)
  }

  ghost predicate ComparesFields(spec: Option<Object>, sdk: Option<Object>, known: bool) {
    spec.Some? && sdk.Some? ==>
      if known then spec == sdk else FieldsSize(sdk.value) < FieldsSize(spec.value)
  }

  ghost predicate ComparesItems(spec: Option<seq<Value>>, sdk: Option<seq<Value>>, known: bool) {
    spec.Some? && sdk.Some? ==>
      if known then spec == sdk else ItemsSize(sdk.value) < ItemsSize(spec.value)
  }

  lemma {:induction false} FormsOf(v: Value, message: MessageName, depth: nat)
    ensures Compares(Strip(v, message, SpecForm, depth), Strip(v, message, A2aSdkForm, depth), NoUnknown(v, message))
    decreases Size(v), 0
  {
    if v.Obj? {
      FormsOfFields(v.fields, message, depth);
    }
  }

  predicate KnownField(f: Field, message: MessageName) {
    FieldOf(message, f.key).Some? && NoUnknownIn(f.value, FieldOf(message, f.key).value)
  }

  function Joined(a: Option<Object>, b: Option<Object>): Option<Object> {
    if a.Some? && b.Some? then Some(a.value + b.value) else None
  }

  lemma FieldsCons(m: Object, message: MessageName, mode: Mode, depth: nat)
    requires m != []
    ensures StripFields(m, message, mode, depth)
         == Joined(StripField(m[0], message, mode, depth), StripFields(m[1..], message, mode, depth))
  {
    hide StripField;
  }

  lemma PartsCompare(a: Option<Object>, b: Option<Object>, known: bool, x: Option<Object>, y: Option<Object>,
                     rest: bool)
    requires ComparesFields(a, b, known) && ComparesFields(x, y, rest)
    ensures ComparesFields(Joined(a, x), Joined(b, y), known && rest)
  {
    hide FieldsSize;
    if a.Some? && x.Some? && b.Some? && y.Some? {
      FieldsSizeSplit(a.value, x.value);
      FieldsSizeSplit(b.value, y.value);
    }
  }

  lemma {:induction false} FormsOfFields(m: Object, message: MessageName, depth: nat)
    ensures ComparesFields(StripFields(m, message, SpecForm, depth), StripFields(m, message, A2aSdkForm, depth),
                           forall f | f in m :: KnownField(f, message))
    decreases FieldsSize(m), 2
  {
    if m != [] {
      hide FieldOf, StripField, StripFields, KnownField, ComparesFields;
      FieldsCons(m, message, SpecForm, depth);
      FieldsCons(m, message, A2aSdkForm, depth);
      FormsOfField(m[0], message, depth);
      FormsOfFields(m[1..], message, depth);
      PartsCompare(StripField(m[0], message, SpecForm, depth), StripField(m[0], message, A2aSdkForm, depth), KnownField(m[0], message),
                   StripFields(m[1..], message, SpecForm, depth), StripFields(m[1..], message, A2aSdkForm, depth),
                   forall f | f in m[1..] :: KnownField(f, message));
      assert m == [m[0]] + m[1..];
    }
  }

  lemma {:induction false} FormsOfField(f: Field, message: MessageName, depth: nat)
    ensures ComparesFields(StripField(f, message, SpecForm, depth), StripField(f, message, A2aSdkForm, depth), KnownField(f, message))
    decreases Size(f.value), 2
  {
    hide FieldOf;
    var spec := FieldOf(message, f.key);
    if spec.Some? {
      FormsOfTyped(f.value, spec.value, depth);
      DefaultInBoth(f.value, spec.value, depth);
    }
  }

  /** Whether a value is dropped as a default does not depend on the form, and a dropped one
      holds nothing unknown. */
  lemma DefaultInBoth(v: Value, spec: Spec, depth: nat)
    ensures var a, b := StripTyped(v, spec, SpecForm, depth), StripTyped(v, spec, A2aSdkForm, depth);
            a.Some? && b.Some? ==>
              && IsDefault(a.value, spec.shape, spec.kind) == IsDefault(b.value, spec.shape, spec.kind)
              && (IsDefault(a.value, spec.shape, spec.kind) ==> NoUnknownIn(v, spec))
  {
  }

  lemma {:induction false} FormsOfTyped(v: Value, spec: Spec, depth: nat)
    ensures Compares(StripTyped(v, spec, SpecForm, depth), StripTyped(v, spec, A2aSdkForm, depth), NoUnknownIn(v, spec))
    decreases Size(v), 1
  {
    if spec.kind.Message? {
      match (spec.shape, v)
      case (Single, _) => FormsOf(v, spec.kind.name, depth + 1);
      case (Repeated, Arr(items)) => FormsOfItems(items, spec.kind.name, depth + 1);
      case (Keyed, Obj(entries)) => FormsOfEntries(entries, spec.kind.name, depth + 1);
      case _ =>
    }
  }

  lemma ConsSize(v: Value, rest: seq<Value>)
    ensures ItemsSize([v] + rest) == 1 + Size(v) + ItemsSize(rest)
  {
    assert ([v] + rest)[1..] == rest;
  }

  lemma ConsFieldSize(f: Field, rest: Object)
    ensures FieldsSize([f] + rest) == 1 + Size(f.value) + FieldsSize(rest)
  {
    assert ([f] + rest)[1..] == rest;
  }

  function ConsItem(v: Option<Value>, rest: Option<seq<Value>>): Option<seq<Value>> {
    if v.Some? && rest.Some? then Some([v.value] + rest.value) else None
  }

  function ConsEntry(key: string, v: Option<Value>, rest: Option<Object>): Option<Object> {
    if v.Some? && rest.Some? then Some([Field(key, v.value)] + rest.value) else None
  }

  lemma ItemsCompare(a: Option<Value>, b: Option<Value>, known: bool, x: Option<seq<Value>>, y: Option<seq<Value>>,
                     rest: bool)
    requires Compares(a, b, known) && ComparesItems(x, y, rest)
    ensures ComparesItems(ConsItem(a, x), ConsItem(b, y), known && rest)
  {
    hide Size, ItemsSize;
    if a.Some? && x.Some? && b.Some? && y.Some? {
      ConsSize(a.value, x.value);
      ConsSize(b.value, y.value);
    }
  }

  lemma FieldsCompare(key: string, a: Option<Value>, b: Option<Value>, known: bool, x: Option<Object>,
                      y: Option<Object>, rest: bool)
    requires Compares(a, b, known) && ComparesFields(x, y, rest)
    ensures ComparesFields(ConsEntry(key, a, x), ConsEntry(key, b, y), known && rest)
  {
    hide Size, FieldsSize;
    if a.Some? && x.Some? && b.Some? && y.Some? {
      ConsFieldSize(Field(key, a.value), x.value);
      ConsFieldSize(Field(key, b.value), y.value);
    }
  }

  predicate AllKnown(items: seq<Value>, message: MessageName) {
    forall x | x in items :: NoUnknown(x, message)
  }

  predicate AllEntriesKnown(entries: Object, message: MessageName) {
    forall e | e in entries :: NoUnknown(e.value, message)
  }

  lemma ItemsCons(items: seq<Value>, message: MessageName, mode: Mode, depth: nat)
    requires items != []
    ensures StripItems(items, message, mode, depth)
         == ConsItem(Strip(items[0], message, mode, depth), StripItems(items[1..], message, mode, depth))
    ensures AllKnown(items, message) == (NoUnknown(items[0], message) && AllKnown(items[1..], message))
  {
    hide Strip, NoUnknown;
    assert items == [items[0]] + items[1..];
  }

  lemma EntriesCons(entries: Object, message: MessageName, mode: Mode, depth: nat)
    requires entries != []
    ensures StripEntries(entries, message, mode, depth)
         == ConsEntry(entries[0].key, Strip(entries[0].value, message, mode, depth), StripEntries(entries[1..], message, mode, depth))
    ensures AllEntriesKnown(entries, message) == (NoUnknown(entries[0].value, message) && AllEntriesKnown(entries[1..], message))
  {
    hide Strip, NoUnknown;
    assert entries == [entries[0]] + entries[1..];
  }

  lemma {:induction false} FormsOfItems(items: seq<Value>, message: MessageName, depth: nat)
    ensures ComparesItems(StripItems(items, message, SpecForm, depth), StripItems(items, message, A2aSdkForm, depth),
                          AllKnown(items, message))
    decreases ItemsSize(items), 0
  {
    if items != [] {
      hide NoUnknown, Strip, StripItems, Compares, ComparesItems, AllKnown;
      ItemsCons(items, message, SpecForm, depth);
      ItemsCons(items, message, A2aSdkForm, depth);
      FormsOf(items[0], message, depth);
      FormsOfItems(items[1..], message, depth);
      ItemsCompare(Strip(items[0], message, SpecForm, depth), Strip(items[0], message, A2aSdkForm, depth), NoUnknown(items[0], message),
                   StripItems(items[1..], message, SpecForm, depth), StripItems(items[1..], message, A2aSdkForm, depth),
                   AllKnown(items[1..], message));
    }
  }

  lemma {:induction false} FormsOfEntries(entries: Object, message: MessageName, depth: nat)
    ensures ComparesFields(StripEntries(entries, message, SpecForm, depth), StripEntries(entries, message, A2aSdkForm, depth),
                           AllEntriesKnown(entries, message))
    decreases FieldsSize(entries), 0
  {
    if entries != [] {
      hide NoUnknown, Strip, StripEntries, Compares, ComparesFields, AllEntriesKnown;
      var v := entries[0].value;
      EntriesCons(entries, message, SpecForm, depth);
      EntriesCons(entries, message, A2aSdkForm, depth);
      FormsOf(v, message, depth);
      FormsOfEntries(entries[1..], message, depth);
      FieldsCompare(entries[0].key, Strip(v, message, SpecForm, depth), Strip(v, message, A2aSdkForm, depth), NoUnknown(v, message),
                    StripEntries(entries[1..], message, SpecForm, depth), StripEntries(entries[1..], message, A2aSdkForm, depth),
                    AllEntriesKnown(entries[1..], message));
    }
  }
}
