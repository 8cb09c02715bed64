/** The two forms of a card payload coincide exactly when nothing is unknown and nothing is
    empty. */
module CardForms {
  import opened Results
  import opened Json
  import opened Schema
  import opened Numbers
  import opened Jcs
  import opened Faithful
  import opened Card
  import opened CardTheorems

  // ----- Stripping and cleaning keep values well-formed -----

  /** Distinct keys, all of them keys of `m`, and well-formed values. */
  predicate Narrowed(out: Object, m: Object) {
    && Distinct(out)
    && (forall f | f in out :: WellFormed(f.value))
    && (forall f | f in out :: Has(m, f.key))
  }

  lemma NarrowedCons(m: Object, head: Object, rest: Object)
    requires Distinct(m) && m != [] && |head| <= 1 && Narrowed(rest, m[1..])
    requires forall f | f in head :: f.key == m[0].key && WellFormed(f.value)
    ensures Narrowed(head + rest, m)
  {
    var out := head + rest;
    forall f | f in rest ensures f.key != m[0].key && Has(m, f.key) {
      assert m[Find(m[1..], f.key) + 1].key == f.key;
    }
    forall i, j | 0 <= i < j < |out| ensures out[i].key != out[j].key {
      assert out[j] == rest[j - |head|];
      if i >= |head| { assert out[i] == rest[i - |head|]; } else { assert out[i] in head; }
    }
  }

  lemma TailWellFormed(m: Object)
    requires WellFormed(Obj(m)) && m != []
    ensures WellFormed(Obj(m[1..])) && WellFormed(m[0].value)
  {
    assert forall f | f in m[1..] :: f in m;
    assert m[0] in m;
  }

  lemma {:induction false} StripKeepsWellFormed(v: Value, message: MessageName, mode: Mode, depth: nat)
    requires WellFormed(v) && Strip(v, message, mode, depth).Some?
    ensures WellFormed(Strip(v, message, mode, depth).value)
    decreases Size(v), 0
  {
    if v.Obj? {
      FieldsKeepWellFormed(v.fields, message, mode, depth);
    }
  }

  lemma {:induction false} FieldsKeepWellFormed(m: Object, message: MessageName, mode: Mode, depth: nat)
    requires WellFormed(Obj(m)) && StripFields(m, message, mode, depth).Some?
    ensures Narrowed(StripFields(m, message, mode, depth).value, m)
    decreases FieldsSize(m), 2
  {
    if m != [] {
      TailWellFormed(m);
      FieldKeepsWellFormed(m[0], message, mode, depth);
      FieldsKeepWellFormed(m[1..], message, mode, depth);
      hide StripField, Narrowed, WellFormed;
      NarrowedCons(m, StripField(m[0], message, mode, depth).value, StripFields(m[1..], message, mode, depth).value);
    }
  }

  lemma {:induction false} FieldKeepsWellFormed(f: Field, message: MessageName, mode: Mode, depth: nat)
    requires WellFormed(f.value) && StripField(f, message, mode, depth).Some?
    ensures var kept := StripField(f, message, mode, depth).value;
            |kept| <= 1 && forall g | g in kept :: g.key == f.key && WellFormed(g.value)
    decreases Size(f.value), 2
  {
    hide FieldOf, IsDefault;
    var spec := FieldOf(message, f.key);
    if spec.Some? {
      TypedKeepsWellFormed(f.value, spec.value, mode, depth);
    }
  }

  lemma {:induction false} TypedKeepsWellFormed(v: Value, spec: Spec, mode: Mode, depth: nat)
    requires WellFormed(v) && StripTyped(v, spec, mode, depth).Some?
    ensures WellFormed(StripTyped(v, spec, mode, depth).value)
    decreases Size(v), 1
  {
    if spec.kind.Message? {
      match (spec.shape, v)
      case (Single, _) => StripKeepsWellFormed(v, spec.kind.name, mode, depth + 1);
      case (Repeated, Arr(items)) => ItemsKeepWellFormed(items, spec.kind.name, mode, depth + 1);
      case (Keyed, Obj(entries)) => EntriesKeepWellFormed(entries, spec.kind.name, mode, depth + 1);
      case _ =>
    }
  }

  lemma {:induction false} ItemsKeepWellFormed(items: seq<Value>, message: MessageName, mode: Mode, depth: nat)
    requires (forall x | x in items :: WellFormed(x)) && StripItems(items, message, mode, depth).Some?
    ensures forall x | x in StripItems(items, message, mode, depth).value :: WellFormed(x)
    decreases ItemsSize(items), 0
  {
    if items != [] {
      StripKeepsWellFormed(items[0], message, mode, depth);
      ItemsKeepWellFormed(items[1..], message, mode, depth);
    }
  }

  /** What stripping leaves under `key`: an unknown field stays in the specification's form
      and goes in the other; a known one stays with its value stripped, unless its presence
      is implicit and the stripped value its default. */
  ghost predicate KeptUnder(key: string, before: Option<Value>, after: Option<Value>, message: MessageName,
                            mode: Mode, depth: nat) {
    match before
    case None => after == None
    case Some(v) =>
      match FieldOf(message, key)
      case None => after == if mode.SpecForm? then Some(v) else None
      case Some(spec) =>
        var w := StripTyped(v, spec, mode, depth);
        w.Some? && after == if spec.presence == Implicit && IsDefault(w.value, spec.shape, spec.kind) then None else w
  }

  lemma {:induction false} StrippedFields(m: Object, message: MessageName, mode: Mode, depth: nat, key: string)
    requires WellFormed(Obj(m)) && StripFields(m, message, mode, depth).Some?
    ensures KeptUnder(key, Get(m, key), Get(StripFields(m, message, mode, depth).value, key), message, mode, depth)
    decreases |m|
  {
    hide KeptUnder, StripField, WellFormed, Narrowed;
    if m == [] {
      NothingKept(key, message, mode, depth);
    } else {
      var head, rest := StripField(m[0], message, mode, depth).value, StripFields(m[1..], message, mode, depth).value;
      TailWellFormed(m);
      StrippedFields(m[1..], message, mode, depth, key);
      FieldsKeepWellFormed(m[1..], message, mode, depth);
      FieldKeepsWellFormed(m[0], message, mode, depth);
      HeadElsewhere(m, rest) by { DistinctKeys(m); }
      GetJoined(head, rest, m[0].key, key);
      HeadKept(m[0], message, mode, depth);
    }
  }

  lemma DistinctKeys(m: Object)
    requires WellFormed(Obj(m))
    ensures Distinct(m)
  {
  }

  lemma NothingKept(key: string, message: MessageName, mode: Mode, depth: nat)
    ensures KeptUnder(key, None, None, message, mode, depth)
  {
  }

  lemma HeadKept(f: Field, message: MessageName, mode: Mode, depth: nat)
    requires StripField(f, message, mode, depth).Some?
    ensures KeptUnder(f.key, Some(f.value), Get(StripField(f, message, mode, depth).value, f.key), message, mode, depth)
  {
    hide FieldOf, StripTyped, IsDefault;
  }

  lemma HeadElsewhere(m: Object, rest: Object)
    requires Distinct(m) && m != [] && Narrowed(rest, m[1..])
    ensures Get(rest, m[0].key) == None && Get(m[1..], m[0].key) == None
  {
    forall k | 0 <= k < |m[1..]| ensures m[1..][k].key != m[0].key {
      assert m[k + 1] == m[1..][k];
    }
    GetAbsent(m[1..], m[0].key);
    forall k | 0 <= k < |rest| ensures rest[k].key != m[0].key {
      assert rest[k] in rest;
    }
    GetAbsent(rest, m[0].key);
  }

  lemma GetJoined(head: Object, rest: Object, name: string, key: string)
    requires |head| <= 1 && (forall f | f in head :: f.key == name) && Get(rest, name) == None
    ensures Get(head + rest, key) == if key == name then Get(head, key) else Get(rest, key)
  {
    if head == [] {
      assert head + rest == rest;
    } else {
      assert head[0] in head && (head + rest)[1..] == rest;
    }
  }

  lemma {:induction false} EntriesKeepWellFormed(entries: Object, message: MessageName, mode: Mode, depth: nat)
    requires WellFormed(Obj(entries)) && StripEntries(entries, message, mode, depth).Some?
    ensures Narrowed(StripEntries(entries, message, mode, depth).value, entries)
    decreases FieldsSize(entries), 0
  {
    if entries != [] {
      TailWellFormed(entries);
      StripKeepsWellFormed(entries[0].value, message, mode, depth);
      EntriesKeepWellFormed(entries[1..], message, mode, depth);
      hide Strip, Narrowed, WellFormed;
      var head := Field(entries[0].key, Strip(entries[0].value, message, mode, depth).value);
      NarrowedCons(entries, [head], StripEntries(entries[1..], message, mode, depth).value);
    }
  }

  lemma {:induction false} CleanKeepsWellFormed(v: Value)
    requires WellFormed(v) && CleanEmpty(v).Some?
    ensures WellFormed(CleanEmpty(v).value)
    decreases Size(v)
  {
    match v
    case Arr(items) => CleanItemsKeepWellFormed(items);
    case Obj(m) => CleanFieldsKeepWellFormed(m);
    case _ =>
  }

  lemma {:induction false} CleanItemsKeepWellFormed(items: seq<Value>)
    requires forall x | x in items :: WellFormed(x)
    ensures forall x | x in CleanItems(items) :: WellFormed(x)
    decreases ItemsSize(items)
  {
    if items != [] {
      if CleanEmpty(items[0]).Some? { CleanKeepsWellFormed(items[0]); }
      CleanItemsKeepWellFormed(items[1..]);
    }
  }

  lemma {:induction false} CleanFieldsKeepWellFormed(m: Object)
    requires WellFormed(Obj(m))
    ensures Narrowed(CleanFields(m), m)
    decreases FieldsSize(m)
  {
    if m != [] {
      TailWellFormed(m);
      var v := CleanEmpty(m[0].value);
      if v.Some? { CleanKeepsWellFormed(m[0].value); }
      CleanFieldsKeepWellFormed(m[1..]);
      var head := if v.Some? then [Field(m[0].key, v.value)] else [];
      hide Narrowed, WellFormed, CleanEmpty;
      NarrowedCons(m, head, CleanFields(m[1..]));
    }
  }

  // ----- Equal values are of one size -----

  lemma {:induction false} SameSize(fl: Floats, v: Value, w: Value)
    requires WellFormed(v) && WellFormed(w) && Same(fl, v, w)
    ensures Size(v) == Size(w)
    decreases Size(v)
  {
    if v.Arr? && w.Arr? {
      SameItemsSize(fl, v.items, w.items);
    } else if v.Obj? && w.Obj? {
      SortedWellFormed(v.fields);
      SortedWellFormed(w.fields);
      SortedAlike(fl, v.fields, w.fields);
      SameFieldsSize(fl, SortFields(v.fields), SortFields(w.fields));
    }
  }

  lemma {:induction false} SameItemsSize(fl: Floats, xs: seq<Value>, ys: seq<Value>)
    requires (forall x | x in xs :: WellFormed(x)) && (forall y | y in ys :: WellFormed(y)) && SameItems(fl, xs, ys)
    ensures ItemsSize(xs) == ItemsSize(ys)
    decreases ItemsSize(xs)
  {
    if xs != [] {
      SameSize(fl, xs[0], ys[0]);
      SameItemsSize(fl, xs[1..], ys[1..]);
    }
  }

  lemma {:induction false} SameFieldsSize(fl: Floats, a: Object, b: Object)
    requires (forall f | f in a :: WellFormed(f.value)) && (forall f | f in b :: WellFormed(f.value)) && SameInOrder(fl, a, b)
    ensures FieldsSize(a) == FieldsSize(b)
    decreases FieldsSize(a)
  {
    if a != [] {
      SameSize(fl, a[0].value, b[0].value);
      SameFieldsSize(fl, a[1..], b[1..]);
    }
  }

  // ----- The forms -----

  lemma UnsignedWellFormed(card: Value)
    requires WellFormed(card)
    ensures WellFormed(Unsigned(card))
  {
    if card.Obj? {
      SwapRemoveEffect(card.fields, SIGNATURES);
    }
  }

  lemma PreparedWellFormed(card: Value, mode: Mode)
    requires WellFormed(card)
    ensures Prepared(card, mode).Some? && WellFormed(Prepared(card, mode).value)
  {
    StrippingNeverFails(card, mode);
    UnsignedWellFormed(card);
    StripKeepsWellFormed(Unsigned(card), AgentCard, mode, 0);
    var v := Strip(Unsigned(card), AgentCard, mode, 0).value;
    if CleanEmpty(v).Some? { CleanKeepsWellFormed(v); }
  }

  /** Nothing an agent card does not know, and no empty value once defaults are removed. */
  predicate Plain(card: Value) {
    && NoUnknown(Unsigned(card), AgentCard)
    && Prepared(card, SpecForm).Some? && NoEmpty(Prepared(card, SpecForm).value)
  }

  lemma PlainFormsAreOne(card: Value)
    requires Plain(card)
    ensures Prepared(card, SpecForm) == Prepared(card, A2aSdkForm)
  {
    StripSucceeds(Unsigned(card), AgentCard, A2aSdkForm, 0);
    FormsOf(Unsigned(card), AgentCard, 0);
    CleanEmptyExactly(Prepared(card, SpecForm).value);
  }

  lemma OtherFormsDiffer(fl: Floats, card: Value)
    requires WellFormed(card) && !Plain(card)
    ensures Prepared(card, SpecForm).Some? && Prepared(card, A2aSdkForm).Some?
    ensures !Same(fl, Prepared(card, SpecForm).value, Prepared(card, A2aSdkForm).value)
  {
    PreparedWellFormed(card, SpecForm);
    PreparedWellFormed(card, A2aSdkForm);
    var s, p := Prepared(card, SpecForm).value, Prepared(card, A2aSdkForm).value;
    var d := Strip(Unsigned(card), AgentCard, A2aSdkForm, 0).value;
    FormsOf(Unsigned(card), AgentCard, 0);
    CleanEmptyExactly(d);
    if Same(fl, s, p) {
      SameSize(fl, s, p);
    }
  }

  /** Of the cards both forms accept, the signed text is one and the same exactly for the
      plain ones; for every other card the two forms sign different texts. */
  lemma FormsCoincideExactly(fl: Floats, card: Value)
    requires FloatsSound(fl) && WellFormed(card)
    requires Payload(fl, card, SpecForm).Some? && Payload(fl, card, A2aSdkForm).Some?
    ensures Payload(fl, card, SpecForm) == Payload(fl, card, A2aSdkForm) <==> Plain(card)
  {
    PreparedWellFormed(card, SpecForm);
    PreparedWellFormed(card, A2aSdkForm);
    hide Prepared, Plain, Canon, Same, WellFormed;
    if Plain(card) {
      PlainFormsAreOne(card);
    } else {
      OtherFormsDiffer(fl, card);
      CanonicalIsFaithful(fl, Prepared(card, SpecForm).value, Prepared(card, A2aSdkForm).value);
    }
  }

  /** Without any empty value and fully known, yet not plain: stripping empties the extension
      (`{"capabilities":{"extensions":[{"required":false}]}}`). */
  const BARE_EXTENSION: Value := OneExtension(Obj([Field("required", Bool(false))]))

  function OneExtension(extension: Value): Value {
    Obj([Field("capabilities", Obj([Field("extensions", Arr([extension]))]))])
  }

  lemma OneFieldStrips(f: Field, message: MessageName, depth: nat, kept: Object)
    requires depth <= MAX_DEPTH && StripField(f, message, SpecForm, depth) == Some(kept)
    ensures Strip(Obj([f]), message, SpecForm, depth) == Some(Obj(kept))
  {
    hide StripField;
    var m := [f];
    assert m[1..] == [] && kept + [] == kept;
    assert StripFields(m[1..], message, SpecForm, depth) == Some([]);
    assert StripFields(m, message, SpecForm, depth) == Some(kept);
  }

  lemma {:induction false} LookupAt(fields: seq<Spec>, i: nat)
    requires i < |fields| && forall j | 0 <= j < i :: fields[j].name != fields[i].name
    ensures Lookup(fields, fields[i].name) == Some(fields[i])
  {
    if i > 0 { LookupAt(fields[1..], i - 1); }
  }

  lemma CapabilitiesField()
    ensures FieldOf(AgentCard, "capabilities") == Some(Spec("capabilities", Required, Single, Message(AgentCapabilities)))
  {
    hide Lookup;
    LookupAt(Fields(AgentCard), 6);
  }

  lemma ExtensionsField()
    ensures FieldOf(AgentCapabilities, "extensions") == Some(Spec("extensions", Implicit, Repeated, Message(AgentExtension)))
  {
    hide Lookup;
    LookupAt(Fields(AgentCapabilities), 2);
  }

  lemma RequiredField()
    ensures FieldOf(AgentExtension, "required") == Some(Spec("required", Implicit, Single, Flag))
  {
    hide Lookup;
    LookupAt(Fields(AgentExtension), 2);
  }

  lemma BareExtensionFields()
    ensures FieldOf(AgentCard, "capabilities") == Some(Spec("capabilities", Required, Single, Message(AgentCapabilities)))
    ensures FieldOf(AgentCapabilities, "extensions") == Some(Spec("extensions", Implicit, Repeated, Message(AgentExtension)))
    ensures FieldOf(AgentExtension, "required") == Some(Spec("required", Implicit, Single, Flag))
  {
    hide *;
    CapabilitiesField();
    ExtensionsField();
    RequiredField();
  }

  lemma BareExtensionStrips()
    ensures Prepared(BARE_EXTENSION, SpecForm) == Some(OneExtension(Obj([])))
  {
    BareExtensionFields();
    hide FieldOf;
    var off := Field("required", Bool(false));
    var inner := Field("extensions", Arr([Obj([off])]));
    OneFieldStrips(off, AgentExtension, 2, []);
    assert StripItems([Obj([off])], AgentExtension, SpecForm, 2) == Some([Obj([])]) by {
      assert [Obj([off])][1..] == [] && [Obj([])] + [] == [Obj([])];
    }
    OneFieldStrips(inner, AgentCapabilities, 1, [Field("extensions", Arr([Obj([])]))]);
    hide StripItems;
    OneFieldStrips(Field("capabilities", Obj([inner])), AgentCard, 0,
                   [Field("capabilities", Obj([Field("extensions", Arr([Obj([])]))]))]);
    hide Strip;
    UnsignedAlready();
  }

  lemma UnsignedAlready()
    ensures Unsigned(BARE_EXTENSION) == BARE_EXTENSION
  {
    GetAbsent(BARE_EXTENSION.fields, SIGNATURES);
  }

  lemma OneFieldKnown(f: Field, message: MessageName)
    requires WellFormed(f.value) && NoEmpty(f.value) && KnownField(f, message)
    ensures WellFormed(Obj([f])) && NoEmpty(Obj([f])) && NoUnknown(Obj([f]), message)
  {
  }

  lemma BareExtensionIsKnown()
    ensures WellFormed(BARE_EXTENSION) && NoEmpty(BARE_EXTENSION) && NoUnknown(Unsigned(BARE_EXTENSION), AgentCard)
  {
    BareExtensionFields();
    UnsignedAlready();
    hide FieldOf, Unsigned;
    var off := Field("required", Bool(false));
    OneFieldKnown(off, AgentExtension);
    var inner := Field("extensions", Arr([Obj([off])]));
    hide NoUnknown, NoEmpty, WellFormed;
    ListKnown(Obj([off]), AgentExtension);
    OneFieldKnown(inner, AgentCapabilities);
    OneFieldKnown(Field("capabilities", Obj([inner])), AgentCard);
  }

  lemma ListKnown(v: Value, message: MessageName)
    requires WellFormed(v) && NoEmpty(v) && NoUnknown(v, message)
    ensures WellFormed(Arr([v])) && NoEmpty(Arr([v])) && forall x | x in [v] :: NoUnknown(x, message)
  {
  }

  lemma OneFieldEmpty(f: Field)
    requires !NoEmpty(f.value)
    ensures !NoEmpty(Obj([f]))
  {
    assert f in [f];
  }

  lemma StrippingCanEmpty()
    ensures WellFormed(BARE_EXTENSION) && NoEmpty(BARE_EXTENSION) && NoUnknown(Unsigned(BARE_EXTENSION), AgentCard)
    ensures Prepared(BARE_EXTENSION, SpecForm) == Some(OneExtension(Obj([]))) && !Plain(BARE_EXTENSION)
  {
    BareExtensionIsKnown();
    BareExtensionStrips();
    hide NoUnknown, Prepared, Unsigned, WellFormed;
    var emptied := Arr([Obj([])]);
    assert !NoEmpty(emptied) by { assert Obj([]) in emptied.items; }
    hide NoEmpty;
    OneFieldEmpty(Field("extensions", emptied));
    OneFieldEmpty(Field("capabilities", Obj([Field("extensions", emptied)])));
  }

  /** Adding or replacing signatures does not change what is signed. */
  lemma SignaturesAreNotSigned(fl: Floats, card: Object, signatures: Value, mode: Mode)
    requires Distinct(card)
    ensures Payload(fl, Obj(Insert(card, SIGNATURES, signatures)), mode) == Payload(fl, Obj(card), mode)
  {
    InsertedThenRemoved(card, SIGNATURES, signatures);
    hide Insert, SwapRemove, Strip, CleanEmpty, Canon;
  }

  /** What is signed is stable: preparing a prepared card changes nothing. */
  lemma PreparedAgain(card: Value)
    requires WellFormed(card)
    ensures Prepared(card, SpecForm).Some? && Prepared(Prepared(card, SpecForm).value, SpecForm) == Prepared(card, SpecForm)
  {
    StrippingNeverFails(card, SpecForm);
    StripAgain(Unsigned(card), AgentCard, SpecForm, 0);
    var w := Prepared(card, SpecForm).value;
    if card.Obj? {
      SwapRemoveEffect(card.fields, SIGNATURES);
      UnsignedWellFormed(card);
      FieldsKeepWellFormed(Unsigned(card).fields, AgentCard, SpecForm, 0);
      forall i | 0 <= i < |w.fields| ensures w.fields[i].key != SIGNATURES {
        assert w.fields[i] in w.fields;
        assert Has(Unsigned(card).fields, w.fields[i].key);
      }
      GetAbsent(w.fields, SIGNATURES);
      assert Unsigned(w) == w;
    }
  }
}
