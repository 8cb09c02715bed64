/** What a card reads as: a JSON value without its order, in which an absent field of implicit
    presence holds the default proto3 gives it (A2A v1.0, section 8.4.1). */
module CardReading {
  import opened Results
  import opened Json
  import opened Schema
  import opened Numbers
  import opened Jcs
  import opened Faithful
  import opened Equality
  import opened Card
  import opened CardTheorems
  import opened CardForms

  datatype View = Scalar(value: Value) | List(items: seq<View>) | Record(fields: map<string, View>)

  const ZERO: View := Scalar(Float(Double(false, 0)))

  // ----- What a JSON value says -----

  /** Numbers by their doubles, a zero without its sign. */
  function Plainly(fl: Floats, v: Value): Value {
    match AsDouble(fl, v)
    case Some(d) => Float(Double(d.negative && d.magnitude != 0, d.magnitude))
    case None => v
  }

  function Meaning(fl: Floats, v: Value): View {
    match v
    case Arr(items) => List(seq(|items|, i requires 0 <= i < |items| => Meaning(fl, items[i])))
    case Obj(m) => Record(map key | key in KeySet(m) && Has(m, key) :: Meaning(fl, m[Find(m, key)].value))
    case _ => Scalar(Plainly(fl, v))
  }

  lemma MeaningUnder(fl: Floats, m: Object, key: string)
    ensures var fields := Meaning(fl, Obj(m)).fields;
            && (key in fields <==> Has(m, key))
            && (Has(m, key) ==> fields[key] == Meaning(fl, Get(m, key).value))
  {
    KeySetHas(m, key);
  }

  /** Equality up to the order of keys and numeric value is equality of what is said. */
  lemma {:induction false} SameExactly(fl: Floats, v: Value, w: Value)
    requires WellFormed(v) && WellFormed(w)
    ensures Same(fl, v, w) <==> Meaning(fl, v) == Meaning(fl, w)
    decreases v
  {
    if v.Arr? && w.Arr? {
      var xs, ys := v.items, w.items;
      if |xs| == |ys| {
        forall i | 0 <= i < |xs| ensures Same(fl, xs[i], ys[i]) <==> Meaning(fl, v).items[i] == Meaning(fl, w).items[i] {
          assert xs[i] in xs && ys[i] in ys;
          SameExactly(fl, xs[i], ys[i]);
        }
      }
      assert |Meaning(fl, v).items| == |xs| && |Meaning(fl, w).items| == |ys|;
      if Same(fl, v, w) { assert Meaning(fl, v).items == Meaning(fl, w).items; }
    } else if v.Obj? && w.Obj? {
      var m, n := v.fields, w.fields;
      forall i, j | 0 <= i < |m| && 0 <= j < |n|
        ensures Same(fl, m[i].value, n[j].value) <==> Meaning(fl, m[i].value) == Meaning(fl, n[j].value)
      {
        assert m[i] in m && n[j] in n;
        SameExactly(fl, m[i].value, n[j].value);
      }
      hide Meaning;
      if Same(fl, v, w) { SameSays(fl, m, n); }
      if Meaning(fl, v) == Meaning(fl, w) { SaysSame(fl, m, n); }
    }
  }

  ghost predicate ValuesSaid(fl: Floats, m: Object, n: Object) {
    forall i, j | 0 <= i < |m| && 0 <= j < |n| ::
      Same(fl, m[i].value, n[j].value) <==> Meaning(fl, m[i].value) == Meaning(fl, n[j].value)
  }

  lemma MeaningKeys(fl: Floats, m: Object)
    ensures forall key :: key in Meaning(fl, Obj(m)).fields <==> Has(m, key)
    ensures forall key | Has(m, key) :: Meaning(fl, Obj(m)).fields[key] == Meaning(fl, m[Find(m, key)].value)
  {
    forall key ensures key in Meaning(fl, Obj(m)).fields <==> Has(m, key) { KeySetHas(m, key); }
  }

  lemma SameSays(fl: Floats, m: Object, n: Object)
    requires Distinct(m) && Distinct(n) && ValuesSaid(fl, m, n) && Same(fl, Obj(m), Obj(n))
    ensures Meaning(fl, Obj(m)) == Meaning(fl, Obj(n))
  {
    var a, b := Meaning(fl, Obj(m)), Meaning(fl, Obj(n));
    MeaningKeys(fl, m);
    MeaningKeys(fl, n);
    forall key ensures Has(m, key) <==> Has(n, key) { KeyOnBothSides(fl, m, n, key); }
    assert a.Record? && b.Record?;
    hide Meaning;
    forall key | key in a.fields ensures a.fields[key] == b.fields[key] {
      FieldsMatch(fl, m, n, m[Find(m, key)], n[Find(n, key)]);
      hide Same;
    }
    assert a.fields == b.fields;
  }

  lemma SaysSame(fl: Floats, m: Object, n: Object)
    requires Distinct(m) && Distinct(n) && ValuesSaid(fl, m, n) && Meaning(fl, Obj(m)) == Meaning(fl, Obj(n))
    ensures Same(fl, Obj(m), Obj(n))
  {
    MeaningKeys(fl, m);
    MeaningKeys(fl, n);
    hide Meaning;
    forall i | 0 <= i < |m| ensures Has(n, m[i].key) && Same(fl, m[i].value, n[Find(n, m[i].key)].value) {
      FindUnique(m, i);
      hide Same;
    }
    forall j | 0 <= j < |n| ensures Has(m, n[j].key) {
      FindUnique(n, j);
    }
  }

  // ----- Defaults -----

  /** The default of proto3: nothing for a message. */
  function DefaultView(shape: Shape, kind: Kind): Option<View> {
    match (shape, kind)
    case (Repeated, _) => Some(List([]))
    case (Keyed, _) => Some(Record(map[]))
    case (Single, Text) => Some(Scalar(Str("")))
    case (Single, Flag) => Some(Scalar(Bool(false)))
    case (Single, Numeric) => Some(ZERO)
    case (Single, Enumeration) => Some(ZERO)
    case (Single, Struct) => None
    case (Single, Message(_)) => None
  }

  /** What an absent field reads as. */
  function Missing(spec: Spec): Option<View> {
    if spec.presence == Implicit then DefaultView(spec.shape, spec.kind) else None
  }

  predicate Filled(message: MessageName, key: string) {
    match FieldOf(message, key) case Some(spec) => Missing(spec).Some? case None => false
  }

  function Defaults(message: MessageName): map<string, View> {
    map key | key in (set f | f in Fields(message) :: f.name) && Filled(message, key) :: Missing(FieldOf(message, key).value).value
  }

  /** The name of an enumeration's zero. */
  ghost predicate Unspecified(s: string) {
    exists prefix: string :: s == prefix + "_UNSPECIFIED"
  }

  // ----- Reading a message -----

  /** A message with its defaults. In the SDK's form an unknown field is not read. */
  ghost function Fill(x: View, message: MessageName, mode: Mode): View
    decreases x, 1
  {
    match x
    case Record(fields) =>
      Record(Defaults(message)
             + map key | key in fields && (mode.SpecForm? || FieldOf(message, key).Some?) ::
                 match FieldOf(message, key) case Some(spec) => FillTyped(fields[key], spec, mode) case None => fields[key])
    case _ => x
  }

  ghost function FillTyped(x: View, spec: Spec, mode: Mode): View
    decreases x, 2
  {
    match (spec.shape, spec.kind, x)
    case (Single, Message(name), x) => Fill(x, name, mode)
    case (Repeated, Message(name), List(items)) => List(seq(|items|, i requires 0 <= i < |items| => Fill(items[i], name, mode)))
    case (Keyed, Message(name), Record(entries)) => Record(map key | key in entries :: Fill(entries[key], name, mode))
    case (Single, Enumeration, Scalar(Str(s))) => if spec.presence == Implicit && Unspecified(s) then ZERO else x
    case _ => x
  }

  function Under(fields: map<string, View>, key: string): Option<View> {
    if key in fields then Some(fields[key]) else None
  }

  /** What a message reads as under `key`, from what it says there. */
  ghost function FillUnder(x: Option<View>, message: MessageName, key: string, mode: Mode): Option<View> {
    match FieldOf(message, key)
    case None => if mode.SpecForm? then x else None
    case Some(spec) => if x.Some? then Some(FillTyped(x.value, spec, mode)) else Missing(spec)
  }

  lemma FillAt(fields: map<string, View>, message: MessageName, key: string, mode: Mode)
    ensures Under(Fill(Record(fields), message, mode).fields, key) == FillUnder(Under(fields, key), message, key, mode)
  {
    hide FieldOf, FillTyped, Fields;
    DefaultsAt(message, key);
    hide Defaults;
  }

  lemma DefaultsAt(message: MessageName, key: string)
    ensures Under(Defaults(message), key) == match FieldOf(message, key) case Some(spec) => Missing(spec) case None => None
  {
    hide Fields, Missing;
    if FieldOf(message, key).Some? {
      assert FieldOf(message, key).value in Fields(message) && FieldOf(message, key).value.name == key;
    }
  }

  /** No field of implicit presence, however deep, is there to say its default. */
  ghost predicate Bare(x: View, message: MessageName, mode: Mode)
    decreases x, 1
  {
    x.Record? ==>
      forall key | key in x.fields && FieldOf(message, key).Some? ::
        && Some(FillTyped(x.fields[key], FieldOf(message, key).value, mode)) != Missing(FieldOf(message, key).value)
        && BareTyped(x.fields[key], FieldOf(message, key).value, mode)
  }

  ghost predicate BareTyped(x: View, spec: Spec, mode: Mode)
    decreases x, 2
  {
    match (spec.shape, spec.kind, x)
    case (Single, Message(name), x) => Bare(x, name, mode)
    case (Repeated, Message(name), List(items)) => forall i | 0 <= i < |items| :: Bare(items[i], name, mode)
    case (Keyed, Message(name), Record(entries)) => forall key | key in entries :: Bare(entries[key], name, mode)
    case _ => true
  }

  // ----- What is dropped -----

  /** The values dropped at a field of implicit presence. */
  lemma IsDefaultExactly(v: Value, shape: Shape, kind: Kind)
    ensures IsDefault(v, shape, kind) <==>
              || (shape == Repeated && v == Arr([]))
              || (shape == Keyed && v == Obj([]))
              || (shape == Single && kind == Text && v == Str(""))
              || (shape == Single && kind == Flag && v == Bool(false))
              || (shape == Single && kind == Numeric && (v == Int(0) || (v.Float? && v.d.magnitude == 0)))
              || (shape == Single && kind == Enumeration && (v == Int(0) || (v.Str? && Unspecified(v.s))))
  {
    if v.Str? {
      var n := |"_UNSPECIFIED"|;
      if |v.s| >= n && v.s[|v.s| - n..] == "_UNSPECIFIED" {
        assert v.s == v.s[..|v.s| - n] + "_UNSPECIFIED";
      }
    }
  }

  lemma ZeroOnly(fl: Floats, v: Value)
    requires FloatsSound(fl)
    ensures Meaning(fl, v) == ZERO <==> v == Int(0) || (v.Float? && v.d.magnitude == 0)
  {
    hide FloatsSound;
    if v.Int? && -MAX_SAFE_INTEGER <= v.i <= MAX_SAFE_INTEGER { IntegersAreApart(fl, Abs(v.i), 0); }
  }

  lemma EmptyOnly(fl: Floats, v: Value, spec: Spec, mode: Mode)
    requires spec.shape != Single
    ensures Some(FillTyped(Meaning(fl, v), spec, mode)) == DefaultView(spec.shape, spec.kind) <==> IsDefault(v, spec.shape, spec.kind)
  {
    hide Fill;
    var x := FillTyped(Meaning(fl, v), spec, mode);
    if v.Obj? {
      MeaningKeys(fl, v.fields);
      if v.fields == [] {
        assert Meaning(fl, v).fields == map[];
        assert spec.shape == Keyed ==> x.fields == map[];
      } else {
        HasField(v.fields, v.fields[0]);
        assert v.fields[0].key in Meaning(fl, v).fields;
        assert spec.shape == Keyed ==> v.fields[0].key in x.fields;
      }
    } else if v.Arr? && spec.shape == Repeated {
      assert |x.items| == |v.items|;
    }
  }

  /** A value is dropped exactly where it reads as what is read there without it; only an
      enumeration also keeps a zero that is written as a fraction. */
  lemma DroppedIsDefault(fl: Floats, v: Value, spec: Spec, mode: Mode)
    requires FloatsSound(fl)
    ensures spec.presence == Implicit && IsDefault(v, spec.shape, spec.kind) ==>
              Some(FillTyped(Meaning(fl, v), spec, mode)) == Missing(spec)
    ensures Some(FillTyped(Meaning(fl, v), spec, mode)) == Missing(spec) && spec.kind != Enumeration ==>
              spec.presence == Implicit && IsDefault(v, spec.shape, spec.kind)
  {
    hide FloatsSound;
    if spec.shape != Single {
      EmptyOnly(fl, v, spec, mode);
      hide IsDefault, FillTyped;
    } else {
      hide Fill, IsDefault;
      IsDefaultExactly(v, spec.shape, spec.kind);
      ZeroOnly(fl, v);
    }
  }

  // ----- A stripped message reads as the message -----

  /** The second reads as the first, and is bare. */
  ghost predicate Settled(fl: Floats, before: Value, after: Value, message: MessageName, mode: Mode) {
    Fill(Meaning(fl, after), message, mode) == Fill(Meaning(fl, before), message, mode) && Bare(Meaning(fl, after), message, mode)
  }

  ghost predicate SettledTyped(fl: Floats, before: Value, after: Value, spec: Spec, mode: Mode) {
    FillTyped(Meaning(fl, after), spec, mode) == FillTyped(Meaning(fl, before), spec, mode) && BareTyped(Meaning(fl, after), spec, mode)
  }

  function Says(fl: Floats, v: Option<Value>): Option<View> {
    if v.Some? then Some(Meaning(fl, v.value)) else None
  }

  ghost predicate BareUnder(x: Option<View>, message: MessageName, key: string, mode: Mode) {
    x.Some? && FieldOf(message, key).Some? ==>
      && Some(FillTyped(x.value, FieldOf(message, key).value, mode)) != Missing(FieldOf(message, key).value)
      && BareTyped(x.value, FieldOf(message, key).value, mode)
  }

  ghost predicate SettledUnder(fl: Floats, before: Option<Value>, after: Option<Value>, message: MessageName, key: string,
                               mode: Mode) {
    && FillUnder(Says(fl, after), message, key, mode) == FillUnder(Says(fl, before), message, key, mode)
    && BareUnder(Says(fl, after), message, key, mode)
  }

  lemma SaysUnder(fl: Floats, m: Object, key: string)
    ensures Under(Meaning(fl, Obj(m)).fields, key) == Says(fl, Get(m, key))
  {
    MeaningUnder(fl, m, key);
    hide Meaning;
  }

  lemma SameUnder(a: map<string, View>, b: map<string, View>)
    requires forall key :: Under(a, key) == Under(b, key)
    ensures a == b
  {
    forall key ensures (key in a <==> key in b) && (key in a ==> a[key] == b[key]) {
      assert Under(a, key) == Under(b, key);
    }
  }

  lemma SameFills(a: map<string, View>, b: map<string, View>, message: MessageName, mode: Mode)
    requires forall key :: FillUnder(Under(a, key), message, key, mode) == FillUnder(Under(b, key), message, key, mode)
    ensures Fill(Record(a), message, mode) == Fill(Record(b), message, mode)
  {
    var x, y := Fill(Record(a), message, mode), Fill(Record(b), message, mode);
    assert x.Record? && y.Record?;
    hide Fill, FillUnder, Under;
    forall key ensures Under(x.fields, key) == Under(y.fields, key) {
      FillAt(a, message, key, mode);
      FillAt(b, message, key, mode);
    }
    SameUnder(x.fields, y.fields);
  }

  lemma BareFields(fields: map<string, View>, message: MessageName, mode: Mode)
    requires forall key :: BareUnder(Under(fields, key), message, key, mode)
    ensures Bare(Record(fields), message, mode)
  {
    hide FieldOf, FillTyped, BareTyped, Missing;
    forall key | key in fields && FieldOf(message, key).Some?
      ensures Some(FillTyped(fields[key], FieldOf(message, key).value, mode)) != Missing(FieldOf(message, key).value)
      ensures BareTyped(fields[key], FieldOf(message, key).value, mode)
    {
      assert BareUnder(Under(fields, key), message, key, mode);
    }
  }

  lemma SettledObject(fl: Floats, m: Object, n: Object, message: MessageName, mode: Mode)
    requires forall key :: SettledUnder(fl, Get(m, key), Get(n, key), message, key, mode)
    ensures Settled(fl, Obj(m), Obj(n), message, mode)
  {
    var a, b := Meaning(fl, Obj(m)), Meaning(fl, Obj(n));
    assert a.Record? && b.Record?;
    hide Meaning, Fill, FillUnder, BareUnder, Under, Get, Bare;
    forall key
      ensures FillUnder(Under(b.fields, key), message, key, mode) == FillUnder(Under(a.fields, key), message, key, mode)
      ensures BareUnder(Under(b.fields, key), message, key, mode)
    {
      assert SettledUnder(fl, Get(m, key), Get(n, key), message, key, mode);
      SaysUnder(fl, m, key);
      SaysUnder(fl, n, key);
    }
    SameFills(b.fields, a.fields, message, mode);
    BareFields(b.fields, message, mode);
  }

  lemma {:induction false} StripItemsAt(items: seq<Value>, message: MessageName, mode: Mode, depth: nat, i: nat)
    requires StripItems(items, message, mode, depth).Some? && i < |items|
    ensures Strip(items[i], message, mode, depth) == Some(StripItems(items, message, mode, depth).value[i])
  {
    hide Strip;
    if i > 0 { StripItemsAt(items[1..], message, mode, depth, i - 1); }
  }

  lemma GetCons(f: Field, rest: Object, key: string)
    ensures Get([f] + rest, key) == if f.key == key then Some(f.value) else Get(rest, key)
  {
    assert ([f] + rest)[1..] == rest;
  }

  lemma {:induction false} EntriesUnder(entries: Object, message: MessageName, mode: Mode, depth: nat, key: string)
    requires StripEntries(entries, message, mode, depth).Some?
    ensures var w := Get(StripEntries(entries, message, mode, depth).value, key);
            match Get(entries, key)
            case None => w == None
            case Some(v) => w.Some? && Strip(v, message, mode, depth) == w
  {
    if entries != [] {
      EntriesCons(entries, message, mode, depth);
      hide *;
      EntriesUnder(entries[1..], message, mode, depth, key);
      var stripped := Strip(entries[0].value, message, mode, depth).value;
      assert entries == [entries[0]] + entries[1..];
      GetCons(entries[0], entries[1..], key);
      GetCons(Field(entries[0].key, stripped), StripEntries(entries[1..], message, mode, depth).value, key);
    }
  }

  lemma CardKinds(i: nat)
    requires i < |Fields(AgentCard)|
    ensures Fields(AgentCard)[i].kind != Enumeration
  {
  }

  lemma FlowKinds(message: MessageName, i: nat)
    requires message in {AuthorizationCodeOAuthFlow, ClientCredentialsOAuthFlow, ImplicitOAuthFlow, PasswordOAuthFlow, DeviceCodeOAuthFlow}
    requires i < |Fields(message)|
    ensures Fields(message)[i].kind != Enumeration
  {
  }

  lemma SchemeKinds(message: MessageName, i: nat)
    requires message in {SecurityScheme, APIKeySecurityScheme, HTTPAuthSecurityScheme, OAuth2SecurityScheme, OpenIdConnectSecurityScheme,
                         MutualTlsSecurityScheme, OAuthFlows}
    requires i < |Fields(message)|
    ensures Fields(message)[i].kind != Enumeration
  {
  }

  lemma OtherKinds(message: MessageName, i: nat)
    requires message in {AgentInterface, AgentProvider, AgentCapabilities, SecurityRequirement, AgentSkill, AgentCardSignature, AgentExtension,
                         StringList}
    requires i < |Fields(message)|
    ensures Fields(message)[i].kind != Enumeration
  {
  }

  /** No message of the schema has an enumeration. */
  lemma NoEnumerations(message: MessageName, key: string)
    ensures FieldOf(message, key).Some? ==> FieldOf(message, key).value.kind != Enumeration
  {
    hide Fields;
    if FieldOf(message, key).Some? {
      var i :| 0 <= i < |Fields(message)| && Fields(message)[i] == FieldOf(message, key).value;
      match message
      case AgentCard => CardKinds(i);
      case AuthorizationCodeOAuthFlow => FlowKinds(message, i);
      case ClientCredentialsOAuthFlow => FlowKinds(message, i);
      case ImplicitOAuthFlow => FlowKinds(message, i);
      case PasswordOAuthFlow => FlowKinds(message, i);
      case DeviceCodeOAuthFlow => FlowKinds(message, i);
      case SecurityScheme => SchemeKinds(message, i);
      case APIKeySecurityScheme => SchemeKinds(message, i);
      case HTTPAuthSecurityScheme => SchemeKinds(message, i);
      case OAuth2SecurityScheme => SchemeKinds(message, i);
      case OpenIdConnectSecurityScheme => SchemeKinds(message, i);
      case MutualTlsSecurityScheme => SchemeKinds(message, i);
      case OAuthFlows => SchemeKinds(message, i);
      case _ => OtherKinds(message, i);
    }
  }

  /** A field that was kept or dropped is settled when its value is. */
  lemma KeptIsSettled(fl: Floats, before: Option<Value>, after: Option<Value>, message: MessageName, key: string, mode: Mode,
                      depth: nat)
    requires FloatsSound(fl) && KeptUnder(key, before, after, message, mode, depth)
    requires before.Some? && FieldOf(message, key).Some? ==>
               SettledTyped(fl, before.value, StripTyped(before.value, FieldOf(message, key).value, mode, depth).value,
                            FieldOf(message, key).value, mode)
    ensures SettledUnder(fl, before, after, message, key, mode)
  {
    hide FloatsSound, FieldOf, Meaning, FillTyped, BareTyped, StripTyped, IsDefault, Missing;
    if before.Some? && FieldOf(message, key).Some? {
      var spec := FieldOf(message, key).value;
      NoEnumerations(message, key);
      DroppedIsDefault(fl, StripTyped(before.value, spec, mode, depth).value, spec, mode);
    }
  }

  lemma {:induction false} StripReads(fl: Floats, v: Value, message: MessageName, mode: Mode, depth: nat)
    requires FloatsSound(fl) && WellFormed(v) && Strip(v, message, mode, depth).Some?
    ensures Settled(fl, v, Strip(v, message, mode, depth).value, message, mode)
    decreases v, 1
  {
    if v.Obj? {
      var m, n := v.fields, StripFields(v.fields, message, mode, depth).value;
      assert Strip(v, message, mode, depth) == Some(Obj(n));
      hide FloatsSound, WellFormed, StripFields, Strip, Settled, SettledUnder, Get;
      forall key ensures SettledUnder(fl, Get(m, key), Get(n, key), message, key, mode) {
        FieldReads(fl, m, message, mode, depth, key);
      }
      SettledObject(fl, m, n, message, mode);
    } else {
      hide Fill;
    }
  }

  lemma {:induction false} FieldReads(fl: Floats, m: Object, message: MessageName, mode: Mode, depth: nat, key: string)
    requires FloatsSound(fl) && WellFormed(Obj(m)) && StripFields(m, message, mode, depth).Some?
    ensures SettledUnder(fl, Get(m, key), Get(StripFields(m, message, mode, depth).value, key), message, key, mode)
    decreases Obj(m), 0
  {
    hide FloatsSound, StripFields, FieldOf, SettledTyped, StripTyped, IsDefault;
    StrippedFields(m, message, mode, depth, key);
    if Get(m, key).Some? && FieldOf(message, key).Some? {
      assert m[Find(m, key)] in m;
      TypedReads(fl, m[Find(m, key)].value, FieldOf(message, key).value, mode, depth);
    }
    hide KeptUnder, SettledUnder;
    KeptIsSettled(fl, Get(m, key), Get(StripFields(m, message, mode, depth).value, key), message, key, mode, depth);
  }

  lemma {:induction false} TypedReads(fl: Floats, v: Value, spec: Spec, mode: Mode, depth: nat)
    requires FloatsSound(fl) && WellFormed(v) && StripTyped(v, spec, mode, depth).Some?
    ensures SettledTyped(fl, v, StripTyped(v, spec, mode, depth).value, spec, mode)
    decreases v, 2
  {
    hide FloatsSound;
    if spec.kind.Message? {
      var w := StripTyped(v, spec, mode, depth).value;
      match (spec.shape, v)
      case (Single, _) => StripReads(fl, v, spec.kind.name, mode, depth + 1); hide Fill, Bare, Meaning, Strip;
      case (Repeated, Arr(items)) =>
        forall i | 0 <= i < |items| ensures Settled(fl, items[i], w.items[i], spec.kind.name, mode) {
          assert items[i] in items;
          StripItemsAt(items, spec.kind.name, mode, depth + 1, i);
          StripReads(fl, items[i], spec.kind.name, mode, depth + 1);
        }
        SettledItems(fl, items, w.items, spec, mode);
      case (Keyed, Obj(entries)) =>
        forall key ensures SettledEntry(fl, Get(entries, key), Get(w.fields, key), spec.kind.name, mode) {
          EntriesUnder(entries, spec.kind.name, mode, depth + 1, key);
          if Has(entries, key) {
            assert entries[Find(entries, key)] in entries;
            StripReads(fl, entries[Find(entries, key)].value, spec.kind.name, mode, depth + 1);
          }
        }
        SettledEntries(fl, entries, w.fields, spec, mode);
      case _ =>
    }
  }

  ghost predicate SettledEntry(fl: Floats, before: Option<Value>, after: Option<Value>, message: MessageName, mode: Mode) {
    (before.Some? <==> after.Some?) && (before.Some? ==> Settled(fl, before.value, after.value, message, mode))
  }

  lemma SettledItems(fl: Floats, xs: seq<Value>, ys: seq<Value>, spec: Spec, mode: Mode)
    requires spec.shape == Repeated && spec.kind.Message? && |xs| == |ys|
    requires forall i | 0 <= i < |xs| :: Settled(fl, xs[i], ys[i], spec.kind.name, mode)
    ensures SettledTyped(fl, Arr(xs), Arr(ys), spec, mode)
  {
    hide Fill, Bare;
    assert forall i | 0 <= i < |xs| :: Settled(fl, xs[i], ys[i], spec.kind.name, mode);
    assert FillTyped(Meaning(fl, Arr(xs)), spec, mode).items == FillTyped(Meaning(fl, Arr(ys)), spec, mode).items;
  }

  ghost predicate EntryAlike(a: map<string, View>, b: map<string, View>, key: string, message: MessageName, mode: Mode) {
    && (key in a <==> key in b)
    && (key in a ==> Fill(a[key], message, mode) == Fill(b[key], message, mode))
    && (key in b ==> Bare(b[key], message, mode))
  }

  lemma EntriesFill(a: map<string, View>, b: map<string, View>, spec: Spec, mode: Mode)
    requires spec.shape == Keyed && spec.kind.Message? && forall key :: EntryAlike(a, b, key, spec.kind.name, mode)
    ensures FillTyped(Record(b), spec, mode) == FillTyped(Record(a), spec, mode) && BareTyped(Record(b), spec, mode)
  {
    hide Fill, Bare;
    forall key | key in b ensures Bare(b[key], spec.kind.name, mode) {
      assert EntryAlike(a, b, key, spec.kind.name, mode);
    }
    var x, y := FillTyped(Record(a), spec, mode).fields, FillTyped(Record(b), spec, mode).fields;
    forall key ensures (key in x <==> key in y) && (key in x ==> x[key] == y[key]) {
      assert EntryAlike(a, b, key, spec.kind.name, mode);
    }
    assert x == y;
  }

  lemma SettledEntries(fl: Floats, m: Object, n: Object, spec: Spec, mode: Mode)
    requires spec.shape == Keyed && spec.kind.Message?
    requires forall key :: SettledEntry(fl, Get(m, key), Get(n, key), spec.kind.name, mode)
    ensures SettledTyped(fl, Obj(m), Obj(n), spec, mode)
  {
    var a, b := Meaning(fl, Obj(m)), Meaning(fl, Obj(n));
    assert a.Record? && b.Record?;
    hide Fill, Bare, Meaning, Get, FillTyped, BareTyped;
    forall key ensures EntryAlike(a.fields, b.fields, key, spec.kind.name, mode) {
      assert SettledEntry(fl, Get(m, key), Get(n, key), spec.kind.name, mode);
      SaysUnder(fl, m, key);
      SaysUnder(fl, n, key);
    }
    EntriesFill(a.fields, b.fields, spec, mode);
  }

  // ----- What a bare message says follows from what it reads as -----

  lemma {:induction false} BareDetermines(x: View, y: View, message: MessageName)
    requires Bare(x, message, SpecForm) && Bare(y, message, SpecForm) && Fill(x, message, SpecForm) == Fill(y, message, SpecForm)
    ensures x == y
    decreases x, 1
  {
    if x.Record? && y.Record? {
      assert Fill(x, message, SpecForm).fields == Fill(y, message, SpecForm).fields;
      hide Fill;
      forall key ensures Under(x.fields, key) == Under(y.fields, key) {
        BareFieldDetermines(x.fields, y.fields, message, key);
      }
      SameUnder(x.fields, y.fields);
    }
  }

  lemma {:induction false} BareFieldDetermines(a: map<string, View>, b: map<string, View>, message: MessageName, key: string)
    requires Bare(Record(a), message, SpecForm) && Bare(Record(b), message, SpecForm)
    requires Fill(Record(a), message, SpecForm).fields == Fill(Record(b), message, SpecForm).fields
    ensures Under(a, key) == Under(b, key)
    decreases Record(a), 0
  {
    FillAt(a, message, key, SpecForm);
    FillAt(b, message, key, SpecForm);
    hide Fill, FieldOf, FillTyped, BareTyped;
    if FieldOf(message, key).Some? && key in a && key in b {
      TypedDetermines(a[key], b[key], FieldOf(message, key).value);
    }
  }

  lemma {:induction false} TypedDetermines(x: View, y: View, spec: Spec)
    requires BareTyped(x, spec, SpecForm) && BareTyped(y, spec, SpecForm)
    requires FillTyped(x, spec, SpecForm) == FillTyped(y, spec, SpecForm) && Some(FillTyped(x, spec, SpecForm)) != Missing(spec)
    ensures x == y
    decreases x, 2
  {
    hide Fill, Bare;
    if spec.kind.Message? {
      var (f, g) := (FillTyped(x, spec, SpecForm), FillTyped(y, spec, SpecForm));
      match (spec.shape, x, y)
      case (Single, _, _) => BareDetermines(x, y, spec.kind.name);
      case (Repeated, List(xs), List(ys)) =>
        assert |f.items| == |xs| && |g.items| == |ys|;
        forall i | 0 <= i < |xs| ensures xs[i] == ys[i] {
          assert f.items[i] == g.items[i];
          BareDetermines(xs[i], ys[i], spec.kind.name);
        }
      case (Keyed, Record(a), Record(b)) =>
        forall key ensures Under(a, key) == Under(b, key) {
          assert (key in f.fields <==> key in a) && (key in g.fields <==> key in b);
          if key in a {
            assert f.fields[key] == g.fields[key];
            BareDetermines(a[key], b[key], spec.kind.name);
          }
        }
        SameUnder(a, b);
      case _ =>
    }
  }

  // ----- What is signed of a card is what it reads as -----

  /** A card without its signatures, as a message. */
  ghost function ReadCard(fl: Floats, card: Value): View {
    match Meaning(fl, card)
    case Record(fields) => Fill(Record(fields - {"signatures"}), AgentCard, SpecForm)
    case other => other
  }

  lemma UnsignedUnder(m: Object, key: string)
    requires Distinct(m)
    ensures Get(Unsigned(Obj(m)).fields, key) == if key == "signatures" then None else Get(m, key)
  {
    SwapRemoveEffect(m, SIGNATURES);
  }

  lemma UnsignedSays(fl: Floats, card: Value)
    requires WellFormed(card)
    ensures ReadCard(fl, card) == Fill(Meaning(fl, Unsigned(card)), AgentCard, SpecForm)
  {
    if card.Obj? {
      var m, n := card.fields, Unsigned(card).fields;
      assert Distinct(m) && Unsigned(card) == Obj(n);
      var a, b := Meaning(fl, Obj(m)), Meaning(fl, Obj(n));
      assert a.Record? && b.Record?;
      hide WellFormed, Distinct, Meaning, Fill, Get, Unsigned;
      forall key ensures Under(a.fields - {"signatures"}, key) == Under(b.fields, key) {
        SaysUnder(fl, m, key);
        SaysUnder(fl, n, key);
        UnsignedUnder(m, key);
      }
      SameUnder(a.fields - {"signatures"}, b.fields);
    } else {
      hide Fill;
    }
  }

  /** The signed text of the specification's form is that of a card that reads as this one
      and spells no default out. */
  lemma PreparedReads(fl: Floats, card: Value)
    requires FloatsSound(fl) && WellFormed(card)
    ensures Prepared(card, SpecForm).Some? && WellFormed(Prepared(card, SpecForm).value)
    ensures Fill(Meaning(fl, Prepared(card, SpecForm).value), AgentCard, SpecForm) == ReadCard(fl, card)
    ensures Bare(Meaning(fl, Prepared(card, SpecForm).value), AgentCard, SpecForm)
  {
    PreparedWellFormed(card, SpecForm);
    UnsignedWellFormed(card);
    hide FloatsSound, WellFormed, Strip, Meaning, Fill, Bare, Unsigned, ReadCard;
    StripReads(fl, Unsigned(card), AgentCard, SpecForm, 0);
    UnsignedSays(fl, card);
  }

  /** Two cards have one signed text exactly when they read alike: nothing a reader sees goes
      unsigned, and nothing a reader does not see is signed. */
  lemma SignedExactly(fl: Floats, a: Value, b: Value)
    requires FloatsSound(fl) && WellFormed(a) && WellFormed(b)
    ensures ReadCard(fl, a) == ReadCard(fl, b) ==> Payload(fl, a, SpecForm) == Payload(fl, b, SpecForm)
    ensures Payload(fl, a, SpecForm).Some? && Payload(fl, a, SpecForm) == Payload(fl, b, SpecForm) ==> ReadCard(fl, a) == ReadCard(fl, b)
  {
    PreparedReads(fl, a);
    PreparedReads(fl, b);
    hide FloatsSound, WellFormed, Prepared, Canon, Meaning, Fill, Bare, ReadCard, Same;
    var (v, w) := (Prepared(a, SpecForm).value, Prepared(b, SpecForm).value);
    CanonicalIsFaithful(fl, v, w);
    SameExactly(fl, v, w);
    if ReadCard(fl, a) == ReadCard(fl, b) {
      BareDetermines(Meaning(fl, v), Meaning(fl, w), AgentCard);
    }
  }

  /** In the SDK's form a card of nothing but empty values is signed as `null`, and every other
      card as what cleaning leaves. */
  lemma HollowSignsNull(fl: Floats, card: Value)
    ensures Strip(Unsigned(card), AgentCard, A2aSdkForm, 0).Some?
    ensures var v := Strip(Unsigned(card), AgentCard, A2aSdkForm, 0).value;
            && (Hollow(v) ==> Payload(fl, card, A2aSdkForm) == Some("null"))
            && (!Hollow(v) ==> Prepared(card, A2aSdkForm) == CleanEmpty(v))
  {
    StrippingNeverFails(card, A2aSdkForm);
    CleanEmptyExactly(Strip(Unsigned(card), AgentCard, A2aSdkForm, 0).value);
    hide Strip, Hollow, NoEmpty, CleanEmpty;
  }

  // ----- Cleaning loses only what is empty -----

  /** A scalar, and the keys above it. */
  datatype Leaf = Leaf(path: seq<string>, value: Value)

  /** The scalars of a value but for empty texts, in order. */
  function Leaves(v: Value): seq<Leaf> {
    match v
    case Obj(m) => FieldLeaves(m)
    case Arr(items) => ItemLeaves(items)
    case Str(s) => if s == "" then [] else [Leaf([], v)]
    case _ => [Leaf([], v)]
  }

  function ItemLeaves(items: seq<Value>): seq<Leaf> {
    if items == [] then [] else Leaves(items[0]) + ItemLeaves(items[1..])
  }

  function FieldLeaves(m: Object): seq<Leaf> {
    if m == [] then [] else Beneath(m[0].key, Leaves(m[0].value)) + FieldLeaves(m[1..])
  }

  function Beneath(key: string, leaves: seq<Leaf>): seq<Leaf> {
    seq(|leaves|, i requires 0 <= i < |leaves| => Leaf([key] + leaves[i].path, leaves[i].value))
  }

  /** What cleaning leaves holds every scalar but the empty texts, in the same places. */
  lemma {:induction false} CleaningKeepsLeaves(v: Value)
    ensures Leaves(v) == match CleanEmpty(v) case None => [] case Some(w) => Leaves(w)
    decreases Size(v)
  {
    match v
    case Arr(items) => CleanItemsKeepLeaves(items);
    case Obj(m) => CleanFieldsKeepLeaves(m);
    case _ =>
  }

  lemma LeavesCons(v: Value, rest: seq<Value>, key: string, more: Object)
    ensures ItemLeaves([v] + rest) == Leaves(v) + ItemLeaves(rest)
    ensures FieldLeaves([Field(key, v)] + more) == Beneath(key, Leaves(v)) + FieldLeaves(more)
  {
    assert ([v] + rest)[1..] == rest && ([Field(key, v)] + more)[1..] == more;
  }

  lemma {:induction false} CleanItemsKeepLeaves(items: seq<Value>)
    ensures ItemLeaves(CleanItems(items)) == ItemLeaves(items)
    decreases ItemsSize(items)
  {
    if items != [] {
      CleaningKeepsLeaves(items[0]);
      CleanItemsKeepLeaves(items[1..]);
      hide Leaves;
      match CleanEmpty(items[0])
      case None => assert [] + CleanItems(items[1..]) == CleanItems(items[1..]);
      case Some(v) => LeavesCons(v, CleanItems(items[1..]), "", []);
    }
  }

  lemma {:induction false} CleanFieldsKeepLeaves(m: Object)
    ensures FieldLeaves(CleanFields(m)) == FieldLeaves(m)
    decreases FieldsSize(m)
  {
    if m != [] {
      CleaningKeepsLeaves(m[0].value);
      CleanFieldsKeepLeaves(m[1..]);
      FieldLeavesStep(m);
      hide Leaves, CleanEmpty, FieldLeaves, CleanFields;
      var rest := CleanFields(m[1..]);
      match CleanEmpty(m[0].value)
      case None => assert [] + FieldLeaves(rest) == FieldLeaves(rest) && Beneath(m[0].key, []) == [];
      case Some(v) => LeavesCons(v, [], m[0].key, rest);
    }
  }

  lemma FieldLeavesStep(m: Object)
    requires m != []
    ensures CleanFields(m)
         == match CleanEmpty(m[0].value) case None => CleanFields(m[1..]) case Some(v) => [Field(m[0].key, v)] + CleanFields(m[1..])
    ensures FieldLeaves(m) == Beneath(m[0].key, Leaves(m[0].value)) + FieldLeaves(m[1..])
  {
    hide CleanEmpty, Leaves;
    assert [] + CleanFields(m[1..]) == CleanFields(m[1..]);
  }
}
