/** Exactly when resolution leaves no placeholder behind. */
module Placeholders {
  import opened Results
  import opened Json
  import opened Codec
  import opened SdJwt
  import opened Resolution

  /** Nothing but `...` and an empty `_sd`: two fields, so no placeholder, until `_sd` is
      removed. */
  predicate Emptied(v: Value) {
    v.Obj? && |v.fields| == 2 && Has(v.fields, ELLIPSIS) && Get(v.fields, SD) == Some(Arr([]))
  }

  /** What resolution turns into a placeholder, or leaves as one. */
  predicate Uncovers(v: Value) {
    Placeholder(v).Some? || Emptied(v)
  }

  /** No array at any depth has a placeholder among its elements. */
  predicate NoPlaceholder(v: Value) {
    match v
    case Arr(items) => forall x | x in items :: Placeholder(x).None? && NoPlaceholder(x)
    case Obj(m) => forall f | f in m :: NoPlaceholder(f.value)
    case _ => true
  }

  predicate NoEmptied(v: Value) {
    match v
    case Arr(items) => forall x | x in items :: !Emptied(x) && NoEmptied(x)
    case Obj(m) => forall f | f in m :: NoEmptied(f.value)
    case _ => true
  }

  /** A disclosure that brings no placeholder into the result. */
  predicate Sealed(d: Disclosure) {
    NoEmptied(d.value) && (d.name.None? ==> !Uncovers(d.value))
  }

  /** Everything spent on the way from `a` to `b` is sealed. */
  ghost predicate SpentSealed(a: State, b: State) {
    forall d | d in a.table && d !in b.table :: Sealed(a.table[d])
  }

  ghost predicate Named(t: Table) {
    TableFormed(t) && forall d | d in t :: t[d].name != Some(ELLIPSIS)
  }

  /** One stretch of a run in which every digest met was known. */
  ghost predicate Served(a: State, b: State) {
    Evolves(a, b) && a.withheld == b.withheld
  }

  lemma ServedInStages(a: State, b: State, c: State)
    requires Evolves(a, b) && Evolves(b, c) && a.withheld == c.withheld
    ensures Served(a, b) && Served(b, c)
    ensures SpentSealed(a, c) <==> SpentSealed(a, b) && SpentSealed(b, c)
    ensures Named(a.table) ==> Named(b.table)
  {
    hide Sealed, WellFormed;
    if SpentSealed(a, c) {
      forall d | d in a.table && d !in b.table ensures Sealed(a.table[d]) {}
      forall d | d in b.table && d !in c.table ensures Sealed(b.table[d]) {}
    }
  }

  lemma NothingSpent(a: State)
    ensures SpentSealed(a, a)
  {
  }

  /** A lookup that finds spends that one disclosure. */
  lemma TakeSeals(st: State, d: string)
    requires Take(st, d).Ok?
    ensures var (found, st1) := Take(st, d).value;
            && (found.Some? <==> d in st.table)
            && (found.Some? ==> found.value == st.table[d] && (SpentSealed(st, st1) <==> Sealed(st.table[d])))
            && (found.None? ==> st1.withheld == st.withheld + 1)
  {
  }

  // ----- The shape of a resolved object -----

  lemma {:induction false} FieldsShape(m: Object, st: State)
    requires ResolveFields(m, st).Ok?
    ensures var out := ResolveFields(m, st).value.0;
            |out| == |m| && forall i | 0 <= i < |m| :: out[i].key == m[i].key
    decreases |m|
  {
    if m != [] {
      FieldsShape(m[1..], ResolveValue(m[0].value, st).value.1);
      hide ResolveValue;
    }
  }

  /** One digest served: what was found, the state then, its resolved value, and the state
      after that. */
  datatype Service = Service(found: Disclosure, taken: State, value: Value, after: State)

  /** The first digest of an object whose digests are all served: its disclosure is found,
      names a new field, and the other digests follow. */
  lemma DigestStep(m: Object, digests: seq<Value>, st: State) returns (s: Service)
    requires Named(st.table) && digests != [] && ResolveDigests(m, digests, st).Ok?
    requires ResolveDigests(m, digests, st).value.1.withheld == st.withheld
    ensures digests[0].Str? && digests[0].s in st.table && s.found == st.table[digests[0].s]
    ensures s.found.name.Some? && s.found.name.value != ELLIPSIS && !Has(m, s.found.name.value) && WellFormed(s.found.value)
    ensures s.taken.table.Keys < st.table.Keys && s.after.table.Keys <= s.taken.table.Keys
    ensures Named(s.taken.table) && Named(s.after.table) && s.taken.withheld == s.after.withheld
    ensures ResolveValue(s.found.value, s.taken) == Ok((s.value, s.after))
    ensures ResolveDigests(Insert(m, s.found.name.value, s.value), digests[1..], s.after) == ResolveDigests(m, digests, st)
    ensures var end := ResolveDigests(m, digests, st).value.1;
            && s.after.withheld == end.withheld
            && (SpentSealed(st, end) <==> Sealed(s.found) && SpentSealed(s.taken, s.after) && SpentSealed(s.after, end))
  {
    var end := ResolveDigests(m, digests, st).value.1;
    var (found, st1) := Take(st, digests[0].s).value;
    TakeSeals(st, digests[0].s);
    TakeEvolves(st, digests[0].s);
    if found.None? {
      DigestsEvolve(m, digests[1..], st1);
    }
    var d := found.value;
    assert st1.table.Keys < st.table.Keys;
    var (value, st2) := ResolveValue(d.value, st1).value;
    s := Service(d, st1, value, st2);
    ValueEvolves(d.value, st1);
    DigestsEvolve(Insert(m, d.name.value, value), digests[1..], st2);
    hide ResolveDigests, ResolveValue, Take, Sealed, WellFormed, SpentSealed, Insert, Has;
    EvolvesFurther(st1, st2, end);
    ServedInStages(st, st1, end);
    ServedInStages(st1, st2, end);
  }

  /** `out` is `m` with `n` more fields, none of them called `...`. */
  ghost predicate Grows(m: Object, out: Object, n: nat) {
    |out| == |m| + n && m <= out && forall i | |m| <= i < |out| :: out[i].key != ELLIPSIS
  }

  lemma GrowsByOne(m: Object, f: Field, out: Object, n: nat)
    requires f.key != ELLIPSIS && Grows(m + [f], out, n)
    ensures Grows(m, out, n + 1)
  {
  }

  lemma NewField(m: Object, f: Field)
    requires !Has(m, f.key)
    ensures Insert(m, f.key, f.value) == m + [f]
  {
  }

  /** When nothing is withheld, every digest adds one field. */
  lemma {:induction false} DigestsShape(m: Object, digests: seq<Value>, st: State)
    requires Named(st.table) && ResolveDigests(m, digests, st).Ok?
    requires ResolveDigests(m, digests, st).value.1.withheld == st.withheld
    ensures Grows(m, ResolveDigests(m, digests, st).value.0, |digests|)
    ensures forall v | v in digests :: v.Str?
    decreases |digests|
  {
    if digests != [] {
      var s := DigestStep(m, digests, st);
      var f := Field(s.found.name.value, s.value);
      hide *;
      NewField(m, f);
      DigestsShape(m + [f], digests[1..], s.after);
      GrowsByOne(m, f, ResolveDigests(m, digests, st).value.0, |digests| - 1);
      assert digests == [digests[0]] + digests[1..];
    }
  }

  /** The two stages of an object whose digests are all served. */
  lemma ObjectServed(m: Object, st: State) returns (fields: Object, st1: State)
    requires ResolveObject(m, st).Ok? && Named(st.table) && ResolveObject(m, st).value.1.withheld == st.withheld
    ensures SdDigests(m).Ok? && |SdDigests(m).value| <= FieldsSize(m) && FieldsSize(SwapRemove(m, SD)) <= FieldsSize(m)
    ensures ResolveFields(SwapRemove(m, SD), st) == Ok((fields, st1))
    ensures ResolveDigests(fields, SdDigests(m).value, st1) == ResolveObject(m, st)
    ensures var end := ResolveObject(m, st).value.1;
            && Served(st, st1) && Served(st1, end) && Named(st1.table) && st1.table.Keys <= st.table.Keys
            && st1.withheld == st.withheld == end.withheld
            && (SpentSealed(st, end) <==> SpentSealed(st, st1) && SpentSealed(st1, end))
  {
    ObjectInStages(m, st);
    SdDigestsSize(m);
    fields, st1 := ResolveFields(SwapRemove(m, SD), st).value.0, ResolveFields(SwapRemove(m, SD), st).value.1;
    hide ResolveObject, ResolveFields, ResolveDigests, SwapRemove, SdDigests, Named, SpentSealed;
    FieldsEvolve(SwapRemove(m, SD), st);
    DigestsEvolve(fields, SdDigests(m).value, st1);
    ServedInStages(st, st1, ResolveObject(m, st).value.1);
  }

  /** What a resolved value is as an array element: a placeholder exactly when its hidden form
      uncovers one. */
  lemma BecomesPlaceholder(v: Value, st: State)
    requires WellFormed(v) && Named(st.table) && ResolveValue(v, st).Ok?
    requires ResolveValue(v, st).value.1.withheld == st.withheld
    ensures Placeholder(ResolveValue(v, st).value.0).Some? <==> Uncovers(v)
  {
    if v.Obj? {
      var m, plain := v.fields, SwapRemove(v.fields, SD);
      var fields, st1 := ObjectServed(m, st);
      var digests := SdDigests(m).value;
      FieldsShape(plain, st);
      DigestsShape(fields, digests, st1);
      var out := ResolveObject(m, st).value.0;
      hide ResolveObject, ResolveFields, ResolveDigests, Named, ResolveValue, Served, SpentSealed;
      assert |plain| > 0 ==> out[0] == fields[0];
      assert Placeholder(Obj(out)).Some? <==> |plain| == 1 && digests == [] && plain[0].key == ELLIPSIS;
      OneFieldLeft(m);
    }
  }

  /** The first field of some, and the others. */
  lemma FieldsServed(m: Object, st: State) returns (value: Value, st1: State, rest: Object)
    requires m != [] && ResolveFields(m, st).Ok? && Named(st.table) && ResolveFields(m, st).value.1.withheld == st.withheld
    ensures ResolveValue(m[0].value, st) == Ok((value, st1)) && Named(st1.table) && st1.table.Keys <= st.table.Keys
    ensures ResolveFields(m[1..], st1) == Ok((rest, ResolveFields(m, st).value.1))
    ensures ResolveFields(m, st).value.0 == [Field(m[0].key, value)] + rest
    ensures var end := ResolveFields(m, st).value.1;
            && st1.withheld == st.withheld == end.withheld
            && (SpentSealed(st, end) <==> SpentSealed(st, st1) && SpentSealed(st1, end))
  {
    value, st1 := ResolveValue(m[0].value, st).value.0, ResolveValue(m[0].value, st).value.1;
    rest := ResolveFields(m[1..], st1).value.0;
    hide SpentSealed, Named;
    ValueEvolves(m[0].value, st);
    FieldsEvolve(m[1..], st1);
    ServedInStages(st, st1, ResolveFields(m, st).value.1);
  }

  /** One field called `...` is left, and no digest, exactly of a placeholder or of one with
      an empty `_sd` beside it. */
  lemma OneFieldLeft(m: Object)
    requires WellFormed(Obj(m)) && SdDigests(m).Ok?
    ensures var plain := SwapRemove(m, SD);
            (|plain| == 1 && SdDigests(m).value == [] && plain[0].key == ELLIPSIS) <==> Uncovers(Obj(m))
  {
    var plain, i := SwapRemove(m, SD), Find(m, SD);
    SwapRemoveEffect(m, SD);
    if i < |m| && |m| == 2 {
      assert plain == [m[1 - i]];
      GetAt(m, 1 - i);
      if Has(m, ELLIPSIS) { FindUnique(m, Find(m, ELLIPSIS)); }
    }
  }

  // ----- The run as a whole -----

  predicate FieldsBare(m: Object) {
    forall f | f in m :: NoPlaceholder(f.value)
  }

  predicate FieldsKept(m: Object) {
    forall f | f in m :: NoEmptied(f.value)
  }

  predicate ItemsBare(items: seq<Value>) {
    forall x | x in items :: Placeholder(x).None? && NoPlaceholder(x)
  }

  predicate ItemsKept(items: seq<Value>) {
    forall x | x in items :: !Emptied(x) && NoEmptied(x)
  }

  lemma {:induction false} ValueBare(v: Value, st: State)
    requires WellFormed(v) && Named(st.table) && ResolveValue(v, st).Ok?
    requires ResolveValue(v, st).value.1.withheld == st.withheld
    ensures NoPlaceholder(ResolveValue(v, st).value.0) <==> NoEmptied(v) && SpentSealed(st, ResolveValue(v, st).value.1)
    decreases st.table.Keys, Size(v), 1
  {
    match v
    case Obj(m) => ObjectBare(m, st);
    case Arr(items) => AllItemsBare(items, st);
    case _ => NothingSpent(st);
  }

  lemma {:induction false} ObjectBare(m: Object, st: State)
    requires WellFormed(Obj(m)) && Named(st.table) && ResolveObject(m, st).Ok?
    requires ResolveObject(m, st).value.1.withheld == st.withheld
    ensures FieldsBare(ResolveObject(m, st).value.0) <==> FieldsKept(m) && SpentSealed(st, ResolveObject(m, st).value.1)
    decreases st.table.Keys, FieldsSize(m) + 1, 0
  {
    hide *;
    var plain := SwapRemove(m, SD);
    var fields, st1 := ObjectServed(m, st);
    var digests := SdDigests(m).value;
    PlainFields(m);
    AllFieldsBare(plain, st);
    DigestsShape(fields, digests, st1);
    DigestsBare(fields, digests, st1);
    DigestListKept(m);
  }

  lemma PlainFields(m: Object)
    requires WellFormed(Obj(m))
    ensures Distinct(SwapRemove(m, SD)) && forall f | f in SwapRemove(m, SD) :: WellFormed(f.value)
  {
    SwapRemoveEffect(m, SD);
  }

  /** A list of digests holds nothing but strings, so only the other fields count. */
  lemma DigestListKept(m: Object)
    requires WellFormed(Obj(m)) && SdDigests(m).Ok? && forall v | v in SdDigests(m).value :: v.Str?
    ensures FieldsKept(m) <==> FieldsKept(SwapRemove(m, SD))
  {
    var plain := SwapRemove(m, SD);
    SwapRemoveEffect(m, SD);
    forall f | f in m ensures f in plain || (f.key == SD && NoEmptied(f.value)) {
      var i :| 0 <= i < |m| && m[i] == f;
      GetAt(m, i);
      if f.key != SD {
        assert Get(plain, f.key) == Some(f.value);
        assert plain[Find(plain, f.key)] == f;
      }
    }
  }

  lemma {:induction false} AllFieldsBare(m: Object, st: State)
    requires (forall f | f in m :: WellFormed(f.value)) && Named(st.table) && ResolveFields(m, st).Ok?
    requires ResolveFields(m, st).value.1.withheld == st.withheld
    ensures FieldsBare(ResolveFields(m, st).value.0) <==> FieldsKept(m) && SpentSealed(st, ResolveFields(m, st).value.1)
    decreases st.table.Keys, FieldsSize(m), 0
  {
    if m == [] {
      NothingSpent(st);
    } else {
      assert FieldsSize(m) == 1 + Size(m[0].value) + FieldsSize(m[1..]);
      hide NoPlaceholder, NoEmptied, SpentSealed, Served, Named, WellFormed, ResolveValue, ResolveFields, FieldsSize, Size;
      var value, st1, rest := FieldsServed(m, st);
      assert m == [m[0]] + m[1..];
      ValueBare(m[0].value, st);
      AllFieldsBare(m[1..], st1);
      assert FieldsKept(m) <==> NoEmptied(m[0].value) && FieldsKept(m[1..]);
      assert FieldsBare([Field(m[0].key, value)] + rest) <==> NoPlaceholder(value) && FieldsBare(rest) by {
        assert [Field(m[0].key, value)][0] in [Field(m[0].key, value)] + rest;
      }
    }
  }

  lemma {:induction false} DigestsBare(m: Object, digests: seq<Value>, st: State)
    requires Named(st.table) && ResolveDigests(m, digests, st).Ok?
    requires ResolveDigests(m, digests, st).value.1.withheld == st.withheld
    ensures FieldsBare(ResolveDigests(m, digests, st).value.0)
       <==> FieldsBare(m) && SpentSealed(st, ResolveDigests(m, digests, st).value.1)
    decreases st.table.Keys, |digests|, 0
  {
    if digests == [] {
      NothingSpent(st);
    } else {
      var s := DigestStep(m, digests, st);
      var f := Field(s.found.name.value, s.value);
      ValueBare(s.found.value, s.taken);
      DigestsBare(Insert(m, f.key, f.value), digests[1..], s.after);
      hide NoPlaceholder, NoEmptied, SpentSealed, Served, Named, WellFormed, ResolveValue, ResolveDigests, Emptied;
      NewField(m, f);
      assert FieldsBare(m + [f]) <==> FieldsBare(m) && NoPlaceholder(s.value) by {
        assert f in m + [f];
      }
    }
  }

  lemma {:induction false} AllItemsBare(items: seq<Value>, st: State)
    requires (forall x | x in items :: WellFormed(x)) && Named(st.table) && ResolveItems(items, st).Ok?
    requires ResolveItems(items, st).value.1.withheld == st.withheld
    ensures ItemsBare(ResolveItems(items, st).value.0) <==> ItemsKept(items) && SpentSealed(st, ResolveItems(items, st).value.1)
    decreases st.table.Keys, ItemsSize(items), 0
  {
    if items == [] {
      NothingSpent(st);
    } else {
      var (kept, st1) := ResolveElement(items[0], st).value;
      var (rest, end) := ResolveItems(items[1..], st1).value;
      assert items == [items[0]] + items[1..];
      ElementEvolves(items[0], st);
      ItemsEvolve(items[1..], st1);
      ServedInStages(st, st1, end);
      ElementBare(items[0], st);
      AllItemsBare(items[1..], st1);
      assert ResolveItems(items, st).value == (kept + rest, end);
      hide ItemsKept, ItemsBare, NoPlaceholder, NoEmptied, SpentSealed, Served, Named, WellFormed, ResolveElement, ResolveItems,
        Emptied, Placeholder;
      ItemsKeptCons(items);
      ItemsBareConcat(kept, rest);
    }
  }

  lemma ItemsKeptCons(items: seq<Value>)
    requires items != []
    ensures ItemsKept(items) <==> ItemsKept([items[0]]) && ItemsKept(items[1..])
  {
    hide NoEmptied, Emptied;
    assert items == [items[0]] + items[1..];
  }

  lemma ItemsBareConcat(kept: seq<Value>, rest: seq<Value>)
    ensures ItemsBare(kept + rest) <==> ItemsBare(kept) && ItemsBare(rest)
  {
    hide NoPlaceholder, Placeholder;
  }

  lemma {:induction false} ElementBare(element: Value, st: State)
    requires WellFormed(element) && Named(st.table) && ResolveElement(element, st).Ok?
    requires ResolveElement(element, st).value.1.withheld == st.withheld
    ensures ItemsBare(ResolveElement(element, st).value.0)
       <==> ItemsKept([element]) && SpentSealed(st, ResolveElement(element, st).value.1)
    decreases st.table.Keys, Size(element), 2
  {
    assert [element][0] == element;
    var placeholder := Placeholder(element);
    if placeholder.None? {
      BecomesPlaceholder(element, st);
      ValueBare(element, st);
    } else {
      var d := placeholder.value.value;
      var (found, st1) := Take(st, d).value;
      TakeSeals(st, d);
      TakeEvolves(st, d);
      if found.Some? {
        assert st1.table.Keys < st.table.Keys;
        var hidden := found.value.value;
        var end := ResolveElement(element, st).value.1;
        ValueEvolves(hidden, st1);
        ServedInStages(st, st1, end);
        BecomesPlaceholder(hidden, st1);
        ValueBare(hidden, st1);
        PlaceholderKept(element);
      }
    }
  }

  lemma PlaceholderKept(v: Value)
    requires Placeholder(v).Some? && Placeholder(v).value.Some?
    ensures !Emptied(v) && NoEmptied(v)
  {
  }

  // ----- The theorem -----

  /** No placeholder is left at any depth of a resolved payload if and only if no array element
      of the payload or of a disclosed value is just `...` with an empty `_sd`, and no value
      disclosed as an array element is just `...`, with or without an empty `_sd`. */
  lemma PlaceholdersGoExactly(c: Codec, payload: Object, ds: seq<string>)
    requires JsonSound(c) && WellFormed(Obj(payload)) && Resolve(c, payload, ds).Ok?
    ensures forall e | e in ds :: Parse(c, e).Ok?
    ensures NoPlaceholder(Obj(Resolve(c, payload, ds).value))
       <==> NoEmptied(Obj(payload)) && forall e | e in ds :: Sealed(Parse(c, e).value)
  {
    var t := BuildTable(c, ds).value;
    var p, st := SwapRemove(payload, SD_ALG_KEY), StartState(t);
    var end := ResolveObject(p, st).value.1;
    BuiltIsNamed(c, ds);
    SwapRemoveEffect(payload, SD_ALG_KEY);
    ObjectBare(p, st);
    AllSpent(p, t);
    ObjectEvolves(p, st);
    assert end.table.Keys == {};
    AlgIsPlain(payload);
    TableSealed(c, ds);
    hide ResolveObject, BuildTable, Sealed, Parse, NoPlaceholder, NoEmptied, Named;
    assert SpentSealed(st, end) <==> forall d | d in t :: Sealed(t[d]);
    KeptIsNoEmptied(payload);
    BareIsNoPlaceholder(Resolve(c, payload, ds).value);
  }

  lemma KeptIsNoEmptied(m: Object)
    ensures NoEmptied(Obj(m)) <==> FieldsKept(m)
  {
  }

  lemma BareIsNoPlaceholder(m: Object)
    ensures NoPlaceholder(Obj(m)) <==> FieldsBare(m)
  {
  }

  lemma AlgIsPlain(payload: Object)
    requires Distinct(payload) && AlgAccepted(payload)
    ensures FieldsKept(payload) <==> FieldsKept(SwapRemove(payload, SD_ALG_KEY))
  {
    var plain := SwapRemove(payload, SD_ALG_KEY);
    SwapRemoveEffect(payload, SD_ALG_KEY);
    forall f | f in payload ensures f in plain || (f.key == SD_ALG_KEY && NoEmptied(f.value)) {
      var i :| 0 <= i < |payload| && payload[i] == f;
      GetAt(payload, i);
      if f.key != SD_ALG_KEY {
        assert Get(plain, f.key) == Some(f.value);
        assert plain[Find(plain, f.key)] == f;
      }
    }
  }

  lemma BuiltIsNamed(c: Codec, ds: seq<string>)
    requires JsonSound(c) && BuildTable(c, ds).Ok?
    ensures Named(BuildTable(c, ds).value) && |BuildTable(c, ds).value| == |ds|
  {
    var t := BuildTable(c, ds).value;
    BuiltTable(c, ds);
    BuiltIsFormed(c, ds);
    forall d | d in t ensures t[d].name != Some(ELLIPSIS) {
      var i :| 0 <= i < |ds| && d == c.digest(ds[i]);
      assert ds[i] in ds[..|ds|] && Holds(c, ds[i], t);
    }
  }

  /** The table holds what the list holds. */
  lemma TableSealed(c: Codec, ds: seq<string>)
    requires BuildTable(c, ds).Ok?
    ensures forall e | e in ds :: Parse(c, e).Ok?
    ensures (forall d | d in BuildTable(c, ds).value :: Sealed(BuildTable(c, ds).value[d]))
       <==> (forall e | e in ds :: Sealed(Parse(c, e).value))
  {
    var t := BuildTable(c, ds).value;
    BuiltTable(c, ds);
    assert ds[..|ds|] == ds;
    hide Sealed, Parse, BuildTable;
    forall e | e in ds ensures Holds(c, e, t) {}
    if forall e | e in ds :: Sealed(Parse(c, e).value) {
      forall d | d in t ensures Sealed(t[d]) {
        var i :| 0 <= i < |ds| && d == c.digest(ds[i]);
        assert Holds(c, ds[i], t);
      }
    }
  }

  // ----- Inputs that leave a placeholder -----

  const STUB: Value := Obj([Field(ELLIPSIS, Str("x"))])

  /** The stub with an empty `_sd` beside it. */
  const EMPTY_SD_STUB: Value := Obj([Field(SD, Arr([])), Field(ELLIPSIS, Str("x"))])

  function ListOf(v: Value): Object {
    [Field("list", Arr([v]))]
  }

  lemma StubsResolve(st: State)
    ensures ResolveValue(STUB, st) == Ok((STUB, st)) && ResolveValue(EMPTY_SD_STUB, st) == Ok((STUB, st))
  {
    var m, whole := [Field(ELLIPSIS, Str("x"))], [Field(SD, Arr([])), Field(ELLIPSIS, Str("x"))];
    GetAbsent(m, SD);
    GetAt(whole, 0);
    assert SwapRemove(m, SD) == m && SwapRemove(whole, SD) == m;
    assert m[1..] == [] && [m[0]] + [] == m;
    assert ResolveFields([], st) == Ok(([], st));
    assert ResolveValue(m[0].value, st) == Ok((m[0].value, st));
    assert ResolveFields(m, st) == Ok((m, st));
    assert ResolveObject(m, st) == Ok((m, st)) && ResolveObject(whole, st) == Ok((m, st));
  }

  /** The one element of a one-field payload decides. */
  lemma ListResolves(v: Value, st: State, kept: Value, st1: State)
    requires ResolveElement(v, st) == Ok(([kept], st1))
    ensures ResolveObject(ListOf(v), st) == Ok((ListOf(kept), st1))
    ensures WellFormed(v) ==> WellFormed(Obj(ListOf(v)))
    ensures AlgAccepted(ListOf(v)) && SwapRemove(ListOf(v), SD_ALG_KEY) == ListOf(v)
  {
    var m := ListOf(v);
    GetAbsent(m, SD);
    GetAbsent(m, SD_ALG_KEY);
    assert SwapRemove(m, SD) == m && SwapRemove(m, SD_ALG_KEY) == m;
    assert ResolveItems([v], st) == Ok(([kept], st1)) by {
      assert [v][1..] == [] && [kept] + [] == [kept];
    }
    assert ResolveValue(m[0].value, st) == Ok((Arr([kept]), st1));
    assert ResolveFields(m, st) == Ok((ListOf(kept), st1)) by {
      assert m[1..] == [] && ListOf(kept) + [] == ListOf(kept);
    }
  }

  lemma ListOfStub()
    ensures !NoPlaceholder(Obj(ListOf(STUB)))
  {
    var m := ListOf(STUB);
    assert m[0].value.items[0] == STUB && m[0] in m && Placeholder(STUB).Some?;
    assert STUB in m[0].value.items;
    assert !NoPlaceholder(m[0].value);
  }

  /** Without any disclosure: an element with `...` and an empty `_sd` becomes a placeholder. */
  lemma EmptySdLeavesPlaceholder(c: Codec)
    ensures WellFormed(Obj(ListOf(EMPTY_SD_STUB)))
    ensures Resolve(c, ListOf(EMPTY_SD_STUB), []) == Ok(ListOf(STUB)) && !NoPlaceholder(Obj(ListOf(STUB)))
  {
    var st := StartState(map[]);
    StubsResolve(st);
    assert ResolveElement(EMPTY_SD_STUB, st) == Ok(([STUB], st));
    ListResolves(EMPTY_SD_STUB, st, STUB, st);
    assert WellFormed(EMPTY_SD_STUB);
    ListOfStub();
  }

  /** A value disclosed as an array element stays a placeholder, or becomes one. */
  lemma DisclosedStubStays(c: Codec, hidden: Value)
    requires JsonSound(c) && (hidden == STUB || hidden == EMPTY_SD_STUB)
    ensures var e := c.encode(Arr([Str("salt"), hidden]));
            var payload := ListOf(Obj([Field(ELLIPSIS, Str(c.digest(e)))]));
            WellFormed(Obj(payload)) && Resolve(c, payload, [e]) == Ok(ListOf(STUB)) && !NoPlaceholder(Obj(ListOf(STUB)))
  {
    var e := c.encode(Arr([Str("salt"), hidden]));
    var d, v := c.digest(e), Obj([Field(ELLIPSIS, Str(c.digest(e)))]);
    StubDisclosureReads(c, hidden);
    var t: Table := map[d := Disclosure(None, hidden)];
    assert BuildTable(c, [e]) == Ok(t) by {
      assert [e][1..] == [];
      assert BuildTable(c, [e][1..], t) == Ok(t);
    }
    var st := StartState(t);
    var st1 := State(t - {d}, {} + {d}, 1, 0);
    assert Take(st, d) == Ok((Some(t[d]), st1));
    StubsResolve(st1);
    assert Placeholder(v) == Some(Some(d));
    assert ResolveElement(v, st) == Ok(([STUB], st1));
    ListResolves(v, st, STUB, st1);
    assert WellFormed(v);
    ListOfStub();
  }

  lemma StubDisclosureReads(c: Codec, hidden: Value)
    requires JsonSound(c) && (hidden == STUB || hidden == EMPTY_SD_STUB)
    ensures Parse(c, c.encode(Arr([Str("salt"), hidden]))) == Ok(Disclosure(None, hidden))
  {
    var v := Arr([Str("salt"), hidden]);
    StubFits(hidden);
    assert WellFormed(v) && Fits(v, READABLE_DEPTH) by {
      hide WellFormed, Fits;
      assert forall x | x in v.items :: x == Str("salt") || x == hidden;
      PairFits(Str("salt"), hidden);
    }
    hide WellFormed, Fits;
    assert c.decode(c.encode(v)) == Some(v);
  }

  lemma StubFits(hidden: Value)
    requires hidden == STUB || hidden == EMPTY_SD_STUB
    ensures WellFormed(hidden) && Fits(hidden, READABLE_DEPTH - 1)
  {
    forall f | f in hidden.fields ensures WellFormed(f.value) && Fits(f.value, 1) {
      assert f.value == Arr([]) || f.value == Str("x");
    }
  }

  lemma PairFits(a: Value, b: Value)
    requires WellFormed(a) && WellFormed(b) && Fits(a, READABLE_DEPTH - 1) && Fits(b, READABLE_DEPTH - 1)
    ensures WellFormed(Arr([a, b])) && Fits(Arr([a, b]), READABLE_DEPTH)
  {
  }
}
