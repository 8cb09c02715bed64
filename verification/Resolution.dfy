/** What resolution guarantees: it accounts for every digest and disclosure, leaves no
    `_sd` behind, and is determined by the payload alone. */
module Resolution {
  import opened Results
  import opened Json
  import opened Codec
  import opened SdJwt

  // ----- Accounting -----

  /** From `a`, exactly the digests newly seen in `b` were looked up: the known ones were
      spent and counted as used, the others counted as withheld. */
  ghost predicate Evolves(a: State, b: State) {
    && a.seen <= b.seen
    && b.table == a.table - (b.seen - a.seen)
    && b.used == a.used + |(b.seen - a.seen) * a.table.Keys|
    && b.withheld == a.withheld + |(b.seen - a.seen) - a.table.Keys|
  }

  lemma EvolvesNothing(a: State)
    ensures Evolves(a, a)
  {
    assert a.table - {} == a.table;
    assert a.seen - a.seen == {};
  }

  lemma EvolvesFurther(a: State, b: State, c: State)
    requires Evolves(a, b) && Evolves(b, c)
    ensures Evolves(a, c)
  {
    var n1, n2, k := b.seen - a.seen, c.seen - b.seen, a.table.Keys;
    assert c.seen - a.seen == n1 + n2;
    assert b.table.Keys == k - n1;
    CountInStages(n1, n2, k);
    assert c.table == a.table - (n1 + n2) by { RemoveInStages(a.table, n1, n2); }
  }

  lemma CountInStages(n1: set<string>, n2: set<string>, k: set<string>)
    requires n1 !! n2
    ensures |(n1 + n2) * k| == |n1 * k| + |n2 * (k - n1)|
    ensures |(n1 + n2) - k| == |n1 - k| + |n2 - (k - n1)|
  {
    assert (n1 + n2) * k == n1 * k + n2 * (k - n1);
    assert (n1 + n2) - k == (n1 - k) + (n2 - (k - n1));
  }

  lemma RemoveInStages(t: Table, n1: set<string>, n2: set<string>)
    ensures (t - n1) - n2 == t - (n1 + n2)
  {
  }

  lemma CountInParts(n: set<string>, k: set<string>)
    ensures |n| == |n * k| + |n - k|
    ensures |k| == |n * k| + |k - n|
  {
    assert n == n * k + (n - k);
    assert k == n * k + (k - n);
  }

  lemma TakeEvolves(st: State, d: string)
    requires Take(st, d).Ok?
    ensures Evolves(st, Take(st, d).value.1)
  {
    var st' := Take(st, d).value.1;
    assert st'.seen - st.seen == {d};
    if d in st.table {
      assert {d} * st.table.Keys == {d} && {d} - st.table.Keys == {};
    } else {
      assert {d} * st.table.Keys == {} && {d} - st.table.Keys == {d};
      assert st.table - {d} == st.table;
    }
  }

  lemma {:induction false} ValueEvolves(v: Value, st: State)
    requires ResolveValue(v, st).Ok?
    ensures Evolves(st, ResolveValue(v, st).value.1)
    decreases st.table.Keys, Size(v), 1
  {
    match v
    case Obj(m) => ObjectEvolves(m, st);
    case Arr(items) => ItemsEvolve(items, st);
    case _ => EvolvesNothing(st);
  }

  lemma {:induction false} ObjectEvolves(m: Object, st: State)
    requires ResolveObject(m, st).Ok?
    ensures Evolves(st, ResolveObject(m, st).value.1)
    decreases st.table.Keys, FieldsSize(m) + 1, 0
  {
    SdDigestsSize(m);
    var (fields, st1) := ResolveFields(SwapRemove(m, SD), st).value;
    FieldsEvolve(SwapRemove(m, SD), st);
    DigestsEvolve(fields, SdDigests(m).value, st1);
    EvolvesFurther(st, st1, ResolveObject(m, st).value.1);
  }

  lemma {:induction false} FieldsEvolve(m: Object, st: State)
    requires ResolveFields(m, st).Ok?
    ensures Evolves(st, ResolveFields(m, st).value.1)
    decreases st.table.Keys, FieldsSize(m), 0
  {
    if m == [] {
      EvolvesNothing(st);
    } else {
      var st1 := ResolveValue(m[0].value, st).value.1;
      ValueEvolves(m[0].value, st);
      FieldsEvolve(m[1..], st1);
      EvolvesFurther(st, st1, ResolveFields(m, st).value.1);
    }
  }

  lemma {:induction false} DigestsEvolve(m: Object, digests: seq<Value>, st: State)
    requires ResolveDigests(m, digests, st).Ok?
    ensures Evolves(st, ResolveDigests(m, digests, st).value.1)
    decreases st.table.Keys, |digests|, 0
  {
    if digests == [] {
      EvolvesNothing(st);
    } else {
      var (found, st1) := Take(st, digests[0].s).value;
      TakeEvolves(st, digests[0].s);
      if found.None? {
        DigestsEvolve(m, digests[1..], st1);
      } else {
        assert st1.table.Keys < st.table.Keys;
        var (value, st2) := ResolveValue(found.value.value, st1).value;
        ValueEvolves(found.value.value, st1);
        DigestsEvolve(Insert(m, found.value.name.value, value), digests[1..], st2);
        EvolvesFurther(st1, st2, ResolveDigests(m, digests, st).value.1);
      }
      EvolvesFurther(st, st1, ResolveDigests(m, digests, st).value.1);
    }
  }

  lemma {:induction false} ItemsEvolve(items: seq<Value>, st: State)
    requires ResolveItems(items, st).Ok?
    ensures Evolves(st, ResolveItems(items, st).value.1)
    decreases st.table.Keys, ItemsSize(items), 0
  {
    if items == [] {
      EvolvesNothing(st);
    } else {
      var st1 := ResolveElement(items[0], st).value.1;
      ElementEvolves(items[0], st);
      ItemsEvolve(items[1..], st1);
      EvolvesFurther(st, st1, ResolveItems(items, st).value.1);
    }
  }

  lemma {:induction false} ElementEvolves(element: Value, st: State)
    requires ResolveElement(element, st).Ok?
    ensures Evolves(st, ResolveElement(element, st).value.1)
    decreases st.table.Keys, Size(element), 2
  {
    var placeholder := Placeholder(element);
    if placeholder.None? {
      ValueEvolves(element, st);
    } else {
      var (found, st1) := Take(st, placeholder.value.value).value;
      TakeEvolves(st, placeholder.value.value);
      if found.Some? {
        assert st1.table.Keys < st.table.Keys;
        ValueEvolves(found.value.value, st1);
        EvolvesFurther(st, st1, ResolveElement(element, st).value.1);
      }
    }
  }

  /** Resolution conserves: every disclosure is used or left over, and every digest met is
      used or withheld. */
  lemma ResolutionAccounts(m: Object, table: Table)
    requires ResolveObject(m, StartState(table)).Ok?
    ensures var st := ResolveObject(m, StartState(table)).value.1;
            && st.used + |st.table| == |table|
            && |st.seen| == st.used + st.withheld
            && st.table == table - st.seen
            && st.used == |st.seen * table.Keys|
  {
    var st0 := StartState(table);
    var st := ResolveObject(m, st0).value.1;
    ObjectEvolves(m, st0);
    assert st.seen - {} == st.seen;
    assert st.table.Keys == table.Keys - st.seen;
    CountInParts(st.seen, table.Keys);
  }

  // ----- Nothing of the bookkeeping is left -----

  /** No object at any depth has the key `_sd`. */
  predicate NoSd(v: Value) {
    match v
    case Arr(items) => forall x | x in items :: NoSd(x)
    case Obj(m) => forall f | f in m :: f.key != SD && NoSd(f.value)
    case _ => true
  }

  predicate CleanObject(m: Object) {
    Distinct(m) && forall f | f in m :: f.key != SD && NoSd(f.value) && WellFormed(f.value)
  }

  predicate CleanItems(items: seq<Value>) {
    forall x | x in items :: NoSd(x) && WellFormed(x)
  }

  ghost predicate TableFormed(t: Table) {
    forall d | d in t :: WellFormed(t[d].value) && (t[d].name.Some? ==> t[d].name.value != SD)
  }

  lemma {:induction false} ValueClean(v: Value, st: State)
    requires WellFormed(v) && TableFormed(st.table) && ResolveValue(v, st).Ok?
    ensures WellFormed(ResolveValue(v, st).value.0) && NoSd(ResolveValue(v, st).value.0)
    decreases st.table.Keys, Size(v), 1
  {
    match v
    case Obj(m) => ObjectClean(m, st);
    case Arr(items) => ItemsClean(items, st);
    case _ =>
  }

  lemma {:induction false} ObjectClean(m: Object, st: State)
    requires WellFormed(Obj(m)) && TableFormed(st.table) && ResolveObject(m, st).Ok?
    ensures CleanObject(ResolveObject(m, st).value.0)
    decreases st.table.Keys, FieldsSize(m) + 1, 0
  {
    SdDigestsSize(m);
    var plain := SwapRemove(m, SD);
    SwapRemoveEffect(m, SD);
    var (fields, st1) := ResolveFields(plain, st).value;
    FieldsEvolve(plain, st);
    FieldsClean(plain, st);
    DigestsClean(fields, SdDigests(m).value, st1);
  }

  lemma StaysFormed(st: State, st1: State)
    requires TableFormed(st.table) && Evolves(st, st1)
    ensures TableFormed(st1.table)
  {
  }

  lemma TailDistinct(m: Object)
    requires m != [] && Distinct(m)
    ensures Distinct(m[1..]) && forall f | f in m[1..] :: f in m
  {
  }

  lemma {:induction false} FieldsClean(m: Object, st: State)
    requires Distinct(m) && (forall f | f in m :: f.key != SD && WellFormed(f.value))
    requires TableFormed(st.table) && ResolveFields(m, st).Ok?
    ensures CleanObject(ResolveFields(m, st).value.0)
    ensures |ResolveFields(m, st).value.0| == |m|
    ensures forall i | 0 <= i < |m| :: ResolveFields(m, st).value.0[i].key == m[i].key
    decreases st.table.Keys, FieldsSize(m), 0
  {
    if m != [] {
      var (value, st1) := ResolveValue(m[0].value, st).value;
      var rest := ResolveFields(m[1..], st1).value.0;
      assert ResolveFields(m, st).value.0 == [Field(m[0].key, value)] + rest;
      hide CleanObject, NoSd, WellFormed, TableFormed, Evolves, Distinct, ResolveFields, ResolveValue;
      ValueEvolves(m[0].value, st);
      StaysFormed(st, st1);
      ValueClean(m[0].value, st);
      TailDistinct(m);
      FieldsClean(m[1..], st1);
      ConsClean(m, value, rest);
    }
  }

  lemma ConsClean(m: Object, value: Value, rest: Object)
    requires m != [] && Distinct(m) && m[0].key != SD && WellFormed(value) && NoSd(value)
    requires CleanObject(rest) && |rest| == |m| - 1
    requires forall i | 0 <= i < |rest| :: rest[i].key == m[1..][i].key
    ensures CleanObject([Field(m[0].key, value)] + rest)
    ensures forall i | 0 <= i < |m| :: ([Field(m[0].key, value)] + rest)[i].key == m[i].key
  {
    var whole := [Field(m[0].key, value)] + rest;
    forall i | 0 <= i < |m| ensures whole[i].key == m[i].key {
      if i > 0 { assert whole[i] == rest[i - 1] && m[1..][i - 1] == m[i]; }
    }
  }

  lemma {:induction false} DigestsClean(m: Object, digests: seq<Value>, st: State)
    requires CleanObject(m) && TableFormed(st.table) && ResolveDigests(m, digests, st).Ok?
    ensures CleanObject(ResolveDigests(m, digests, st).value.0)
    decreases st.table.Keys, |digests|, 0
  {
    if digests != [] {
      var (found, st1) := Take(st, digests[0].s).value;
      if found.None? {
        DigestsClean(m, digests[1..], st1);
      } else {
        assert st1.table.Keys < st.table.Keys;
        var name := found.value.name.value;
        var (value, st2) := ResolveValue(found.value.value, st1).value;
        ValueEvolves(found.value.value, st1);
        ValueClean(found.value.value, st1);
        InsertEffect(m, name, value);
        DigestsClean(Insert(m, name, value), digests[1..], st2);
      }
    }
  }

  lemma {:induction false} ItemsClean(items: seq<Value>, st: State)
    requires (forall x | x in items :: WellFormed(x)) && TableFormed(st.table) && ResolveItems(items, st).Ok?
    ensures CleanItems(ResolveItems(items, st).value.0)
    decreases st.table.Keys, ItemsSize(items), 0
  {
    if items != [] {
      var st1 := ResolveElement(items[0], st).value.1;
      ElementEvolves(items[0], st);
      ElementClean(items[0], st);
      ItemsClean(items[1..], st1);
    }
  }

  lemma {:induction false} ElementClean(element: Value, st: State)
    requires WellFormed(element) && TableFormed(st.table) && ResolveElement(element, st).Ok?
    ensures CleanItems(ResolveElement(element, st).value.0)
    decreases st.table.Keys, Size(element), 2
  {
    var placeholder := Placeholder(element);
    if placeholder.None? {
      ValueClean(element, st);
    } else {
      var (found, st1) := Take(st, placeholder.value.value).value;
      if found.Some? {
        assert st1.table.Keys < st.table.Keys;
        ValueClean(found.value.value, st1);
      }
    }
  }

  // ----- The digest table -----

  ghost predicate DigestOfOne(c: Codec, ds: seq<string>, n: nat, d: string)
    requires n <= |ds|
  {
    exists i :: 0 <= i < n && d == c.digest(ds[i])
  }

  ghost predicate Holds(c: Codec, encoded: string, t: Table) {
    c.digest(encoded) in t && Parse(c, encoded) == Ok(t[c.digest(encoded)])
  }

  ghost predicate DistinctDigests(c: Codec, ds: seq<string>, n: nat)
    requires n <= |ds|
  {
    forall i, j | 0 <= i < j < n :: c.digest(ds[i]) != c.digest(ds[j])
  }

  ghost predicate AllHold(c: Codec, ds: seq<string>, t: Table) {
    forall e | e in ds :: Holds(c, e, t)
  }

  ghost predicate HoldsUpTo(c: Codec, ds: seq<string>, n: nat, t: Table)
    requires n <= |ds|
  {
    && AllHold(c, ds[..n], t)
    && (forall d | d in t :: DigestOfOne(c, ds, n, d))
    && DistinctDigests(c, ds, n)
    && |t| == n
  }

  /** A table of the whole list: one entry per disclosure, under its digest. */
  ghost predicate TableOf(c: Codec, ds: seq<string>, t: Table) {
    HoldsUpTo(c, ds, |ds|, t)
  }

  lemma {:induction false} TableGrows(c: Codec, ds: seq<string>, n: nat, t: Table)
    requires n <= |ds| && HoldsUpTo(c, ds, n, t)
    ensures BuildTable(c, ds[n..], t).Ok? ==> TableOf(c, ds, BuildTable(c, ds[n..], t).value)
    decreases |ds| - n
  {
    if n < |ds| && BuildTable(c, ds[n..], t).Ok? {
      assert ds[n..][0] == ds[n] && ds[n..][1..] == ds[n + 1..];
      var d := c.digest(ds[n]);
      TableOneMore(c, ds, n, t, Parse(c, ds[n]).value);
      TableGrows(c, ds, n + 1, t[d := Parse(c, ds[n]).value]);
    }
  }

  lemma TableOneMore(c: Codec, ds: seq<string>, n: nat, t: Table, p: Disclosure)
    requires n < |ds| && HoldsUpTo(c, ds, n, t) && Parse(c, ds[n]) == Ok(p) && c.digest(ds[n]) !in t
    ensures HoldsUpTo(c, ds, n + 1, t[c.digest(ds[n]) := p])
  {
    hide Holds, Parse, AllHold, DigestOfOne;
    var d := c.digest(ds[n]);
    var t' := t[d := p];
    OneKeyMore(t, d, p);
    AllHoldStill(c, ds[..n], t, ds[n], p);
    assert ds[..n + 1] == ds[..n] + [ds[n]];
    HeldBefore(c, ds, n, t);
    forall e | e in t' ensures DigestOfOne(c, ds, n + 1, e) {
      OneMoreDigest(c, ds, n, t, e);
    }
  }

  lemma OneKeyMore(t: Table, d: string, p: Disclosure)
    requires d !in t
    ensures |t[d := p]| == |t| + 1
  {
    assert t[d := p].Keys == t.Keys + {d};
  }

  lemma HeldBefore(c: Codec, ds: seq<string>, n: nat, t: Table)
    requires n <= |ds| && AllHold(c, ds[..n], t)
    ensures forall i | 0 <= i < n :: c.digest(ds[i]) in t
  {
    forall i | 0 <= i < n ensures c.digest(ds[i]) in t {
      assert ds[i] in ds[..n];
      assert Holds(c, ds[i], t);
    }
  }

  lemma AllHoldStill(c: Codec, ds: seq<string>, t: Table, encoded: string, p: Disclosure)
    requires AllHold(c, ds, t) && Parse(c, encoded) == Ok(p) && c.digest(encoded) !in t
    ensures AllHold(c, ds + [encoded], t[c.digest(encoded) := p])
  {
    forall e | e in ds + [encoded] ensures Holds(c, e, t[c.digest(encoded) := p]) {
      if e in ds {
        assert Holds(c, e, t);
      }
    }
  }

  lemma OneMoreDigest(c: Codec, ds: seq<string>, n: nat, t: Table, e: string)
    requires n < |ds| && (e == c.digest(ds[n]) || DigestOfOne(c, ds, n, e))
    ensures DigestOfOne(c, ds, n + 1, e)
  {
    if e != c.digest(ds[n]) {
      var i :| 0 <= i < n && e == c.digest(ds[i]);
    }
  }

  lemma BuiltTable(c: Codec, ds: seq<string>)
    requires BuildTable(c, ds).Ok?
    ensures TableOf(c, ds, BuildTable(c, ds).value)
  {
    assert ds[0..] == ds;
    TableGrows(c, ds, 0, map[]);
  }

  lemma ParsedIsFormed(c: Codec, encoded: string)
    requires JsonSound(c) && Parse(c, encoded).Ok?
    ensures WellFormed(Parse(c, encoded).value.value)
    ensures Parse(c, encoded).value.name.Some? ==> Parse(c, encoded).value.name.value != SD
  {
    var items := c.decode(encoded).value.items;
    assert items[|items| - 1] in items;
  }

  lemma BuiltIsFormed(c: Codec, ds: seq<string>)
    requires JsonSound(c) && BuildTable(c, ds).Ok?
    ensures TableFormed(BuildTable(c, ds).value)
  {
    var t := BuildTable(c, ds).value;
    BuiltTable(c, ds);
    hide BuildTable, Parse;
    forall d | d in t ensures WellFormed(t[d].value) && (t[d].name.Some? ==> t[d].name.value != SD) {
      var i :| 0 <= i < |ds| && d == c.digest(ds[i]);
      assert ds[i] in ds[..|ds|] && Holds(c, ds[i], t);
      ParsedIsFormed(c, ds[i]);
    }
  }

  /** `resolve` leaves no `_sd` at any depth and no duplicate key. */
  lemma ResolvedIsClean(c: Codec, payload: Object, ds: seq<string>)
    requires JsonSound(c) && WellFormed(Obj(payload)) && Resolve(c, payload, ds).Ok?
    ensures NoSd(Obj(Resolve(c, payload, ds).value)) && WellFormed(Obj(Resolve(c, payload, ds).value))
  {
    var t := BuildTable(c, ds).value;
    BuiltIsFormed(c, ds);
    hide BuildTable, NoSd, SwapRemove, JsonSound;
    SwapRemoveEffect(payload, SD_ALG_KEY);
    ObjectClean(SwapRemove(payload, SD_ALG_KEY), StartState(t));
  }

  // ----- Determined by the payload -----

  /** Two runs in lockstep: the same digests seen, and no conflict between the tables. */
  ghost predicate InStep(s: State, t: State) {
    s.seen == t.seen && forall d | d in s.table && d in t.table :: s.table[d] == t.table[d]
  }

  lemma StaysInStep(s: State, t: State, s': State, t': State)
    requires InStep(s, t) && Evolves(s, s') && Evolves(t, t') && s'.seen == t'.seen
    ensures InStep(s', t')
  {
  }

  lemma {:induction false} ValueDetermined(v: Value, s: State, t: State)
    requires InStep(s, t) && ResolveValue(v, s).Ok? && ResolveValue(v, t).Ok?
    requires ResolveValue(v, s).value.1.withheld == s.withheld && ResolveValue(v, t).value.1.withheld == t.withheld
    ensures ResolveValue(v, s).value.0 == ResolveValue(v, t).value.0
    ensures ResolveValue(v, s).value.1.seen == ResolveValue(v, t).value.1.seen
    decreases s.table.Keys, Size(v), 1
  {
    match v
    case Obj(m) => ObjectDetermined(m, s, t);
    case Arr(items) => ItemsDetermined(items, s, t);
    case _ =>
  }

  lemma {:induction false} ObjectDetermined(m: Object, s: State, t: State)
    requires InStep(s, t) && ResolveObject(m, s).Ok? && ResolveObject(m, t).Ok?
    requires ResolveObject(m, s).value.1.withheld == s.withheld && ResolveObject(m, t).value.1.withheld == t.withheld
    ensures ResolveObject(m, s).value.0 == ResolveObject(m, t).value.0
    ensures ResolveObject(m, s).value.1.seen == ResolveObject(m, t).value.1.seen
    decreases s.table.Keys, FieldsSize(m) + 1, 0
  {
    SdDigestsSize(m);
    var plain, digests := SwapRemove(m, SD), SdDigests(m).value;
    var (fields, s1) := ResolveFields(plain, s).value;
    var (fields', t1) := ResolveFields(plain, t).value;
    FieldsEvolve(plain, s); FieldsEvolve(plain, t);
    DigestsEvolve(fields, digests, s1); DigestsEvolve(fields', digests, t1);
    FieldsDetermined(plain, s, t);
    StaysInStep(s, t, s1, t1);
    DigestsDetermined(fields, digests, s1, t1);
  }

  lemma {:induction false} FieldsDetermined(m: Object, s: State, t: State)
    requires InStep(s, t) && ResolveFields(m, s).Ok? && ResolveFields(m, t).Ok?
    requires ResolveFields(m, s).value.1.withheld == s.withheld && ResolveFields(m, t).value.1.withheld == t.withheld
    ensures ResolveFields(m, s).value.0 == ResolveFields(m, t).value.0
    ensures ResolveFields(m, s).value.1.seen == ResolveFields(m, t).value.1.seen
    decreases s.table.Keys, FieldsSize(m), 0
  {
    if m != [] {
      var s1, t1 := ResolveValue(m[0].value, s).value.1, ResolveValue(m[0].value, t).value.1;
      ValueEvolves(m[0].value, s); ValueEvolves(m[0].value, t);
      FieldsEvolve(m[1..], s1); FieldsEvolve(m[1..], t1);
      ValueDetermined(m[0].value, s, t);
      StaysInStep(s, t, s1, t1);
      FieldsDetermined(m[1..], s1, t1);
    }
  }

  lemma {:induction false} DigestsDetermined(m: Object, digests: seq<Value>, s: State, t: State)
    requires InStep(s, t) && ResolveDigests(m, digests, s).Ok? && ResolveDigests(m, digests, t).Ok?
    requires ResolveDigests(m, digests, s).value.1.withheld == s.withheld
    requires ResolveDigests(m, digests, t).value.1.withheld == t.withheld
    ensures ResolveDigests(m, digests, s).value.0 == ResolveDigests(m, digests, t).value.0
    ensures ResolveDigests(m, digests, s).value.1.seen == ResolveDigests(m, digests, t).value.1.seen
    decreases s.table.Keys, |digests|, 0
  {
    if digests != [] {
      var (found, s1) := Take(s, digests[0].s).value;
      var (found', t1) := Take(t, digests[0].s).value;
      TakeEvolves(s, digests[0].s); TakeEvolves(t, digests[0].s);
      TakenWhenNothingWithheld(m, digests, s);
      TakenWhenNothingWithheld(m, digests, t);
      StaysInStep(s, t, s1, t1);
      var name, hidden := found.value.name.value, found.value.value;
      assert s1.table.Keys < s.table.Keys;
      var (value, s2) := ResolveValue(hidden, s1).value;
      var (value', t2) := ResolveValue(hidden, t1).value;
      ValueEvolves(hidden, s1); ValueEvolves(hidden, t1);
      DigestsEvolve(Insert(m, name, value), digests[1..], s2);
      DigestsEvolve(Insert(m, name, value'), digests[1..], t2);
      ValueDetermined(hidden, s1, t1);
      StaysInStep(s1, t1, s2, t2);
      DigestsDetermined(Insert(m, name, value), digests[1..], s2, t2);
    }
  }

  lemma TakenWhenNothingWithheld(m: Object, digests: seq<Value>, s: State)
    requires digests != [] && ResolveDigests(m, digests, s).Ok?
    requires ResolveDigests(m, digests, s).value.1.withheld == s.withheld
    ensures digests[0].Str? && digests[0].s in s.table
  {
    var (found, s1) := Take(s, digests[0].s).value;
    if found.None? {
      DigestsEvolve(m, digests[1..], s1);
    }
  }

  lemma {:induction false} ItemsDetermined(items: seq<Value>, s: State, t: State)
    requires InStep(s, t) && ResolveItems(items, s).Ok? && ResolveItems(items, t).Ok?
    requires ResolveItems(items, s).value.1.withheld == s.withheld && ResolveItems(items, t).value.1.withheld == t.withheld
    ensures ResolveItems(items, s).value.0 == ResolveItems(items, t).value.0
    ensures ResolveItems(items, s).value.1.seen == ResolveItems(items, t).value.1.seen
    decreases s.table.Keys, ItemsSize(items), 0
  {
    if items != [] {
      var s1, t1 := ResolveElement(items[0], s).value.1, ResolveElement(items[0], t).value.1;
      ElementEvolves(items[0], s); ElementEvolves(items[0], t);
      ItemsEvolve(items[1..], s1); ItemsEvolve(items[1..], t1);
      ElementDetermined(items[0], s, t);
      StaysInStep(s, t, s1, t1);
      ItemsDetermined(items[1..], s1, t1);
    }
  }

  lemma {:induction false} ElementDetermined(element: Value, s: State, t: State)
    requires InStep(s, t) && ResolveElement(element, s).Ok? && ResolveElement(element, t).Ok?
    requires ResolveElement(element, s).value.1.withheld == s.withheld
    requires ResolveElement(element, t).value.1.withheld == t.withheld
    ensures ResolveElement(element, s).value.0 == ResolveElement(element, t).value.0
    ensures ResolveElement(element, s).value.1.seen == ResolveElement(element, t).value.1.seen
    decreases s.table.Keys, Size(element), 2
  {
    var placeholder := Placeholder(element);
    if placeholder.None? {
      ValueDetermined(element, s, t);
    } else {
      var d := placeholder.value.value;
      var (found, s1) := Take(s, d).value;
      var (found', t1) := Take(t, d).value;
      TakeEvolves(s, d); TakeEvolves(t, d);
      StaysInStep(s, t, s1, t1);
      assert s1.table.Keys < s.table.Keys;
      ValueEvolves(found.value.value, s1); ValueEvolves(found.value.value, t1);
      ValueDetermined(found.value.value, s1, t1);
    }
  }

  /** All spent and none withheld: the digests met are exactly the table's. */
  lemma AllSpent(m: Object, table: Table)
    requires ResolveObject(m, StartState(table)).Ok?
    requires ResolveObject(m, StartState(table)).value.1.used == |table|
    requires ResolveObject(m, StartState(table)).value.1.withheld == 0
    ensures ResolveObject(m, StartState(table)).value.1.seen == table.Keys
  {
    var st := ResolveObject(m, StartState(table)).value.1;
    ResolutionAccounts(m, table);
    assert |st.table| == 0;
    assert st.table.Keys == table.Keys - st.seen;
    assert st.table.Keys == {};
    assert |st.seen - table.Keys| == 0 by {
      assert st.seen == (st.seen - table.Keys) + st.seen * table.Keys;
    }
  }

  lemma TablesAgree(c: Codec, ds: seq<string>, es: seq<string>, t: Table, u: Table)
    requires DigestSound(c) && TableOf(c, ds, t) && TableOf(c, es, u)
    ensures forall d | d in t && d in u :: t[d] == u[d]
  {
    forall d | d in t && d in u ensures t[d] == u[d] {
      var i :| 0 <= i < |ds| && d == c.digest(ds[i]);
      var j :| 0 <= j < |es| && d == c.digest(es[j]);
      assert ds[i] in ds[..|ds|] && es[j] in es[..|es|];
      assert ds[i] == es[j] && Holds(c, ds[i], t) && Holds(c, es[j], u);
    }
  }

  lemma {:induction false} CountInDistinct(ds: seq<string>, e: string)
    requires forall i, j | 0 <= i < j < |ds| :: ds[i] != ds[j]
    ensures multiset(ds)[e] == if e in ds then 1 else 0
  {
    if ds != [] {
      CountInDistinct(ds[1..], e);
      assert ds == [ds[0]] + ds[1..];
    }
  }

  lemma SameKeysSameLists(c: Codec, ds: seq<string>, es: seq<string>, t: Table, u: Table)
    requires DigestSound(c) && TableOf(c, ds, t) && TableOf(c, es, u) && t.Keys == u.Keys
    ensures multiset(ds) == multiset(es)
  {
    forall e ensures multiset(ds)[e] == multiset(es)[e] {
      CountInDistinct(ds, e);
      CountInDistinct(es, e);
      SameMember(c, ds, es, t, u, e);
      SameMember(c, es, ds, u, t, e);
    }
  }

  lemma SameMember(c: Codec, ds: seq<string>, es: seq<string>, t: Table, u: Table, e: string)
    requires DigestSound(c) && TableOf(c, ds, t) && TableOf(c, es, u) && t.Keys == u.Keys
    ensures e in ds ==> e in es
  {
    if e in ds {
      assert e in ds[..|ds|] && Holds(c, e, t);
      assert c.digest(e) in u;
      var j :| 0 <= j < |es| && c.digest(e) == c.digest(es[j]);
      assert es[j] == e;
    }
  }

  /** The payload alone determines what is resolved: any two disclosure lists it accepts
      are permutations of each other and give the same object. */
  lemma ResolutionDetermined(c: Codec, payload: Object, ds: seq<string>, es: seq<string>)
    requires DigestSound(c) && Resolve(c, payload, ds).Ok? && Resolve(c, payload, es).Ok?
    ensures Resolve(c, payload, ds) == Resolve(c, payload, es)
    ensures multiset(ds) == multiset(es)
  {
    var m := SwapRemove(payload, SD_ALG_KEY);
    var t, u := BuildTable(c, ds).value, BuildTable(c, es).value;
    BuiltTable(c, ds);
    BuiltTable(c, es);
    TablesAgree(c, ds, es, t, u);
    ObjectDetermined(m, StartState(t), StartState(u));
    AllSpent(m, t);
    AllSpent(m, u);
    SameKeysSameLists(c, ds, es, t, u);
  }

  /** A payload without fields has no use for a disclosure. */
  lemma NothingToDisclose(c: Codec, ds: seq<string>)
    ensures Resolve(c, [], ds).Ok? <==> ds == []
  {
    if BuildTable(c, ds).Ok? { EmptyResolves(StartState(BuildTable(c, ds).value)); }
    hide ResolveObject;
  }

  lemma EmptyResolves(st: State)
    ensures ResolveObject([], st) == Ok(([], st))
  {
    assert Get([], SD) == None && SwapRemove([], SD) == [];
    assert ResolveFields([], st) == Ok(([], st)) && ResolveDigests([], [], st) == Ok(([], st));
  }

  // ----- What is read as what -----

  /** What a disclosure is written as. */
  function DisclosureValue(salt: string, d: Disclosure): Value {
    match d.name
    case Some(name) => Arr([Str(salt), Str(name), d.value])
    case None => Arr([Str(salt), d.value])
  }

  /** A disclosure is read exactly from what it is written as, under any salt; the two names that
      mark digests are refused. */
  lemma DisclosureReadExactly(c: Codec, encoded: string, d: Disclosure)
    ensures Parse(c, encoded) == Ok(d)
       <==> (exists salt :: c.decode(encoded) == Some(DisclosureValue(salt, d))) && d.name != Some("_sd") && d.name != Some("...")
    ensures Parse(c, encoded).Err? ==> Parse(c, encoded) == Err(BadDisclosure)
  {
    match c.decode(encoded)
    case Some(Arr(items)) =>
      if |items| == 2 && items[0].Str? {
        assert items == [items[0], items[1]];
        assert d == Disclosure(None, items[1]) ==> Arr(items) == DisclosureValue(items[0].s, d);
      }
      if |items| == 3 && items[0].Str? && items[1].Str? {
        assert items == [items[0], items[1], items[2]];
        assert d == Disclosure(Some(items[1].s), items[2]) ==> Arr(items) == DisclosureValue(items[0].s, d);
      }
    case _ =>
  }

  /** An array element is a placeholder exactly when it is an object of the one field `...`. */
  lemma PlaceholderExactly(v: Value)
    ensures Placeholder(v).Some? <==> v.Obj? && exists w :: v.fields == [Field("...", w)]
    ensures forall d :: Placeholder(v) == Some(Some(d)) <==> v == Obj([Field("...", Str(d))])
  {
    if v.Obj? && |v.fields| == 1 {
      assert v.fields == [Field(v.fields[0].key, v.fields[0].value)];
    }
  }

  /** A payload that names any digest algorithm but SHA-256 is refused. */
  lemma AlgorithmRefused(c: Codec, payload: Object, ds: seq<string>)
    ensures Get(payload, "_sd_alg") != None && Get(payload, "_sd_alg") != Some(Str("sha-256")) ==> Resolve(c, payload, ds) == Err(BadDisclosure)
    ensures Get(payload, "_sd_alg") == Some(Str("sha-256")) ==> AlgAccepted(payload)
  {
  }

  /** A digest under `_sd` is a text not met before, and what it discloses has a name the object
      does not have yet. */
  lemma ListedDigestExactly(m: Object, digests: seq<Value>, st: State)
    requires digests != [] && ResolveDigests(m, digests, st).Ok?
    ensures digests[0].Str? && digests[0].s !in st.seen
    ensures digests[0].s in st.table ==>
              var d := st.table[digests[0].s]; d.name.Some? && forall f | f in m :: f.key != d.name.value
  {
    hide ResolveValue, Insert;
    if digests[0].s in st.table && st.table[digests[0].s].name.Some? {
      forall f | f in m ensures f.key != st.table[digests[0].s].name.value { HasField(m, f); }
    }
  }

  /** The digest of a placeholder is a text not met before, and what it discloses has no name;
      without a disclosure the element goes. */
  lemma PlacedDigestExactly(w: Value, st: State)
    requires ResolveElement(Obj([Field("...", w)]), st).Ok?
    ensures w.Str? && w.s !in st.seen
    ensures w.s in st.table ==> st.table[w.s].name.None?
    ensures w.s !in st.table ==> ResolveElement(Obj([Field("...", w)]), st).value.0 == []
  {
    hide ResolveValue;
  }

  // ----- There is one error -----

  lemma {:induction false} ValueRefused(v: Value, st: State)
    ensures ResolveValue(v, st).Err? ==> ResolveValue(v, st) == Err(BadDisclosure)
    decreases st.table.Keys, Size(v), 1
  {
    match v
    case Obj(m) => ObjectRefused(m, st);
    case Arr(items) => ItemsRefused(items, st);
    case _ =>
  }

  lemma {:induction false} ObjectRefused(m: Object, st: State)
    ensures ResolveObject(m, st).Err? ==> ResolveObject(m, st) == Err(BadDisclosure)
    decreases st.table.Keys, FieldsSize(m) + 1, 0
  {
    if SdDigests(m).Ok? {
      SdDigestsSize(m);
      FieldsRefused(SwapRemove(m, SD), st);
      if ResolveFields(SwapRemove(m, SD), st).Ok? {
        var (fields, st1) := ResolveFields(SwapRemove(m, SD), st).value;
        DigestsRefused(fields, SdDigests(m).value, st1);
      }
    }
    hide ResolveFields, ResolveDigests;
  }

  lemma {:induction false} FieldsRefused(m: Object, st: State)
    ensures ResolveFields(m, st).Err? ==> ResolveFields(m, st) == Err(BadDisclosure)
    decreases st.table.Keys, FieldsSize(m), 0
  {
    if m != [] {
      ValueRefused(m[0].value, st);
      if ResolveValue(m[0].value, st).Ok? { FieldsRefused(m[1..], ResolveValue(m[0].value, st).value.1); }
      hide ResolveValue;
    }
  }

  lemma {:induction false} DigestsRefused(m: Object, digests: seq<Value>, st: State)
    ensures ResolveDigests(m, digests, st).Err? ==> ResolveDigests(m, digests, st) == Err(BadDisclosure)
    decreases st.table.Keys, |digests|, 0
  {
    if digests != [] && digests[0].Str? && Take(st, digests[0].s).Ok? {
      var (found, st1) := Take(st, digests[0].s).value;
      if found.None? {
        DigestsRefused(m, digests[1..], st1);
      } else if found.value.name.Some? {
        ValueRefused(found.value.value, st1);
        if ResolveValue(found.value.value, st1).Ok? {
          var (value, st2) := ResolveValue(found.value.value, st1).value;
          DigestsRefused(Insert(m, found.value.name.value, value), digests[1..], st2);
        }
      }
      hide ResolveValue, Insert;
    }
  }

  lemma {:induction false} ItemsRefused(items: seq<Value>, st: State)
    ensures ResolveItems(items, st).Err? ==> ResolveItems(items, st) == Err(BadDisclosure)
    decreases st.table.Keys, ItemsSize(items), 0
  {
    if items != [] {
      ElementRefused(items[0], st);
      if ResolveElement(items[0], st).Ok? { ItemsRefused(items[1..], ResolveElement(items[0], st).value.1); }
      hide ResolveElement;
    }
  }

  lemma {:induction false} ElementRefused(element: Value, st: State)
    ensures ResolveElement(element, st).Err? ==> ResolveElement(element, st) == Err(BadDisclosure)
    decreases st.table.Keys, Size(element), 2
  {
    match Placeholder(element)
    case None => ValueRefused(element, st);
    case Some(None) =>
    case Some(Some(d)) =>
      if Take(st, d).Ok? && Take(st, d).value.0.Some? {
        ValueRefused(Take(st, d).value.0.value.value, Take(st, d).value.1);
      }
      hide ResolveValue;
  }

  lemma {:induction false} TableRefused(c: Codec, ds: seq<string>, table: Table)
    ensures BuildTable(c, ds, table).Err? ==> BuildTable(c, ds, table) == Err(BadDisclosure)
  {
    if ds != [] {
      DisclosureReadExactly(c, ds[0], Disclosure(None, Null));
      if Parse(c, ds[0]).Ok? { TableRefused(c, ds[1..], table[c.digest(ds[0]) := Parse(c, ds[0]).value]); }
    }
  }

  /** Whatever is wrong with the disclosures of a payload, the error is a bad disclosure. */
  lemma ResolutionRefused(c: Codec, payload: Object, ds: seq<string>)
    ensures Resolve(c, payload, ds).Err? ==> Resolve(c, payload, ds) == Err(BadDisclosure)
  {
    TableRefused(c, ds, map[]);
    if BuildTable(c, ds).Ok? { ObjectRefused(SwapRemove(payload, SD_ALG_KEY), StartState(BuildTable(c, ds).value)); }
    hide ResolveObject, BuildTable;
  }
}
