/** Builder and resolver undo each other. */
module RoundTrip {
  import opened Results
  import opened Json
  import opened Codec
  import opened SdJwt
  import opened Resolution
  import opened Builder

  // ----- Values resolution leaves alone -----

  /** No `_sd` key and no placeholder element at any depth. */
  predicate Inert(v: Value) {
    match v
    case Arr(items) => forall x | x in items :: Placeholder(x).None? && Inert(x)
    case Obj(m) => Distinct(m) && forall f | f in m :: f.key != SD && Inert(f.value)
    case _ => true
  }

  lemma {:induction false} InertValue(v: Value, st: State)
    requires Inert(v)
    ensures ResolveValue(v, st) == Ok((v, st))
    decreases Size(v), 1
  {
    match v
    case Obj(m) =>
      GetAbsent(m, SD);
      InertFields(m, st);
      assert ResolveObject(m, st) == Ok((m, st));
    case Arr(items) => InertItems(items, st);
    case _ =>
  }

  lemma {:induction false} InertFields(m: Object, st: State)
    requires forall f | f in m :: Inert(f.value)
    ensures ResolveFields(m, st) == Ok((m, st))
    decreases FieldsSize(m), 0
  {
    if m != [] {
      InertValue(m[0].value, st);
      InertFields(m[1..], st);
      assert [Field(m[0].key, m[0].value)] + m[1..] == m;
    }
  }

  lemma {:induction false} InertItems(items: seq<Value>, st: State)
    requires forall x | x in items :: Placeholder(x).None? && Inert(x)
    ensures ResolveItems(items, st) == Ok((items, st))
    decreases ItemsSize(items), 0
  {
    if items != [] {
      InertValue(items[0], st);
      InertItems(items[1..], st);
      assert [items[0]] + items[1..] == items;
    }
  }

  // ----- What the builder writes -----

  predicate WrittenWith(c: Codec, encoded: string, salt: string) {
    && Parse(c, encoded).Ok?
    && c.decode(encoded).value.items[0] == Str(salt)
  }

  /** Each disclosure so far used its own salt, in order. */
  ghost predicate Salted(c: Codec, b: Built, salts: seq<string>) {
    && |b.disclosures| <= |salts| && b.salts == salts[|b.disclosures|..]
    && forall i | 0 <= i < |b.disclosures| :: WrittenWith(c, b.disclosures[i], salts[i])
  }

  predicate GoodParts(parts: seq<Value>) {
    && (|parts| == 1 || (|parts| == 2 && parts[0].Str? && parts[0].s != SD && parts[0].s != ELLIPSIS))
    && forall p | p in parts :: WellFormed(p) && Fits(p, READABLE_DEPTH - 1)
  }

  function PartsDisclosure(parts: seq<Value>): Disclosure
    requires GoodParts(parts)
  {
    if |parts| == 1 then Disclosure(None, parts[0]) else Disclosure(Some(parts[0].s), parts[1])
  }

  /** `b'` continues `b`, after `n` pushes when that is known. */
  predicate Continued(b: Built, b': Built) {
    |b.disclosures| <= |b'.disclosures| && b'.disclosures[..|b.disclosures|] == b.disclosures
  }

  lemma PushWrites(c: Codec, b: Built, parts: seq<Value>, salts: seq<string>)
    requires JsonSound(c) && GoodParts(parts) && Salted(c, b, salts) && Push(c, b, parts).Ok?
    ensures var b' := Push(c, b, parts).value.1;
            && Salted(c, b', salts) && Continued(b, b') && |b'.disclosures| == |b.disclosures| + 1
            && Parse(c, b'.disclosures[|b.disclosures|]) == Ok(PartsDisclosure(parts))
            && Push(c, b, parts).value.0 == c.digest(b'.disclosures[|b.disclosures|])
  {
    var items := [Str(b.salts[0])] + parts;
    var n := |b.disclosures|;
    assert b.salts[0] == salts[n];
    forall x | x in items ensures WellFormed(x) && Fits(x, READABLE_DEPTH - 1) {
      if x != items[0] { assert x in parts; }
    }
    assert Fits(Arr(items), READABLE_DEPTH);
    assert c.decode(c.encode(Arr(items))) == Some(Arr(items));
    assert items[1] == parts[0] && (|parts| == 2 ==> items[2] == parts[1]);
    assert WrittenWith(c, c.encode(Arr(items)), salts[n]);
    assert salts[n..][1..] == salts[n + 1..];
  }

  /** An item whose values can still be nested in a disclosure and read back. */
  predicate GoodItem(item: Object) {
    && Distinct(item)
    && forall f | f in item :: f.key != SD && WellFormed(f.value) && Fits(f.value, READABLE_DEPTH - 2)
  }

  predicate GoodElements(elements: seq<Value>) {
    forall x | x in elements :: WellFormed(x) && Fits(x, READABLE_DEPTH - 1)
  }

  lemma {:induction false} HideElementsWrites(c: Codec, elements: seq<Value>, b: Built, salts: seq<string>)
    requires JsonSound(c) && GoodElements(elements) && Salted(c, b, salts) && HideElements(c, elements, b).Ok?
    ensures var (hidden, b') := HideElements(c, elements, b).value;
            Salted(c, b', salts) && Continued(b, b') && (forall x | x in hidden :: WellFormed(x) && Fits(x, 1))
  {
    if elements != [] {
      var (d, b1) := Push(c, b, [elements[0]]).value;
      PushWrites(c, b, [elements[0]], salts);
      HideElementsWrites(c, elements[1..], b1, salts);
      assert Fits(PlaceholderFor(d), 1) && WellFormed(PlaceholderFor(d));
    }
  }

  lemma ReplaceField(item: Object, key: string, value: Value)
    requires GoodItem(item) && key != SD && WellFormed(value) && Fits(value, READABLE_DEPTH - 2)
    ensures GoodItem(SwapRemove(item, key))
    ensures GoodItem(Insert(SwapRemove(item, key), key, value))
    ensures forall k :: Get(Insert(SwapRemove(item, key), key, value), k) == if k == key then Some(value) else Get(item, k)
    ensures forall f | f in Insert(SwapRemove(item, key), key, value) :: f == Field(key, value) || (f in item && f.key != key)
  {
    SwapRemoveEffect(item, key);
    InsertEffect(SwapRemove(item, key), key, value);
  }

  lemma {:induction false} HideArraysWrites(c: Codec, item: Object, keys: seq<string>, b: Built, salts: seq<string>)
    requires JsonSound(c) && GoodItem(item) && Salted(c, b, salts) && HideArrays(c, item, keys, b).Ok?
    ensures var (item', b') := HideArrays(c, item, keys, b).value;
            GoodItem(item') && Salted(c, b', salts) && Continued(b, b')
    decreases |keys|
  {
    if keys != [] {
      var elements := Get(item, keys[0]).value.items;
      var (hidden, b1) := HideElements(c, elements, b).value;
      ItemElements(item, keys[0]);
      HideElementsWrites(c, elements, b, salts);
      HiddenArrayFits(hidden);
      ReplaceField(item, keys[0], Arr(hidden));
      HideArraysWrites(c, Insert(SwapRemove(item, keys[0]), keys[0], Arr(hidden)), keys[1..], b1, salts);
    }
  }

  lemma HiddenArrayFits(hidden: seq<Value>)
    requires forall x | x in hidden :: WellFormed(x) && Fits(x, 1)
    ensures WellFormed(Arr(hidden)) && Fits(Arr(hidden), READABLE_DEPTH - 2)
  {
    forall x | x in hidden ensures Fits(x, READABLE_DEPTH - 3) { FitsMore(x, 1, READABLE_DEPTH - 3); }
  }

  lemma ItemElements(item: Object, key: string)
    requires GoodItem(item) && Get(item, key).Some? && Get(item, key).value.Arr?
    ensures key != SD && GoodElements(Get(item, key).value.items)
  {
    var f := item[Find(item, key)];
    assert f in item;
    forall x | x in f.value.items ensures Fits(x, READABLE_DEPTH - 1) { FitsMore(x, READABLE_DEPTH - 3, READABLE_DEPTH - 1); }
  }

  lemma FieldParts(item: Object, key: string)
    requires GoodItem(item) && Get(item, key).Some? && key != ELLIPSIS
    ensures GoodParts([Str(key), Get(item, key).value])
  {
    var f := item[Find(item, key)];
    assert f in item;
    FitsMore(f.value, READABLE_DEPTH - 2, READABLE_DEPTH - 1);
  }

  lemma {:induction false} HideFieldsWrites(c: Codec, item: Object, keys: seq<string>, b: Built, salts: seq<string>)
    requires JsonSound(c) && GoodItem(item) && Salted(c, b, salts) && HideFields(c, item, keys, b).Ok?
    requires ELLIPSIS !in keys
    ensures var (item', digests, b') := HideFields(c, item, keys, b).value;
            GoodItem(item') && Salted(c, b', salts) && Continued(b, b')
    decreases |keys|
  {
    if keys != [] {
      var value := Get(item, keys[0]).value;
      var b1 := Push(c, b, [Str(keys[0]), value]).value.1;
      FieldParts(item, keys[0]);
      PushWrites(c, b, [Str(keys[0]), value], salts);
      SwapRemoveEffect(item, keys[0]);
      HideFieldsWrites(c, SwapRemove(item, keys[0]), keys[1..], b1, salts);
    }
  }

  lemma WithSdParts(item: Object, digests: seq<string>)
    requires GoodItem(item)
    ensures GoodParts([Obj(WithSd(item, digests))])
  {
    var sds := Arr(Strs(Sorted(digests)));
    assert forall x | x in sds.items :: WellFormed(x) && Fits(x, READABLE_DEPTH - 3);
    var whole := WithSd(item, digests);
    InsertEffect(item, SD, sds);
    forall f | f in whole ensures WellFormed(f.value) && Fits(f.value, READABLE_DEPTH - 2) {
      assert f in item || f == Field(SD, sds);
    }
  }

  /** Every disclosure of a built payload parses and carries its own salt. */
  lemma DelegateWrites(c: Codec, mandate: Object, sd: Disclosable, salts: seq<string>)
    requires JsonSound(c) && GoodItem(mandate) && ELLIPSIS !in sd.fields
    requires DelegatePayload(c, mandate, sd, Built([], salts)).Ok?
    ensures Salted(c, DelegatePayload(c, mandate, sd, Built([], salts)).value.1, salts)
  {
    var b := Built([], salts);
    var (item, b1) := HideArrays(c, mandate, sd.arrayElements, b).value;
    HideArraysWrites(c, mandate, sd.arrayElements, b, salts);
    var (item', digests, b2) := HideFields(c, item, sd.fields, b1).value;
    HideFieldsWrites(c, item, sd.fields, b1, salts);
    WithSdParts(item', digests);
    PushWrites(c, b2, [Obj(WithSd(item', digests))], salts);
  }

  predicate DistinctTexts(s: seq<string>) {
    forall i, j | 0 <= i < j < |s| :: s[i] != s[j]
  }

  /** Distinct salts make distinct disclosures, and under a sound digest distinct digests. */
  lemma WrittenDisclosuresDiffer(c: Codec, b: Built, salts: seq<string>)
    requires Salted(c, b, salts) && DistinctTexts(salts)
    ensures DistinctTexts(b.disclosures)
    ensures DigestSound(c) ==> DistinctDigests(c, b.disclosures, |b.disclosures|)
  {
    forall i, j | 0 <= i < j < |b.disclosures| ensures b.disclosures[i] != b.disclosures[j] {
      assert WrittenWith(c, b.disclosures[i], salts[i]) && WrittenWith(c, b.disclosures[j], salts[j]);
    }
  }

  lemma {:induction false} TableBuilds(c: Codec, ds: seq<string>, n: nat, t: Table)
    requires DigestSound(c) && DistinctTexts(ds) && n <= |ds| && HoldsUpTo(c, ds, n, t)
    requires forall i | 0 <= i < |ds| :: Parse(c, ds[i]).Ok?
    ensures BuildTable(c, ds[n..], t).Ok?
    decreases |ds| - n
  {
    if n < |ds| {
      assert ds[n..][0] == ds[n] && ds[n..][1..] == ds[n + 1..];
      var d := c.digest(ds[n]);
      forall i | 0 <= i < n ensures c.digest(ds[i]) != d {
        assert ds[i] != ds[n];
      }
      assert d !in t by { assert !DigestOfOne(c, ds, n, d); }
      TableOneMore(c, ds, n, t, Parse(c, ds[n]).value);
      TableBuilds(c, ds, n + 1, t[d := Parse(c, ds[n]).value]);
    }
  }

  // ----- Spending -----

  /** None of `ds` was looked up yet, and each is there under what `t` says. */
  ghost predicate Ready(st: State, ds: set<string>, t: Table) {
    ds !! st.seen && forall d | d in ds :: d in t && d in st.table && st.table[d] == t[d]
  }

  ghost function Spend(st: State, ds: set<string>): State {
    State(st.table - ds, st.seen + ds, st.used + |ds|, st.withheld)
  }

  lemma SpendNothing(st: State)
    ensures Spend(st, {}) == st
  {
    assert st.table - {} == st.table;
  }

  lemma SpendInStages(st: State, a: set<string>, b: set<string>, t: Table)
    requires a !! b && Ready(st, a + b, t)
    ensures Ready(st, a, t) && Ready(Spend(st, a), b, t)
    ensures Spend(Spend(st, a), b) == Spend(st, a + b)
  {
    assert st.seen + a + b == st.seen + (a + b);
    RemoveInStages(st.table, a, b);
  }

  lemma TakeSpends(st: State, d: string, t: Table)
    requires Ready(st, {d}, t)
    ensures Take(st, d) == Ok((Some(t[d]), Spend(st, {d})))
  {
    assert d in {d};
  }

  /** In every state that holds `ds`, `hidden` resolves to `original` and spends `ds`. */
  ghost predicate Restores(hidden: Value, original: Value, ds: set<string>, t: Table) {
    forall st | Ready(st, ds, t) :: ResolveValue(hidden, st) == Ok((original, Spend(st, ds)))
  }

  lemma InertRestores(v: Value, t: Table)
    requires Inert(v)
    ensures Restores(v, v, {}, t)
  {
    forall st | Ready(st, {}, t) ensures ResolveValue(v, st) == Ok((v, Spend(st, {}))) {
      InertValue(v, st);
      SpendNothing(st);
    }
  }

  // ----- Where the digests of the final list are -----

  function Range(c: Codec, final: seq<string>, lo: nat, hi: nat): set<string>
    requires lo <= hi <= |final|
  {
    set i | lo <= i < hi :: c.digest(final[i])
  }

  lemma RangeSplits(c: Codec, final: seq<string>, lo: nat, mid: nat, hi: nat)
    requires lo <= mid <= hi <= |final| && DigestSound(c) && DistinctTexts(final)
    ensures Range(c, final, lo, hi) == Range(c, final, lo, mid) + Range(c, final, mid, hi)
    ensures Range(c, final, lo, mid) !! Range(c, final, mid, hi)
  {
    forall i, j | lo <= i < mid && mid <= j < hi ensures c.digest(final[i]) != c.digest(final[j]) {
      assert final[i] != final[j];
    }
  }

  lemma RangeOne(c: Codec, final: seq<string>, n: nat)
    requires n < |final|
    ensures Range(c, final, n, n + 1) == {c.digest(final[n])}
  {
    assert c.digest(final[n]) in Range(c, final, n, n + 1);
  }

  /** The whole disclosure list, and a table that holds it. */
  ghost predicate Final(c: Codec, final: seq<string>, t: Table) {
    DigestSound(c) && JsonSound(c) && DistinctTexts(final) && AllHold(c, final, t)
  }

  /** What one push put on the list is in the table. */
  lemma PushedIsHeld(c: Codec, b: Built, parts: seq<Value>, final: seq<string>, t: Table, salts: seq<string>)
    requires Final(c, final, t) && GoodParts(parts) && Salted(c, b, salts) && Push(c, b, parts).Ok?
    requires Push(c, b, parts).value.1.disclosures <= final
    ensures var d := Push(c, b, parts).value.0;
            d in t && t[d] == PartsDisclosure(parts) && d == c.digest(final[|b.disclosures|])
  {
    PushWrites(c, b, parts, salts);
    var b' := Push(c, b, parts).value.1;
    var n := |b.disclosures|;
    assert final[n] == b'.disclosures[n];
    assert Holds(c, final[n], t);
  }

  predicate AllInert(elements: seq<Value>) {
    forall x | x in elements :: Inert(x)
  }

  function Placeholders(ds: seq<string>): seq<Value> {
    if ds == [] then [] else [PlaceholderFor(ds[0])] + Placeholders(ds[1..])
  }

  function TextSet(ds: seq<string>): set<string> {
    set d | d in ds
  }

  /** In `t`, the digests `ds` open to the elements, one each. */
  ghost predicate OpenTo(ds: seq<string>, elements: seq<Value>, t: Table) {
    |ds| == |elements| && forall i | 0 <= i < |ds| :: ds[i] in t && t[ds[i]] == Disclosure(None, elements[i])
  }

  lemma PlaceholderResolves(d: string, original: Value, t: Table, st: State)
    requires Ready(st, {d}, t) && t[d] == Disclosure(None, original) && Inert(original)
    ensures ResolveElement(PlaceholderFor(d), st) == Ok(([original], Spend(st, {d})))
  {
    TakeSpends(st, d, t);
    InertValue(original, Spend(st, {d}));
  }

  lemma {:induction false} PlaceholdersResolve(ds: seq<string>, elements: seq<Value>, t: Table, st: State)
    requires OpenTo(ds, elements, t) && AllInert(elements) && DistinctTexts(ds) && Ready(st, TextSet(ds), t)
    ensures ResolveItems(Placeholders(ds), st) == Ok((elements, Spend(st, TextSet(ds))))
  {
    if ds == [] {
      SpendNothing(st);
    } else {
      var d, rest := ds[0], ds[1..];
      HeadApart(ds);
      OpenToTail(ds, elements, t);
      hide OpenTo, DistinctTexts, Spend, Inert, TextSet, PlaceholderFor;
      SpendInStages(st, {d}, TextSet(rest), t);
      PlaceholderResolves(d, elements[0], t, st);
      PlaceholdersResolve(rest, elements[1..], t, Spend(st, {d}));
      ItemsPrepend(PlaceholderFor(d), Placeholders(rest), st, elements, Spend(st, {d}), Spend(st, TextSet(ds)));
    }
  }

  lemma OpenToTail(ds: seq<string>, elements: seq<Value>, t: Table)
    requires OpenTo(ds, elements, t) && ds != []
    ensures elements != [] && ds[0] in t && t[ds[0]] == Disclosure(None, elements[0]) && OpenTo(ds[1..], elements[1..], t)
  {
    assert forall i | 0 <= i < |ds| - 1 :: ds[1..][i] == ds[i + 1] && elements[1..][i] == elements[i + 1];
  }

  lemma HeadApart(ds: seq<string>)
    requires ds != [] && DistinctTexts(ds)
    ensures TextSet(ds) == {ds[0]} + TextSet(ds[1..]) && ds[0] !in ds[1..] && DistinctTexts(ds[1..])
  {
    assert forall i | 0 <= i < |ds| - 1 :: ds[1..][i] == ds[i + 1] != ds[0];
    assert ds == [ds[0]] + ds[1..];
  }

  lemma ItemsPrepend(element: Value, rest: seq<Value>, st: State, elements: seq<Value>, st1: State, st2: State)
    requires elements != [] && ResolveElement(element, st) == Ok(([elements[0]], st1))
    requires ResolveItems(rest, st1) == Ok((elements[1..], st2))
    ensures ResolveItems([element] + rest, st) == Ok((elements, st2))
  {
    assert ([element] + rest)[1..] == rest;
    assert [elements[0]] + elements[1..] == elements;
  }

  /** The digests of positions `lo` up to `hi`, in order. */
  function Digests(c: Codec, final: seq<string>, lo: nat, hi: nat): (ds: seq<string>)
    requires lo <= hi <= |final|
    ensures |ds| == hi - lo && forall i | 0 <= i < |ds| :: ds[i] == c.digest(final[lo + i])
  {
    seq(hi - lo, i requires 0 <= i < hi - lo => c.digest(final[lo + i]))
  }

  lemma DigestsOfRange(c: Codec, final: seq<string>, lo: nat, hi: nat)
    requires lo <= hi <= |final| && DigestSound(c) && DistinctTexts(final)
    ensures TextSet(Digests(c, final, lo, hi)) == Range(c, final, lo, hi)
    ensures DistinctTexts(Digests(c, final, lo, hi))
  {
    var ds := Digests(c, final, lo, hi);
    forall d | d in Range(c, final, lo, hi) ensures d in ds {
      var i :| lo <= i < hi && d == c.digest(final[i]);
      assert ds[i - lo] == d;
    }
    forall i, j | 0 <= i < j < |ds| ensures ds[i] != ds[j] {
      assert final[lo + i] != final[lo + j];
    }
  }

  lemma {:induction false} ElementsAreHeld(c: Codec, elements: seq<Value>, b: Built, final: seq<string>, t: Table,
                                           salts: seq<string>)
    requires Final(c, final, t) && GoodElements(elements) && Salted(c, b, salts)
    requires HideElements(c, elements, b).Ok? && HideElements(c, elements, b).value.1.disclosures <= final
    ensures var (hidden, b') := HideElements(c, elements, b).value;
            var (lo, hi) := (|b.disclosures|, |b'.disclosures|);
            && lo <= hi <= |final|
            && hidden == Placeholders(Digests(c, final, lo, hi)) && OpenTo(Digests(c, final, lo, hi), elements, t)
  {
    if elements != [] {
      var lo := |b.disclosures|;
      var (d, b1) := Push(c, b, [elements[0]]).value;
      var (rest, b') := HideElements(c, elements[1..], b1).value;
      var hi := |b'.disclosures|;
      PushWrites(c, b, [elements[0]], salts);
      HideElementsWrites(c, elements[1..], b1, salts);
      assert b1.disclosures == b'.disclosures[..lo + 1];
      PushedIsHeld(c, b, [elements[0]], final, t, salts);
      hide Salted, Final, GoodElements, OpenTo, Placeholders, Digests, PlaceholderFor, Push;
      ElementsAreHeld(c, elements[1..], b1, final, t, salts);
      HeldCons(c, final, lo, hi, d, elements, t);
    }
  }

  lemma HeldCons(c: Codec, final: seq<string>, lo: nat, hi: nat, d: string, elements: seq<Value>, t: Table)
    requires lo < hi <= |final| && elements != [] && d == c.digest(final[lo]) && d in t && t[d] == Disclosure(None, elements[0])
    requires OpenTo(Digests(c, final, lo + 1, hi), elements[1..], t)
    ensures OpenTo(Digests(c, final, lo, hi), elements, t)
    ensures Placeholders(Digests(c, final, lo, hi)) == [PlaceholderFor(d)] + Placeholders(Digests(c, final, lo + 1, hi))
  {
    hide Placeholders, PlaceholderFor, OpenTo;
    assert Digests(c, final, lo, hi) == [d] + Digests(c, final, lo + 1, hi);
    OpenToMore(d, Digests(c, final, lo + 1, hi), elements, t);
  }

  lemma OpenToMore(d: string, rest: seq<string>, elements: seq<Value>, t: Table)
    requires elements != [] && OpenTo(rest, elements[1..], t) && d in t && t[d] == Disclosure(None, elements[0])
    ensures OpenTo([d] + rest, elements, t) && Placeholders([d] + rest) == [PlaceholderFor(d)] + Placeholders(rest)
  {
    assert ([d] + rest)[1..] == rest;
    forall i | 0 < i < |elements| ensures ([d] + rest)[i] == rest[i - 1] && elements[1..][i - 1] == elements[i] {
    }
  }

  lemma HiddenArrayRestores(c: Codec, elements: seq<Value>, b: Built, final: seq<string>, t: Table, salts: seq<string>)
    requires Final(c, final, t) && GoodElements(elements) && AllInert(elements) && Salted(c, b, salts)
    requires HideElements(c, elements, b).Ok? && HideElements(c, elements, b).value.1.disclosures <= final
    ensures var (hidden, b') := HideElements(c, elements, b).value;
            && |b.disclosures| <= |b'.disclosures| <= |final|
            && Restores(Arr(hidden), Arr(elements), Range(c, final, |b.disclosures|, |b'.disclosures|), t)
            && |hidden| == |elements| && AllInert(hidden)
            && (Range(c, final, |b.disclosures|, |b'.disclosures|) == {} <==> elements == [])
  {
    var (hidden, b') := HideElements(c, elements, b).value;
    ElementsAreHeld(c, elements, b, final, t, salts);
    var lo, hi := |b.disclosures|, |b'.disclosures|;
    DigestsOfRange(c, final, lo, hi);
    PlaceholdersAreInert(Digests(c, final, lo, hi));
    if lo < hi { assert c.digest(final[lo]) in Range(c, final, lo, hi); }
    PlaceholdersRestore(Digests(c, final, lo, hi), elements, t);
  }

  lemma PlaceholdersAreInert(ds: seq<string>)
    ensures |Placeholders(ds)| == |ds| && AllInert(Placeholders(ds))
  {
    if ds != [] { PlaceholdersAreInert(ds[1..]); }
  }

  lemma PlaceholdersRestore(ds: seq<string>, elements: seq<Value>, t: Table)
    requires OpenTo(ds, elements, t) && AllInert(elements) && DistinctTexts(ds)
    ensures Restores(Arr(Placeholders(ds)), Arr(elements), TextSet(ds), t)
  {
    forall st | Ready(st, TextSet(ds), t)
      ensures ResolveValue(Arr(Placeholders(ds)), st) == Ok((Arr(elements), Spend(st, TextSet(ds))))
    {
      PlaceholdersResolve(ds, elements, t, st);
    }
  }

  // ----- Objects, key by key -----

  type Plan = map<string, set<string>>

  /** Under each of its keys, `item` restores the value `original` has there. */
  ghost predicate Mirrors(item: Object, original: Object, plan: Plan, t: Table) {
    && Distinct(item)
    && forall f | f in item :: f.key in plan && Get(original, f.key).Some?
                               && Restores(f.value, Get(original, f.key).value, plan[f.key], t)
  }

  ghost predicate Separate(plan: Plan) {
    forall j, k | j in plan && k in plan && j != k :: plan[j] !! plan[k]
  }

  ghost predicate Covers(plan: Plan, ds: set<string>) {
    && (forall k | k in plan :: plan[k] <= ds)
    && (forall d | d in ds :: InPlan(plan, d))
  }

  ghost predicate InPlan(plan: Plan, d: string) {
    exists k :: k in plan && d in plan[k]
  }

  ghost function SpentByFields(item: Object, plan: Plan): set<string>
    requires forall f | f in item :: f.key in plan
  {
    if item == [] then {} else plan[item[0].key] + SpentByFields(item[1..], plan)
  }

  lemma {:induction false} SpentByFieldsHas(item: Object, plan: Plan, d: string)
    requires forall f | f in item :: f.key in plan
    ensures d in SpentByFields(item, plan) <==> exists f :: f in item && d in plan[f.key]
  {
    if item != [] {
      SpentByFieldsHas(item[1..], plan, d);
      assert item == [item[0]] + item[1..];
      if d in plan[item[0].key] { assert item[0] in item; }
    }
  }

  lemma {:induction false} SpentByFieldsApart(item: Object, plan: Plan, ds: set<string>)
    requires forall f | f in item :: f.key in plan && plan[f.key] !! ds
    ensures SpentByFields(item, plan) !! ds
  {
    if item != [] { SpentByFieldsApart(item[1..], plan, ds); }
  }

  function Restored(item: Object, original: Object): (m: Object)
    requires forall f | f in item :: Get(original, f.key).Some?
    ensures |m| == |item|
    ensures forall i | 0 <= i < |m| :: m[i] == Field(item[i].key, Get(original, item[i].key).value)
  {
    seq(|item|, i requires 0 <= i < |item| => assert item[i] in item; Field(item[i].key, Get(original, item[i].key).value))
  }

  lemma RestoresIn(hidden: Value, original: Value, ds: set<string>, t: Table, st: State)
    requires Restores(hidden, original, ds, t) && Ready(st, ds, t)
    ensures ResolveValue(hidden, st) == Ok((original, Spend(st, ds)))
  {
  }

  lemma MirrorsTail(item: Object, original: Object, plan: Plan, t: Table)
    requires Mirrors(item, original, plan, t) && Separate(plan) && item != []
    ensures var f, rest := item[0], item[1..];
            && f.key in plan && Get(original, f.key).Some? && Restores(f.value, Get(original, f.key).value, plan[f.key], t)
            && Mirrors(rest, original, plan, t)
            && forall g | g in rest :: g.key in plan && plan[g.key] !! plan[f.key]
  {
    hide Restores;
    var f, rest := item[0], item[1..];
    forall g | g in rest ensures g.key != f.key && g in item {
      var i :| 0 <= i < |rest| && rest[i] == g;
      assert item[i + 1] == g;
    }
  }

  lemma FieldsPrepend(item: Object, st: State, value: Value, st1: State, rest: Object, st2: State)
    requires item != [] && ResolveValue(item[0].value, st) == Ok((value, st1)) && ResolveFields(item[1..], st1) == Ok((rest, st2))
    ensures ResolveFields(item, st) == Ok(([Field(item[0].key, value)] + rest, st2))
  {
    hide ResolveValue;
  }

  lemma {:induction false} FieldsRestore(item: Object, original: Object, plan: Plan, t: Table, st: State)
    requires Mirrors(item, original, plan, t) && Separate(plan) && Ready(st, SpentByFields(item, plan), t)
    ensures ResolveFields(item, st) == Ok((Restored(item, original), Spend(st, SpentByFields(item, plan))))
  {
    if item == [] {
      SpendNothing(st);
    } else {
      var f, rest := item[0], item[1..];
      var here, there := plan[f.key], SpentByFields(rest, plan);
      MirrorsTail(item, original, plan, t);
      hide Restores, Ready, Spend, Get, Mirrors, Separate, ResolveFields, ResolveValue;
      SpentByFieldsApart(rest, plan, here);
      SpendInStages(st, here, there, t);
      RestoresIn(f.value, Get(original, f.key).value, here, t, st);
      FieldsRestore(rest, original, plan, t, Spend(st, here));
      FieldsPrepend(item, st, Get(original, f.key).value, Spend(st, here), Restored(rest, original), Spend(Spend(st, here), there));
      assert Restored(item, original) == [Field(f.key, Get(original, f.key).value)] + Restored(rest, original);
    }
  }

  // ----- Hiding arrays -----

  predicate NonEmptyArray(item: Object, key: string) {
    Get(item, key).Some? && Get(item, key).value.Arr? && Get(item, key).value.items != []
  }

  predicate ElementsInert(item: Object) {
    forall f | f in item && f.value.Arr? :: AllInert(f.value.items)
  }

  /** Under a key nothing was spent on, the item still holds what it restores. */
  ghost predicate Unspent(item: Object, shadow: Object, plan: Plan) {
    forall k | k in plan :: if plan[k] == {} then Get(item, k) == Get(shadow, k) else NonEmptyArray(item, k)
  }

  /** Part way through the arrays: the item restores `shadow`, spending the digests `kept`.
      An array hidden a second time restores to the placeholders of the first time, and the
      digests behind those are not kept. */
  ghost predicate ArraysReady(c: Codec, shadow: Object, item: Object, b: Built, final: seq<string>, t: Table,
                              salts: seq<string>, plan: Plan, kept: set<string>) {
    && GoodItem(item) && ElementsInert(item) && Salted(c, b, salts) && b.disclosures <= final
    && Distinct(shadow) && Mirrors(item, shadow, plan, t) && Separate(plan) && Covers(plan, kept)
    && kept <= Range(c, final, 0, |b.disclosures|)
    && Unspent(item, shadow, plan)
  }

  /** No array with elements is hidden again. */
  predicate Lossless(item: Object, keys: seq<string>, plan: Plan) {
    forall j | 0 <= j < |keys| && NonEmptyArray(item, keys[j]) ::
      keys[j] !in keys[..j] && (keys[j] in plan ==> plan[keys[j]] == {})
  }

  lemma {:induction false} ArraysRestore(c: Codec, shadow: Object, item: Object, keys: seq<string>, b: Built,
                                         final: seq<string>, t: Table, salts: seq<string>, plan: Plan, kept: set<string>)
    returns (shadow': Object, plan': Plan, kept': set<string>)
    requires Final(c, final, t) && ArraysReady(c, shadow, item, b, final, t, salts, plan, kept)
    requires HideArrays(c, item, keys, b).Ok? && HideArrays(c, item, keys, b).value.1.disclosures <= final
    ensures var (item', b') := HideArrays(c, item, keys, b).value;
            && ArraysReady(c, shadow', item', b', final, t, salts, plan', kept')
            && plan'.Keys == plan.Keys && SameKeys(item', item) && SameKeys(shadow', shadow)
            && (kept' == Range(c, final, 0, |b'.disclosures|)
                <==> kept == Range(c, final, 0, |b.disclosures|) && Lossless(item, keys, plan))
            && (Lossless(item, keys, plan) ==> SameFields(shadow', shadow))
    decreases |keys|
  {
    shadow', plan', kept' := shadow, plan, kept;
    if keys != [] {
      var elements := Get(item, keys[0]).value.items;
      var (hidden, b1) := HideElements(c, elements, b).value;
      var item1 := Insert(SwapRemove(item, keys[0]), keys[0], Arr(hidden));
      ArrayStepWrites(c, item, keys, b, final, salts);
      var shadow1, plan1, kept1 := ArrayStep(c, shadow, item, keys[0], elements, hidden, item1, b, b1, final, t, salts, plan, kept);
      LosslessStep(item, item1, keys, plan, plan1);
      shadow', plan', kept' := ArraysRestore(c, shadow1, item1, keys[1..], b1, final, t, salts, plan1, kept1);
    }
  }

  lemma LosslessStep(item: Object, item1: Object, keys: seq<string>, plan: Plan, plan1: Plan)
    requires keys != [] && keys[0] in plan && plan1.Keys == plan.Keys
    requires forall k :: NonEmptyArray(item1, k) <==> NonEmptyArray(item, k)
    requires forall k | k in plan && k != keys[0] :: plan1[k] == plan[k]
    requires plan1[keys[0]] != {} <==> NonEmptyArray(item, keys[0])
    requires plan[keys[0]] != {} ==> NonEmptyArray(item, keys[0])
    ensures Lossless(item, keys, plan) <==> plan[keys[0]] == {} && Lossless(item1, keys[1..], plan1)
  {
    var rest := keys[1..];
    assert keys == [keys[0]] + rest;
    forall j | 0 < j < |keys|
      ensures rest[j - 1] == keys[j] && (keys[j] in keys[..j] <==> keys[j] == keys[0] || keys[j] in rest[..j - 1])
    {
      assert keys[..j] == [keys[0]] + rest[..j - 1];
    }
    if Lossless(item, keys, plan) {
      if NonEmptyArray(item, keys[0]) { assert keys[0] !in keys[..0] && plan[keys[0]] == {}; }
      forall j | 0 <= j < |rest| && NonEmptyArray(item1, rest[j])
        ensures rest[j] !in rest[..j] && (rest[j] in plan1 ==> plan1[rest[j]] == {})
      {
        assert keys[j + 1] == rest[j];
      }
    }
    if plan[keys[0]] == {} && Lossless(item1, rest, plan1) {
      forall j | 0 <= j < |keys| && NonEmptyArray(item, keys[j])
        ensures keys[j] !in keys[..j] && (keys[j] in plan ==> plan[keys[j]] == {})
      {
        if j > 0 { assert rest[j - 1] == keys[j]; }
      }
    }
  }

  lemma ArrayStep(c: Codec, shadow: Object, item: Object, key: string, elements: seq<Value>, hidden: seq<Value>,
                  item1: Object,
                  b: Built, b1: Built, final: seq<string>, t: Table, salts: seq<string>, plan: Plan, kept: set<string>)
    returns (shadow1: Object, plan1: Plan, kept1: set<string>)
    requires Final(c, final, t) && ArraysReady(c, shadow, item, b, final, t, salts, plan, kept)
    requires Get(item, key) == Some(Arr(elements)) && HideElements(c, elements, b) == Ok((hidden, b1))
    requires item1 == Insert(SwapRemove(item, key), key, Arr(hidden)) && WellFormed(Arr(hidden)) && Fits(Arr(hidden), READABLE_DEPTH - 2)
    requires GoodItem(item1) && Salted(c, b1, salts) && |b.disclosures| <= |b1.disclosures| && b1.disclosures <= final
    ensures ArraysReady(c, shadow1, item1, b1, final, t, salts, plan1, kept1)
    ensures plan1.Keys == plan.Keys && key in plan && SameKeys(shadow1, shadow)
    ensures kept1 == Range(c, final, 0, |b1.disclosures|) <==> kept == Range(c, final, 0, |b.disclosures|) && plan[key] == {}
    ensures plan[key] == {} ==> SameFields(shadow1, shadow)
    ensures forall k :: NonEmptyArray(item1, k) <==> NonEmptyArray(item, k)
    ensures forall k | k in plan && k != key :: plan1[k] == plan[k]
    ensures plan1[key] != {} <==> NonEmptyArray(item, key)
    ensures plan[key] != {} ==> NonEmptyArray(item, key)
  {
    hide HideElements, GoodItem, Salted, Mirrors, Separate, Covers, Range, Restores, AllInert, GoodElements, Placeholders,
         WellFormed, Fits, ElementsInert, Unspent, Final, DigestSound, JsonSound, DistinctTexts;
    var before, now := |b.disclosures|, |b1.disclosures|;
    HasPlan(item, shadow, plan, t, key);
    FinalIsSound(c, final, t);
    ItemElements(item, key);
    ElementsOf(item, key);
    HiddenArrayRestores(c, elements, b, final, t, salts);
    var ds := Range(c, final, before, now);
    shadow1, plan1, kept1 := Insert(shadow, key, Arr(elements)), plan[key := ds], (kept - plan[key]) + ds;
    RangeSplits(c, final, 0, before, now);
    CoversOne(plan, kept, key);
    SpendAgain(plan, key, ds, kept);
    ShadowKeys(item, shadow, plan, t, key, Arr(elements));
    MirrorsReplaced(item, shadow, plan, t, key, Arr(hidden), Arr(elements), ds);
    KeptAll(kept, plan[key], ds, Range(c, final, 0, before));
    ArrayReplaced(item, shadow, plan, key, hidden, elements, ds);
  }

  lemma FinalIsSound(c: Codec, final: seq<string>, t: Table)
    requires Final(c, final, t)
    ensures DigestSound(c) && JsonSound(c) && DistinctTexts(final)
  {
  }

  lemma HasPlan(item: Object, shadow: Object, plan: Plan, t: Table, key: string)
    requires Mirrors(item, shadow, plan, t) && Get(item, key).Some?
    ensures key in plan
  {
    assert item[Find(item, key)] in item;
  }

  lemma ElementsOf(item: Object, key: string)
    requires ElementsInert(item) && Get(item, key).Some? && Get(item, key).value.Arr?
    ensures AllInert(Get(item, key).value.items)
  {
    assert item[Find(item, key)] in item;
  }

  lemma CoversOne(plan: Plan, kept: set<string>, key: string)
    requires Covers(plan, kept) && key in plan
    ensures plan[key] <= kept
  {
  }

  /** What replacing one array by as many placeholders keeps. */
  lemma ArrayReplaced(item: Object, shadow: Object, plan: Plan, key: string, hidden: seq<Value>,
                      elements: seq<Value>, ds: set<string>)
    requires GoodItem(item) && Distinct(shadow) && ElementsInert(item) && Unspent(item, shadow, plan) && key in plan && key != SD
    requires Get(item, key) == Some(Arr(elements)) && |hidden| == |elements| && AllInert(hidden) && (ds == {} <==> elements == [])
    requires WellFormed(Arr(hidden)) && Fits(Arr(hidden), READABLE_DEPTH - 2)
    ensures var item1, shadow1 := Insert(SwapRemove(item, key), key, Arr(hidden)), Insert(shadow, key, Arr(elements));
            && ElementsInert(item1) && Unspent(item1, shadow1, plan[key := ds])
            && (plan[key] == {} ==> SameFields(shadow1, shadow))
            && (forall k :: NonEmptyArray(item1, k) <==> NonEmptyArray(item, k))
            && (plan[key] != {} ==> NonEmptyArray(item, key))
  {
    var item1, shadow1 := Insert(SwapRemove(item, key), key, Arr(hidden)), Insert(shadow, key, Arr(elements));
    ReplaceField(item, key, Arr(hidden));
    InsertEffect(shadow, key, Arr(elements));
    hide Get, Insert, SwapRemove, WellFormed, Fits, Inert, AllInert, GoodItem;
    assert plan[key] != {} ==> NonEmptyArray(item, key);
    UnspentReplaced(item, item1, shadow, shadow1, plan, key, hidden, elements, ds);
  }

  /** The item and its shadow change under one key only. */
  lemma UnspentReplaced(item: Object, item1: Object, shadow: Object, shadow1: Object, plan: Plan, key: string,
                        hidden: seq<Value>, elements: seq<Value>, ds: set<string>)
    requires Unspent(item, shadow, plan) && key in plan
    requires Get(item, key) == Some(Arr(elements)) && |hidden| == |elements| && (ds == {} <==> elements == [])
    requires forall k :: Get(item1, k) == if k == key then Some(Arr(hidden)) else Get(item, k)
    requires forall k :: Get(shadow1, k) == if k == key then Some(Arr(elements)) else Get(shadow, k)
    ensures Unspent(item1, shadow1, plan[key := ds])
    ensures plan[key] == {} ==> SameFields(shadow1, shadow)
    ensures forall k :: NonEmptyArray(item1, k) <==> NonEmptyArray(item, k)
  {
    hide Get;
    if elements == [] { assert hidden == elements; }
    forall k ensures NonEmptyArray(item1, k) <==> NonEmptyArray(item, k) {
      assert Get(item1, k) == if k == key then Some(Arr(hidden)) else Get(item, k);
    }
  }

  lemma KeptAll(kept: set<string>, gone: set<string>, ds: set<string>, before: set<string>)
    requires kept <= before && gone <= kept && ds !! before
    ensures (kept - gone) + ds == before + ds <==> kept == before && gone == {}
  {
    if (kept - gone) + ds == before + ds {
      forall x | x in before ensures x in kept && x !in gone {
        assert x in before + ds;
      }
    }
  }

  lemma ShadowKeys(item: Object, shadow: Object, plan: Plan, t: Table, key: string, value: Value)
    requires Distinct(shadow) && Mirrors(item, shadow, plan, t) && Has(item, key)
    ensures SameKeys(Insert(shadow, key, value), shadow)
  {
    InsertEffect(shadow, key, value);
    assert item[Find(item, key)] in item;
    forall k ensures Has(Insert(shadow, key, value), k) <==> Has(shadow, k) {
      assert Get(Insert(shadow, key, value), k).Some? <==> Get(shadow, k).Some?;
    }
  }

  lemma ArrayStepWrites(c: Codec, item: Object, keys: seq<string>, b: Built, final: seq<string>, salts: seq<string>)
    requires JsonSound(c) && keys != [] && GoodItem(item) && Salted(c, b, salts)
    requires HideArrays(c, item, keys, b).Ok? && HideArrays(c, item, keys, b).value.1.disclosures <= final
    ensures var (hidden, b1) := HideElements(c, Get(item, keys[0]).value.items, b).value;
            var item1 := Insert(SwapRemove(item, keys[0]), keys[0], Arr(hidden));
            && GoodItem(item1) && SameKeys(item1, item) && Salted(c, b1, salts) && b1.disclosures <= final
            && |b.disclosures| <= |b1.disclosures| && WellFormed(Arr(hidden)) && Fits(Arr(hidden), READABLE_DEPTH - 2)
  {
    var key := keys[0];
    var elements := Get(item, key).value.items;
    var (hidden, b1) := HideElements(c, elements, b).value;
    var item1 := Insert(SwapRemove(item, key), key, Arr(hidden));
    var b' := HideArrays(c, item, keys, b).value.1;
    hide GoodItem, GoodElements, WellFormed, Fits, Salted, JsonSound, HideElements;
    ItemElements(item, key);
    HideElementsWrites(c, elements, b, salts);
    HiddenArrayFits(hidden);
    ReplaceField(item, key, Arr(hidden));
    HideArraysWrites(c, item1, keys[1..], b1, salts);
    assert b1.disclosures == b'.disclosures[..|b1.disclosures|];
    ReplacedKeys(item, item1, key, Arr(hidden));
  }

  lemma ReplacedKeys(item: Object, item1: Object, key: string, value: Value)
    requires Has(item, key) && forall k :: Get(item1, k) == if k == key then Some(value) else Get(item, k)
    ensures SameKeys(item1, item)
  {
    forall k ensures Has(item1, k) <==> Has(item, k) {
      assert Get(item1, k).Some? <==> Has(item1, k);
      assert Get(item, k).Some? <==> Has(item, k);
    }
  }

  lemma SpendAgain(plan: Plan, key: string, ds: set<string>, kept: set<string>)
    requires Separate(plan) && Covers(plan, kept) && key in plan && ds !! kept
    ensures Separate(plan[key := ds]) && Covers(plan[key := ds], (kept - plan[key]) + ds)
  {
    var plan1 := plan[key := ds];
    forall d | d in (kept - plan[key]) + ds ensures InPlan(plan1, d) {
      if d in ds {
        assert d in plan1[key];
      } else {
        assert InPlan(plan, d);
        var k :| k in plan && d in plan[k];
        assert d in plan1[k];
      }
    }
  }

  lemma MirrorsReplaced(item: Object, shadow: Object, plan: Plan, t: Table, key: string, value: Value,
                        original: Value, ds: set<string>)
    requires Distinct(shadow) && Mirrors(item, shadow, plan, t) && GoodItem(item) && key != SD
    requires WellFormed(value) && Fits(value, READABLE_DEPTH - 2) && Restores(value, original, ds, t)
    ensures Mirrors(Insert(SwapRemove(item, key), key, value), Insert(shadow, key, original), plan[key := ds], t)
  {
    ReplaceField(item, key, value);
    InsertEffect(shadow, key, original);
  }

  // ----- Hiding fields -----

  type Names = map<string, string>

  /** The digest `d` opens to the field `key`, whose value restores what the mandate has. */
  ghost predicate Opens(d: string, key: string, mandate: Object, plan: Plan, t: Table) {
    && key in plan && Get(mandate, key).Some?
    && d in t && t[d].name == Some(key)
    && Restores(t[d].value, Get(mandate, key).value, plan[key], t)
  }

  ghost predicate Hides(names: Names, mandate: Object, plan: Plan, t: Table) {
    && (forall d | d in names :: Opens(d, names[d], mandate, plan, t))
    && (forall d, e | d in names && e in names && d != e :: names[d] != names[e])
  }

  lemma {:induction false} FieldsHide(c: Codec, mandate: Object, item: Object, keys: seq<string>, b: Built,
                                      final: seq<string>, t: Table, salts: seq<string>, plan: Plan)
    returns (names: Names)
    requires Final(c, final, t) && GoodItem(item) && ELLIPSIS !in keys && Salted(c, b, salts)
    requires HideFields(c, item, keys, b).Ok? && HideFields(c, item, keys, b).value.2.disclosures <= final
    requires Mirrors(item, mandate, plan, t)
    ensures var (item', digests, b') := HideFields(c, item, keys, b).value;
            && |b.disclosures| <= |b'.disclosures|
            && Mirrors(item', mandate, plan, t) && Hides(names, mandate, plan, t)
            && names.Keys == Range(c, final, |b.disclosures|, |b'.disclosures|)
            && Listed(digests, names) && Moved(item, item', names)
    decreases |keys|
  {
    var n := |b.disclosures|;
    if keys == [] {
      names := map[];
      assert Range(c, final, n, n) == {};
    } else {
      var key := keys[0];
      var value := Get(item, key).value;
      var (d, b1) := Push(c, b, [Str(key), value]).value;
      var rest := SwapRemove(item, key);
      var (item', digests, b') := HideFields(c, rest, keys[1..], b1).value;
      FieldsHideStep(c, item, keys, b, final, t, salts);
      assert Mirrors(rest, mandate, plan, t) by { SwapRemoveEffect(item, key); }
      var names1 := FieldsHide(c, mandate, rest, keys[1..], b1, final, t, salts, plan);
      names := names1[d := key];
      ListedGrows(digests, names1, d, key);
      MovedGrows(item, item', names1, d, key);
      NamesGrow(item, mandate, plan, t, names1, d, key);
    }
  }

  lemma FieldGone(item: Object, key: string)
    requires GoodItem(item)
    ensures GoodItem(SwapRemove(item, key))
  {
    SwapRemoveEffect(item, key);
  }

  lemma FieldsHideStep(c: Codec, item: Object, keys: seq<string>, b: Built, final: seq<string>, t: Table,
                       salts: seq<string>)
    requires keys != []
    requires Final(c, final, t) && GoodItem(item) && ELLIPSIS !in keys && Salted(c, b, salts)
    requires HideFields(c, item, keys, b).Ok? && HideFields(c, item, keys, b).value.2.disclosures <= final
    ensures var value := Get(item, keys[0]).value;
            var (d, b1) := Push(c, b, [Str(keys[0]), value]).value;
            var b' := HideFields(c, item, keys, b).value.2;
            var (n, end) := (|b.disclosures|, |b'.disclosures|);
            && Salted(c, b1, salts) && GoodItem(SwapRemove(item, keys[0])) && |b1.disclosures| == n + 1 <= end <= |final|
            && d in t && t[d] == Disclosure(Some(keys[0]), value)
            && Range(c, final, n, end) == {d} + Range(c, final, n + 1, end) && d !in Range(c, final, n + 1, end)
  {
    var n, key := |b.disclosures|, keys[0];
    var value := Get(item, key).value;
    var (d, b1) := Push(c, b, [Str(key), value]).value;
    var b' := HideFields(c, item, keys, b).value.2;
    FieldParts(item, key);
    FieldGone(item, key);
    assert HideFields(c, SwapRemove(item, key), keys[1..], b1).Ok? && HideFields(c, SwapRemove(item, key), keys[1..], b1).value.2 == b';
    hide GoodParts, JsonSound, Parse, Get, Salted, GoodItem, Range, SwapRemove, HideFields;
    PushWrites(c, b, [Str(key), value], salts);
    HideFieldsWrites(c, SwapRemove(item, key), keys[1..], b1, salts);
    assert b1.disclosures == b'.disclosures[..n + 1];
    PushedIsHeld(c, b, [Str(key), value], final, t, salts);
    RangeSplits(c, final, n, n + 1, |b'.disclosures|);
    RangeOne(c, final, n);
  }

  /** The digests listed are the named ones, each once. */
  ghost predicate Listed(digests: seq<string>, names: Names) {
    DistinctTexts(digests) && forall d :: d in digests <==> d in names
  }

  /** The named fields are the ones gone from `item`. */
  ghost predicate Moved(item: Object, item': Object, names: Names) {
    && (forall k :: Has(item', k) <==> Has(item, k) && k !in names.Values)
    && (forall d | d in names :: Has(item, names[d]))
  }

  lemma ListedGrows(digests: seq<string>, names: Names, d: string, key: string)
    requires Listed(digests, names) && d !in names
    ensures Listed([d] + digests, names[d := key])
  {
    var all := [d] + digests;
    forall i, j | 0 <= i < j < |all| ensures all[i] != all[j] {
      assert all[j] == digests[j - 1] && all[j] in digests;
      if i > 0 { assert all[i] == digests[i - 1]; }
    }
  }

  lemma MovedGrows(item: Object, item': Object, names: Names, d: string, key: string)
    requires Distinct(item) && Has(item, key) && Moved(SwapRemove(item, key), item', names) && d !in names
    ensures Moved(item, item', names[d := key])
  {
    var rest := SwapRemove(item, key);
    SwapRemoveEffect(item, key);
    forall k ensures Has(rest, k) <==> Has(item, k) && k != key {
      assert Get(rest, k) == if k == key then None else Get(item, k);
    }
    forall k ensures Has(item', k) <==> Has(item, k) && k !in names[d := key].Values {
      ValuesGrow(names, d, key, k);
    }
  }

  lemma ValuesGrow(names: Names, d: string, key: string, k: string)
    requires d !in names
    ensures k in names[d := key].Values <==> k == key || k in names.Values
  {
    var names' := names[d := key];
    if k == key { assert names'[d] == k; }
    if k in names.Values {
      var e :| e in names && names[e] == k;
      assert names'[e] == k;
    }
  }

  lemma NamesGrow(item: Object, mandate: Object, plan: Plan, t: Table, names: Names, d: string, key: string)
    requires Mirrors(item, mandate, plan, t) && Get(item, key).Some?
    requires Hides(names, mandate, plan, t) && d !in names
    requires forall e | e in names :: Has(SwapRemove(item, key), names[e])
    requires d in t && t[d] == Disclosure(Some(key), Get(item, key).value)
    ensures Hides(names[d := key], mandate, plan, t)
  {
    NewNameOpens(item, mandate, plan, t, d, key);
    NewNameIsNew(item, names, key);
    hide Opens, Mirrors, Get, Has;
  }

  lemma NewNameOpens(item: Object, mandate: Object, plan: Plan, t: Table, d: string, key: string)
    requires Mirrors(item, mandate, plan, t) && Get(item, key).Some?
    requires d in t && t[d] == Disclosure(Some(key), Get(item, key).value)
    ensures Opens(d, key, mandate, plan, t)
  {
    hide Restores;
    assert item[Find(item, key)] in item;
  }

  lemma NewNameIsNew(item: Object, names: Names, key: string)
    requires Distinct(item) && forall e | e in names :: Has(SwapRemove(item, key), names[e])
    ensures forall e | e in names :: names[e] != key
  {
    forall e | e in names ensures names[e] != key {
      SwapRemoveEffect(item, key);
      assert Get(SwapRemove(item, key), names[e]).Some?;
    }
  }

  // ----- Opening the hidden fields again -----

  /** One hidden field: its digest, the field itself, and what its value spends. */
  datatype Opening = Opening(digest: string, field: Field, inner: set<string>) {
    function Spent(): set<string> {
      {digest} + inner
    }
  }

  function SpentBy(os: seq<Opening>): set<string> {
    if os == [] then {} else os[0].Spent() + SpentBy(os[1..])
  }

  function InsertOpened(m: Object, os: seq<Opening>): Object
    decreases |os|
  {
    if os == [] then m else InsertOpened(Insert(m, os[0].field.key, os[0].field.value), os[1..])
  }

  function OpeningDigests(os: seq<Opening>): (ds: seq<Value>)
    ensures |ds| == |os|
  {
    if os == [] then [] else [Str(os[0].digest)] + OpeningDigests(os[1..])
  }

  ghost predicate OpensTo(o: Opening, t: Table) {
    && o.digest in t && t[o.digest].name == Some(o.field.key) && o.digest !in o.inner
    && Restores(t[o.digest].value, o.field.value, o.inner, t)
  }

  /** Openings that can be resolved into `m` one after the other. */
  ghost predicate Openable(m: Object, os: seq<Opening>, t: Table) {
    && Distinct(m)
    && (forall i | 0 <= i < |os| :: OpensTo(os[i], t) && !Has(m, os[i].field.key))
    && (forall i, j | 0 <= i < j < |os| :: os[i].Spent() !! os[j].Spent() && os[i].field.key != os[j].field.key)
  }

  lemma OpenableTail(m: Object, os: seq<Opening>, t: Table)
    requires os != [] && Openable(m, os, t)
    ensures Openable(Insert(m, os[0].field.key, os[0].field.value), os[1..], t)
    ensures os[0].Spent() !! SpentBy(os[1..])
  {
    var f, rest := os[0].field, os[1..];
    InsertEffect(m, f.key, f.value);
    forall i | 0 <= i < |rest| ensures rest[i] == os[i + 1] && !Has(Insert(m, f.key, f.value), rest[i].field.key) {
      assert Get(Insert(m, f.key, f.value), rest[i].field.key) == Get(m, rest[i].field.key);
    }
    SpentApart(rest, os[0].Spent());
  }

  lemma {:induction false} SpentApart(os: seq<Opening>, ds: set<string>)
    requires forall i | 0 <= i < |os| :: ds !! os[i].Spent()
    ensures ds !! SpentBy(os)
  {
    if os != [] {
      assert forall i | 0 <= i < |os| - 1 :: os[1..][i] == os[i + 1];
      SpentApart(os[1..], ds);
    }
  }

  lemma OpeningResolves(m: Object, o: Opening, t: Table, st: State, rest: seq<Value>)
    requires OpensTo(o, t) && !Has(m, o.field.key) && Ready(st, o.Spent(), t)
    ensures ResolveDigests(m, [Str(o.digest)] + rest, st)
         == ResolveDigests(Insert(m, o.field.key, o.field.value), rest, Spend(st, o.Spent()))
  {
    SpendInStages(st, {o.digest}, o.inner, t);
    TakeSpends(st, o.digest, t);
    assert ResolveValue(t[o.digest].value, Spend(st, {o.digest})) == Ok((o.field.value, Spend(st, o.Spent())));
    assert ([Str(o.digest)] + rest)[1..] == rest;
  }

  lemma {:induction false} OpeningsResolve(m: Object, os: seq<Opening>, t: Table, st: State)
    requires Openable(m, os, t) && Ready(st, SpentBy(os), t)
    ensures ResolveDigests(m, OpeningDigests(os), st) == Ok((InsertOpened(m, os), Spend(st, SpentBy(os))))
    decreases |os|
  {
    if os == [] {
      SpendNothing(st);
    } else {
      var o, rest := os[0], os[1..];
      OpenableTail(m, os, t);
      SpendInStages(st, o.Spent(), SpentBy(rest), t);
      OpeningResolves(m, o, t, st, OpeningDigests(rest));
      OpeningsResolve(Insert(m, o.field.key, o.field.value), rest, t, Spend(st, o.Spent()));
    }
  }

  lemma {:induction false} SpentByHas(os: seq<Opening>, d: string)
    ensures d in SpentBy(os) <==> exists i :: 0 <= i < |os| && d in os[i].Spent()
  {
    if os != [] {
      SpentByHas(os[1..], d);
      assert forall i | 0 <= i < |os| - 1 :: os[1..][i] == os[i + 1];
      if i :| 0 <= i < |os| && d in os[i].Spent() {
        assert i == 0 || d in os[1..][i - 1].Spent();
      }
    }
  }

  /** Every opened field is there under its key, and nothing else changed. */
  lemma {:induction false} InsertOpenedHas(m: Object, os: seq<Opening>)
    requires Distinct(m) && forall i, j | 0 <= i < j < |os| :: os[i].field.key != os[j].field.key
    ensures Distinct(InsertOpened(m, os))
    ensures forall i | 0 <= i < |os| :: Get(InsertOpened(m, os), os[i].field.key) == Some(os[i].field.value)
    ensures forall k | (forall i | 0 <= i < |os| :: os[i].field.key != k) :: Get(InsertOpened(m, os), k) == Get(m, k)
    decreases |os|
  {
    if os != [] {
      var f, rest := os[0].field, os[1..];
      assert forall i | 0 <= i < |rest| :: rest[i] == os[i + 1];
      InsertEffect(m, f.key, f.value);
      InsertOpenedHas(Insert(m, f.key, f.value), rest);
      forall i | 0 <= i < |os| ensures Get(InsertOpened(m, os), os[i].field.key) == Some(os[i].field.value) {
        if i > 0 { assert rest[i - 1] == os[i]; }
      }
    }
  }
}
