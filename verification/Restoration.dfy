/** The round trip itself: resolving a built payload with the collected disclosures gives
    the mandate back. */
module Restoration {
  import opened Results
  import opened Json
  import opened Codec
  import opened SdJwt
  import opened Resolution
  import opened Builder
  import opened RoundTrip

  // ----- The hidden fields of one item, in the order of the sorted digests -----

  function Openings(ds: seq<string>, names: Names, mandate: Object, plan: Plan): (os: seq<Opening>)
    requires forall d | d in ds :: d in names && names[d] in plan && Get(mandate, names[d]).Some?
    ensures |os| == |ds|
    ensures forall i | 0 <= i < |os| ::
              os[i] == Opening(ds[i], Field(names[ds[i]], Get(mandate, names[ds[i]]).value), plan[names[ds[i]]])
  {
    seq(|ds|, i requires 0 <= i < |ds| =>
      assert ds[i] in ds;
      Opening(ds[i], Field(names[ds[i]], Get(mandate, names[ds[i]]).value), plan[names[ds[i]]]))
  }

  lemma {:induction false} OpeningDigestsAt(os: seq<Opening>)
    ensures forall i | 0 <= i < |os| :: OpeningDigests(os)[i] == Str(os[i].digest)
  {
    if os != [] { OpeningDigestsAt(os[1..]); }
  }

  lemma {:induction false} Occurrences(ds: seq<string>, i: nat, j: nat)
    requires i < j < |ds| && ds[i] == ds[j]
    ensures multiset(ds)[ds[i]] >= 2
  {
    assert ds == ds[..i] + [ds[i]] + ds[i + 1..j] + [ds[j]] + ds[j + 1..];
  }

  /** A permutation of distinct digests lists the same digests, still each once. */
  lemma PermutedList(ds: seq<string>, es: seq<string>)
    requires DistinctTexts(es) && multiset(ds) == multiset(es)
    ensures DistinctTexts(ds) && (forall d :: d in ds <==> d in es)
  {
    forall i, j | 0 <= i < j < |ds| ensures ds[i] != ds[j] {
      CountInDistinct(es, ds[i]);
      if ds[i] == ds[j] { Occurrences(ds, i, j); }
    }
    forall d ensures d in ds <==> d in es {
      assert d in ds <==> d in multiset(ds);
      assert d in es <==> d in multiset(es);
    }
  }

  /** What hiding leaves: `item` mirrors the mandate but for the named fields, and the plan
      together with the names accounts for the digests `all`. */
  ghost predicate Hidden(item: Object, mandate: Object, names: Names, plan: Plan, t: Table, all: set<string>) {
    && Distinct(mandate) && Mirrors(item, mandate, plan, t) && Separate(plan) && Hides(names, mandate, plan, t)
    && (forall k :: k in plan <==> Has(mandate, k))
    && (forall k :: Has(item, k) <==> Has(mandate, k) && k !in names.Values)
    && (forall k | k in plan :: plan[k] !! names.Keys && plan[k] <= all)
    && names.Keys <= all
    && (forall d | d in all :: d in names || InPlan(plan, d))
  }

  ghost predicate ListsNames(ds: seq<string>, names: Names) {
    DistinctTexts(ds) && forall d :: d in ds <==> d in names
  }

  lemma RestoredKeepsKeys(item: Object, mandate: Object)
    requires Distinct(item) && forall f | f in item :: Get(mandate, f.key).Some?
    ensures Distinct(Restored(item, mandate))
    ensures forall k :: Get(Restored(item, mandate), k) == if Has(item, k) then Get(mandate, k) else None
  {
    var m := Restored(item, mandate);
    forall k ensures Get(m, k) == if Has(item, k) then Get(mandate, k) else None {
      if Has(item, k) {
        var i := Find(item, k);
        assert item[i] in item && m[i].key == k;
        GetAt(m, i);
      } else {
        GetAbsent(m, k);
      }
    }
  }

  lemma NamedOpen(item: Object, mandate: Object, names: Names, plan: Plan, t: Table, all: set<string>, ds: seq<string>)
    requires Hidden(item, mandate, names, plan, t, all) && ListsNames(ds, names)
    ensures forall d | d in ds :: d in names && names[d] in plan && Get(mandate, names[d]).Some?
    ensures Openable(Restored(item, mandate), Openings(ds, names, mandate, plan), t)
  {
    forall d | d in ds ensures Opens(d, names[d], mandate, plan, t) {}
    hide Hidden, Opens, OpensTo;
    var os, m := Openings(ds, names, mandate, plan), Restored(item, mandate);
    RestoredKeepsKeys(item, mandate);
    forall i | 0 <= i < |os| ensures OpensTo(os[i], t) && !Has(m, os[i].field.key) {
      NamedOpensTo(item, mandate, names, plan, t, all, ds[i]);
    }
    forall i, j | 0 <= i < j < |os|
      ensures os[i].Spent() !! os[j].Spent() && os[i].field.key != os[j].field.key
    {
      NamedApart(item, mandate, names, plan, t, all, ds[i], ds[j]);
    }
  }

  lemma NamedApart(item: Object, mandate: Object, names: Names, plan: Plan, t: Table, all: set<string>, d: string, e: string)
    requires Hidden(item, mandate, names, plan, t, all) && d in names && e in names && d != e
    ensures names[d] in plan && names[e] in plan && names[d] != names[e]
    ensures {d} + plan[names[d]] !! {e} + plan[names[e]]
  {
    assert Opens(d, names[d], mandate, plan, t) && Opens(e, names[e], mandate, plan, t);
    hide Opens, Mirrors;
  }

  lemma NamedOpensTo(item: Object, mandate: Object, names: Names, plan: Plan, t: Table, all: set<string>, d: string)
    requires Hidden(item, mandate, names, plan, t, all) && d in names
    ensures names[d] in plan && Get(mandate, names[d]).Some?
    ensures OpensTo(Opening(d, Field(names[d], Get(mandate, names[d]).value), plan[names[d]]), t)
    ensures !Has(Restored(item, mandate), names[d])
  {
    assert Opens(d, names[d], mandate, plan, t);
    assert names[d] in names.Values;
    RestoredKeepsKeys(item, mandate);
    assert Get(Restored(item, mandate), names[d]) == None;
  }

  /** The plain fields and the opened ones spend disjoint sets, together `all`. */
  lemma SpentIsAll(item: Object, mandate: Object, names: Names, plan: Plan, t: Table, all: set<string>, ds: seq<string>)
    requires Hidden(item, mandate, names, plan, t, all) && ListsNames(ds, names)
    requires forall d | d in ds :: names[d] in plan && Get(mandate, names[d]).Some?
    ensures SpentByFields(item, plan) !! SpentBy(Openings(ds, names, mandate, plan))
    ensures SpentByFields(item, plan) + SpentBy(Openings(ds, names, mandate, plan)) == all
  {
    var os := Openings(ds, names, mandate, plan);
    var s1, s2 := SpentByFields(item, plan), SpentBy(os);
    forall x ensures x in s1 ==> x in all && x !in s2 {
      FieldsSpendIn(item, mandate, names, plan, t, all, ds, x);
    }
    forall x ensures x in s2 ==> x in all {
      SpentByHas(os, x);
      if x in s2 {
        var i :| 0 <= i < |os| && x in os[i].Spent();
        assert ds[i] in ds;
      }
    }
    forall x | x in all ensures x in s1 + s2 {
      AllIsSpent(item, mandate, names, plan, t, all, ds, x);
    }
  }

  lemma FieldsSpendIn(item: Object, mandate: Object, names: Names, plan: Plan, t: Table, all: set<string>,
                      ds: seq<string>, x: string)
    requires Hidden(item, mandate, names, plan, t, all) && ListsNames(ds, names)
    requires forall d | d in ds :: names[d] in plan && Get(mandate, names[d]).Some?
    ensures x in SpentByFields(item, plan) ==> x in all && x !in SpentBy(Openings(ds, names, mandate, plan))
  {
    SpentByFieldsHas(item, plan, x);
    if x in SpentByFields(item, plan) {
      var os := Openings(ds, names, mandate, plan);
      var f :| f in item && x in plan[f.key];
      var at :| 0 <= at < |item| && item[at] == f;
      GetAt(item, at);
      assert Has(item, f.key) && f.key !in names.Values;
      SpentByHas(os, x);
      forall i | 0 <= i < |os| ensures x !in os[i].Spent() {
        assert ds[i] in ds && names[ds[i]] in names.Values;
        assert names[ds[i]] != f.key;
      }
    }
  }

  lemma AllIsSpent(item: Object, mandate: Object, names: Names, plan: Plan, t: Table, all: set<string>,
                   ds: seq<string>, x: string)
    requires Hidden(item, mandate, names, plan, t, all) && ListsNames(ds, names)
    requires forall d | d in ds :: names[d] in plan && Get(mandate, names[d]).Some?
    requires x in all
    ensures x in SpentByFields(item, plan) || x in SpentBy(Openings(ds, names, mandate, plan))
  {
    var os := Openings(ds, names, mandate, plan);
    SpentByFieldsHas(item, plan, x);
    SpentByHas(os, x);
    if x in names {
      assert x in ds;
      var i :| 0 <= i < |ds| && ds[i] == x;
      assert x in os[i].Spent();
    } else {
      assert InPlan(plan, x);
      var k :| k in plan && x in plan[k];
      if Has(item, k) {
        assert item[Find(item, k)] in item;
      } else {
        assert k in names.Values;
        var d :| d in names && names[d] == k;
        assert d in ds;
        var i :| 0 <= i < |ds| && ds[i] == d;
        assert x in os[i].Spent();
      }
    }
  }

  /** Opening every named field puts the mandate's fields back. */
  lemma OpenedIsMandate(item: Object, mandate: Object, names: Names, plan: Plan, t: Table, all: set<string>,
                        ds: seq<string>)
    requires Hidden(item, mandate, names, plan, t, all) && ListsNames(ds, names)
    requires forall d | d in ds :: names[d] in plan && Get(mandate, names[d]).Some?
    requires Openable(Restored(item, mandate), Openings(ds, names, mandate, plan), t)
    ensures Distinct(InsertOpened(Restored(item, mandate), Openings(ds, names, mandate, plan)))
    ensures SameFields(InsertOpened(Restored(item, mandate), Openings(ds, names, mandate, plan)), mandate)
  {
    var os, plain := Openings(ds, names, mandate, plan), Restored(item, mandate);
    var m := InsertOpened(plain, os);
    InsertOpenedHas(plain, os);
    RestoredKeepsKeys(item, mandate);
    forall k ensures Get(m, k) == Get(mandate, k) {
      if k in names.Values {
        var d :| d in names && names[d] == k;
        assert d in ds;
        var i :| 0 <= i < |ds| && ds[i] == d;
        assert os[i].field.key == k;
      } else {
        forall i | 0 <= i < |os| ensures os[i].field.key != k {
          assert ds[i] in ds && names[ds[i]] in names.Values;
        }
        assert Get(m, k) == Get(plain, k);
        assert Has(item, k) <==> Has(mandate, k);
      }
    }
  }

  // ----- One item -----

  lemma WithSdReads(item: Object, digests: seq<string>)
    requires GoodItem(item)
    ensures SdDigests(WithSd(item, digests)) == Ok(Strs(Sorted(digests)))
    ensures SwapRemove(WithSd(item, digests), SD) == item
  {
    GetAbsent(item, SD);
    var whole := WithSd(item, digests);
    if digests == [] {
      assert Strs(Sorted(digests)) == [];
    } else {
      InsertEffect(item, SD, Arr(Strs(Sorted(digests))));
      FindUnique(whole, |item|);
      assert whole[|item| := whole[|item|]][..|item|] == item;
    }
  }

  /** The openings of the sorted digests fit the item. */
  lemma ItemOpenings(item: Object, mandate: Object, digests: seq<string>, names: Names, plan: Plan, t: Table,
                     all: set<string>)
    returns (os: seq<Opening>)
    requires Hidden(item, mandate, names, plan, t, all) && Listed(digests, names)
    ensures Openable(Restored(item, mandate), os, t) && Strs(Sorted(digests)) == OpeningDigests(os)
    ensures SpentByFields(item, plan) !! SpentBy(os) && SpentByFields(item, plan) + SpentBy(os) == all
    ensures Distinct(InsertOpened(Restored(item, mandate), os))
    ensures SameFields(InsertOpened(Restored(item, mandate), os), mandate)
  {
    var ds := Sorted(digests);
    SortedSorts(digests);
    PermutedList(ds, digests);
    assert ListsNames(ds, names);
    hide Hidden, Listed, ListsNames, Openable, SpentBy, SpentByFields, InsertOpened, Restored, Distinct, Sorted;
    NamedOpen(item, mandate, names, plan, t, all, ds);
    os := Openings(ds, names, mandate, plan);
    SpentIsAll(item, mandate, names, plan, t, all, ds);
    OpenedIsMandate(item, mandate, names, plan, t, all, ds);
    assert Strs(ds) == OpeningDigests(os) by { OpeningDigestsAt(os); }
  }

  lemma ItemRestores(item: Object, mandate: Object, digests: seq<string>, names: Names, plan: Plan, t: Table,
                     all: set<string>)
    returns (m: Object)
    requires GoodItem(item) && Hidden(item, mandate, names, plan, t, all) && Listed(digests, names)
    ensures Distinct(m) && SameFields(m, mandate)
    ensures Restores(Obj(WithSd(item, digests)), Obj(m), all, t)
  {
    var os := ItemOpenings(item, mandate, digests, names, plan, t, all);
    m := InsertOpened(Restored(item, mandate), os);
    WithSdReads(item, digests);
    assert Mirrors(item, mandate, plan, t) && Separate(plan);
    hide Hidden, Listed, Mirrors, Separate, Openable, SpentBy, SpentByFields, InsertOpened, Restored, GoodItem, WithSd, SdDigests,
      SwapRemove, ResolveObject, ResolveValue, SameFields, Ready, Spend;
    forall st | Ready(st, all, t)
      ensures ResolveValue(Obj(WithSd(item, digests)), st) == Ok((Obj(m), Spend(st, all)))
    {
      ItemResolves(item, mandate, WithSd(item, digests), os, plan, t, st);
      ObjectIsValue(WithSd(item, digests), st, m, Spend(st, all));
    }
  }

  lemma ObjectIsValue(m: Object, st: State, m': Object, st': State)
    requires ResolveObject(m, st) == Ok((m', st'))
    ensures ResolveValue(Obj(m), st) == Ok((Obj(m'), st'))
  {
    hide ResolveObject;
  }

  lemma ItemResolves(item: Object, mandate: Object, whole: Object, os: seq<Opening>, plan: Plan, t: Table, st: State)
    requires Mirrors(item, mandate, plan, t) && Separate(plan) && Openable(Restored(item, mandate), os, t)
    requires SdDigests(whole) == Ok(OpeningDigests(os)) && SwapRemove(whole, SD) == item
    requires SpentByFields(item, plan) !! SpentBy(os) && Ready(st, SpentByFields(item, plan) + SpentBy(os), t)
    ensures ResolveObject(whole, st)
         == Ok((InsertOpened(Restored(item, mandate), os), Spend(st, SpentByFields(item, plan) + SpentBy(os))))
  {
    var s1, s2 := SpentByFields(item, plan), SpentBy(os);
    SpendInStages(st, s1, s2, t);
    FieldsRestore(item, mandate, plan, t, st);
    OpeningsResolve(Restored(item, mandate), os, t, Spend(st, s1));
  }

  // ----- The whole payload -----

  /** An issuable mandate: readable when nested in a disclosure, with no bookkeeping of
      its own. */
  predicate Issuable(mandate: Object) {
    GoodItem(mandate) && Inert(Obj(mandate))
  }

  /** No array with elements is named twice, and no field is called `...`. */
  predicate Sensible(mandate: Object, sd: Disclosable) {
    ELLIPSIS !in sd.fields && NoneTwice(mandate, sd.arrayElements)
  }

  predicate NoneTwice(mandate: Object, keys: seq<string>) {
    forall j | 0 <= j < |keys| && NonEmptyArray(mandate, keys[j]) :: keys[j] !in keys[..j]
  }

  lemma NothingSpentYet(mandate: Object, t: Table) returns (plan: Plan)
    requires Distinct(mandate) && Inert(Obj(mandate))
    ensures Mirrors(mandate, mandate, plan, t) && Separate(plan) && Covers(plan, {})
    ensures forall k :: k in plan <==> Has(mandate, k)
    ensures forall k | k in plan :: plan[k] == {}
  {
    plan := map f | f in mandate :: f.key := {};
    forall f | f in mandate
      ensures Get(mandate, f.key) == Some(f.value) && Restores(f.value, f.value, {}, t)
    {
      var i :| 0 <= i < |mandate| && mandate[i] == f;
      GetAt(mandate, i);
      InertRestores(f.value, t);
    }
    forall k ensures k in plan <==> Has(mandate, k) {
      if Has(mandate, k) { assert mandate[Find(mandate, k)] in mandate; }
      if k in plan {
        var f :| f in mandate && f.key == k;
        assert Get(mandate, f.key).Some?;
      }
    }
  }

  /** The wrapper restores one mandate, spending `spent`: all the digests, and the mandate
      as it was, exactly when no array with elements was named twice. */
  lemma DelegateRestores(c: Codec, mandate: Object, sd: Disclosable, salts: seq<string>, final: seq<string>, t: Table)
    returns (m: Object, spent: set<string>)
    requires Final(c, final, t) && Issuable(mandate) && ELLIPSIS !in sd.fields
    requires DelegatePayload(c, mandate, sd, Built([], salts)).Ok?
    requires DelegatePayload(c, mandate, sd, Built([], salts)).value.1.disclosures == final
    ensures Distinct(m) && (NoneTwice(mandate, sd.arrayElements) ==> SameFields(m, mandate))
    ensures spent <= Range(c, final, 0, |final|)
    ensures spent == Range(c, final, 0, |final|) <==> NoneTwice(mandate, sd.arrayElements)
    ensures Restores(DelegatePayload(c, mandate, sd, Built([], salts)).value.0, Arr([Obj(m)]), spent, t)
  {
    var b := Built([], salts);
    var (item, b1) := HideArrays(c, mandate, sd.arrayElements, b).value;
    var (item', digests, b2) := HideFields(c, item, sd.fields, b1).value;
    var (w, b3) := Push(c, b2, [Obj(WithSd(item', digests))]).value;
    var n1, n2 := |b1.disclosures|, |b2.disclosures|;
    hide HideArrays, HideFields, Hidden, Listed, Final, Salted, Range, Restores, NoneTwice, GoodItem, Inert;
    BuildStages(c, mandate, sd, salts);
    var shadow, plan, names, kept := HidingStages(c, mandate, sd, salts, final, t);
    var inner := kept + Range(c, final, n1, n2);
    m := ItemRestores(item', shadow, digests, names, plan, t, inner);
    WrapperIsHeld(c, item', digests, b2, w, b3, final, t, salts);
    AllSpentExactly(c, final, t, kept, n1, n2, w);
    spent := inner + {w};
    WrapperRestores(w, WithSd(item', digests), m, inner, t);
  }

  lemma WrapperIsHeld(c: Codec, item: Object, digests: seq<string>, b: Built, w: string, b': Built,
                      final: seq<string>, t: Table, salts: seq<string>)
    requires Final(c, final, t) && GoodItem(item) && Salted(c, b, salts)
    requires Push(c, b, [Obj(WithSd(item, digests))]) == Ok((w, b')) && b'.disclosures == final
    ensures |b.disclosures| < |final| && w == c.digest(final[|b.disclosures|])
    ensures w in t && t[w] == Disclosure(None, Obj(WithSd(item, digests)))
  {
    WithSdParts(item, digests);
    PushedIsHeld(c, b, [Obj(WithSd(item, digests))], final, t, salts);
  }

  /** The arrays' digests may be kept or not; the fields' and the wrapper's always are. */
  lemma AllSpentExactly(c: Codec, final: seq<string>, t: Table, kept: set<string>, n1: nat, n2: nat, w: string)
    requires Final(c, final, t) && n1 <= n2 && n2 + 1 == |final| && w == c.digest(final[n2]) && kept <= Range(c, final, 0, n1)
    ensures var all := Range(c, final, 0, |final|);
            && kept + Range(c, final, n1, n2) + {w} <= all && w !in kept + Range(c, final, n1, n2)
            && (kept + Range(c, final, n1, n2) + {w} == all <==> kept == Range(c, final, 0, n1))
  {
    RangeSplits(c, final, 0, n1, n2);
    RangeSplits(c, final, 0, n2, n2 + 1);
    RangeOne(c, final, n2);
    var arrays, rest := Range(c, final, 0, n1), Range(c, final, n1, n2) + {w};
    KeptAll(kept, {}, rest, arrays);
    assert kept + Range(c, final, n1, n2) + {w} == (kept - {}) + rest;
    assert Range(c, final, 0, |final|) == arrays + rest;
  }

  lemma WrapperRestores(w: string, hidden: Object, m: Object, inner: set<string>, t: Table)
    requires w in t && t[w] == Disclosure(None, Obj(hidden)) && w !in inner && Restores(Obj(hidden), Obj(m), inner, t)
    ensures Restores(Arr([PlaceholderFor(w)]), Arr([Obj(m)]), inner + {w}, t)
  {
    hide ResolveElement, ResolveObject, ResolveValue, Spend, Ready, PlaceholderFor, Take;
    forall st | Ready(st, inner + {w}, t)
      ensures ResolveValue(Arr([PlaceholderFor(w)]), st) == Ok((Arr([Obj(m)]), Spend(st, inner + {w})))
    {
      assert inner + {w} == {w} + inner;
      SpendInStages(st, {w}, inner, t);
      TakeSpends(st, w, t);
      var st1 := Spend(st, {w});
      assert ResolveValue(Obj(hidden), st1) == Ok((Obj(m), Spend(st1, inner)));
      PlaceholderOpens(w, st, Obj(hidden), st1, Obj(m), Spend(st1, inner));
      OneElementResolves(PlaceholderFor(w), st, Obj(m), Spend(st1, inner));
    }
  }

  lemma PlaceholderOpens(w: string, st: State, hidden: Value, st1: State, v: Value, st2: State)
    requires Take(st, w) == Ok((Some(Disclosure(None, hidden)), st1)) && ResolveValue(hidden, st1) == Ok((v, st2))
    ensures ResolveElement(PlaceholderFor(w), st) == Ok(([v], st2))
  {
    hide ResolveValue;
  }

  lemma OneElementResolves(v: Value, st: State, w: Value, st': State)
    requires ResolveElement(v, st) == Ok(([w], st'))
    ensures ResolveValue(Arr([v]), st) == Ok((Arr([w]), st'))
  {
    hide ResolveElement;
    assert [v][1..] == [] && [w] + [] == [w];
    assert ResolveItems([v], st) == Ok(([w], st'));
  }

  /** How the list of disclosures grows over the three stages of the builder. */
  lemma BuildStages(c: Codec, mandate: Object, sd: Disclosable, salts: seq<string>)
    requires JsonSound(c) && GoodItem(mandate) && ELLIPSIS !in sd.fields
    requires DelegatePayload(c, mandate, sd, Built([], salts)).Ok?
    ensures var (item, b1) := HideArrays(c, mandate, sd.arrayElements, Built([], salts)).value;
            var (item', digests, b2) := HideFields(c, item, sd.fields, b1).value;
            var b3 := DelegatePayload(c, mandate, sd, Built([], salts)).value.1;
            && GoodItem(item) && GoodItem(item') && Salted(c, b1, salts) && Salted(c, b2, salts)
            && b1.disclosures <= b2.disclosures <= b3.disclosures && |b3.disclosures| == |b2.disclosures| + 1
  {
    var b := Built([], salts);
    var (item, b1) := HideArrays(c, mandate, sd.arrayElements, b).value;
    HideArraysWrites(c, mandate, sd.arrayElements, b, salts);
    var (item', digests, b2) := HideFields(c, item, sd.fields, b1).value;
    HideFieldsWrites(c, item, sd.fields, b1, salts);
    assert b1.disclosures == b2.disclosures[..|b1.disclosures|];
  }

  lemma HidingStages(c: Codec, mandate: Object, sd: Disclosable, salts: seq<string>, final: seq<string>, t: Table)
    returns (shadow: Object, plan: Plan, names: Names, kept: set<string>)
    requires Final(c, final, t) && Issuable(mandate) && ELLIPSIS !in sd.fields
    requires DelegatePayload(c, mandate, sd, Built([], salts)).Ok?
    requires DelegatePayload(c, mandate, sd, Built([], salts)).value.1.disclosures == final
    ensures var (item, b1) := HideArrays(c, mandate, sd.arrayElements, Built([], salts)).value;
            var (item', digests, b2) := HideFields(c, item, sd.fields, b1).value;
            var (n1, n2) := (|b1.disclosures|, |b2.disclosures|);
            && n1 <= n2 <= |final| && kept <= Range(c, final, 0, n1)
            && (kept == Range(c, final, 0, n1) <==> NoneTwice(mandate, sd.arrayElements))
            && (NoneTwice(mandate, sd.arrayElements) ==> SameFields(shadow, mandate))
            && Hidden(item', shadow, names, plan, t, kept + Range(c, final, n1, n2)) && Listed(digests, names)
  {
    var b := Built([], salts);
    var (item, b1) := HideArrays(c, mandate, sd.arrayElements, b).value;
    var (item', digests, b2) := HideFields(c, item, sd.fields, b1).value;
    var n1, n2 := |b1.disclosures|, |b2.disclosures|;
    BuildStages(c, mandate, sd, salts);
    assert b1.disclosures <= final && b2.disclosures <= final;
    var plan0 := NothingSpentYet(mandate, t);
    var keys := sd.arrayElements;
    StartsReady(c, mandate, final, t, salts, plan0);
    LosslessAtFirst(mandate, keys, plan0);
    shadow, plan, kept := ArraysRestore(c, mandate, mandate, keys, b, final, t, salts, plan0, {});
    names := FieldsHide(c, shadow, item, sd.fields, b1, final, t, salts, plan);
    RangeSplits(c, final, 0, n1, n2);
    StagesAreHidden(mandate, shadow, item, item', names, plan0, plan, t, kept, Range(c, final, n1, n2));
  }

  lemma StartsReady(c: Codec, mandate: Object, final: seq<string>, t: Table, salts: seq<string>, plan: Plan)
    requires Issuable(mandate) && Mirrors(mandate, mandate, plan, t) && Separate(plan) && Covers(plan, {})
    requires forall k | k in plan :: plan[k] == {}
    ensures ArraysReady(c, mandate, mandate, Built([], salts), final, t, salts, plan, {})
    ensures Range(c, final, 0, 0) == {}
  {
    assert salts[0..] == salts;
    assert Range(c, final, 0, 0) == {};
    forall f | f in mandate && f.value.Arr? ensures AllInert(f.value.items) {
      assert Inert(f.value);
    }
  }

  lemma LosslessAtFirst(mandate: Object, keys: seq<string>, plan: Plan)
    requires forall k | k in plan :: plan[k] == {}
    ensures Lossless(mandate, keys, plan) <==> NoneTwice(mandate, keys)
  {
  }

  lemma StagesAreHidden(mandate: Object, shadow: Object, item: Object, item': Object, names: Names, plan0: Plan,
                        plan: Plan, t: Table,
                        arrays: set<string>, fields: set<string>)
    requires Distinct(shadow) && (forall k :: k in plan0 <==> Has(mandate, k)) && plan.Keys == plan0.Keys
    requires SameKeys(item, mandate) && SameKeys(shadow, mandate) && Separate(plan) && Covers(plan, arrays) && arrays !! fields
    requires Mirrors(item', shadow, plan, t) && Hides(names, shadow, plan, t) && names.Keys == fields && Moved(item, item', names)
    ensures Hidden(item', shadow, names, plan, t, arrays + fields)
  {
    forall k ensures k in plan <==> Has(shadow, k) {
      assert k in plan.Keys <==> k in plan0.Keys;
    }
    assert forall d :: d in names <==> d in fields;
  }

  // ----- Resolving the payload that carries it -----

  /** A payload with the built value under `delegate_payload`, and nothing else to resolve. */
  predicate Carries(payload: Object, built: Value) {
    && Distinct(payload) && Get(payload, DELEGATE_PAYLOAD) == Some(built) && AlgAccepted(payload)
    && forall f | f in payload :: f.key != SD && (f.key == DELEGATE_PAYLOAD || Inert(f.value))
  }

  /** The payload without `_sd_alg`, with the mandate in clear. */
  function Opened(payload: Object, m: Object): Object {
    Insert(SwapRemove(payload, SD_ALG_KEY), DELEGATE_PAYLOAD, Arr([Obj(m)]))
  }

  /** The disclosures a builder wrote make a table, which knows exactly their digests. */
  lemma WrittenTable(c: Codec, b: Built, salts: seq<string>) returns (t: Table)
    requires DigestSound(c) && JsonSound(c) && Salted(c, b, salts) && DistinctTexts(salts)
    ensures BuildTable(c, b.disclosures) == Ok(t) && Final(c, b.disclosures, t)
    ensures t.Keys == Range(c, b.disclosures, 0, |b.disclosures|) && |t| == |b.disclosures|
  {
    var ds := b.disclosures;
    WrittenDisclosuresDiffer(c, b, salts);
    forall i | 0 <= i < |ds| ensures Parse(c, ds[i]).Ok? {
      assert WrittenWith(c, ds[i], salts[i]);
    }
    assert BuildTable(c, ds).Ok? by {
      assert ds[0..] == ds;
      TableBuilds(c, ds, 0, map[]);
    }
    t := BuildTable(c, ds).value;
    BuiltTable(c, ds);
    TableKeys(c, ds, t);
    assert ds[..|ds|] == ds;
  }

  lemma TableKeys(c: Codec, ds: seq<string>, t: Table)
    requires TableOf(c, ds, t)
    ensures t.Keys == Range(c, ds, 0, |ds|)
  {
    forall d | d in t ensures d in Range(c, ds, 0, |ds|) {
      assert DigestOfOne(c, ds, |ds|, d);
    }
    forall i | 0 <= i < |ds| ensures c.digest(ds[i]) in t {
      assert ds[i] in ds[..|ds|] && Holds(c, ds[i], t);
    }
  }

  lemma {:induction false} OneFieldSpends(item: Object, plan: Plan, key: string)
    requires forall f | f in item :: f.key in plan && (f.key != key ==> plan[f.key] == {})
    ensures SpentByFields(item, plan) == if exists f :: f in item && f.key == key then plan[key] else {}
  {
    if item != [] {
      OneFieldSpends(item[1..], plan, key);
      assert item == [item[0]] + item[1..];
      if item[0].key == key { assert item[0] in item; }
    }
  }

  /** Only the field with the built value spends anything. */
  ghost function CarriedPlan(p: Object, spent: set<string>): Plan {
    map f | f in p :: f.key := if f.key == DELEGATE_PAYLOAD then spent else {}
  }

  lemma CarriedResolves(payload: Object, built: Value, m: Object, t: Table, spent: set<string>)
    requires Carries(payload, built) && Restores(built, Arr([Obj(m)]), spent, t) && spent <= t.Keys
    ensures ResolveObject(SwapRemove(payload, SD_ALG_KEY), StartState(t))
         == Ok((Opened(payload, m), Spend(StartState(t), spent)))
  {
    hide Carries, Restores, Mirrors, Opened, SwapRemove, Inert, Distinct, SpentByFields, Restored, Spend, ResolveObject;
    var p, claims := SwapRemove(payload, SD_ALG_KEY), Opened(payload, m);
    var plan := CarriedPlan(p, spent);
    CarriedFields(payload, built);
    CarriedMirrors(payload, built, m, plan, t, spent);
    CarriedKeys(payload, built, m);
    OneFieldSpends(p, plan, DELEGATE_PAYLOAD);
    RestoredIsOpened(p, claims);
    NoSdResolves(p, claims, plan, t, StartState(t));
  }

  lemma CarriedKeys(payload: Object, built: Value, m: Object)
    requires Carries(payload, built)
    ensures var p, claims := SwapRemove(payload, SD_ALG_KEY), Opened(payload, m);
            |p| == |claims| && forall i | 0 <= i < |p| :: p[i].key == claims[i].key
  {
    CarriedFields(payload, built);
  }

  lemma NoSdResolves(p: Object, claims: Object, plan: Plan, t: Table, st: State)
    requires Mirrors(p, claims, plan, t) && Separate(plan) && Ready(st, SpentByFields(p, plan), t)
    requires forall f | f in p :: f.key != SD
    ensures ResolveObject(p, st) == Ok((Restored(p, claims), Spend(st, SpentByFields(p, plan))))
  {
    FieldsRestore(p, claims, plan, t, st);
    GetAbsent(p, SD);
    assert SwapRemove(p, SD) == p;
  }

  lemma CarriedFields(payload: Object, built: Value)
    requires Carries(payload, built)
    ensures var p := SwapRemove(payload, SD_ALG_KEY);
            && Distinct(p) && Get(p, DELEGATE_PAYLOAD) == Some(built)
            && (forall f | f in p :: f.key != SD && (f.key == DELEGATE_PAYLOAD || Inert(f.value)))
            && exists f :: f in p && f.key == DELEGATE_PAYLOAD
  {
    var p := SwapRemove(payload, SD_ALG_KEY);
    SwapRemoveEffect(payload, SD_ALG_KEY);
    assert Get(p, DELEGATE_PAYLOAD) == Some(built);
    assert p[Find(p, DELEGATE_PAYLOAD)] in p;
  }

  lemma CarriedMirrors(payload: Object, built: Value, m: Object, plan: Plan, t: Table, spent: set<string>)
    requires Carries(payload, built) && Restores(built, Arr([Obj(m)]), spent, t)
    requires forall f | f in SwapRemove(payload, SD_ALG_KEY) ::
               f.key in plan && plan[f.key] == if f.key == DELEGATE_PAYLOAD then spent else {}
    ensures Distinct(Opened(payload, m)) && Mirrors(SwapRemove(payload, SD_ALG_KEY), Opened(payload, m), plan, t)
  {
    var p, claims := SwapRemove(payload, SD_ALG_KEY), Opened(payload, m);
    CarriedFields(payload, built);
    InsertEffect(p, DELEGATE_PAYLOAD, Arr([Obj(m)]));
    forall f | f in p ensures Get(claims, f.key).Some? && Restores(f.value, Get(claims, f.key).value, plan[f.key], t) {
      var i :| 0 <= i < |p| && p[i] == f;
      GetAt(p, i);
      if f.key != DELEGATE_PAYLOAD { InertRestores(f.value, t); }
    }
  }

  lemma RestoredIsOpened(p: Object, claims: Object)
    requires Distinct(claims) && |p| == |claims| && forall i | 0 <= i < |p| :: p[i].key == claims[i].key
    ensures forall f | f in p :: Get(claims, f.key).Some?
    ensures Restored(p, claims) == claims
  {
    forall i | 0 <= i < |p| ensures Get(claims, p[i].key) == Some(claims[i].value) {
      GetAt(claims, i);
    }
  }

  // ----- A field called `...` -----

  lemma {:induction false} EllipsisIsWritten(c: Codec, item: Object, keys: seq<string>, b: Built)
    returns (i: nat)
    requires JsonSound(c) && GoodItem(item) && ELLIPSIS in keys && HideFields(c, item, keys, b).Ok?
    ensures var b' := HideFields(c, item, keys, b).value.2;
            && |b.disclosures| <= i < |b'.disclosures| && b.disclosures <= b'.disclosures && Parse(c, b'.disclosures[i]).Err?
    decreases |keys|
  {
    var key := keys[0];
    var value := Get(item, key).value;
    var (d, b1) := Push(c, b, [Str(key), value]).value;
    var rest := SwapRemove(item, key);
    SwapRemoveEffect(item, key);
    hide Parse, JsonSound;
    FieldsExtend(c, rest, keys[1..], b1);
    i := |b.disclosures|;
    if key == ELLIPSIS {
      EllipsisIsRefused(c, item, b.salts[0]);
    } else {
      assert keys == [key] + keys[1..];
      i := EllipsisIsWritten(c, rest, keys[1..], b1);
    }
  }

  lemma EllipsisIsRefused(c: Codec, item: Object, salt: string)
    requires JsonSound(c) && GoodItem(item) && Get(item, ELLIPSIS).Some?
    ensures Parse(c, c.encode(Arr([Str(salt), Str(ELLIPSIS), Get(item, ELLIPSIS).value]))).Err?
    ensures [Str(salt)] + [Str(ELLIPSIS), Get(item, ELLIPSIS).value] == [Str(salt), Str(ELLIPSIS), Get(item, ELLIPSIS).value]
  {
    var value := Get(item, ELLIPSIS).value;
    assert item[Find(item, ELLIPSIS)] in item;
    FitsMore(value, READABLE_DEPTH - 2, READABLE_DEPTH - 1);
    var v := Arr([Str(salt), Str(ELLIPSIS), value]);
    assert forall x | x in v.items :: WellFormed(x) && Fits(x, READABLE_DEPTH - 1);
    assert c.decode(c.encode(v)) == Some(v);
  }

  lemma {:induction false} FieldsExtend(c: Codec, item: Object, keys: seq<string>, b: Built)
    requires HideFields(c, item, keys, b).Ok?
    ensures b.disclosures <= HideFields(c, item, keys, b).value.2.disclosures
    decreases |keys|
  {
    if keys != [] {
      FieldsExtend(c, SwapRemove(item, keys[0]), keys[1..], Push(c, b, [Str(keys[0]), Get(item, keys[0]).value]).value.1);
    }
  }

  lemma {:induction false} UnreadableIsRefused(c: Codec, ds: seq<string>, i: nat, t: Table)
    requires i < |ds| && Parse(c, ds[i]).Err?
    ensures BuildTable(c, ds, t).Err?
    decreases |ds|
  {
    if i > 0 && Parse(c, ds[0]).Ok? && c.digest(ds[0]) !in t {
      UnreadableIsRefused(c, ds[1..], i - 1, t[c.digest(ds[0]) := Parse(c, ds[0]).value]);
    }
  }

  lemma EllipsisCannotResolve(c: Codec, mandate: Object, sd: Disclosable, salts: seq<string>, payload: Object)
    requires JsonSound(c) && GoodItem(mandate) && ELLIPSIS in sd.fields
    requires DelegatePayload(c, mandate, sd, Built([], salts)).Ok?
    ensures Resolve(c, payload, DelegatePayload(c, mandate, sd, Built([], salts)).value.1.disclosures).Err?
  {
    var b := Built([], salts);
    var (item, b1) := HideArrays(c, mandate, sd.arrayElements, b).value;
    HideArraysWrites(c, mandate, sd.arrayElements, b, salts);
    var i := EllipsisIsWritten(c, item, sd.fields, b1);
    var ds := DelegatePayload(c, mandate, sd, b).value.1.disclosures;
    UnreadableIsRefused(c, ds, i, map[]);
  }

  // ----- The round trip -----

  /** Builder and resolver undo each other exactly when no array with elements is named twice
      and no field is called `...`: then the built payload, resolved with the collected
      disclosures, holds the original mandate as the one element of `delegate_payload`; and
      otherwise what was built cannot be resolved at all. */
  lemma RoundTripExactly(c: Codec, mandate: Object, sd: Disclosable, salts: seq<string>, payload: Object)
    returns (m: Object)
    requires DigestSound(c) && JsonSound(c) && DistinctTexts(salts) && Issuable(mandate)
    requires DelegatePayload(c, mandate, sd, Built([], salts)).Ok?
    requires Carries(payload, DelegatePayload(c, mandate, sd, Built([], salts)).value.0)
    ensures var r := Resolve(c, payload, DelegatePayload(c, mandate, sd, Built([], salts)).value.1.disclosures);
            && (r.Ok? <==> Sensible(mandate, sd))
            && (r.Ok? ==> Distinct(m) && SameFields(m, mandate) && r.value == Opened(payload, m))
  {
    if ELLIPSIS in sd.fields {
      EllipsisCannotResolve(c, mandate, sd, salts, payload);
      m := [];
    } else {
      var (built, b) := DelegatePayload(c, mandate, sd, Built([], salts)).value;
      var spent: set<string>;
      hide DelegatePayload, Carries, Issuable, NoneTwice, Opened, Restores, ResolveObject, Salted;
      DelegateWrites(c, mandate, sd, salts);
      var t := WrittenTable(c, b, salts);
      m, spent := DelegateRestores(c, mandate, sd, salts, b.disclosures, t);
      CarriedResolves(payload, built, m, t, spent);
      SpentInFull(t, spent);
      CarriedAlg(payload, built);
    }
  }

  lemma SpentInFull(t: Table, spent: set<string>)
    requires spent <= t.Keys
    ensures |spent| == |t| <==> spent == t.Keys
  {
    if |spent| == |t| {
      assert |t| == |t.Keys|;
      SubsetOfSize(spent, t.Keys);
    }
  }

  lemma {:induction false} SubsetOfSize(a: set<string>, b: set<string>)
    requires a <= b && |a| == |b|
    ensures a == b
  {
    if x :| x in b && x !in a {
      assert a <= b - {x};
      Smaller(a, b - {x});
    }
  }

  lemma {:induction false} Smaller(a: set<string>, b: set<string>)
    requires a <= b
    ensures |a| <= |b|
  {
    if a != {} {
      var x :| x in a;
      Smaller(a - {x}, b - {x});
    }
  }

  lemma CarriedAlg(payload: Object, built: Value)
    requires Carries(payload, built)
    ensures AlgAccepted(payload)
  {
  }

  /** The smallest case that cannot be resolved: an array of one element, named twice. */
  lemma NamedTwiceFails(c: Codec, salts: seq<string>)
    requires DigestSound(c) && JsonSound(c) && |salts| >= 3 && DistinctTexts(salts)
    ensures var mandate, sd := [Field("list", Arr([Null]))], Disclosable([], ["list", "list"]);
            var r := DelegatePayload(c, mandate, sd, Built([], salts));
            r.Ok? && Resolve(c, [Field(DELEGATE_PAYLOAD, r.value.0)], r.value.1.disclosures).Err?
  {
    var mandate, sd := [Field("list", Arr([Null]))], Disclosable([], ["list", "list"]);
    NamedTwiceBuilds(c, salts);
    NamedTwiceFacts(sd.arrayElements);
    var built := DelegatePayload(c, mandate, sd, Built([], salts)).value.0;
    AloneCarries(built);
    hide DelegatePayload, Issuable, Sensible, Carries, Resolve;
    var m := RoundTripExactly(c, mandate, sd, salts, [Field(DELEGATE_PAYLOAD, built)]);
  }

  lemma NamedTwiceFacts(keys: seq<string>)
    requires keys == ["list", "list"]
    ensures Issuable([Field("list", Arr([Null]))]) && !Sensible([Field("list", Arr([Null]))], Disclosable([], keys))
  {
    var mandate := [Field("list", Arr([Null]))];
    assert keys[..1][0] == "list";
    assert NonEmptyArray(mandate, keys[1]) && keys[1] in keys[..1];
    assert Inert(Null) && WellFormed(Null) && Fits(Null, READABLE_DEPTH - 3);
    assert Inert(mandate[0].value) && WellFormed(mandate[0].value) && Fits(mandate[0].value, READABLE_DEPTH - 2);
  }

  lemma AloneCarries(built: Value)
    ensures Carries([Field(DELEGATE_PAYLOAD, built)], built)
  {
    var payload := [Field(DELEGATE_PAYLOAD, built)];
    GetAt(payload, 0);
    GetAbsent(payload, SD_ALG_KEY);
  }

  lemma NamedTwiceBuilds(c: Codec, salts: seq<string>)
    requires |salts| >= 3
    ensures DelegatePayload(c, [Field("list", Arr([Null]))], Disclosable([], ["list", "list"]), Built([], salts)).Ok?
  {
    var mandate, keys, b := [Field("list", Arr([Null]))], ["list", "list"], Built([], salts);
    var (d1, b1) := Push(c, b, [Null]).value;
    OneElementHides(c, Null, b);
    var item1 := Insert(SwapRemove(mandate, "list"), "list", Arr([PlaceholderFor(d1)]));
    assert item1 == [Field("list", Arr([PlaceholderFor(d1)]))];
    var (d2, b2) := Push(c, b1, [PlaceholderFor(d1)]).value;
    OneElementHides(c, PlaceholderFor(d1), b1);
    var item2 := Insert(SwapRemove(item1, "list"), "list", Arr([PlaceholderFor(d2)]));
    assert keys[1..] == ["list"] && keys[1..][1..] == [];
    assert HideArrays(c, item2, [], b2) == Ok((item2, b2));
    assert HideArrays(c, item1, keys[1..], b1) == Ok((item2, b2));
    assert HideArrays(c, mandate, keys, b) == Ok((item2, b2));
  }

  lemma OneElementHides(c: Codec, v: Value, b: Built)
    requires Push(c, b, [v]).Ok?
    ensures HideElements(c, [v], b) == Ok(([PlaceholderFor(Push(c, b, [v]).value.0)], Push(c, b, [v]).value.1))
  {
    var elements := [v];
    var (d, b1) := Push(c, b, [v]).value;
    assert elements[1..] == [] && [elements[0]] == [v];
    assert HideElements(c, elements[1..], b1) == Ok(([], b1));
    assert [PlaceholderFor(d)] + [] == [PlaceholderFor(d)];
  }

  /** A mandate whose one field is called `...`, and hidden: it builds, and cannot be resolved. */
  lemma EllipsisNamedFails(c: Codec, salts: seq<string>)
    requires JsonSound(c) && |salts| >= 2
    ensures var mandate, sd := [Field(ELLIPSIS, Null)], Disclosable([ELLIPSIS], []);
            var r := DelegatePayload(c, mandate, sd, Built([], salts));
            r.Ok? && Resolve(c, [Field(DELEGATE_PAYLOAD, r.value.0)], r.value.1.disclosures).Err?
  {
    var mandate, sd, b := [Field(ELLIPSIS, Null)], Disclosable([ELLIPSIS], []), Built([], salts);
    var (d, b1) := Push(c, b, [Str(ELLIPSIS), Null]).value;
    assert sd.fields[1..] == [] && HideArrays(c, mandate, [], b) == Ok((mandate, b));
    assert HideFields(c, SwapRemove(mandate, ELLIPSIS), sd.fields[1..], b1).Ok?;
    assert HideFields(c, mandate, sd.fields, b).Ok?;
    assert DelegatePayload(c, mandate, sd, b).Ok?;
    assert GoodItem(mandate) && ELLIPSIS in sd.fields;
    var built := DelegatePayload(c, mandate, sd, b).value.0;
    EllipsisCannotResolve(c, mandate, sd, salts, [Field(DELEGATE_PAYLOAD, built)]);
  }

  /** What was built sensibly resolves to the mandate. */
  lemma BuilderRoundTrip(c: Codec, mandate: Object, sd: Disclosable, salts: seq<string>, payload: Object)
    returns (m: Object)
    requires DigestSound(c) && JsonSound(c) && DistinctTexts(salts) && Issuable(mandate) && Sensible(mandate, sd)
    requires DelegatePayload(c, mandate, sd, Built([], salts)).Ok?
    requires Carries(payload, DelegatePayload(c, mandate, sd, Built([], salts)).value.0)
    ensures Distinct(m) && SameFields(m, mandate)
    ensures Resolve(c, payload, DelegatePayload(c, mandate, sd, Built([], salts)).value.1.disclosures) == Ok(Opened(payload, m))
  {
    hide *;
    m := RoundTripExactly(c, mandate, sd, salts, payload);
  }
}
