/** When a mandate can be hidden, and what the digests say of it: exact conditions on names and
    salts, and the sorted list of digests (`Builder` of sdjwt.rs). */
module Building {
  import opened Results
  import opened Json
  import opened Codec
  import opened SdJwt
  import opened Builder
  import opened Wire
  import opened Jws
  import opened Issue

  // ----- Names and salts -----

  predicate NamesArray(item: Object, key: string) {
    match Get(item, key) case Some(Arr(_)) => true case _ => false
  }

  predicate AllArrays(item: Object, keys: seq<string>) {
    forall i | 0 <= i < |keys| :: NamesArray(item, keys[i])
  }

  function Length(item: Object, key: string): nat {
    match Get(item, key) case Some(Arr(elements)) => |elements| case _ => 0
  }

  /** How many elements the named arrays hide, an array named twice twice. */
  function Elements(item: Object, keys: seq<string>): nat {
    if keys == [] then 0 else Length(item, keys[0]) + Elements(item, keys[1..])
  }

  /** The same keys, and arrays as long under the same ones. */
  ghost predicate Alike(item: Object, other: Object) {
    forall key ::
      && (Has(item, key) <==> Has(other, key))
      && (NamesArray(item, key) <==> NamesArray(other, key)) && Length(item, key) == Length(other, key)
  }

  lemma {:induction false} ElementsAlike(item: Object, other: Object, keys: seq<string>)
    requires Alike(item, other)
    ensures Elements(item, keys) == Elements(other, keys) && (AllArrays(item, keys) <==> AllArrays(other, keys))
  {
    hide NamesArray, Length;
    if keys != [] { ElementsAlike(item, other, keys[1..]); }
  }

  lemma {:induction false} ElementsHidden(c: Codec, elements: seq<Value>, b: Built)
    ensures HideElements(c, elements, b).Ok? <==> |elements| <= |b.salts|
    ensures HideElements(c, elements, b).Err? ==> HideElements(c, elements, b) == Err(Malformed)
    ensures HideElements(c, elements, b).Ok? ==>
              |HideElements(c, elements, b).value.0| == |elements| && |HideElements(c, elements, b).value.1.salts| == |b.salts| - |elements|
  {
    if elements != [] && b.salts != [] {
      ElementsHidden(c, elements[1..], Push(c, b, [elements[0]]).value.1);
    }
  }

  function Hidden(item: Object, key: string, elements: seq<Value>): Object {
    Insert(SwapRemove(item, key), key, Arr(elements))
  }

  lemma HiddenAlike(item: Object, key: string, elements: seq<Value>)
    requires Distinct(item) && NamesArray(item, key) && |elements| == Length(item, key)
    ensures Distinct(Hidden(item, key, elements)) && Alike(item, Hidden(item, key, elements))
  {
    SwapRemoveEffect(item, key);
    InsertEffect(SwapRemove(item, key), key, Arr(elements));
    hide SwapRemove, Insert, Get;
    forall k ensures Get(Hidden(item, key, elements), k) == if k == key then Some(Arr(elements)) else Get(item, k) {}
    forall k ensures Has(item, k) <==> Has(Hidden(item, key, elements), k) {
      GetHas(item, k);
      GetHas(Hidden(item, key, elements), k);
    }
  }

  lemma GetHas(m: Object, key: string)
    ensures Get(m, key).Some? <==> Has(m, key)
  {
  }

  lemma HideArraysStep(c: Codec, item: Object, keys: seq<string>, b: Built)
    requires keys != []
    ensures HideArrays(c, item, keys, b)
         == if NamesArray(item, keys[0]) && HideElements(c, Get(item, keys[0]).value.items, b).Ok? then
              var (hidden, b1) := HideElements(c, Get(item, keys[0]).value.items, b).value;
              HideArrays(c, Hidden(item, keys[0], hidden), keys[1..], b1)
            else Err(Malformed)
  {
    if NamesArray(item, keys[0]) { ElementsHidden(c, Get(item, keys[0]).value.items, b); }
    hide HideElements, Insert, SwapRemove, Get;
  }

  lemma AlikeTransitive(a: Object, b: Object, d: Object)
    requires Alike(a, b) && Alike(b, d)
    ensures Alike(a, d)
  {
    hide NamesArray, Length, Has;
  }

  /** Hidden from what is left, with the salts that are left. */
  ghost predicate ArraysHide(item: Object, keys: seq<string>, salts: nat, r: Result<(Object, Built)>) {
    && (r.Ok? <==> AllArrays(item, keys) && Elements(item, keys) <= salts)
    && (r.Err? ==> r == Err(Malformed))
    && (r.Ok? ==> Distinct(r.value.0) && Alike(item, r.value.0) && |r.value.1.salts| == salts - Elements(item, keys))
  }

  lemma ArraysHideCons(item: Object, item1: Object, keys: seq<string>, salts: nat, r: Result<(Object, Built)>)
    requires keys != [] && NamesArray(item, keys[0]) && Length(item, keys[0]) <= salts && Alike(item, item1)
    requires ArraysHide(item1, keys[1..], salts - Length(item, keys[0]), r)
    ensures ArraysHide(item, keys, salts, r)
  {
    AllArraysCons(item, keys);
    ElementsAlike(item, item1, keys[1..]);
    if r.Ok? { AlikeTransitive(item, item1, r.value.0); }
    hide Alike, AllArrays, Elements, Distinct, NamesArray, Length;
  }

  /** Arrays are hidden exactly when each name is an array's and there are salts enough. */
  lemma {:induction false} ArraysHidden(c: Codec, item: Object, keys: seq<string>, b: Built)
    requires Distinct(item)
    ensures ArraysHide(item, keys, |b.salts|, HideArrays(c, item, keys, b))
    decreases |keys|
  {
    if keys != [] {
      HideArraysStep(c, item, keys, b);
      AllArraysCons(item, keys);
      hide HideArrays, HideElements, AllArrays, Elements, Distinct, Alike, Hidden;
      if NamesArray(item, keys[0]) {
        var elements := Get(item, keys[0]).value.items;
        ElementsHidden(c, elements, b);
        if HideElements(c, elements, b).Ok? {
          var (hidden, b1) := HideElements(c, elements, b).value;
          HiddenAlike(item, keys[0], hidden);
          ArraysHidden(c, Hidden(item, keys[0], hidden), keys[1..], b1);
          ArraysHideCons(item, Hidden(item, keys[0], hidden), keys, |b.salts|, HideArrays(c, item, keys, b));
        }
      }
    }
  }

  lemma AllArraysCons(item: Object, keys: seq<string>)
    requires keys != []
    ensures AllArrays(item, keys) <==> NamesArray(item, keys[0]) && AllArrays(item, keys[1..])
    ensures Elements(item, keys) == Length(item, keys[0]) + Elements(item, keys[1..])
  {
    hide NamesArray;
    assert keys == [keys[0]] + keys[1..];
  }

  /** Distinct names of fields that are there. */
  predicate NamesFields(item: Object, keys: seq<string>) {
    && (forall i | 0 <= i < |keys| :: Has(item, keys[i]))
    && forall i, j | 0 <= i < j < |keys| :: keys[i] != keys[j]
  }

  lemma NamesFieldsCons(item: Object, keys: seq<string>)
    requires keys != [] && Distinct(item)
    ensures NamesFields(item, keys) <==> Has(item, keys[0]) && NamesFields(SwapRemove(item, keys[0]), keys[1..])
  {
    SwapRemoveEffect(item, keys[0]);
    hide SwapRemove, Distinct;
    forall key ensures Has(SwapRemove(item, keys[0]), key) <==> Has(item, key) && key != keys[0] {
      GetHas(item, key);
      GetHas(SwapRemove(item, keys[0]), key);
    }
    assert keys == [keys[0]] + keys[1..];
  }

  /** The digests are those of the new disclosures, one after the other. */
  predicate DigestsOf(c: Codec, digests: seq<string>, before: seq<string>, after: seq<string>) {
    && |after| == |before| + |digests| && before <= after
    && forall i | 0 <= i < |digests| :: digests[i] == c.digest(after[|before| + i])
  }

  predicate FieldsHide(c: Codec, item: Object, keys: seq<string>, b: Built, r: Result<(Object, seq<string>, Built)>) {
    && (r.Ok? <==> NamesFields(item, keys) && |keys| <= |b.salts|)
    && (r.Err? ==> r == Err(Malformed))
    && (r.Ok? ==>
          && Distinct(r.value.0) && |r.value.1| == |keys| && |r.value.2.salts| == |b.salts| - |keys|
          && DigestsOf(c, r.value.1, b.disclosures, r.value.2.disclosures))
  }

  lemma HideFieldsStep(c: Codec, item: Object, keys: seq<string>, b: Built)
    requires keys != [] && Has(item, keys[0]) && b.salts != []
    ensures var (d, b1) := Push(c, b, [Str(keys[0]), Get(item, keys[0]).value]).value;
            var r := HideFields(c, SwapRemove(item, keys[0]), keys[1..], b1);
            && HideFields(c, item, keys, b) == (if r.Ok? then Ok((r.value.0, [d] + r.value.1, r.value.2)) else Err(r.error))
            && b1.salts == b.salts[1..] && |b1.disclosures| == |b.disclosures| + 1
            && b1.disclosures[..|b.disclosures|] == b.disclosures && d == c.digest(b1.disclosures[|b.disclosures|])
  {
    hide SwapRemove;
  }

  lemma DigestsCons(c: Codec, d: string, digests: seq<string>, before: seq<string>, middle: seq<string>, after: seq<string>)
    requires |middle| == |before| + 1 && middle[..|before|] == before && d == c.digest(middle[|before|])
    requires DigestsOf(c, digests, middle, after)
    ensures DigestsOf(c, [d] + digests, before, after)
  {
    assert after[..|before|] == middle[..|before|] && after[|before|] == middle[|before|];
    forall i | 0 <= i < |digests| + 1 ensures ([d] + digests)[i] == c.digest(after[|before| + i]) {
      if i > 0 { assert digests[i - 1] == c.digest(after[|middle| + (i - 1)]); }
    }
  }

  /** Fields are hidden exactly when the names differ, each is a field's, and there are salts
      enough; each disclosure is digested. */
  lemma {:induction false} FieldsHidden(c: Codec, item: Object, keys: seq<string>, b: Built)
    requires Distinct(item)
    ensures FieldsHide(c, item, keys, b, HideFields(c, item, keys, b))
    decreases |keys|
  {
    if keys != [] {
      NamesFieldsCons(item, keys);
      if Has(item, keys[0]) && b.salts != [] {
        var (d, b1) := Push(c, b, [Str(keys[0]), Get(item, keys[0]).value]).value;
        HideFieldsStep(c, item, keys, b);
        SwapRemoveEffect(item, keys[0]);
        FieldsHidden(c, SwapRemove(item, keys[0]), keys[1..], b1);
        var r := HideFields(c, SwapRemove(item, keys[0]), keys[1..], b1);
        hide SwapRemove, NamesFields, HideFields, Push, DigestsOf, Distinct;
        if r.Ok? { DigestsCons(c, d, r.value.1, b.disclosures, b1.disclosures, r.value.2.disclosures); }
      } else {
        hide NamesFields, SwapRemove, Distinct;
      }
    }
  }

  // ----- The whole mandate -----

  /** One salt for each hidden element and field, and one for the mandate. */
  function SaltsNeeded(mandate: Object, sd: Disclosable): nat {
    Elements(mandate, sd.arrayElements) + |sd.fields| + 1
  }

  lemma NamesFieldsAlike(item: Object, other: Object, keys: seq<string>)
    requires Alike(item, other)
    ensures NamesFields(item, keys) <==> NamesFields(other, keys)
  {
    hide NamesArray, Length, Has;
  }

  /** A mandate is hidden exactly when the arrays named are arrays, the fields named are fields,
      each once, and there are salts for all of them; otherwise it is malformed. */
  lemma BuildsExactly(c: Codec, mandate: Object, sd: Disclosable, salts: seq<string>)
    requires Distinct(mandate)
    ensures var r := DelegatePayload(c, mandate, sd, Built([], salts));
            && (r.Ok? <==>
                  && AllArrays(mandate, sd.arrayElements) && NamesFields(mandate, sd.fields)
                  && SaltsNeeded(mandate, sd) <= |salts|)
            && (r.Err? ==> r == Err(Malformed))
  {
    var b := Built([], salts);
    var arrays := HideArrays(c, mandate, sd.arrayElements, b);
    ArraysHidden(c, mandate, sd.arrayElements, b);
    if arrays.Ok? {
      NamesFieldsAlike(mandate, arrays.value.0, sd.fields);
      FieldsHidden(c, arrays.value.0, sd.fields, arrays.value.1);
    }
    hide HideArrays, HideFields, AllArrays, NamesFields, Elements, Alike, WithSd, PlaceholderFor, Distinct, DigestsOf;
  }

  /** A presentation is refused exactly for what it is written over, an empty audience or nonce,
      or a mandate that cannot be hidden. */
  lemma PresentsExactly(c: Codec, prev: string, mandate: Object, sd: Disclosable, key: SigningKey, aud: string, nonce: string,
                        iat: int, salts: seq<string>)
    requires Distinct(mandate)
    ensures var r := Present(c, prev, mandate, sd, key, aud, nonce, iat, salts);
            && (r.Ok? <==>
                  && NoPair(prev) && EndsInTilde(prev) && aud != "" && nonce != ""
                  && AllArrays(mandate, sd.arrayElements) && NamesFields(mandate, sd.fields)
                  && SaltsNeeded(mandate, sd) <= |salts|)
            && (r.Err? ==> r == Err(Malformed))
  {
    BuildsExactly(c, mandate, sd, salts);
    hide DelegatePayload, NoPair, EndsInTilde, AllArrays, NamesFields, SaltsNeeded, Sign, Header, HopPayload, SegmentText;
  }

  // ----- The order of the digests -----

  /** The first difference is at `k`: there `a` has ended, or has the smaller character. */
  predicate FirstDifference(a: string, b: string, k: nat) {
    k <= |a| && k < |b| && a[..k] == b[..k] && (k == |a| || a[k] < b[k])
  }

  ghost predicate NotAfter(a: string, b: string) {
    a == b || exists k: nat :: FirstDifference(a, b, k)
  }

  lemma {:induction false} TextLeqExactly(a: string, b: string)
    ensures TextLeq(a, b) <==> NotAfter(a, b)
  {
    if a == "" || b == "" || a[0] != b[0] {
      if TextLeq(a, b) && a != b { assert FirstDifference(a, b, 0); }
    } else {
      TextLeqExactly(a[1..], b[1..]);
      assert a == [a[0]] + a[1..] && b == [b[0]] + b[1..];
      if k: nat :| FirstDifference(a[1..], b[1..], k) {
        assert a[..k + 1] == [a[0]] + a[1..][..k] && b[..k + 1] == [b[0]] + b[1..][..k];
        assert FirstDifference(a, b, k + 1);
      }
      if k: nat :| FirstDifference(a, b, k) {
        assert k > 0;
        assert a[1..][..k - 1] == a[..k][1..] && b[1..][..k - 1] == b[..k][1..];
        assert FirstDifference(a[1..], b[1..], k - 1);
      }
    }
  }

  ghost predicate Ascends(ds: seq<string>) {
    forall i | 0 <= i < |ds| - 1 :: NotAfter(ds[i], ds[i + 1])
  }

  lemma SortedAscends(ds: seq<string>)
    ensures Ascends(Sorted(ds)) && multiset(Sorted(ds)) == multiset(ds) && |Sorted(ds)| == |ds|
  {
    SortedSorts(ds);
    hide NotAfter;
    var s := Sorted(ds);
    forall i | 0 <= i < |s| - 1 ensures NotAfter(s[i], s[i + 1]) { TextLeqExactly(s[i], s[i + 1]); }
  }

  /** What the last disclosure of a mandate holds: the mandate without its hidden fields, whose
      digests it lists. */
  datatype Listing = Listing(salt: string, item: Object, digests: seq<string>)

  function DigestsAll(c: Codec, texts: seq<string>): (ds: seq<string>)
    ensures |ds| == |texts| && forall i | 0 <= i < |texts| :: ds[i] == c.digest(texts[i])
  {
    seq(|texts|, i requires 0 <= i < |texts| => c.digest(texts[i]))
  }

  /** The mandate goes out as one placeholder, for the last disclosure; and under `_sd` that one
      lists the digests of the disclosures of the named fields, each once, in ascending order. */
  lemma DigestsAreListed(c: Codec, mandate: Object, sd: Disclosable, salts: seq<string>) returns (l: Listing)
    requires Distinct(mandate) && sd.fields != [] && DelegatePayload(c, mandate, sd, Built([], salts)).Ok?
    ensures var (payload, b) := DelegatePayload(c, mandate, sd, Built([], salts)).value;
            var n := |b.disclosures|;
            && n > |sd.fields|
            && payload == Arr([Obj([Field("...", Str(c.digest(b.disclosures[n - 1])))])])
            && b.disclosures[n - 1] == c.encode(Arr([Str(l.salt), Obj(l.item)]))
            && Get(l.item, "_sd") == Some(Arr(Strs(l.digests))) && Ascends(l.digests)
            && multiset(l.digests) == multiset(DigestsAll(c, b.disclosures[n - 1 - |sd.fields|..n - 1]))
  {
    var b0 := Built([], salts);
    ArraysHidden(c, mandate, sd.arrayElements, b0);
    var (item, b1) := HideArrays(c, mandate, sd.arrayElements, b0).value;
    FieldsHidden(c, item, sd.fields, b1);
    var (item', digests, b2) := HideFields(c, item, sd.fields, b1).value;
    WrapperLists(c, item', digests, b1, b2);
    l := Listing(b2.salts[0], WithSd(item', digests), Sorted(digests));
    hide HideArrays, HideFields, WithSd, Sorted, Ascends, DigestsOf, Push, AllArrays, NamesFields, Alike, Elements, Distinct, Get;
  }

  lemma WrapperLists(c: Codec, item: Object, digests: seq<string>, b1: Built, b2: Built)
    requires digests != [] && Distinct(item) && DigestsOf(c, digests, b1.disclosures, b2.disclosures)
    ensures Get(WithSd(item, digests), "_sd") == Some(Arr(Strs(Sorted(digests)))) && Ascends(Sorted(digests))
    ensures b2.salts == [] ==> Push(c, b2, [Obj(WithSd(item, digests))]).Err?
    ensures b2.salts != [] ==>
              var wrapper := c.encode(Arr([Str(b2.salts[0]), Obj(WithSd(item, digests))]));
              && Push(c, b2, [Obj(WithSd(item, digests))]) == Ok((c.digest(wrapper), Built(b2.disclosures + [wrapper], b2.salts[1..])))
              && var n := |b2.disclosures| + 1;
              && multiset(Sorted(digests)) == multiset(DigestsAll(c, (b2.disclosures + [wrapper])[n - 1 - |digests|..n - 1]))
  {
    SortedAscends(digests);
    InsertEffect(item, SD, Arr(Strs(Sorted(digests))));
    hide Insert, Get, Sorted, Ascends;
    if b2.salts != [] {
      var wrapper := c.encode(Arr([Str(b2.salts[0]), Obj(WithSd(item, digests))]));
      assert [Str(b2.salts[0])] + [Obj(WithSd(item, digests))] == [Str(b2.salts[0]), Obj(WithSd(item, digests))];
      var n := |b2.disclosures| + 1;
      assert DigestsAll(c, (b2.disclosures + [wrapper])[n - 1 - |digests|..n - 1]) == digests;
    }
  }
}
