/** Hiding parts of a mandate behind digests (`Builder` of sdjwt.rs). Randomness is a supply
    of salts; running out of it is the random source failing. */
module Builder {
  import opened Results
  import opened Json
  import opened Codec
  import opened SdJwt
  import opened Sorting

  datatype Disclosable = Disclosable(fields: seq<string>, arrayElements: seq<string>)

  /** What a builder has collected, and the salts it has left. */
  datatype Built = Built(disclosures: seq<string>, salts: seq<string>)

  function Push(c: Codec, b: Built, parts: seq<Value>): Result<(string, Built)> {
    if b.salts == [] then Err(Malformed)
    else
      var encoded := c.encode(Arr([Str(b.salts[0])] + parts));
      Ok((c.digest(encoded), Built(b.disclosures + [encoded], b.salts[1..])))
  }

  /** The object `{"...": digest}`. */
  function PlaceholderFor(d: string): Value {
    Obj([Field(ELLIPSIS, Str(d))])
  }

  function HideElements(c: Codec, elements: seq<Value>, b: Built): Result<(seq<Value>, Built)> {
    if elements == [] then Ok(([], b))
    else
      var (d, b1) :- Push(c, b, [elements[0]]);
      var (rest, b2) :- HideElements(c, elements[1..], b1);
      Ok(([PlaceholderFor(d)] + rest, b2))
  }

  function HideArrays(c: Codec, item: Object, keys: seq<string>, b: Built): Result<(Object, Built)>
    decreases |keys|
  {
    if keys == [] then Ok((item, b))
    else
      match Get(item, keys[0])
      case Some(Arr(elements)) =>
        var (hidden, b1) :- HideElements(c, elements, b);
        HideArrays(c, Insert(SwapRemove(item, keys[0]), keys[0], Arr(hidden)), keys[1..], b1)
      case _ => Err(Malformed)
  }

  function HideFields(c: Codec, item: Object, keys: seq<string>, b: Built): Result<(Object, seq<string>, Built)>
    decreases |keys|
  {
    if keys == [] then Ok((item, [], b))
    else
      match Get(item, keys[0])
      case None => Err(Malformed)
      case Some(value) =>
        var (d, b1) :- Push(c, b, [Str(keys[0]), value]);
        var (item', rest, b2) :- HideFields(c, SwapRemove(item, keys[0]), keys[1..], b1);
        Ok((item', [d] + rest, b2))
  }

  // ----- Digests are sorted, so their order tells nothing about the claims -----

  /** Byte order of the texts. */
  predicate TextLeq(a: string, b: string) {
    a == "" || (b != "" && (a[0] < b[0] || (a[0] == b[0] && TextLeq(a[1..], b[1..]))))
  }

  function Sorted(ds: seq<string>): seq<string> {
    SortedBy(ds, TextLeq)
  }

  predicate InOrder(ds: seq<string>) {
    forall i | 0 <= i < |ds| - 1 :: TextLeq(ds[i], ds[i + 1])
  }

  lemma TextLeqTotal(a: string, b: string)
    ensures TextLeq(a, b) || TextLeq(b, a)
  {
  }

  lemma {:induction false} InsertSortedKeepsOrder(d: string, ds: seq<string>)
    requires InOrder(ds)
    ensures InOrder(InsertSorted(d, ds, TextLeq))
    ensures InsertSorted(d, ds, TextLeq)[0] in [d] + ds[..if ds == [] then 0 else 1]
  {
    if ds != [] && !TextLeq(d, ds[0]) {
      TextLeqTotal(d, ds[0]);
      var rest := InsertSorted(d, ds[1..], TextLeq);
      assert InOrder(ds[1..]) by { assert forall i | 0 <= i < |ds| - 1 :: ds[1..][i] == ds[i + 1]; }
      InsertSortedKeepsOrder(d, ds[1..]);
      assert |ds| > 1 ==> TextLeq(ds[0], ds[1]);
      assert TextLeq(ds[0], rest[0]);
      assert forall i | 0 < i < |rest| :: ([ds[0]] + rest)[i] == rest[i - 1];
    } else {
      assert forall i | 0 < i < |ds| + 1 :: ([d] + ds)[i] == ds[i - 1];
    }
  }

  lemma {:induction false} SortedIsInOrder(ds: seq<string>)
    ensures InOrder(Sorted(ds))
  {
    if ds != [] {
      SortedIsInOrder(ds[1..]);
      InsertSortedKeepsOrder(ds[0], Sorted(ds[1..]));
    }
  }

  /** The sorted digests are the same digests, in order. */
  lemma SortedSorts(ds: seq<string>)
    ensures InOrder(Sorted(ds)) && multiset(Sorted(ds)) == multiset(ds)
  {
    SortedIsInOrder(ds);
    SortedPermutes(ds, TextLeq);
  }

  function Strs(ds: seq<string>): (vs: seq<Value>)
    ensures |vs| == |ds| && forall i | 0 <= i < |ds| :: vs[i] == Str(ds[i])
  {
    seq(|ds|, i requires 0 <= i < |ds| => Str(ds[i]))
  }

  function WithSd(item: Object, digests: seq<string>): Object {
    if digests == [] then item else Insert(item, SD, Arr(Strs(Sorted(digests))))
  }

  function DelegatePayload(c: Codec, mandate: Object, sd: Disclosable, b: Built): Result<(Value, Built)> {
    var (item, b1) :- HideArrays(c, mandate, sd.arrayElements, b);
    var (item', digests, b2) :- HideFields(c, item, sd.fields, b1);
    var (wrapper, b3) :- Push(c, b2, [Obj(WithSd(item', digests))]);
    Ok((Arr([PlaceholderFor(wrapper)]), b3))
  }

  // ----- The code that does it -----

  class PayloadBuilder {
    const c: Codec
    var disclosures: seq<string>
    var salts: seq<string>

    constructor (c: Codec, salts: seq<string>)
      ensures this.c == c && Current() == Built([], salts)
    {
      this.c, this.salts, disclosures := c, salts, [];
    }

    ghost function Current(): Built
      reads this
    {
      Built(disclosures, salts)
    }

    method PushParts(parts: seq<Value>) returns (d: Result<string>)
      modifies this
      ensures d.Err? ==> Push(c, old(Current()), parts) == Err(d.error)
      ensures d.Ok? ==> Push(c, old(Current()), parts) == Ok((d.value, Current()))
    {
      if salts == [] {
        return Err(Malformed);
      }
      var encoded := c.encode(Arr([Str(salts[0])] + parts));
      salts := salts[1..];
      disclosures := disclosures + [encoded];
      d := Ok(c.digest(encoded));
    }

    /** The inner loop over the elements of one array. */
    method HideAll(elements: seq<Value>) returns (hidden: Result<seq<Value>>)
      modifies this
      ensures hidden.Err? ==> HideElements(c, elements, old(Current())) == Err(hidden.error)
      ensures hidden.Ok? ==> HideElements(c, elements, old(Current())) == Ok((hidden.value, Current()))
    {
      ghost var whole := HideElements(c, elements, Current());
      var out: seq<Value> := [];
      assert elements[0..] == elements;
      HidingStart(whole);
      for i := 0 to |elements|
        invariant Hiding(whole, out, HideElements(c, elements[i..], Current()))
      {
        ghost var before := Current();
        assert elements[i..][0] == elements[i] && elements[i..][1..] == elements[i + 1..];
        var d :- PushParts([elements[i]]);
        HidingStep(c, whole, out, elements[i..], before, d, Current());
        out := out + [PlaceholderFor(d)];
      }
      assert elements[|elements|..] == [] && out + [] == out;
      hidden := Ok(out);
    }

    method Wrap(mandate: Object, sd: Disclosable) returns (payload: Result<Value>)
      modifies this
      ensures payload.Err? ==> DelegatePayload(c, mandate, sd, old(Current())) == Err(payload.error)
      ensures payload.Ok? ==> DelegatePayload(c, mandate, sd, old(Current())) == Ok((payload.value, Current()))
    {
      ghost var start := Current();
      var item := mandate;
      for i := 0 to |sd.arrayElements|
        invariant HideArrays(c, mandate, sd.arrayElements, start) == HideArrays(c, item, sd.arrayElements[i..], Current())
      {
        var key := sd.arrayElements[i];
        assert sd.arrayElements[i..][0] == key && sd.arrayElements[i..][1..] == sd.arrayElements[i + 1..];
        var taken := Get(item, key);
        var _ :- Check(taken.Some? && taken.value.Arr?, Malformed);
        item := SwapRemove(item, key);
        var hidden :- HideAll(taken.value.items);
        item := Insert(item, key, Arr(hidden));
      }
      assert sd.arrayElements[|sd.arrayElements|..] == [];
      ghost var middle, whole := Current(), HideFields(c, item, sd.fields, Current());
      ghost var full := item;
      var digests: seq<string> := [];
      assert sd.fields[0..] == sd.fields;
      FieldsHidingStart(whole);
      for i := 0 to |sd.fields|
        invariant FieldsHiding(whole, digests, HideFields(c, item, sd.fields[i..], Current()))
      {
        ghost var before := Current();
        var key := sd.fields[i];
        assert sd.fields[i..][0] == key && sd.fields[i..][1..] == sd.fields[i + 1..];
        var value := Get(item, key);
        var _ :- Check(value.Some?, Malformed);
        var d :- PushParts([Str(key), value.value]);
        FieldsHidingStep(c, whole, digests, item, sd.fields[i..], before, d, Current());
        item := SwapRemove(item, key);
        digests := digests + [d];
      }
      assert sd.fields[|sd.fields|..] == [] && digests + [] == digests;
      if digests != [] {
        item := Insert(item, SD, Arr(Strs(Sorted(digests))));
      }
      var wrapper :- PushParts([Obj(item)]);
      payload := Ok(Arr([PlaceholderFor(wrapper)]));
    }
  }

  ghost predicate Hiding(whole: Result<(seq<Value>, Built)>, done: seq<Value>, rest: Result<(seq<Value>, Built)>) {
    match rest
    case Err(e) => whole == Err(e)
    case Ok((hidden, b)) => whole == Ok((done + hidden, b))
  }

  lemma HidingStart(whole: Result<(seq<Value>, Built)>)
    ensures Hiding(whole, [], whole)
  {
    if whole.Ok? { assert [] + whole.value.0 == whole.value.0; }
  }

  lemma HidingStep(c: Codec, whole: Result<(seq<Value>, Built)>, done: seq<Value>, elements: seq<Value>, b: Built,
                   d: string, b1: Built)
    requires elements != [] && Hiding(whole, done, HideElements(c, elements, b))
    requires Push(c, b, [elements[0]]) == Ok((d, b1))
    ensures Hiding(whole, done + [PlaceholderFor(d)], HideElements(c, elements[1..], b1))
  {
    var rest := HideElements(c, elements[1..], b1);
    if rest.Ok? { assert done + ([PlaceholderFor(d)] + rest.value.0) == done + [PlaceholderFor(d)] + rest.value.0; }
  }

  ghost predicate FieldsHiding(whole: Result<(Object, seq<string>, Built)>, done: seq<string>, rest: Result<(Object,
                               seq<string>, Built)>) {
    match rest
    case Err(e) => whole == Err(e)
    case Ok((item, digests, b)) => whole == Ok((item, done + digests, b))
  }

  lemma FieldsHidingStart(whole: Result<(Object, seq<string>, Built)>)
    ensures FieldsHiding(whole, [], whole)
  {
    if whole.Ok? { assert [] + whole.value.1 == whole.value.1; }
  }

  lemma FieldsHidingStep(c: Codec, whole: Result<(Object, seq<string>, Built)>, done: seq<string>, item: Object,
                         keys: seq<string>, b: Built, d: string, b1: Built)
    requires keys != [] && FieldsHiding(whole, done, HideFields(c, item, keys, b)) && Get(item, keys[0]).Some?
    requires Push(c, b, [Str(keys[0]), Get(item, keys[0]).value]) == Ok((d, b1))
    ensures FieldsHiding(whole, done + [d], HideFields(c, SwapRemove(item, keys[0]), keys[1..], b1))
  {
    var rest := HideFields(c, SwapRemove(item, keys[0]), keys[1..], b1);
    if rest.Ok? { assert done + ([d] + rest.value.1) == done + [d] + rest.value.1; }
  }
}
