/** Disclosures and their resolution into a payload (sdjwt.rs, section 7.1 of RFC 9901).
    The functions say what resolution computes; class `Resolver` is the code that spends
    the digest table in place. */
module SdJwt {
  import opened Results
  import opened Json
  import opened Codec

  const SD: string := "_sd"
  const ELLIPSIS: string := "..."
  const SD_ALG_KEY: string := "_sd_alg"
  const SD_ALG: string := "sha-256"
  const DELEGATE_PAYLOAD: string := "delegate_payload"

  /** `hop_id` digests the signing input: the JWT up to its last dot. */
  function SigningInput(jwt: string): string {
    var p := PastLast(jwt, '.');
    if p == 0 then jwt else jwt[..p - 1]
  }

  function HopId(c: Codec, jwt: string): string {
    c.digest(SigningInput(jwt))
  }

  datatype Disclosure = Disclosure(name: Option<string>, value: Value)

  function Parse(c: Codec, encoded: string): Result<Disclosure> {
    match c.decode(encoded)
    case Some(Arr(items)) =>
      if items == [] || !items[0].Str? then Err(BadDisclosure)
      else if |items| == 2 then Ok(Disclosure(None, items[1]))
      else if |items| == 3 then
        if !items[1].Str? || items[1].s == SD || items[1].s == ELLIPSIS then Err(BadDisclosure)
        else Ok(Disclosure(Some(items[1].s), items[2]))
      else Err(BadDisclosure)
    case _ => Err(BadDisclosure)
  }

  type Table = map<string, Disclosure>

  /** The disclosures by digest. A repeated digest is an error. */
  function BuildTable(c: Codec, ds: seq<string>, table: Table := map[]): Result<Table> {
    if ds == [] then Ok(table)
    else
      var d :- Parse(c, ds[0]);
      if c.digest(ds[0]) in table then Err(BadDisclosure)
      else BuildTable(c, ds[1..], table[c.digest(ds[0]) := d])
  }

  // ----- Resolution -----

  datatype State = State(table: Table, seen: set<string>, used: nat, withheld: nat)

  /** One lookup: at most one per digest, and a disclosure found is spent. */
  function Take(st: State, d: string): Result<(Option<Disclosure>, State)> {
    if d in st.seen then Err(BadDisclosure)
    else if d in st.table then
      Ok((Some(st.table[d]), State(st.table - {d}, st.seen + {d}, st.used + 1, st.withheld)))
    else
      Ok((None, State(st.table, st.seen + {d}, st.used, st.withheld + 1)))
  }

  /** Whether an array element is a placeholder, and for which digest. */
  function Placeholder(v: Value): Option<Option<string>> {
    if v.Obj? && |v.fields| == 1 && v.fields[0].key == ELLIPSIS then
      Some(if v.fields[0].value.Str? then Some(v.fields[0].value.s) else None)
    else None
  }

  function SdDigests(m: Object): Result<seq<Value>> {
    match Get(m, SD)
    case None => Ok([])
    case Some(Arr(ds)) => Ok(ds)
    case _ => Err(BadDisclosure)
  }

  lemma SdDigestsSize(m: Object)
    requires SdDigests(m).Ok?
    ensures |SdDigests(m).value| <= FieldsSize(m)
    ensures FieldsSize(SwapRemove(m, SD)) <= FieldsSize(m)
  {
    SwapRemoveSize(m, SD);
  }

  function ResolveValue(v: Value, st: State): (r: Result<(Value, State)>)
    ensures r.Ok? ==> r.value.1.table.Keys <= st.table.Keys
    decreases st.table.Keys, Size(v), 1
  {
    match v
    case Obj(m) => var (m', st') :- ResolveObject(m, st); Ok((Obj(m'), st'))
    case Arr(items) => var (items', st') :- ResolveItems(items, st); Ok((Arr(items'), st'))
    case _ => Ok((v, st))
  }

  function ResolveObject(m: Object, st: State): (r: Result<(Object, State)>)
    ensures r.Ok? ==> r.value.1.table.Keys <= st.table.Keys
    decreases st.table.Keys, FieldsSize(m) + 1, 0
  {
    var digests :- SdDigests(m);
    SdDigestsSize(m);
    var (fields, st1) :- ResolveFields(SwapRemove(m, SD), st);
    ResolveDigests(fields, digests, st1)
  }

  function ResolveFields(m: Object, st: State): (r: Result<(Object, State)>)
    ensures r.Ok? ==> r.value.1.table.Keys <= st.table.Keys
    decreases st.table.Keys, FieldsSize(m), 0
  {
    if m == [] then Ok(([], st))
    else
      var (value, st1) :- ResolveValue(m[0].value, st);
      var (rest, st2) :- ResolveFields(m[1..], st1);
      Ok(([Field(m[0].key, value)] + rest, st2))
  }

  function ResolveDigests(m: Object, digests: seq<Value>, st: State): (r: Result<(Object, State)>)
    ensures r.Ok? ==> r.value.1.table.Keys <= st.table.Keys
    decreases st.table.Keys, |digests|, 0
  {
    if digests == [] then Ok((m, st))
    else if !digests[0].Str? then Err(BadDisclosure)
    else
      var (found, st1) :- Take(st, digests[0].s);
      match found
      case None => ResolveDigests(m, digests[1..], st1)
      case Some(Disclosure(None, _)) => Err(BadDisclosure)
      case Some(Disclosure(Some(name), hidden)) =>
        assert st1.table.Keys < st.table.Keys;
        var (value, st2) :- ResolveValue(hidden, st1);
        if Has(m, name) then Err(BadDisclosure)
        else ResolveDigests(Insert(m, name, value), digests[1..], st2)
  }

  function ResolveItems(items: seq<Value>, st: State): (r: Result<(seq<Value>, State)>)
    ensures r.Ok? ==> r.value.1.table.Keys <= st.table.Keys
    decreases st.table.Keys, ItemsSize(items), 0
  {
    if items == [] then Ok(([], st))
    else
      var (kept, st1) :- ResolveElement(items[0], st);
      var (rest, st2) :- ResolveItems(items[1..], st1);
      Ok((kept + rest, st2))
  }

  /** What stays of one array element: nothing when its disclosure is withheld. */
  function ResolveElement(element: Value, st: State): (r: Result<(seq<Value>, State)>)
    ensures r.Ok? ==> r.value.1.table.Keys <= st.table.Keys
    decreases st.table.Keys, Size(element), 2
  {
    match Placeholder(element)
    case Some(None) => Err(BadDisclosure)
    case Some(Some(d)) =>
      var (found, st1) :- Take(st, d);
      (match found
       case None => Ok(([], st1))
       case Some(Disclosure(Some(_), _)) => Err(BadDisclosure)
       case Some(Disclosure(None, hidden)) =>
         assert st1.table.Keys < st.table.Keys;
         var (value, st2) :- ResolveValue(hidden, st1);
         Ok(([value], st2)))
    case None =>
      var (value, st1) :- ResolveValue(element, st);
      Ok(([value], st1))
  }

  function StartState(table: Table): State {
    State(table, {}, 0, 0)
  }

  predicate AlgAccepted(payload: Object) {
    match Get(payload, SD_ALG_KEY)
    case None => true
    case Some(Str(alg)) => alg == SD_ALG
    case _ => false
  }

  /** `resolve`: every disclosure is used and no digest is left without one. */
  function Resolve(c: Codec, payload: Object, ds: seq<string>): Result<Object> {
    var _ :- Check(AlgAccepted(payload), BadDisclosure);
    var table :- BuildTable(c, ds);
    var (m, st) :- ResolveObject(SwapRemove(payload, SD_ALG_KEY), StartState(table));
    var _ :- Check(st.used == |ds|, BadDisclosure);
    var _ :- Check(st.withheld == 0, BadDisclosure);
    Ok(m)
  }

  // ----- The code that does it -----

  class Resolver {
    var byDigest: Table
    var seen: set<string>
    var used: nat
    var withheld: nat

    constructor (table: Table)
      ensures Current() == StartState(table)
    {
      byDigest, seen, used, withheld := table, {}, 0, 0;
    }

    ghost function Current(): State
      reads this
    {
      State(byDigest, seen, used, withheld)
    }

    method TakeDigest(d: string) returns (found: Result<Option<Disclosure>>)
      modifies this
      ensures found.Err? ==> Take(old(Current()), d) == Err(found.error)
      ensures found.Ok? ==> Take(old(Current()), d) == Ok((found.value, Current()))
    {
      if d in seen {
        return Err(BadDisclosure);
      }
      seen := seen + {d};
      if d in byDigest {
        found := Ok(Some(byDigest[d]));
        byDigest := byDigest - {d};
        used := used + 1;
      } else {
        found := Ok(None);
        withheld := withheld + 1;
      }
    }

    method InValue(v: Value) returns (r: Result<Value>)
      modifies this
      ensures r.Err? ==> ResolveValue(v, old(Current())) == Err(r.error)
      ensures r.Ok? ==> ResolveValue(v, old(Current())) == Ok((r.value, Current()))
      decreases byDigest.Keys, Size(v), 1
    {
      match v
      case Obj(m) =>
        var m' :- InObject(m);
        r := Ok(Obj(m'));
      case Arr(items) =>
        var items' :- InArray(items);
        r := Ok(Arr(items'));
      case _ =>
        r := Ok(v);
    }

    method InObject(m: Object) returns (r: Result<Object>)
      modifies this
      ensures r.Err? ==> ResolveObject(m, old(Current())) == Err(r.error)
      ensures r.Ok? ==> ResolveObject(m, old(Current())) == Ok((r.value, Current()))
      decreases byDigest.Keys, FieldsSize(m) + 1, 0
    {
      hide SwapRemove, Insert, Find, Continues, ResolveValue, ResolveFields, ResolveDigests, ResolveObject;
      ghost var start := Current();
      ObjectInStages(m, start);
      var digests :- SdDigests(m);
      SdDigestsSize(m);
      var out := SwapRemove(m, SD);
      ghost var plain := out;
      ghost var whole := ResolveFields(plain, start);
      ContinuesStart(whole);
      assert plain[0..] == plain && out[..0] == [];
      var i := 0;
      while i < |out|
        invariant 0 <= i <= |out| == |plain| && out[i..] == plain[i..]
        invariant Current().table.Keys <= start.table.Keys
        invariant Continues(whole, out[..i], ResolveFields(plain[i..], Current()))
      {
        ghost var before := Current();
        FieldSmaller(plain, i);
        FieldReplaced(out, plain, i);
        if ResolveValue(out[i].value, before).Err? { ContinuesFails(whole, out[..i], plain[i..], before); }
        var value :- InValue(out[i].value);
        ContinuesStep(whole, out[..i], plain[i..], before, value, Current());
        out := out[i := Field(out[i].key, value)];
        i := i + 1;
      }
      assert plain[i..] == [] && out[..i] == out;
      ContinuesEnd(whole, out, Current());
      ghost var filled := ResolveDigests(out, digests, Current());
      var j := 0;
      while j < |digests|
        invariant 0 <= j <= |digests|
        invariant Current().table.Keys <= start.table.Keys
        invariant filled == ResolveDigests(out, digests[j..], Current())
      {
        ghost var before := Current();
        assert digests[j..][0] == digests[j] && digests[j..][1..] == digests[j + 1..];
        DigestsInStages(out, digests[j..], before);
        var _ :- Check(digests[j].Str?, BadDisclosure);
        var found :- TakeDigest(digests[j].s);
        if found.Some? {
          var _ :- Check(found.value.name.Some?, BadDisclosure);
          assert byDigest.Keys < before.table.Keys;
          var value :- InValue(found.value.value);
          var _ :- Check(!Has(out, found.value.name.value), BadDisclosure);
          out := Insert(out, found.value.name.value, value);
        }
        j := j + 1;
      }
      assert digests[j..] == [];
      DigestsInStages(out, [], Current());
      r := Ok(out);
    }

    method InArray(items: seq<Value>) returns (r: Result<seq<Value>>)
      modifies this
      ensures r.Err? ==> ResolveItems(items, old(Current())) == Err(r.error)
      ensures r.Ok? ==> ResolveItems(items, old(Current())) == Ok((r.value, Current()))
      decreases byDigest.Keys, ItemsSize(items), 0
    {
      ghost var start := Current();
      ghost var whole := ResolveItems(items, start);
      var out: seq<Value> := [];
      ContinuesWithStart(whole);
      assert items[0..] == items;
      var i := 0;
      while i < |items|
        invariant 0 <= i <= |items|
        invariant Current().table.Keys <= start.table.Keys
        invariant ContinuesWith(whole, out, ResolveItems(items[i..], Current()))
      {
        ghost var before := Current();
        assert items[i..][0] == items[i] && items[i..][1..] == items[i + 1..];
        SuffixSize(items, i);
        ghost var element := ResolveElement(items[i], before);
        assert element.Err? ==> ResolveItems(items[i..], before) == Err(element.error);
        var placeholder := Placeholder(items[i]);
        if placeholder.Some? {
          var _ :- Check(placeholder.value.Some?, BadDisclosure);
          var found :- TakeDigest(placeholder.value.value);
          if found.Some? {
            var _ :- Check(found.value.name.None?, BadDisclosure);
            assert byDigest.Keys < before.table.Keys;
            var value :- InValue(found.value.value);
            ContinuesWithStep(whole, out, items[i..], before, [value], Current());
            out := out + [value];
          } else {
            ContinuesWithStep(whole, out, items[i..], before, [], Current());
            assert out + [] == out;
          }
        } else {
          var value :- InValue(items[i]);
          ContinuesWithStep(whole, out, items[i..], before, [value], Current());
          out := out + [value];
        }
        i := i + 1;
      }
      assert items[i..] == [] && out + [] == out;
      r := Ok(out);
    }
  }

  lemma FieldSmaller(m: Object, i: nat)
    requires i < |m|
    ensures Size(m[i].value) < FieldsSize(m)
  {
    FieldSize(m, i);
  }

  /** Replacing field `i` of `out`, which is `plain` from there on. */
  lemma FieldReplaced(out: Object, plain: Object, i: nat)
    requires i < |out| == |plain| && out[i..] == plain[i..]
    ensures out[i] == plain[i] == plain[i..][0] && plain[i..][1..] == plain[i + 1..]
    ensures forall f :: out[i := f][..i + 1] == out[..i] + [f] && out[i := f][i + 1..] == plain[i + 1..]
  {
    assert out[i] == out[i..][0] && out[i..][1..] == out[i + 1..];
    assert plain[i..][1..] == plain[i + 1..];
  }

  lemma SuffixSize(items: seq<Value>, i: nat)
    requires i < |items|
    ensures 1 + Size(items[i]) + ItemsSize(items[i + 1..]) <= ItemsSize(items)
  {
    if i > 0 {
      SuffixSize(items[1..], i - 1);
      assert items[1..][i - 1] == items[i] && items[1..][i..] == items[i + 1..];
    }
  }

  /** An object: its fields, and then its digests. */
  lemma ObjectInStages(m: Object, st: State)
    ensures SdDigests(m).Err? ==> ResolveObject(m, st) == Err(SdDigests(m).error)
    ensures SdDigests(m).Ok? ==>
              var resolved := ResolveFields(SwapRemove(m, SD), st);
              && (resolved.Err? ==> ResolveObject(m, st) == Err(resolved.error))
              && (resolved.Ok? ==> ResolveObject(m, st) == ResolveDigests(resolved.value.0, SdDigests(m).value, resolved.value.1))
  {
  }

  /** Digests: the first one, and then the others. */
  lemma DigestsInStages(m: Object, digests: seq<Value>, st: State)
    ensures digests == [] ==> ResolveDigests(m, digests, st) == Ok((m, st))
    ensures digests != [] && !digests[0].Str? ==> ResolveDigests(m, digests, st) == Err(BadDisclosure)
    ensures digests != [] && digests[0].Str? ==>
              var taken := Take(st, digests[0].s);
              && (taken.Err? ==> ResolveDigests(m, digests, st) == Err(taken.error))
              && (taken.Ok? && taken.value.0.None? ==>
                    ResolveDigests(m, digests, st) == ResolveDigests(m, digests[1..], taken.value.1))
              && (taken.Ok? && taken.value.0.Some? ==>
                    ResolveDigests(m, digests, st) == FoundDigest(m, taken.value.0.value, digests[1..], taken.value.1))
  {
  }

  /** What follows once a digest is found. */
  function FoundDigest(m: Object, d: Disclosure, others: seq<Value>, st: State): Result<(Object, State)> {
    if d.name.None? then Err(BadDisclosure)
    else
      var (value, st1) :- ResolveValue(d.value, st);
      if Has(m, d.name.value) then Err(BadDisclosure) else ResolveDigests(Insert(m, d.name.value, value), others, st1)
  }

  /** `rest`, with the fields `done` put in front, is `whole`. */
  ghost predicate Continues(whole: Result<(Object, State)>, done: Object, rest: Result<(Object, State)>) {
    match rest
    case Err(e) => whole == Err(e)
    case Ok((m, st)) => whole == Ok((done + m, st))
  }

  ghost predicate ContinuesWith(whole: Result<(seq<Value>, State)>, done: seq<Value>, rest: Result<(seq<Value>,
                                State)>) {
    match rest
    case Err(e) => whole == Err(e)
    case Ok((items, st)) => whole == Ok((done + items, st))
  }

  lemma ContinuesStart(whole: Result<(Object, State)>)
    ensures Continues(whole, [], whole)
  {
    if whole.Ok? { assert [] + whole.value.0 == whole.value.0; }
  }

  lemma ContinuesEnd(whole: Result<(Object, State)>, done: Object, st: State)
    requires Continues(whole, done, ResolveFields([], st))
    ensures whole == Ok((done, st))
  {
    assert done + [] == done;
  }

  lemma ContinuesFails(whole: Result<(Object, State)>, done: Object, m: Object, st: State)
    requires m != [] && Continues(whole, done, ResolveFields(m, st)) && ResolveValue(m[0].value, st).Err?
    ensures whole == Err(ResolveValue(m[0].value, st).error)
  {
  }

  lemma ContinuesStep(whole: Result<(Object, State)>, done: Object, m: Object, st: State, value: Value, st1: State)
    requires m != [] && Continues(whole, done, ResolveFields(m, st))
    requires ResolveValue(m[0].value, st) == Ok((value, st1))
    ensures Continues(whole, done + [Field(m[0].key, value)], ResolveFields(m[1..], st1))
  {
    var rest := ResolveFields(m[1..], st1);
    if rest.Ok? {
      var head := [Field(m[0].key, value)];
      assert done + (head + rest.value.0) == done + head + rest.value.0;
    }
  }

  lemma ContinuesWithStart(whole: Result<(seq<Value>, State)>)
    ensures ContinuesWith(whole, [], whole)
  {
    if whole.Ok? { assert [] + whole.value.0 == whole.value.0; }
  }

  lemma ContinuesWithStep(whole: Result<(seq<Value>, State)>, done: seq<Value>, items: seq<Value>, st: State,
                          kept: seq<Value>, st1: State)
    requires items != [] && ContinuesWith(whole, done, ResolveItems(items, st))
    requires ResolveElement(items[0], st) == Ok((kept, st1))
    ensures ContinuesWith(whole, done + kept, ResolveItems(items[1..], st1))
  {
    var rest := ResolveItems(items[1..], st1);
    if rest.Ok? { assert done + (kept + rest.value.0) == done + kept + rest.value.0; }
  }

  /** `resolve` of sdjwt.rs. */
  method ResolvePayload(c: Codec, payload: Object, ds: seq<string>) returns (r: Result<Object>)
    ensures r == Resolve(c, payload, ds)
  {
    var _ :- Check(AlgAccepted(payload), BadDisclosure);
    var table: Table := map[];
    for i := 0 to |ds|
      invariant BuildTable(c, ds) == BuildTable(c, ds[i..], table)
    {
      assert ds[i..][0] == ds[i] && ds[i..][1..] == ds[i + 1..];
      var d :- Parse(c, ds[i]);
      var _ :- Check(c.digest(ds[i]) !in table, BadDisclosure);
      table := table[c.digest(ds[i]) := d];
    }
    assert ds[|ds|..] == [];
    var resolver := new Resolver(table);
    var m :- resolver.InObject(SwapRemove(payload, SD_ALG_KEY));
    var _ :- Check(resolver.used == |ds|, BadDisclosure);
    var _ :- Check(resolver.withheld == 0, BadDisclosure);
    r := Ok(m);
  }
}
