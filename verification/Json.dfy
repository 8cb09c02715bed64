/** JSON values as `serde_json` holds them with `preserve_order`: an object is a sequence
    of fields in insertion order, removal swaps the last field into the hole, and equality
    of objects ignores the order. */
module Json {
  import opened Results

  /** A finite IEEE 754 double by its bit pattern: the sign, and the other 63 bits. */
  datatype Double = Double(negative: bool, magnitude: nat)

  datatype Field = Field(key: string, value: Value)

  datatype Value =
    | Null
    | Bool(b: bool)
    | Int(i: int)
    | Float(d: Double)
    | Str(s: string)
    | Arr(items: seq<Value>)
    | Obj(fields: seq<Field>)

  type Object = seq<Field>

  const I64_MIN: int := -0x8000_0000_0000_0000
  const I64_MAX: int := 0x7FFF_FFFF_FFFF_FFFF
  const U64_MAX: int := 0xFFFF_FFFF_FFFF_FFFF
  const FINITE_MAGNITUDES: nat := 0x7FF0_0000_0000_0000

  // ----- Reading and changing objects -----

  /** The position of `key`, or the number of fields when it is absent. */
  function Find(m: Object, key: string): (i: nat)
    ensures i <= |m|
    ensures i < |m| ==> m[i].key == key
    ensures forall j | 0 <= j < i :: m[j].key != key
  {
    if m == [] then 0
    else if m[0].key == key then 0
    else 1 + Find(m[1..], key)
  }

  predicate Has(m: Object, key: string) {
    Find(m, key) < |m|
  }

  function Get(m: Object, key: string): Option<Value> {
    var i := Find(m, key);
    if i < |m| then Some(m[i].value) else None
  }

  /** Replaces the value in place, or appends a new field. */
  function Insert(m: Object, key: string, value: Value): Object {
    var i := Find(m, key);
    if i < |m| then m[i := Field(key, value)] else m + [Field(key, value)]
  }

  /** Removes `key`; the last field takes its position. */
  function SwapRemove(m: Object, key: string): Object {
    var i := Find(m, key);
    if i < |m| then m[i := m[|m| - 1]][..|m| - 1] else m
  }

  function AsStr(v: Option<Value>): Option<string> {
    if v.Some? && v.value.Str? then Some(v.value.s) else None
  }

  function AsI64(v: Value): Option<int> {
    if v.Int? && I64_MIN <= v.i <= I64_MAX then Some(v.i) else None
  }

  function AsU64(v: Option<Value>): Option<nat> {
    if v.Some? && v.value.Int? && 0 <= v.value.i <= U64_MAX then Some(v.value.i) else None
  }

  /** `Value::get`: a field of an object, nothing for any other value. */
  function Member(v: Value, key: string): Option<Value> {
    if v.Obj? then Get(v.fields, key) else None
  }

  predicate Distinct(m: Object) {
    forall i, j | 0 <= i < j < |m| :: m[i].key != m[j].key
  }

  /** Two objects that hold the same value under every key. */
  ghost predicate SameFields(a: Object, b: Object) {
    forall key :: Get(a, key) == Get(b, key)
  }

  /** Two objects with the same keys. */
  ghost predicate SameKeys(a: Object, b: Object) {
    forall key :: Has(a, key) <==> Has(b, key)
  }

  lemma HasField(m: Object, f: Field)
    requires f in m
    ensures Has(m, f.key)
  {
    var i :| 0 <= i < |m| && m[i] == f;
    assert Find(m, f.key) <= i;
  }

  lemma FindUnique(m: Object, i: nat)
    requires Distinct(m) && i < |m|
    ensures Find(m, m[i].key) == i
  {
    assert !(Find(m, m[i].key) < i);
  }

  lemma GetAt(m: Object, i: nat)
    requires Distinct(m) && i < |m|
    ensures Get(m, m[i].key) == Some(m[i].value)
  {
    FindUnique(m, i);
  }

  lemma GetAbsent(m: Object, key: string)
    requires forall i | 0 <= i < |m| :: m[i].key != key
    ensures Get(m, key) == None && !Has(m, key)
  {
  }

  lemma InsertEffect(m: Object, key: string, value: Value)
    requires Distinct(m)
    ensures Distinct(Insert(m, key, value))
    ensures forall k :: Get(Insert(m, key, value), k) == if k == key then Some(value) else Get(m, k)
  {
    var n := Insert(m, key, value);
    assert Distinct(n);
    forall k
      ensures Get(n, k) == if k == key then Some(value) else Get(m, k)
    {
      if k == key {
        var at := Find(m, key);
        assert n[at] == Field(key, value);
        GetAt(n, at);
      } else if Has(m, k) {
        var i := Find(m, k);
        assert n[i] == m[i];
        GetAt(n, i);
      } else {
        GetAbsent(n, k);
      }
    }
  }

  /** Insertion leaves every field where it was: a new one comes last. */
  lemma InsertKeepsPlaces(m: Object, key: string, value: Value)
    ensures var n := Insert(m, key, value);
            && |m| <= |n| <= |m| + 1 && (|n| == |m| <==> exists f :: f in m && f.key == key)
            && (forall i | 0 <= i < |m| :: n[i] == m[i] || (m[i].key == key && n[i] == Field(key, value)))
            && (|n| > |m| ==> n[|m|] == Field(key, value))
  {
    if f :| f in m && f.key == key { HasField(m, f); }
  }

  /** Removal leaves every field where it was, but for the last one, which fills the gap. */
  lemma LastFillsTheGap(m: Object, key: string, at: nat)
    requires Distinct(m) && at < |m| && m[at].key == key
    ensures |SwapRemove(m, key)| == |m| - 1
    ensures forall i | 0 <= i < |m| - 1 :: SwapRemove(m, key)[i] == if i == at then m[|m| - 1] else m[i]
  {
    FindUnique(m, at);
  }

  lemma SwapRemoveEffect(m: Object, key: string)
    requires Distinct(m)
    ensures Distinct(SwapRemove(m, key))
    ensures forall k :: Get(SwapRemove(m, key), k) == if k == key then None else Get(m, k)
    ensures forall f | f in SwapRemove(m, key) :: f in m && f.key != key
  {
    var n := SwapRemove(m, key);
    var at := Find(m, key);
    if at == |m| {
      forall k
        ensures Get(n, k) == if k == key then None else Get(m, k)
      {
      }
    } else {
      var last := |m| - 1;
      assert forall i | 0 <= i < last :: n[i] == if i == at then m[last] else m[i];
      assert Distinct(n);
      forall k
        ensures Get(n, k) == if k == key then None else Get(m, k)
      {
        if k == key {
          GetAbsent(n, k);
        } else if Has(m, k) {
          var i := Find(m, k);
          var j := if i == last then at else i;
          assert n[j] == m[i];
          GetAt(n, j);
        } else {
          GetAbsent(n, k);
        }
      }
    }
  }

  lemma InsertedThenRemoved(m: Object, key: string, value: Value)
    requires Distinct(m)
    ensures SwapRemove(Insert(m, key, value), key) == SwapRemove(m, key)
  {
    var n, i := Insert(m, key, value), Find(m, key);
    InsertEffect(m, key, value);
    FindUnique(n, i);
    hide Distinct, Find;
    if i == |m| {
      assert n[i := n[i]][..i] == m;
    } else {
      assert n[i := n[|m| - 1]][..|m| - 1] == m[i := m[|m| - 1]][..|m| - 1];
    }
  }

  // ----- Well-formed values -----

  /** What the strict parser can produce: no duplicate key at any depth, integers of 64
      bits, finite doubles. */
  predicate WellFormed(v: Value) {
    match v
    case Int(i) => I64_MIN <= i <= U64_MAX
    case Float(d) => d.magnitude < FINITE_MAGNITUDES
    case Arr(items) => forall x | x in items :: WellFormed(x)
    case Obj(m) => Distinct(m) && forall f | f in m :: WellFormed(f.value)
    case _ => true
  }

  /** Arrays and objects nest at most `levels` deep. */
  predicate Fits(v: Value, levels: nat) {
    match v
    case Arr(items) => levels > 0 && forall x | x in items :: Fits(x, levels - 1)
    case Obj(m) => levels > 0 && forall f | f in m :: Fits(f.value, levels - 1)
    case _ => true
  }

  lemma FitsMore(v: Value, few: nat, many: nat)
    requires Fits(v, few) && few <= many
    ensures Fits(v, many)
  {
    match v
    case Arr(items) =>
      forall x | x in items ensures Fits(x, many - 1) { FitsMore(x, few - 1, many - 1); }
    case Obj(m) =>
      forall f | f in m ensures Fits(f.value, many - 1) { FitsMore(f.value, few - 1, many - 1); }
    case _ =>
  }

  // ----- Sizes -----

  function Size(v: Value): nat {
    match v
    case Arr(items) => 1 + ItemsSize(items)
    case Obj(m) => 1 + FieldsSize(m)
    case _ => 1
  }

  function ItemsSize(items: seq<Value>): (n: nat)
    ensures |items| <= n
  {
    if items == [] then 0 else 1 + Size(items[0]) + ItemsSize(items[1..])
  }

  function FieldsSize(m: Object): (n: nat)
    ensures |m| <= n
  {
    if m == [] then 0 else 1 + Size(m[0].value) + FieldsSize(m[1..])
  }

  lemma FieldsSizeSplit(a: Object, b: Object)
    ensures FieldsSize(a + b) == FieldsSize(a) + FieldsSize(b)
  {
    if a == [] {
      assert a + b == b;
    } else {
      assert (a + b)[0] == a[0] && (a + b)[1..] == a[1..] + b;
      FieldsSizeSplit(a[1..], b);
    }
  }

  lemma FieldSize(m: Object, i: nat)
    requires i < |m|
    ensures FieldsSize(m) == FieldsSize(m[..i]) + 1 + Size(m[i].value) + FieldsSize(m[i + 1..])
  {
    FieldsSizeSplit(m[..i], m[i..]);
    assert m == m[..i] + m[i..];
    assert m[i..][0] == m[i] && m[i..][1..] == m[i + 1..];
  }

  lemma SwapRemoveSize(m: Object, key: string)
    ensures FieldsSize(SwapRemove(m, key)) + (if Has(m, key) then 1 + Size(Get(m, key).value) else 0) == FieldsSize(m)
  {
    var i := Find(m, key);
    if i < |m| {
      var last := |m| - 1;
      FieldSize(m, i);
      assert FieldsSize([]) == 0;
      hide FieldsSize, Size, Find;
      if i < last {
        var n := SwapRemove(m, key);
        FieldSize(n, i);
        assert n[..i] == m[..i] && n[i] == m[last] && n[i + 1..] == m[i + 1..last];
        var tail := m[i + 1..];
        FieldSize(tail, |tail| - 1);
        assert tail[..|tail| - 1] == m[i + 1..last] && tail[|tail| - 1] == m[last] && tail[|tail|..] == [];
      } else {
        assert SwapRemove(m, key) == m[..i] && m[i + 1..] == [];
      }
    }
  }

  // ----- Equality -----

  /** `Number` equality: an integer never equals a float, and both zeros are equal. */
  predicate DoubleEq(a: Double, b: Double) {
    a.magnitude == b.magnitude && (a.negative == b.negative || a.magnitude == 0)
  }

  /** `Value` equality: the order of an object's fields does not count. */
  predicate JsonEq(a: Value, b: Value) {
    match (a, b)
    case (Float(x), Float(y)) => DoubleEq(x, y)
    case (Arr(xs), Arr(ys)) => |xs| == |ys| && forall i | 0 <= i < |xs| :: JsonEq(xs[i], ys[i])
    case (Obj(m), Obj(n)) =>
      |m| == |n| &&
      forall i | 0 <= i < |m| :: Has(n, m[i].key) && JsonEq(m[i].value, n[Find(n, m[i].key)].value)
    case _ => a == b
  }

  lemma JsonEqTransitive(a: Value, b: Value, c: Value)
    requires JsonEq(a, b) && JsonEq(b, c)
    ensures JsonEq(a, c)
  {
    match a {
      case Arr(xs) =>
        forall i | 0 <= i < |xs| ensures JsonEq(xs[i], c.items[i]) {
          JsonEqTransitive(xs[i], b.items[i], c.items[i]);
        }
      case Obj(m) =>
        forall i | 0 <= i < |m|
          ensures Has(c.fields, m[i].key) && JsonEq(m[i].value, c.fields[Find(c.fields, m[i].key)].value)
        {
          var j := Find(b.fields, m[i].key);
          JsonEqTransitive(m[i].value, b.fields[j].value, c.fields[Find(c.fields, b.fields[j].key)].value);
        }
      case _ =>
    }
  }

  lemma JsonEqReflexive(a: Value)
    requires WellFormed(a)
    ensures JsonEq(a, a)
  {
    match a {
      case Arr(xs) =>
        forall i | 0 <= i < |xs| ensures JsonEq(xs[i], xs[i]) {
          JsonEqReflexive(xs[i]);
        }
      case Obj(m) =>
        forall i | 0 <= i < |m|
          ensures Has(m, m[i].key) && JsonEq(m[i].value, m[Find(m, m[i].key)].value)
        {
          FindUnique(m, i);
          JsonEqReflexive(m[i].value);
        }
      case _ =>
    }
  }
}
