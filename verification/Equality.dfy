/** `Value` equality is equality of one arrangement: fields in one order, and a zero without its
    sign. */
module Equality {
  import opened Json
  import opened Jcs
  import opened Faithful

  /** The value with every object sorted and every zero unsigned. */
  function Arranged(v: Value): Value {
    match v
    case Float(d) => Float(Double(d.negative && d.magnitude != 0, d.magnitude))
    case Arr(items) => Arr(seq(|items|, i requires 0 <= i < |items| => Arranged(items[i])))
    case Obj(m) => Obj(SortFields(seq(|m|, i requires 0 <= i < |m| => Field(m[i].key, Arranged(m[i].value)))))
    case _ => v
  }

  function ArrangedFields(m: Object): (r: Object)
    ensures |r| == |m| && forall i | 0 <= i < |m| :: r[i] == Field(m[i].key, Arranged(m[i].value))
  {
    seq(|m|, i requires 0 <= i < |m| => Field(m[i].key, Arranged(m[i].value)))
  }

  lemma ArrangedObject(m: Object)
    ensures Arranged(Obj(m)) == Obj(SortFields(ArrangedFields(m)))
  {
    var r := seq(|m|, i requires 0 <= i < |m| => Field(m[i].key, Arranged(m[i].value)));
    assert r == ArrangedFields(m);
  }

  // ----- Objects of one size -----

  function KeySet(m: Object): set<string> {
    set i | 0 <= i < |m| :: m[i].key
  }

  lemma {:induction false} KeySetSize(m: Object)
    requires Distinct(m)
    ensures |KeySet(m)| == |m|
  {
    if m != [] {
      var init, last := m[..|m| - 1], m[|m| - 1];
      KeySetSize(init);
      assert KeySet(m) == KeySet(init) + {last.key};
      assert last.key !in KeySet(init);
    }
  }

  /** As many keys, and all of the first among the second: the same keys. */
  lemma AllKeysShared(m: Object, n: Object)
    requires Distinct(m) && Distinct(n) && |m| == |n| && forall i | 0 <= i < |m| :: Has(n, m[i].key)
    ensures SameKeys(m, n)
  {
    KeySetSize(m);
    KeySetSize(n);
    assert KeySet(m) <= KeySet(n) by {
      forall i | 0 <= i < |m| ensures m[i].key in KeySet(n) { assert n[Find(n, m[i].key)].key == m[i].key; }
    }
    EqualSets(KeySet(m), KeySet(n));
    forall key ensures Has(m, key) <==> Has(n, key) {
      KeySetHas(m, key);
      KeySetHas(n, key);
    }
  }

  lemma KeySetHas(m: Object, key: string)
    ensures key in KeySet(m) <==> Has(m, key)
  {
    if Has(m, key) { assert m[Find(m, key)].key == key; }
  }

  lemma EqualSets(a: set<string>, b: set<string>)
    requires a <= b && |a| == |b|
    ensures a == b
  {
    assert b == a + (b - a);
    assert |b - a| == 0;
  }

  // ----- The theorem -----

  lemma ArrangedKeys(m: Object)
    requires Distinct(m)
    ensures Distinct(ArrangedFields(m)) && forall key :: Has(ArrangedFields(m), key) <==> Has(m, key)
  {
    forall key ensures Has(ArrangedFields(m), key) <==> Has(m, key) {
      if Has(m, key) { HasField(ArrangedFields(m), ArrangedFields(m)[Find(m, key)]); }
      if Has(ArrangedFields(m), key) { HasField(m, m[Find(ArrangedFields(m), key)]); }
    }
  }

  /** Two well-formed values are equal if and only if they are arranged alike. */
  lemma {:induction false} JsonEqExactly(v: Value, w: Value)
    requires WellFormed(v) && WellFormed(w)
    ensures JsonEq(v, w) <==> Arranged(v) == Arranged(w)
    decreases v
  {
    if v.Arr? && w.Arr? {
      var xs, ys := v.items, w.items;
      assert |xs| == |ys| ==> forall i | 0 <= i < |xs| :: xs[i] in xs && ys[i] in ys;
      if |xs| == |ys| {
        forall i | 0 <= i < |xs| ensures JsonEq(xs[i], ys[i]) <==> Arranged(v).items[i] == Arranged(w).items[i] {
          JsonEqExactly(xs[i], ys[i]);
        }
      }
    } else if v.Obj? && w.Obj? {
      var m, n := v.fields, w.fields;
      forall i, j | 0 <= i < |m| && 0 <= j < |n|
        ensures JsonEq(m[i].value, n[j].value) <==> Arranged(m[i].value) == Arranged(n[j].value)
      {
        assert m[i] in m && n[j] in n;
        JsonEqExactly(m[i].value, n[j].value);
      }
      ArrangedObject(m);
      ArrangedObject(n);
      if JsonEq(v, w) { EqualIsArranged(m, n); }
      if Arranged(v) == Arranged(w) { ArrangedIsEqual(m, n); }
    }
  }

  ghost predicate ValuesDecided(m: Object, n: Object) {
    forall i, j | 0 <= i < |m| && 0 <= j < |n| ::
      JsonEq(m[i].value, n[j].value) <==> Arranged(m[i].value) == Arranged(n[j].value)
  }

  lemma EqualIsArranged(m: Object, n: Object)
    requires Distinct(m) && Distinct(n) && ValuesDecided(m, n) && JsonEq(Obj(m), Obj(n))
    ensures SortFields(ArrangedFields(m)) == SortFields(ArrangedFields(n))
  {
    var a, b := ArrangedFields(m), ArrangedFields(n);
    AllKeysShared(m, n);
    ArrangedKeys(m);
    ArrangedKeys(n);
    hide ArrangedFields;
    SortedFields(a);
    SortedFields(b);
    forall key ensures Has(SortFields(a), key) <==> Has(SortFields(b), key) {
      SortedHas(a, key);
      SortedHas(b, key);
    }
    OneOrder(SortFields(a), SortFields(b));
    hide SortFields, SortedKeys, JsonEq;
    forall k | 0 <= k < |SortFields(a)| ensures SortFields(a)[k] == SortFields(b)[k] {
      assert SortFields(a)[k] in a && SortFields(b)[k] in b;
      SameArrangedField(m, n, SortFields(a)[k], SortFields(b)[k]);
    }
  }

  lemma SameArrangedField(m: Object, n: Object, f: Field, g: Field)
    requires Distinct(n) && ValuesDecided(m, n) && JsonEq(Obj(m), Obj(n))
    requires f in ArrangedFields(m) && g in ArrangedFields(n) && f.key == g.key
    ensures f == g
  {
    var i :| 0 <= i < |m| && ArrangedFields(m)[i] == f;
    var j :| 0 <= j < |n| && ArrangedFields(n)[j] == g;
    FindUnique(n, j);
    assert JsonEq(m[i].value, n[j].value);
  }

  lemma ArrangedIsEqual(m: Object, n: Object)
    requires Distinct(m) && Distinct(n) && ValuesDecided(m, n)
    requires SortFields(ArrangedFields(m)) == SortFields(ArrangedFields(n))
    ensures JsonEq(Obj(m), Obj(n))
  {
    var a, b := ArrangedFields(m), ArrangedFields(n);
    SortedFields(a);
    SortedFields(b);
    assert |SortFields(a)| == |m| && |SortFields(b)| == |n|;
    hide SortFields;
    forall i | 0 <= i < |m| ensures Has(n, m[i].key) && JsonEq(m[i].value, n[Find(n, m[i].key)].value) {
      assert a[i] in b;
      var j :| 0 <= j < |b| && b[j] == a[i];
      FindUnique(n, j);
    }
  }
}
