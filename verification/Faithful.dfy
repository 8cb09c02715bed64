/** Canonical JSON is faithful: two values have one canonical form exactly when they are equal
    up to the order of object keys and the way numbers are held (RFC 8785, sections 3.2.2
    and 3.2.3). */
module Faithful {
  import opened Results
  import opened Json
  import opened Decimals
  import opened Numbers
  import opened Jcs
  import opened Sorting

  // ----- The order of keys -----

  lemma {:induction false} Utf16Determines(a: string, b: string)
    requires Utf16(a) == Utf16(b)
    ensures a == b
  {
    if a != "" && b != "" {
      var x, y := CodeUnits(a[0]), CodeUnits(b[0]);
      assert Utf16(a)[0] == x[0] && Utf16(b)[0] == y[0];
      if |x| == 2 { assert Utf16(a)[1] == x[1]; }
      if |y| == 2 { assert Utf16(b)[1] == y[1]; }
      assert a[0] == b[0];
      assert Utf16(a)[|x|..] == Utf16(a[1..]) && Utf16(b)[|x|..] == Utf16(b[1..]);
      Utf16Determines(a[1..], b[1..]);
      assert a == [a[0]] + a[1..] && b == [b[0]] + b[1..];
    }
  }

  /** The first difference is at `k`: there `a` has ended, or has the smaller unit. */
  predicate DiffersAt(a: seq<nat>, b: seq<nat>, k: nat) {
    k <= |a| && k < |b| && a[..k] == b[..k] && (k == |a| || a[k] < b[k])
  }

  /** RFC 8785, section 3.2.3: as arrays of UTF-16 code units, unsigned and unit by unit. */
  ghost predicate ComesBefore(a: string, b: string) {
    exists k: nat :: DiffersAt(Utf16(a), Utf16(b), k)
  }

  lemma {:induction false} BelowExactly(a: seq<nat>, b: seq<nat>)
    ensures Below(a, b) <==> exists k: nat :: DiffersAt(a, b, k)
    decreases |a|
  {
    if a == [] || b == [] || a[0] != b[0] {
      if Below(a, b) { assert DiffersAt(a, b, 0); }
    } else {
      BelowExactly(a[1..], b[1..]);
      if k: nat :| DiffersAt(a[1..], b[1..], k) {
        assert a[..k + 1] == [a[0]] + a[1..][..k] && b[..k + 1] == [b[0]] + b[1..][..k];
        assert DiffersAt(a, b, k + 1);
      }
      if k: nat :| DiffersAt(a, b, k) {
        assert k > 0;
        assert a[1..][..k - 1] == a[..k][1..] && b[1..][..k - 1] == b[..k][1..];
        assert DiffersAt(a[1..], b[1..], k - 1);
      }
    }
  }

  lemma KeysInOrderExactly(a: string, b: string)
    ensures KeyBelow(a, b) <==> ComesBefore(a, b)
  {
    BelowExactly(Utf16(a), Utf16(b));
  }

  /** Reads UTF-16: a surrogate pair is one character, any other unit its own. */
  function FromUtf16(units: seq<nat>): Option<string>
    decreases |units|
  {
    if units == [] then Some("")
    else if units[0] < 0xD800 || 0xE000 <= units[0] < 0x1_0000 then
      match FromUtf16(units[1..]) case None => None case Some(s) => Some([units[0] as char] + s)
    else if |units| >= 2 && 0xD800 <= units[0] < 0xDC00 && 0xDC00 <= units[1] < 0xE000 then
      match FromUtf16(units[2..])
      case None => None
      case Some(s) => Some([(0x1_0000 + (units[0] - 0xD800) * 0x400 + (units[1] - 0xDC00)) as char] + s)
    else None
  }

  lemma UnitsRead(c: char, rest: seq<nat>)
    ensures FromUtf16(CodeUnits(c) + rest) == match FromUtf16(rest) case None => None case Some(s) => Some([c] + s)
  {
    var units := CodeUnits(c) + rest;
    var n := c as nat;
    if n < 0x1_0000 {
      assert units[1..] == rest;
    } else {
      assert units[2..] == rest;
      PairReads(n);
    }
  }

  lemma PairReads(n: nat)
    requires 0x1_0000 <= n < 0x11_0000
    ensures (n - 0x1_0000) / 0x400 < 0x400 && (n - 0x1_0000) % 0x400 < 0x400
    ensures 0x1_0000 + (n - 0x1_0000) / 0x400 * 0x400 + (n - 0x1_0000) % 0x400 == n
  {
  }

  /** The code units of a text read back as the text. */
  lemma {:induction false} Utf16ReadsBack(s: string)
    ensures FromUtf16(Utf16(s)) == Some(s)
  {
    if s != "" {
      Utf16ReadsBack(s[1..]);
      UnitsRead(s[0], Utf16(s[1..]));
      hide CodeUnits, FromUtf16;
      assert s == [s[0]] + s[1..];
    }
  }

  lemma {:induction false} BelowIsStrict(a: seq<nat>, b: seq<nat>)
    ensures !(Below(a, b) && Below(b, a)) && (Below(a, b) || Below(b, a) || a == b) && !Below(a, a)
    decreases |a|
  {
    if a != [] {
      BelowIsStrict(a[1..], a[1..]);
      if b != [] {
        BelowIsStrict(a[1..], b[1..]);
        assert a == [a[0]] + a[1..] && b == [b[0]] + b[1..];
      }
    }
  }

  lemma {:induction false} BelowTransitive(a: seq<nat>, b: seq<nat>, c: seq<nat>)
    requires Below(a, b) && Below(b, c)
    ensures Below(a, c)
    decreases |a|
  {
    if a != [] && a[0] == b[0] && b[0] == c[0] {
      BelowTransitive(a[1..], b[1..], c[1..]);
    }
  }

  lemma KeysCompare(a: string, b: string)
    ensures !(KeyBelow(a, b) && KeyBelow(b, a)) && (a != b ==> KeyBelow(a, b) || KeyBelow(b, a)) && !KeyBelow(a, a)
  {
    BelowIsStrict(Utf16(a), Utf16(b));
    BelowIsStrict(Utf16(a), Utf16(a));
    if Utf16(a) == Utf16(b) { Utf16Determines(a, b); }
  }

  // ----- Sorting -----

  lemma PutInFront(f: Field, m: Object)
    requires SortedKeys(m) && forall g | g in m :: KeyBelow(f.key, g.key)
    ensures SortedKeys([f] + m)
  {
    var n := [f] + m;
    hide KeyBelow;
    assert n[1..] == m;
    forall i, j | 0 <= i < j < |n| ensures KeyBelow(n[i].key, n[j].key) {
      assert n[j] == m[j - 1] && m[j - 1] in m;
      if i > 0 { assert n[i] == m[i - 1]; }
    }
  }

  lemma AllAboveFirst(f: Field, m: Object)
    requires SortedKeys(m) && m != [] && FieldBelow(f, m[0])
    ensures forall g | g in m :: KeyBelow(f.key, g.key)
  {
    forall g | g in m ensures KeyBelow(f.key, g.key) {
      var i :| 0 <= i < |m| && m[i] == g;
      if i > 0 { BelowTransitive(Utf16(f.key), Utf16(m[0].key), Utf16(m[i].key)); }
    }
  }

  lemma {:induction false} InsertedSorted(f: Field, m: Object)
    requires SortedKeys(m) && forall g | g in m :: g.key != f.key
    ensures SortedKeys(InsertSorted(f, m, FieldBelow))
  {
    if m == [] {
    } else if FieldBelow(f, m[0]) {
      AllAboveFirst(f, m);
      PutInFront(f, m);
    } else {
      KeysCompare(f.key, m[0].key);
      assert forall i | 0 <= i < |m| - 1 :: m[1..][i] == m[i + 1];
      InsertedSorted(f, m[1..]);
      var rest := InsertSorted(f, m[1..], FieldBelow);
      InsertedOnce(f, m[1..], FieldBelow);
      hide InsertSorted, KeyBelow;
      forall g | g in rest ensures KeyBelow(m[0].key, g.key) {
        assert g in multiset([f] + m[1..]);
        assert g == f || g in m[1..];
      }
      PutInFront(m[0], rest);
    }
  }

  lemma {:induction false} SortedInOrder(m: Object)
    requires Distinct(m)
    ensures SortedKeys(SortFields(m))
  {
    if m != [] {
      SortedInOrder(m[1..]);
      SameMembers(m[1..], FieldBelow);
      forall g | g in SortFields(m[1..]) ensures g.key != m[0].key {
        var k :| 0 <= k < |m[1..]| && m[1..][k] == g;
        assert m[k + 1] == g;
      }
      InsertedSorted(m[0], SortFields(m[1..]));
    }
  }

  /** The sort keeps the fields and orders them strictly, by UTF-16 code units. */
  lemma SortedFields(m: Object)
    ensures forall g :: g in SortFields(m) <==> g in m
    ensures Distinct(m) ==> SortedKeys(SortFields(m)) && KeysAscend(SortFields(m))
  {
    SameMembers(m, FieldBelow);
    if Distinct(m) {
      SortedInOrder(m);
      forall i, j | 0 <= i < j < |SortFields(m)| ensures ComesBefore(SortFields(m)[i].key, SortFields(m)[j].key) {
        KeysInOrderExactly(SortFields(m)[i].key, SortFields(m)[j].key);
      }
    }
  }

  ghost predicate KeysAscend(m: Object) {
    forall i, j | 0 <= i < j < |m| :: ComesBefore(m[i].key, m[j].key)
  }

  lemma SortedTail(a: Object)
    requires SortedKeys(a) && a != []
    ensures SortedKeys(a[1..]) && forall key :: Has(a[1..], key) <==> Has(a, key) && key != a[0].key
  {
    forall key ensures Has(a[1..], key) <==> Has(a, key) && key != a[0].key {
      KeysCompare(key, key);
      if Has(a[1..], key) {
        assert a[Find(a[1..], key) + 1].key == key && KeyBelow(a[0].key, key);
      }
    }
  }

  lemma FirstIsLeast(a: Object, key: string)
    requires SortedKeys(a) && a != [] && Has(a, key)
    ensures key == a[0].key || KeyBelow(a[0].key, key)
  {
    assert a[Find(a, key)].key == key;
  }

  /** There is one way to order a set of keys. */
  lemma {:induction false} OneOrder(a: Object, b: Object)
    requires SortedKeys(a) && SortedKeys(b) && SameKeys(a, b)
    ensures |a| == |b| && forall i | 0 <= i < |a| :: a[i].key == b[i].key
    decreases |a|
  {
    assert (a != [] ==> Has(a, a[0].key)) && (b != [] ==> Has(b, b[0].key));
    if a != [] && b != [] {
      FirstIsLeast(a, b[0].key);
      FirstIsLeast(b, a[0].key);
      KeysCompare(a[0].key, b[0].key);
      SortedTail(a);
      SortedTail(b);
      OneOrder(a[1..], b[1..]);
    }
  }

  // ----- Equality up to key order and numeric value -----

  /** Numbers that stand for the same double. */
  predicate SameNumber(fl: Floats, v: Value, w: Value) {
    var (a, b) := (AsDouble(fl, v), AsDouble(fl, w));
    a.Some? && b.Some? && DoubleEq(a.value, b.value)
  }

  predicate Same(fl: Floats, v: Value, w: Value) {
    match (v, w)
    case (Arr(xs), Arr(ys)) => |xs| == |ys| && forall i | 0 <= i < |xs| :: Same(fl, xs[i], ys[i])
    case (Obj(m), Obj(n)) =>
      && (forall i | 0 <= i < |m| :: Has(n, m[i].key) && Same(fl, m[i].value, n[Find(n, m[i].key)].value))
      && (forall j | 0 <= j < |n| :: Has(m, n[j].key))
    case _ => v == w || SameNumber(fl, v, w)
  }

  predicate SameInOrder(fl: Floats, a: Object, b: Object) {
    |a| == |b| && forall i | 0 <= i < |a| :: a[i].key == b[i].key && Same(fl, a[i].value, b[i].value)
  }

  /** Sorting turns equality up to order into equality in order. */
  lemma SortedAlike(fl: Floats, m: Object, n: Object)
    requires Distinct(m) && Distinct(n)
    ensures Same(fl, Obj(m), Obj(n)) <==> SameInOrder(fl, SortFields(m), SortFields(n))
  {
    var a, b := SortFields(m), SortFields(n);
    SortedFields(m);
    SortedFields(n);
    if Same(fl, Obj(m), Obj(n)) {
      forall key ensures Has(a, key) <==> Has(b, key) {
        KeyOnBothSides(fl, m, n, key);
      }
      OneOrder(a, b);
      forall i | 0 <= i < |a| ensures Same(fl, a[i].value, b[i].value) {
        assert a[i] in m && b[i] in n;
        FieldsMatch(fl, m, n, a[i], b[i]);
      }
    }
    if SameInOrder(fl, a, b) {
      forall i | 0 <= i < |m| ensures Has(n, m[i].key) && Same(fl, m[i].value, n[Find(n, m[i].key)].value) {
        assert m[i] in a;
        var k :| 0 <= k < |a| && a[k] == m[i];
        assert b[k] in n;
        var j :| 0 <= j < |n| && n[j] == b[k];
        FindUnique(n, j);
      }
      forall j | 0 <= j < |n| ensures Has(m, n[j].key) {
        assert n[j] in b;
        var k :| 0 <= k < |b| && b[k] == n[j];
        assert a[k] in m;
        HasField(m, a[k]);
      }
    }
  }

  lemma KeyOnBothSides(fl: Floats, m: Object, n: Object, key: string)
    requires Same(fl, Obj(m), Obj(n))
    ensures Has(SortFields(m), key) <==> Has(SortFields(n), key)
  {
    SortedHas(m, key);
    SortedHas(n, key);
    if Has(m, key) { assert m[Find(m, key)].key == key; }
    if Has(n, key) { assert n[Find(n, key)].key == key; }
  }

  lemma SortedHas(m: Object, key: string)
    ensures Has(SortFields(m), key) <==> Has(m, key)
  {
    SortedFields(m);
    var a := SortFields(m);
    if Has(m, key) { HasField(a, m[Find(m, key)]); }
    if Has(a, key) { HasField(m, a[Find(a, key)]); }
  }

  lemma FieldsMatch(fl: Floats, m: Object, n: Object, f: Field, g: Field)
    requires Distinct(n) && Same(fl, Obj(m), Obj(n)) && f in m && g in n && f.key == g.key
    ensures Same(fl, f.value, g.value)
  {
    var i :| 0 <= i < |m| && m[i] == f;
    var j :| 0 <= j < |n| && n[j] == g;
    FindUnique(n, j);
  }

  // ----- Reading the text back -----

  /** What can follow a value: the end, or the next item, field or closing bracket. */
  predicate Ends(rest: string) {
    rest == "" || rest[0] == ',' || rest[0] == ']' || rest[0] == '}'
  }

  lemma EscapedIsPrefixCode(c: char, d: char, x: string, y: string)
    requires Escaped(c) + x == Escaped(d) + y
    ensures c == d && x == y
  {
    var s, t := Escaped(c) + x, Escaped(d) + y;
    assert s[0] == Escaped(c)[0] && t[0] == Escaped(d)[0];
    if |Escaped(c)| > 1 && |Escaped(d)| > 1 {
      assert s[1] == Escaped(c)[1] && t[1] == Escaped(d)[1];
      if |Escaped(c)| == 6 && |Escaped(d)| == 6 {
        assert s[4] == Escaped(c)[4] && t[4] == Escaped(d)[4];
        assert s[5] == Escaped(c)[5] && t[5] == Escaped(d)[5];
      }
    }
    assert c == d;
    assert s[|Escaped(c)|..] == x && t[|Escaped(d)|..] == y;
  }

  lemma EscapedStart(c: char)
    ensures Escaped(c) != "" && Escaped(c)[0] != '"'
  {
  }

  lemma StringStart(a: string, x: string)
    ensures StringTail(a) != "" && (StringTail(a)[0] == '"' <==> a == "")
    ensures a == "" ==> StringTail(a) + x == "\"" + x
    ensures a != "" ==> StringTail(a) + x == Escaped(a[0]) + (StringTail(a[1..]) + x)
  {
    if a != "" {
      EscapedStart(a[0]);
      hide Escaped;
      Regrouped(Escaped(a[0]), StringTail(a[1..]), x);
    }
  }

  /** A string ends where it says: no other string, followed by any text, reads the same. */
  lemma {:induction false} StringReads(a: string, b: string, x: string, y: string)
    requires StringTail(a) + x == StringTail(b) + y
    ensures a == b && x == y
    decreases |a|
  {
    hide StringTail, Escaped;
    StringStart(a, x);
    StringStart(b, y);
    var s, t := StringTail(a) + x, StringTail(b) + y;
    assert s[0] == StringTail(a)[0] && t[0] == StringTail(b)[0];
    if a == "" {
      assert s[1..] == x && t[1..] == y;
    } else {
      EscapedIsPrefixCode(a[0], b[0], StringTail(a[1..]) + x, StringTail(b[1..]) + y);
      StringReads(a[1..], b[1..], x, y);
      assert a == [a[0]] + a[1..] && b == [b[0]] + b[1..];
    }
  }

  lemma QuotedReads(a: string, b: string, x: string, y: string)
    requires Quoted(a) + x == Quoted(b) + y
    ensures a == b && x == y
  {
    hide StringTail;
    Regrouped("\"", StringTail(a), x);
    Regrouped("\"", StringTail(b), y);
    DropFront("\"", StringTail(a) + x, StringTail(b) + y);
    StringReads(a, b, x, y);
  }

  lemma NumberNotShorter(a: string, b: string, x: string, y: string)
    requires a + x == b + y && Ends(x) && IsNumberText(b)
    ensures |a| >= |b|
  {
    assert forall i | 0 <= i < |b| :: NumberChar((a + x)[i]) by {
      assert forall i | 0 <= i < |b| :: (b + y)[i] == b[i];
    }
    assert x != "" ==> (a + x)[|a|] == x[0];
  }

  lemma NumberEnds(a: string, b: string, x: string, y: string)
    requires a + x == b + y && Ends(x) && Ends(y) && IsNumberText(a) && IsNumberText(b)
    ensures a == b && x == y
  {
    NumberNotShorter(a, b, x, y);
    NumberNotShorter(b, a, y, x);
    assert (a + x)[..|a|] == a && (b + y)[..|b|] == b;
    assert (a + x)[|a|..] == x && (b + y)[|b|..] == y;
  }

  // ----- Kinds of values, by the first character -----

  predicate StartOf(v: Value, c: char) {
    match v
    case Null => c == 'n'
    case Bool(b) => c == (if b then 't' else 'f')
    case Int(_) => IsDigit(c) || c == '-'
    case Float(_) => IsDigit(c) || c == '-'
    case Str(_) => c == '"'
    case Arr(_) => c == '['
    case Obj(_) => c == '{'
  }

  lemma CanonNumberText(fl: Floats, v: Value)
    requires FloatsSound(fl) && WellFormed(v) && (v.Int? || v.Float?) && Scalar(fl, v).Some?
    ensures AsDouble(fl, v).Some? && AsDouble(fl, v).value.magnitude < FINITE_MAGNITUDES
    ensures Scalar(fl, v) == Number(fl, AsDouble(fl, v).value)
    ensures Scalar(fl, v).value != "" && StartOf(v, Scalar(fl, v).value[0]) && IsNumberText(Scalar(fl, v).value)
  {
    NumberChars(fl, AsDouble(fl, v).value);
  }

  lemma CanonStart(fl: Floats, v: Value, depth: nat)
    requires FloatsSound(fl) && WellFormed(v) && Canon(fl, v, depth).Some?
    ensures Canon(fl, v, depth).value != "" && StartOf(v, Canon(fl, v, depth).value[0])
  {
    if v.Int? || v.Float? {
      CanonNumberText(fl, v);
    }
  }

  /** Numbers in one form are one number. */
  lemma NumbersRead(fl: Floats, v: Value, w: Value, x: string, y: string)
    requires FloatsSound(fl) && WellFormed(v) && WellFormed(w) && (v.Int? || v.Float?) && (w.Int? || w.Float?)
    requires Scalar(fl, v).Some? && Scalar(fl, w).Some? && Scalar(fl, v).value + x == Scalar(fl, w).value + y
    requires Ends(x) && Ends(y)
    ensures Same(fl, v, w) && x == y
  {
    CanonNumberText(fl, v);
    CanonNumberText(fl, w);
    NumberEnds(Scalar(fl, v).value, Scalar(fl, w).value, x, y);
    NumberDetermines(fl, AsDouble(fl, v).value, AsDouble(fl, w).value);
  }

  /** Scalars of any kind. */
  lemma ScalarsRead(fl: Floats, v: Value, w: Value, x: string, y: string)
    requires FloatsSound(fl) && WellFormed(v) && WellFormed(w) && !v.Arr? && !v.Obj? && !w.Arr? && !w.Obj?
    requires Scalar(fl, v).Some? && Scalar(fl, w).Some? && Scalar(fl, v).value + x == Scalar(fl, w).value + y
    requires Ends(x) && Ends(y)
    requires exists c :: StartOf(v, c) && StartOf(w, c)
    ensures Same(fl, v, w) && x == y
  {
    var a, b := Scalar(fl, v).value, Scalar(fl, w).value;
    if v.Int? || v.Float? {
      NumbersRead(fl, v, w, x, y);
    } else if v.Str? {
      QuotedReads(v.s, w.s, x, y);
    } else {
      assert v == w && a == b;
      assert (a + x)[|a|..] == x && (b + y)[|b|..] == y;
    }
  }

  ghost predicate SameItems(fl: Floats, xs: seq<Value>, ys: seq<Value>) {
    |xs| == |ys| && forall i | 0 <= i < |xs| :: Same(fl, xs[i], ys[i])
  }

  lemma TailStart(fl: Floats, items: seq<Value>, m: Object, depth: nat, x: string)
    ensures ItemsTail(fl, items, false, depth).Some? ==>
              Ends(ItemsTail(fl, items, false, depth).value + x) && (ItemsTail(fl, items, false, depth).value + x)[0] == (if items == [] then ']' else ',')
    ensures FieldsTail(fl, m, false, depth).Some? ==>
              Ends(FieldsTail(fl, m, false, depth).value + x) && (FieldsTail(fl, m, false, depth).value + x)[0] == (if m == [] then '}' else ',')
  {
  }

  /** The first item, and what follows it. */
  lemma FirstItem(fl: Floats, items: seq<Value>, first: bool, depth: nat, x: string)
    requires items != [] && ItemsTail(fl, items, first, depth).Some?
    ensures Canon(fl, items[0], depth).Some? && ItemsTail(fl, items[1..], false, depth).Some?
    ensures ItemsTail(fl, items, first, depth).value + x
         == Comma(first) + (Canon(fl, items[0], depth).value + (ItemsTail(fl, items[1..], false, depth).value + x))
  {
    hide Canon;
    var t, rest := Canon(fl, items[0], depth).value, ItemsTail(fl, items[1..], false, depth).value;
    assert ItemsTail(fl, items, first, depth).value == Comma(first) + t + rest;
    hide ItemsTail, Comma;
    assert Comma(first) + t + rest + x == Comma(first) + (t + (rest + x));
  }

  lemma FirstField(fl: Floats, m: Object, first: bool, depth: nat, x: string)
    requires m != [] && FieldsTail(fl, m, first, depth).Some?
    ensures Canon(fl, m[0].value, depth).Some? && FieldsTail(fl, m[1..], false, depth).Some?
    ensures FieldsTail(fl, m, first, depth).value + x
         == Comma(first) + (Quoted(m[0].key) + (":" + (Canon(fl, m[0].value, depth).value
                                                       + (FieldsTail(fl, m[1..], false, depth).value + x))))
  {
    hide Quoted, Canon;
    var q, t, rest := Quoted(m[0].key), Canon(fl, m[0].value, depth).value, FieldsTail(fl, m[1..], false, depth).value;
    assert Comma(first) + q + ":" + t + rest + x == Comma(first) + (q + (":" + (t + (rest + x))));
  }

  lemma DropFront(p: string, a: string, b: string)
    requires p + a == p + b
    ensures a == b
  {
    assert (p + a)[|p|..] == a && (p + b)[|p|..] == b;
  }

  /** A list ends exactly where its closing bracket is read. */
  lemma ListEnd(fl: Floats, items: seq<Value>, first: bool, depth: nat, x: string)
    requires FloatsSound(fl) && (forall v | v in items :: WellFormed(v)) && ItemsTail(fl, items, first, depth).Some?
    ensures ItemsTail(fl, items, first, depth).value != ""
    ensures (ItemsTail(fl, items, first, depth).value + x)[0] == ']' <==> items == []
  {
    if items != [] {
      FirstItem(fl, items, first, depth, "");
      CanonStart(fl, items[0], depth);
      assert ItemsTail(fl, items, first, depth).value[0] == if first then Canon(fl, items[0], depth).value[0] else ',';
    }
  }

  lemma ObjectEnd(fl: Floats, m: Object, first: bool, depth: nat, x: string)
    requires FieldsTail(fl, m, first, depth).Some?
    ensures FieldsTail(fl, m, first, depth).value != ""
    ensures (FieldsTail(fl, m, first, depth).value + x)[0] == '}' <==> m == []
  {
    if m != [] {
      FirstField(fl, m, first, depth, "");
      assert FieldsTail(fl, m, first, depth).value[0] == if first then '"' else ',';
    }
  }

  lemma ArrayText(fl: Floats, items: seq<Value>, depth: nat, x: string)
    requires Canon(fl, Arr(items), depth).Some?
    ensures ItemsTail(fl, items, true, depth + 1).Some?
    ensures Canon(fl, Arr(items), depth).value + x == "[" + (ItemsTail(fl, items, true, depth + 1).value + x)
  {
  }

  lemma ObjectText(fl: Floats, m: Object, depth: nat, x: string)
    requires Canon(fl, Obj(m), depth).Some?
    ensures FieldsTail(fl, SortFields(m), true, depth + 1).Some?
    ensures Canon(fl, Obj(m), depth).value + x == "{" + (FieldsTail(fl, SortFields(m), true, depth + 1).value + x)
  {
  }

  lemma SortedWellFormed(m: Object)
    requires forall f | f in m :: WellFormed(f.value)
    ensures forall f | f in SortFields(m) :: WellFormed(f.value)
    ensures FieldsSize(SortFields(m)) == FieldsSize(m)
  {
    SortKeepsSize(m);
    SortedFields(m);
  }

  lemma StartsAlike(v: Value, w: Value, c: char)
    requires StartOf(v, c) && StartOf(w, c)
    ensures (v.Arr? <==> w.Arr?) && (v.Obj? <==> w.Obj?)
  {
  }

  lemma SameArrays(fl: Floats, xs: seq<Value>, ys: seq<Value>)
    requires SameItems(fl, xs, ys)
    ensures Same(fl, Arr(xs), Arr(ys))
  {
  }

  lemma KindsAgree(fl: Floats, v: Value, w: Value, depth: nat, x: string, y: string)
    requires FloatsSound(fl) && WellFormed(v) && WellFormed(w)
    requires Canon(fl, v, depth).Some? && Canon(fl, w, depth).Some?
    requires Canon(fl, v, depth).value + x == Canon(fl, w, depth).value + y
    ensures (v.Arr? <==> w.Arr?) && (v.Obj? <==> w.Obj?) && exists c :: StartOf(v, c) && StartOf(w, c)
  {
    CanonStart(fl, v, depth);
    CanonStart(fl, w, depth);
    hide Canon, StartOf;
    var s, t := Canon(fl, v, depth).value, Canon(fl, w, depth).value;
    assert s[0] == (s + x)[0] && t[0] == (t + y)[0];
    assert StartOf(v, s[0]) && StartOf(w, s[0]);
    StartsAlike(v, w, s[0]);
  }

  /** Read in lockstep: texts that agree, whatever follows, come from the same value. */
  lemma {:induction false} ValuesRead(fl: Floats, v: Value, w: Value, depth: nat, x: string, y: string)
    requires FloatsSound(fl) && WellFormed(v) && WellFormed(w)
    requires Canon(fl, v, depth).Some? && Canon(fl, w, depth).Some?
    requires Canon(fl, v, depth).value + x == Canon(fl, w, depth).value + y && Ends(x) && Ends(y)
    ensures Same(fl, v, w) && x == y
    decreases Size(v)
  {
    KindsAgree(fl, v, w, depth, x, y);
    if v.Arr? {
      hide Canon, ItemsTail, FieldsTail, Same, Scalar;
      ArrayText(fl, v.items, depth, x);
      ArrayText(fl, w.items, depth, y);
      DropFront("[", ItemsTail(fl, v.items, true, depth + 1).value + x, ItemsTail(fl, w.items, true, depth + 1).value + y);
      ItemsRead(fl, v.items, w.items, true, depth + 1, x, y);
      SameArrays(fl, v.items, w.items);
    } else if v.Obj? {
      hide Canon, ItemsTail, FieldsTail, Same, Scalar;
      var m, n := SortFields(v.fields), SortFields(w.fields);
      SortedWellFormed(v.fields);
      SortedWellFormed(w.fields);
      ObjectText(fl, v.fields, depth, x);
      ObjectText(fl, w.fields, depth, y);
      DropFront("{", FieldsTail(fl, m, true, depth + 1).value + x, FieldsTail(fl, n, true, depth + 1).value + y);
      FieldsRead(fl, m, n, true, depth + 1, x, y);
      SortedAlike(fl, v.fields, w.fields);
    } else {
      ScalarsRead(fl, v, w, x, y);
    }
  }

  lemma {:induction false} ItemsRead(fl: Floats, xs: seq<Value>, ys: seq<Value>, first: bool, depth: nat, x: string,
                                     y: string)
    requires FloatsSound(fl) && (forall v | v in xs :: WellFormed(v)) && (forall v | v in ys :: WellFormed(v))
    requires ItemsTail(fl, xs, first, depth).Some? && ItemsTail(fl, ys, first, depth).Some?
    requires ItemsTail(fl, xs, first, depth).value + x == ItemsTail(fl, ys, first, depth).value + y
    ensures SameItems(fl, xs, ys) && x == y
    decreases ItemsSize(xs)
  {
    hide Canon, ItemsTail, Same;
    ListEnd(fl, xs, first, depth, x);
    ListEnd(fl, ys, first, depth, y);
    if xs == [] {
      NothingLeft(fl, depth);
      DropFront("]", x, y);
    } else {
      FirstItem(fl, xs, first, depth, x);
      FirstItem(fl, ys, first, depth, y);
      var p, q := ItemsTail(fl, xs[1..], false, depth).value, ItemsTail(fl, ys[1..], false, depth).value;
      DropFront(Comma(first), Canon(fl, xs[0], depth).value + (p + x), Canon(fl, ys[0], depth).value + (q + y));
      TailStart(fl, xs[1..], [], depth, x);
      TailStart(fl, ys[1..], [], depth, y);
      ValuesRead(fl, xs[0], ys[0], depth, p + x, q + y);
      ItemsRead(fl, xs[1..], ys[1..], false, depth, x, y);
      assert xs == [xs[0]] + xs[1..] && ys == [ys[0]] + ys[1..];
    }
  }

  lemma {:induction false} FieldsRead(fl: Floats, m: Object, n: Object, first: bool, depth: nat, x: string, y: string)
    requires FloatsSound(fl) && (forall f | f in m :: WellFormed(f.value)) && (forall f | f in n :: WellFormed(f.value))
    requires FieldsTail(fl, m, first, depth).Some? && FieldsTail(fl, n, first, depth).Some?
    requires FieldsTail(fl, m, first, depth).value + x == FieldsTail(fl, n, first, depth).value + y
    ensures SameInOrder(fl, m, n) && x == y
    decreases FieldsSize(m)
  {
    hide Canon, FieldsTail, Same, Quoted;
    ObjectEnd(fl, m, first, depth, x);
    ObjectEnd(fl, n, first, depth, y);
    if m == [] {
      NothingLeft(fl, depth);
      DropFront("}", x, y);
    } else {
      FirstKeyReads(fl, m, n, first, depth, x, y);
      var p, q := FieldsTail(fl, m[1..], false, depth).value, FieldsTail(fl, n[1..], false, depth).value;
      TailStart(fl, [], m[1..], depth, x);
      TailStart(fl, [], n[1..], depth, y);
      ValuesRead(fl, m[0].value, n[0].value, depth, p + x, q + y);
      FieldsRead(fl, m[1..], n[1..], false, depth, x, y);
      hide WellFormed, FloatsSound, SameInOrder;
      InOrderCons(fl, m, n);
    }
  }

  lemma InOrderCons(fl: Floats, m: Object, n: Object)
    requires m != [] && n != [] && m[0].key == n[0].key && Same(fl, m[0].value, n[0].value) && SameInOrder(fl, m[1..], n[1..])
    ensures SameInOrder(fl, m, n)
  {
    hide Same;
    forall i | 0 <= i < |m| ensures m[i].key == n[i].key && Same(fl, m[i].value, n[i].value) {
      if i > 0 { assert m[i] == m[1..][i - 1] && n[i] == n[1..][i - 1]; }
    }
  }

  /** The first key of both objects is read, and the colon. */
  lemma FirstKeyReads(fl: Floats, m: Object, n: Object, first: bool, depth: nat, x: string, y: string)
    requires m != [] && n != [] && FieldsTail(fl, m, first, depth).Some? && FieldsTail(fl, n, first, depth).Some?
    requires FieldsTail(fl, m, first, depth).value + x == FieldsTail(fl, n, first, depth).value + y
    ensures m[0].key == n[0].key
    ensures Canon(fl, m[0].value, depth).Some? && FieldsTail(fl, m[1..], false, depth).Some?
    ensures Canon(fl, n[0].value, depth).Some? && FieldsTail(fl, n[1..], false, depth).Some?
    ensures Canon(fl, m[0].value, depth).value + (FieldsTail(fl, m[1..], false, depth).value + x)
         == Canon(fl, n[0].value, depth).value + (FieldsTail(fl, n[1..], false, depth).value + y)
  {
    hide Canon, FieldsTail, Quoted, Comma;
    FirstField(fl, m, first, depth, x);
    FirstField(fl, n, first, depth, y);
    var a := Canon(fl, m[0].value, depth).value + (FieldsTail(fl, m[1..], false, depth).value + x);
    var b := Canon(fl, n[0].value, depth).value + (FieldsTail(fl, n[1..], false, depth).value + y);
    DropFront(Comma(first), Quoted(m[0].key) + (":" + a), Quoted(n[0].key) + (":" + b));
    QuotedReads(m[0].key, n[0].key, ":" + a, ":" + b);
    DropFront(":", a, b);
  }

  function Abs(i: int): nat {
    if i < 0 then -i else i
  }

  lemma IntegerText(fl: Floats, i: int)
    requires Scalar(fl, Int(i)).Some?
    ensures Abs(i) <= MAX_SAFE_INTEGER && Scalar(fl, Int(i)) == Number(fl, Double(i < 0, fl.ofInt(Abs(i))))
  {
    hide Number;
  }

  /** No two integers that are written share their text: those a double would round are refused. */
  lemma IntegersAreWrittenApart(fl: Floats, i: int, j: int)
    requires FloatsSound(fl) && Scalar(fl, Int(i)).Some? && Scalar(fl, Int(j)).Some?
    ensures Scalar(fl, Int(i)) == Scalar(fl, Int(j)) <==> i == j
  {
    hide FloatsSound, Number, Scalar;
    IntegerText(fl, i);
    IntegerText(fl, j);
    var a, b := Double(i < 0, fl.ofInt(Abs(i))), Double(j < 0, fl.ofInt(Abs(j)));
    IntegersAreApart(fl, Abs(i), Abs(j));
    IntegersAreApart(fl, Abs(i), 0);
    NumberReadsBack(fl, a);
    NumberReadsBack(fl, b);
    NumberDetermines(fl, a, b);
  }

  // ----- Equal values are written alike -----

  lemma SameNumberSameText(fl: Floats, v: Value, w: Value)
    requires FloatsSound(fl) && WellFormed(v) && WellFormed(w) && SameNumber(fl, v, w)
    ensures Scalar(fl, v) == Scalar(fl, w)
  {
    NumberDetermines(fl, AsDouble(fl, v).value, AsDouble(fl, w).value);
  }

  lemma {:induction false} ValuesWrite(fl: Floats, v: Value, w: Value, depth: nat)
    requires FloatsSound(fl) && WellFormed(v) && WellFormed(w) && Same(fl, v, w)
    ensures Canon(fl, v, depth) == Canon(fl, w, depth)
    decreases Size(v)
  {
    if v.Arr? && w.Arr? {
      ItemsWrite(fl, v.items, w.items, true, depth + 1);
    } else if v.Obj? && w.Obj? {
      SortKeepsSize(v.fields);
      SortedFields(v.fields);
      SortedFields(w.fields);
      SortedAlike(fl, v.fields, w.fields);
      FieldsWrite(fl, SortFields(v.fields), SortFields(w.fields), true, depth + 1);
    } else if v != w {
      SameNumberSameText(fl, v, w);
    }
  }

  lemma {:induction false} ItemsWrite(fl: Floats, xs: seq<Value>, ys: seq<Value>, first: bool, depth: nat)
    requires FloatsSound(fl) && (forall v | v in xs :: WellFormed(v)) && (forall v | v in ys :: WellFormed(v))
    requires SameItems(fl, xs, ys)
    ensures ItemsTail(fl, xs, first, depth) == ItemsTail(fl, ys, first, depth)
    decreases ItemsSize(xs)
  {
    if xs != [] {
      ValuesWrite(fl, xs[0], ys[0], depth);
      ItemsWrite(fl, xs[1..], ys[1..], false, depth);
    }
  }

  lemma {:induction false} FieldsWrite(fl: Floats, m: Object, n: Object, first: bool, depth: nat)
    requires FloatsSound(fl) && (forall f | f in m :: WellFormed(f.value)) && (forall f | f in n :: WellFormed(f.value))
    requires SameInOrder(fl, m, n)
    ensures FieldsTail(fl, m, first, depth) == FieldsTail(fl, n, first, depth)
    decreases FieldsSize(m)
  {
    if m != [] {
      ValuesWrite(fl, m[0].value, n[0].value, depth);
      FieldsWrite(fl, m[1..], n[1..], false, depth);
    }
  }

  /** The canonical form determines the value, and the value the canonical form: two values
      the writer accepts have one form exactly when they are equal up to the order of keys
      and numeric value; and of two such values the writer accepts both or neither. */
  lemma CanonicalIsFaithful(fl: Floats, v: Value, w: Value)
    requires FloatsSound(fl) && WellFormed(v) && WellFormed(w)
    ensures Canon(fl, v, 0).Some? && Canon(fl, w, 0).Some? ==> (Canon(fl, v, 0) == Canon(fl, w, 0) <==> Same(fl, v, w))
    ensures Same(fl, v, w) ==> Canon(fl, v, 0) == Canon(fl, w, 0)
  {
    if Same(fl, v, w) {
      ValuesWrite(fl, v, w, 0);
    } else if Canon(fl, v, 0).Some? && Canon(fl, v, 0) == Canon(fl, w, 0) {
      ValuesRead(fl, v, w, 0, "", "");
    }
  }
}
