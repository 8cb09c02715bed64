/** The hypotheses of the theorems can be met: a sound codec, sound floats and honest signers. */
module Witnesses {
  import opened Results
  import opened Json
  import opened Codec
  import opened Jws
  import opened Builder
  import opened RoundTrip
  import opened Decimals
  import opened Doubles
  import opened Numbers
  import opened ChainTheorems
  import opened Completeness
  import opened Issue
  import Chain

  // ----- Numbering all JSON values -----

  /** An injective pairing. */
  function Pair(a: nat, b: nat): nat
    decreases a
  {
    if a == 0 then 2 * b + 1 else 2 * Pair(a - 1, b)
  }

  function NumberOfText(s: string): nat {
    if s == "" then 0 else Pair(s[0] as nat, NumberOfText(s[1..]))
  }

  function NumberOfInt(i: int): nat {
    if i < 0 then -2 * i - 1 else 2 * i
  }

  function NumberOf(v: Value): nat
    decreases Size(v)
  {
    match v
    case Null => Pair(0, 0)
    case Bool(b) => Pair(1, if b then 1 else 0)
    case Int(i) => Pair(2, NumberOfInt(i))
    case Float(d) => Pair(3, Pair(if d.negative then 1 else 0, d.magnitude))
    case Str(s) => Pair(4, NumberOfText(s))
    case Arr(items) => Pair(5, NumberOfItems(items))
    case Obj(m) => Pair(6, NumberOfFields(m))
  }

  function NumberOfItems(items: seq<Value>): nat
    decreases ItemsSize(items)
  {
    if items == [] then 0 else Pair(NumberOf(items[0]), NumberOfItems(items[1..]))
  }

  function NumberOfFields(m: Object): nat
    decreases FieldsSize(m)
  {
    if m == [] then 0 else Pair(NumberOfText(m[0].key), Pair(NumberOf(m[0].value), NumberOfFields(m[1..])))
  }

  lemma {:induction false} PairDetermines(a: nat, b: nat, c: nat, d: nat)
    requires Pair(a, b) == Pair(c, d)
    ensures a == c && b == d
    decreases a
  {
    if a > 0 && c > 0 { PairDetermines(a - 1, b, c - 1, d); }
  }

  lemma {:induction false} PairIsPositive(a: nat, b: nat)
    ensures Pair(a, b) > 0
  {
    if a > 0 { PairIsPositive(a - 1, b); }
  }

  lemma {:induction false} TextDetermined(s: string, t: string)
    requires NumberOfText(s) == NumberOfText(t)
    ensures s == t
    decreases |s|
  {
    if s != "" { PairIsPositive(s[0] as nat, NumberOfText(s[1..])); }
    if t != "" { PairIsPositive(t[0] as nat, NumberOfText(t[1..])); }
    if s != "" && t != "" {
      PairDetermines(s[0] as nat, NumberOfText(s[1..]), t[0] as nat, NumberOfText(t[1..]));
      TextDetermined(s[1..], t[1..]);
      assert s == [s[0]] + s[1..] && t == [t[0]] + t[1..];
    }
  }

  function Tag(v: Value): nat {
    match v
    case Null => 0 case Bool(_) => 1 case Int(_) => 2 case Float(_) => 3 case Str(_) => 4 case Arr(_) => 5 case Obj(_) => 6
  }

  function Body(v: Value): nat {
    match v
    case Null => 0
    case Bool(b) => if b then 1 else 0
    case Int(i) => NumberOfInt(i)
    case Float(d) => Pair(if d.negative then 1 else 0, d.magnitude)
    case Str(s) => NumberOfText(s)
    case Arr(items) => NumberOfItems(items)
    case Obj(m) => NumberOfFields(m)
  }

  lemma TagAndBody(v: Value)
    ensures NumberOf(v) == Pair(Tag(v), Body(v))
  {
    hide Pair;
  }

  lemma {:induction false} ValueDetermined(v: Value, w: Value)
    requires NumberOf(v) == NumberOf(w)
    ensures v == w
    decreases Size(v)
  {
    TagAndBody(v);
    TagAndBody(w);
    PairDetermines(Tag(v), Body(v), Tag(w), Body(w));
    hide Pair, NumberOf;
    match v {
      case Float(d) => PairDetermines(if d.negative then 1 else 0, d.magnitude, if w.d.negative then 1 else 0, w.d.magnitude);
      case Str(s) => TextDetermined(s, w.s);
      case Arr(items) => ItemsDetermined(items, w.items);
      case Obj(m) => FieldsDetermined(m, w.fields);
      case _ =>
    }
  }

  lemma {:induction false} ItemsDetermined(xs: seq<Value>, ys: seq<Value>)
    requires NumberOfItems(xs) == NumberOfItems(ys)
    ensures xs == ys
    decreases ItemsSize(xs)
  {
    hide Pair, NumberOf;
    if xs != [] { PairIsPositive(NumberOf(xs[0]), NumberOfItems(xs[1..])); }
    if ys != [] { PairIsPositive(NumberOf(ys[0]), NumberOfItems(ys[1..])); }
    if xs != [] && ys != [] {
      PairDetermines(NumberOf(xs[0]), NumberOfItems(xs[1..]), NumberOf(ys[0]), NumberOfItems(ys[1..]));
      ValueDetermined(xs[0], ys[0]);
      ItemsDetermined(xs[1..], ys[1..]);
      assert xs == [xs[0]] + xs[1..] && ys == [ys[0]] + ys[1..];
    }
  }

  lemma {:induction false} FieldsDetermined(a: Object, b: Object)
    requires NumberOfFields(a) == NumberOfFields(b)
    ensures a == b
    decreases FieldsSize(a)
  {
    hide Pair, NumberOf, NumberOfText;
    if a != [] { PairIsPositive(NumberOfText(a[0].key), Pair(NumberOf(a[0].value), NumberOfFields(a[1..]))); }
    if b != [] { PairIsPositive(NumberOfText(b[0].key), Pair(NumberOf(b[0].value), NumberOfFields(b[1..]))); }
    if a != [] && b != [] {
      var p, q := Pair(NumberOf(a[0].value), NumberOfFields(a[1..])), Pair(NumberOf(b[0].value), NumberOfFields(b[1..]));
      PairDetermines(NumberOfText(a[0].key), p, NumberOfText(b[0].key), q);
      TextDetermined(a[0].key, b[0].key);
      PairDetermines(NumberOf(a[0].value), NumberOfFields(a[1..]), NumberOf(b[0].value), NumberOfFields(b[1..]));
      ValueDetermined(a[0].value, b[0].value);
      FieldsDetermined(a[1..], b[1..]);
      assert a == [a[0]] + a[1..] && b == [b[0]] + b[1..];
    }
  }

  // ----- A sound codec -----

  /** A base64url text for every number. */
  function Token(n: nat): string {
    Repeat('A', n + 1)
  }

  lemma TokenIsToken(n: nat)
    ensures IsToken(Token(n)) && |Token(n)| == n + 1
  {
  }

  /** The well-formed value written as `s`, if there is one. */
  ghost function ReadToken(s: string): Option<Value> {
    if exists v :: WellFormed(v) && Token(NumberOf(v)) == s
    then var v :| WellFormed(v) && Token(NumberOf(v)) == s; Some(v)
    else None
  }

  function NumberOfBytes(b: seq<nat>): nat {
    if b == [] then 0 else Pair(b[0], NumberOfBytes(b[1..]))
  }

  lemma {:induction false} BytesDetermined(a: seq<nat>, b: seq<nat>)
    requires NumberOfBytes(a) == NumberOfBytes(b)
    ensures a == b
    decreases |a|
  {
    hide Pair;
    if a != [] { PairIsPositive(a[0], NumberOfBytes(a[1..])); }
    if b != [] { PairIsPositive(b[0], NumberOfBytes(b[1..])); }
    if a != [] && b != [] {
      PairDetermines(a[0], NumberOfBytes(a[1..]), b[0], NumberOfBytes(b[1..]));
      BytesDetermined(a[1..], b[1..]);
      assert a == [a[0]] + a[1..] && b == [b[0]] + b[1..];
    }
  }

  ghost function ReadBytes(s: string): Option<seq<nat>> {
    if exists b :: Token(NumberOfBytes(b)) == s then var b :| Token(NumberOfBytes(b)) == s; Some(b) else None
  }

  lemma BytesRead(b: seq<nat>)
    ensures ReadBytes(Token(NumberOfBytes(b))) == Some(b)
  {
    var r := ReadBytes(Token(NumberOfBytes(b)));
    assert r.Some? && |Token(NumberOfBytes(r.value))| == |Token(NumberOfBytes(b))|;
    BytesDetermined(r.value, b);
  }

  /** Texts, values and bytes in unary, and a scheme in which everything verifies. */
  ghost function UnaryCodec(): Codec {
    Codec(s => Token(NumberOfText(s)), v => Token(NumberOf(v)), s => ReadToken(s), s => ReadBytes(s),
          b => Token(NumberOfBytes(b)), k => true, (k, input, s) => SignatureCheck.Verified, (k, input) => "A")
  }

  lemma ReadTokenReads(v: Value)
    requires WellFormed(v)
    ensures ReadToken(Token(NumberOf(v))) == Some(v)
  {
    var w := ReadToken(Token(NumberOf(v)));
    assert w.Some? && Token(NumberOf(w.value)) == Token(NumberOf(v));
    assert |Token(NumberOf(w.value))| == |Token(NumberOf(v))|;
    ValueDetermined(w.value, v);
  }

  /** The assumptions about the library code can all be met at once. */
  lemma UnaryCodecIsSound()
    ensures Sound(UnaryCodec())
  {
    var c := UnaryCodec();
    hide NumberOf, NumberOfText, ReadToken;
    forall a, b | c.digest(a) == c.digest(b) ensures a == b {
      assert |c.digest(a)| == |c.digest(b)|;
      TextDetermined(a, b);
    }
    forall a ensures IsToken(c.digest(a)) { TokenIsToken(NumberOfText(a)); }
    forall v ensures IsToken(c.encode(v)) { TokenIsToken(NumberOf(v)); }
    forall v | WellFormed(v) && Fits(v, READABLE_DEPTH) ensures c.decode(c.encode(v)) == Some(v) { ReadTokenReads(v); }
    forall s | c.decode(s).Some? ensures WellFormed(c.decode(s).value) && IsToken(s) { ReadTokenIsStrict(s); }
  }

  lemma ReadTokenIsStrict(s: string)
    requires ReadToken(s).Some?
    ensures WellFormed(ReadToken(s).value) && IsToken(s)
  {
    TokenIsToken(NumberOf(ReadToken(s).value));
  }

  // ----- Sound floats -----

  lemma {:induction false} NatTextStarts(n: nat)
    requires n > 0
    ensures NatText(n)[0] != '0'
  {
    if n >= 10 { NatTextStarts(n / 10); }
  }

  /** All the digits of what a magnitude is worth. */
  ghost function FullExpansion(x: nat): (Digits, int) {
    var digits := NatText(Worth(x).coefficient);
    (digits, Worth(x).exponent + |digits| - 1)
  }

  ghost function ParseExactly(d: Decimal): nat {
    if exists x: nat :: SameDecimal(d, Worth(x)) then var x: nat :| SameDecimal(d, Worth(x)); x else 0
  }

  ghost function DoubleOf(i: nat): nat {
    if exists x: nat :: IsWorth(x, i) then var x: nat :| IsWorth(x, i); x else 0
  }

  ghost function ExactFloats(): Floats {
    Floats(x => FullExpansion(x), x => FullExpansion(x), d => ParseExactly(d), i => DoubleOf(i))
  }

  lemma ExpansionIsWorth(x: nat)
    requires x > 0
    ensures FullExpansion(x).0[0] != '0'
    ensures Scientific(FullExpansion(x).0, FullExpansion(x).1) == Worth(x)
  {
    hide Worth;
    WorthIsPositive(x);
    NatTextStarts(Worth(x).coefficient);
  }

  lemma WorthIsPositive(x: nat)
    requires x > 0
    ensures Worth(x).coefficient > 0
  {
    if Worth(x).coefficient == 0 {
      assert SameDecimal(Worth(x), Decimal(0, 0)) by { hide Worth; }
      WorthNothing(x);
    }
  }

  lemma SameReflexive(d: Decimal)
    ensures SameDecimal(d, d)
  {
    PowZero();
  }

  lemma ParseFinds(d: Decimal, x: nat)
    requires SameDecimal(d, Worth(x))
    ensures ParseExactly(d) == x
  {
    hide SameDecimal, Worth;
    var y := ParseExactly(d);
    SameDecimalSymmetric(d, Worth(x));
    SameDecimalTransitive(Worth(x), d, Worth(y));
    WorthDetermines(x, y);
  }

  lemma ParseAlike(a: Decimal, b: Decimal)
    requires SameDecimal(a, b)
    ensures ParseExactly(a) == ParseExactly(b)
  {
    hide SameDecimal, Worth;
    SameDecimalSymmetric(a, b);
    if x: nat :| SameDecimal(a, Worth(x)) {
      SameDecimalTransitive(b, a, Worth(x));
      ParseFinds(a, x);
      ParseFinds(b, x);
    } else if x: nat :| SameDecimal(b, Worth(x)) {
      SameDecimalTransitive(a, b, Worth(x));
      ParseFinds(a, x);
      ParseFinds(b, x);
    }
  }

  /** The position of the highest bit. */
  lemma {:induction false} HighestBit(i: nat) returns (k: nat)
    requires i > 0
    ensures Pow2(k) <= i < 2 * Pow2(k)
  {
    if i == 1 { k := 0; } else {
      k := HighestBit(i / 2);
      k := k + 1;
    }
  }

  lemma {:induction false} Pow2Adds(m: nat, n: nat)
    ensures Pow2(m + n) == Pow2(m) * Pow2(n)
  {
    if m > 0 {
      Pow2Adds(m - 1, n);
      Associates(2, Pow2(m - 1), Pow2(n));
    }
  }

  lemma {:induction false} Pow2Grows(m: nat, n: nat)
    requires m <= n
    ensures Pow2(m) <= Pow2(n)
  {
    if m < n { Pow2Grows(m, n - 1); }
  }

  lemma Shifted(p: nat, i: nat, shift: nat)
    requires p <= i < 2 * p && shift > 0
    ensures p * shift <= i * shift < 2 * (p * shift)
  {
  }

  /** The magnitude of a significand times two to the `e - 1`. */
  lemma NormalUlps(e: nat, significand: nat)
    requires 0 < e <= 1075 && FRACTIONS <= significand < 2 * FRACTIONS
    ensures e * FRACTIONS + (significand - FRACTIONS) < FINITE_MAGNITUDES
    ensures Ulps(e * FRACTIONS + (significand - FRACTIONS)) == significand * Pow2(e - 1)
  {
    hide Pow2;
    var x, f := e * FRACTIONS + (significand - FRACTIONS), significand - FRACTIONS;
    assert x / FRACTIONS == e && x % FRACTIONS == f;
  }

  lemma SmallPowers()
    ensures Pow2(52) == FRACTIONS && Pow2(53) == 2 * FRACTIONS
  {
    assert Pow2(13) == 0x2000;
    Pow2Adds(13, 13);
    Pow2Adds(26, 26);
  }

  lemma SafeBits(i: nat, k: nat)
    requires i <= MAX_SAFE_INTEGER && Pow2(k) <= i
    ensures k <= 52
  {
    SmallPowers();
    hide Pow2;
    if k > 52 { Pow2Grows(53, k); }
  }

  /** An integer below two to the 53, shifted up to 53 bits, is a significand. */
  lemma SafeIntegerIsWorth(i: nat) returns (x: nat)
    requires 0 < i <= MAX_SAFE_INTEGER
    ensures IsWorth(x, i)
  {
    var k := HighestBit(i);
    SafeBits(i, k);
    SmallPowers();
    hide *;
    var shift := Pow2(52 - k);
    Pow2Adds(k, 52 - k);
    Shifted(Pow2(k), i, shift);
    var e: nat := k + 1023;
    x := e * FRACTIONS + (i * shift - FRACTIONS);
    NormalUlps(e, i * shift);
    Pow2Adds(52 - k, k + 1022);
    Associates(i, shift, Pow2(k + 1022));
    DoubledIsWorth(x, i);
  }

  lemma DoubledIsWorth(x: nat, i: nat)
    requires x < FINITE_MAGNITUDES && Ulps(x) == i * Pow2(PLACES)
    ensures IsWorth(x, i)
  {
    hide Pow2, Ulps, Halved, SameDecimal;
    HalvedDoubled(i, PLACES);
  }

  lemma DoubleOfExists(i: nat)
    requires i <= MAX_SAFE_INTEGER
    ensures IsWorth(DoubleOf(i), i)
  {
    if i == 0 {
      assert IsWorth(0, 0) by { assert Ulps(0) == 0; }
    } else {
      var x := SafeIntegerIsWorth(i);
    }
  }

  /** The assumptions about doubles can be met: write every digit, and read exactly. */
  lemma ExactFloatsAreSound()
    ensures FloatsSound(ExactFloats())
  {
    hide Worth, SameDecimal, FullExpansion, ParseExactly, DoubleOf, IsWorth, Scientific;
    forall x: nat | 0 < x
      ensures FullExpansion(x).0[0] != '0'
      ensures SameDecimal(Scientific(FullExpansion(x).0, FullExpansion(x).1), Worth(x))
      ensures ParseExactly(Scientific(FullExpansion(x).0, FullExpansion(x).1)) == x
    {
      ExpansionIsWorth(x);
      SameReflexive(Worth(x));
      ParseFinds(Worth(x), x);
    }
    forall a, b | SameDecimal(a, b) ensures ParseExactly(a) == ParseExactly(b) { ParseAlike(a, b); }
    forall i: nat | i <= MAX_SAFE_INTEGER ensures IsWorth(DoubleOf(i), i) { DoubleOfExists(i); }
  }

  // ----- Honest signers -----

  function Zeros(n: nat): (s: seq<nat>)
    ensures |s| == n
  {
    if n == 0 then [] else [0] + Zeros(n - 1)
  }

  /** Two different coordinates. */
  function Key(): SigningKey {
    SigningKey(0, PublicJwk(Zeros(32), [1] + Zeros(31)), None)
  }

  ghost function Jwk(): Value {
    JwkOf(UnaryCodec(), Key().public)
  }

  ghost function OpenMandate(): Object {
    [Field("vct", Str("m")), Field("cnf", Obj([Field("jwk", Jwk())])), Field("exp", Int(0))]
  }

  function ClosedMandate(): Object {
    [Field("vct", Str("m"))]
  }

  function SpecOf(mandate: Object): HopSpec {
    HopSpec(mandate, Disclosable([], []), Key(), "a", "n", 0, ["s"])
  }

  /** The one key of the only surface. */
  function SurfaceKey(header: Object): Option<PublicJwk> {
    Some(Key().public)
  }

  lemma FlatIsIssuable(mandate: Object)
    requires Distinct(mandate)
    requires forall f | f in mandate :: f.key != SdJwt.SD && (f.value.Str? || f.value == Int(0) || f.value == Obj([Field("jwk", Jwk())]))
    ensures GoodSpec(SpecOf(mandate))
  {
    JwkIsPlain();
    hide Jwk;
    forall f | f in mandate ensures WellFormed(f.value) && Fits(f.value, READABLE_DEPTH - 2) && Inert(f.value) {
      if f.value.Obj? { FitsMore(f.value, 3, READABLE_DEPTH - 2); }
    }
  }

  lemma SpecsAreGood()
    ensures GoodSpec(SpecOf(OpenMandate())) && GoodSpec(SpecOf(ClosedMandate()))
  {
    hide GoodSpec, Jwk;
    var m, n := OpenMandate(), ClosedMandate();
    assert "vct"[0] != "cnf"[0] && "vct"[0] != "exp"[0] && "cnf"[0] != "exp"[0] && SdJwt.SD[0] == '_';
    assert forall i | 0 <= i < |m| :: m[i].key != SdJwt.SD;
    FlatIsIssuable(m);
    FlatIsIssuable(n);
  }

  lemma JwkIsPlain()
    ensures var v := Obj([Field("jwk", Jwk())]); WellFormed(v) && Fits(v, 3) && Inert(v)
  {
    var c, k := UnaryCodec(), Key().public;
    JwkFields(c, k);
    hide UnaryCodec, Key;
    var m := JwkOf(c, k).fields;
    assert forall i | 0 <= i < |m| :: m[i].value.Str? && m[i].key[0] != '_' && SdJwt.SD[0] == '_';
    hide JwkOf;
    TextsArePlain(m, 2);
    NestedIsPlain("jwk", Obj(m));
  }

  lemma TextsArePlain(m: Object, n: nat)
    requires Distinct(m) && n > 0 && forall f | f in m :: f.value.Str? && f.key != SdJwt.SD
    ensures WellFormed(Obj(m)) && Fits(Obj(m), n) && Inert(Obj(m))
  {
  }

  lemma NestedIsPlain(key: string, v: Value)
    requires WellFormed(v) && Fits(v, 2) && Inert(v) && key != SdJwt.SD
    ensures var w := Obj([Field(key, v)]); WellFormed(w) && Fits(w, 3) && Inert(w)
  {
  }

  lemma JwkReads()
    ensures IsJwk(UnaryCodec(), Jwk(), Key().public)
  {
    var c, k := UnaryCodec(), Key().public;
    BytesRead(k.x);
    BytesRead(k.y);
    hide ReadBytes, NumberOfBytes, Token, Zeros, ReadJwk, IsJwk;
    JwkReadsBack(c, k);
    ReadJwkExactly(c, Jwk(), k);
  }

  lemma OpenFields()
    ensures var m, cnf := OpenMandate(), [Field("jwk", Jwk())];
            && Distinct(m) && Get(m, "vct") == Some(Str("m")) && Get(m, "cnf") == Some(Obj(cnf)) && Get(m, "exp") == Some(Int(0))
            && Get(m, "iat") == None && Get(m, "nbf") == None && Get(cnf, "jwk") == Some(Jwk())
  {
    var m := OpenMandate();
    hide Jwk, Get;
    assert "vct"[0] != "cnf"[0] && "vct"[0] != "exp"[0] && "cnf"[0] != "exp"[0];
    GetAt(m, 0);
    GetAt(m, 1);
    GetAt(m, 2);
    assert "iat"[0] != "vct"[0] && "iat"[0] != "cnf"[0] && "iat"[0] != "exp"[0];
    assert "nbf"[0] != "vct"[0] && "nbf"[0] != "cnf"[0] && "nbf"[0] != "exp"[0];
    GetAbsent(m, "iat");
    GetAbsent(m, "nbf");
    GetAt([Field("jwk", Jwk())], 0);
  }

  lemma ClosedFields()
    ensures var m := ClosedMandate();
            && Get(m, "vct") == Some(Str("m")) && Get(m, "exp") == None && Get(m, "iat") == None && Get(m, "nbf") == None
            && !Has(m, "cnf")
  {
    var m := ClosedMandate();
    assert "iat"[0] != "vct"[0] && "nbf"[0] != "vct"[0] && "exp"[0] != "vct"[0] && "cnf"[0] != "vct"[0];
    hide Get, Has;
    GetAt(m, 0);
    GetAbsent(m, "exp");
    GetAbsent(m, "iat");
    GetAbsent(m, "nbf");
    GetAbsent(m, "cnf");
  }

  lemma OpenReads(c: Codec, m: Object, cnf: Object, jwk: Value, key: PublicJwk, opts: Chain.VerifyOptions)
    requires Get(m, "vct") == Some(Str("m")) && Get(m, "cnf") == Some(Obj(cnf)) && Get(m, "exp") == Some(Int(0))
    requires Get(m, "iat") == None && Get(m, "nbf") == None && Get(cnf, "jwk") == Some(jwk) && jwk.Obj? && IsJwk(c, jwk, key)
    requires opts.now == opts.clockSkew == 0
    ensures CompleteOpenMandate(m) && NamesKey(c, m, key) && InTime(m, opts)
  {
    hide Get, IsJwk;
  }

  lemma MandatesRead(opts: Chain.VerifyOptions)
    requires opts == Chain.VerifyOptions("a", "n", 0, 0, 0)
    ensures CompleteOpenMandate(OpenMandate()) && NamesKey(UnaryCodec(), OpenMandate(), Key().public)
    ensures InTime(OpenMandate(), opts) && InTime(ClosedMandate(), opts) && !Has(ClosedMandate(), "cnf")
    ensures Get(OpenMandate(), "vct") == Get(ClosedMandate(), "vct")
  {
    JwkReads();
    JwkFields(UnaryCodec(), Key().public);
    hide IsJwk, UnaryCodec, Key, JwkOf, Get, Has, OpenMandate, ClosedMandate, NamesKey, CompleteOpenMandate;
    OpenFields();
    ClosedFields();
    OpenReads(UnaryCodec(), OpenMandate(), [Field("jwk", Jwk())], Jwk(), Key().public, opts);
  }

  /** Honesty of two signers, one condition at a time. */
  lemma TwoAreHonest(c: Codec, a: HopSpec, b: HopSpec, rootKey: Chain.RootKey, opts: Chain.VerifyOptions)
    requires GoodSpec(a) && GoodSpec(b) && TimelySpec(a) && TimelySpec(b) && InTime(a.mandate, opts) && InTime(b.mandate, opts)
    requires rootKey(Header(Chain.DC_SD_JWT, a.key)) == Some(a.key.public) && CompleteOpenMandate(a.mandate)
    requires HandedOver(c, a, b, a, opts) && !Has(b.mandate, "cnf") && AddressesVerifier(b, opts)
    ensures Honest(c, [a, b], rootKey, opts)
  {
    hide InTime, GoodSpec, TimelySpec, CompleteOpenMandate, HandedOver, AddressesVerifier, Has, Header;
  }

  /** Honest signers exist: a surface and one agent, with the keys and times of the codec above. */
  lemma TwoHonestSigners()
    ensures Honest(UnaryCodec(), [SpecOf(OpenMandate()), SpecOf(ClosedMandate())], SurfaceKey,
                   Chain.VerifyOptions("a", "n", 0, 0, 0))
  {
    var opts := Chain.VerifyOptions("a", "n", 0, 0, 0);
    var a, b := SpecOf(OpenMandate()), SpecOf(ClosedMandate());
    MandatesRead(opts);
    SpecsAreGood();
    hide InTime, GoodSpec, NamesKey, CompleteOpenMandate, OpenMandate, ClosedMandate, Get, Has, UnaryCodec, Key, Header, Honest;
    TwoAreHonest(UnaryCodec(), a, b, SurfaceKey, opts);
  }
}
