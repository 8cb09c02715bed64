/** What the canonical text says: read by a JSON reader of its own (RFC 8259, without white
    space), it is the value, with every object's members in ascending order of their keys. */
module Reading {
  import opened Results
  import opened Json
  import opened Decimals
  import opened Numbers
  import opened Jcs
  import opened Faithful
  import opened Sorting

  datatype Tree =
    | Nothing
    | Truth(b: bool)
    | Numeral(negative: bool, decimal: Decimal)
    | Text(s: string)
    | List(items: seq<Tree>)
    | Record(members: seq<Member>)

  datatype Member = Member(name: string, value: Tree)

  // ----- The reader -----

  function HexValue(c: char): Option<nat> {
    if '0' <= c <= '9' then Some((c - '0') as nat)
    else if 'a' <= c <= 'f' then Some(10 + (c - 'a') as nat)
    else if 'A' <= c <= 'F' then Some(10 + (c - 'A') as nat)
    else None
  }

  /** Four hexadecimal digits that are no surrogate. */
  function ReadHex(s: string): Option<char> {
    if |s| < 4 || HexValue(s[0]).None? || HexValue(s[1]).None? || HexValue(s[2]).None? || HexValue(s[3]).None? then None
    else
      var n := 4096 * HexValue(s[0]).value + 256 * HexValue(s[1]).value + 16 * HexValue(s[2]).value + HexValue(s[3]).value;
      if n < 0xD800 then Some(n as char) else None
  }

  /** What follows a backslash. */
  function ReadEscape(s: string): (r: Option<(char, string)>)
    ensures r.Some? ==> |r.value.1| < |s|
  {
    if s == "" then None
    else if s[0] == '"' || s[0] == '\\' || s[0] == '/' then Some((s[0], s[1..]))
    else if s[0] == 'b' then Some(('\U{8}', s[1..]))
    else if s[0] == 't' then Some(('\t', s[1..]))
    else if s[0] == 'n' then Some(('\n', s[1..]))
    else if s[0] == 'f' then Some(('\U{c}', s[1..]))
    else if s[0] == 'r' then Some(('\r', s[1..]))
    else if s[0] == 'u' && ReadHex(s[1..]).Some? then Some((ReadHex(s[1..]).value, s[5..]))
    else None
  }

  function ReadChar(s: string): (r: Option<(char, string)>)
    requires s != ""
    ensures r.Some? ==> |r.value.1| < |s|
  {
    if s[0] == '\\' then ReadEscape(s[1..]) else if s[0] < ' ' then None else Some((s[0], s[1..]))
  }

  /** A string after its opening quote, and what follows the closing one. */
  function ReadString(s: string): (r: Option<(string, string)>)
    ensures r.Some? ==> |r.value.1| < |s|
    decreases |s|
  {
    if s == "" then None
    else if s[0] == '"' then Some(("", s[1..]))
    else
      match ReadChar(s)
      case None => None
      case Some((c, rest)) =>
        (match ReadString(rest) case None => None case Some((more, end)) => Some(([c] + more, end)))
  }

  /** How far the characters of a number go. */
  function NumberSpan(s: string): (n: nat)
    ensures n <= |s|
  {
    if s == "" || !NumberChar(s[0]) then 0 else 1 + NumberSpan(s[1..])
  }

  function ReadWord(s: string, word: string, tree: Tree): Option<(Tree, string)> {
    if word <= s then Some((tree, s[|word|..])) else None
  }

  function ReadValue(s: string): (r: Option<(Tree, string)>)
    ensures r.Some? ==> |r.value.1| < |s|
    decreases |s|, 0
  {
    if s == "" then None
    else if s[0] == 'n' then ReadWord(s, "null", Nothing)
    else if s[0] == 't' then ReadWord(s, "true", Truth(true))
    else if s[0] == 'f' then ReadWord(s, "false", Truth(false))
    else if s[0] == '"' then
      match ReadString(s[1..]) case None => None case Some((text, rest)) => Some((Text(text), rest))
    else if s[0] == '[' then
      if |s| > 1 && s[1] == ']' then Some((List([]), s[2..]))
      else match ReadItems(s[1..]) case None => None case Some((items, rest)) => Some((List(items), rest))
    else if s[0] == '{' then
      if |s| > 1 && s[1] == '}' then Some((Record([]), s[2..]))
      else match ReadMembers(s[1..]) case None => None case Some((members, rest)) => Some((Record(members), rest))
    else
      var n := NumberSpan(s);
      match ReadNumber(s[..n])
      case None => None
      case Some((negative, d)) => if n == 0 then None else Some((Numeral(negative, d), s[n..]))
  }

  /** One item or more, up to the closing bracket. */
  function ReadItems(s: string): (r: Option<(seq<Tree>, string)>)
    ensures r.Some? ==> |r.value.1| < |s|
    decreases |s|, 1
  {
    match ReadValue(s)
    case None => None
    case Some((item, rest)) =>
      if rest == "" then None
      else if rest[0] == ']' then Some(([item], rest[1..]))
      else if rest[0] != ',' then None
      else match ReadItems(rest[1..]) case None => None case Some((more, end)) => Some(([item] + more, end))
  }

  function ReadMember(s: string): (r: Option<(Member, string)>)
    ensures r.Some? ==> |r.value.1| < |s|
    decreases |s|, 1
  {
    if s == "" || s[0] != '"' then None
    else
      match ReadString(s[1..])
      case None => None
      case Some((name, rest)) =>
        if rest == "" || rest[0] != ':' then None
        else match ReadValue(rest[1..]) case None => None case Some((value, end)) => Some((Member(name, value), end))
  }

  function ReadMembers(s: string): (r: Option<(seq<Member>, string)>)
    ensures r.Some? ==> |r.value.1| < |s|
    decreases |s|, 2
  {
    match ReadMember(s)
    case None => None
    case Some((member, rest)) =>
      if rest == "" then None
      else if rest[0] == '}' then Some(([member], rest[1..]))
      else if rest[0] != ',' then None
      else match ReadMembers(rest[1..]) case None => None case Some((more, end)) => Some(([member] + more, end))
  }

  // ----- What the tree must be -----

  ghost predicate Ascending(members: seq<Member>) {
    forall i, j | 0 <= i < j < |members| :: ComesBefore(members[i].name, members[j].name)
  }

  /** The numeral parses to the double, or to one that is worth the integer; zero has no sign. */
  predicate DepictsNumber(fl: Floats, negative: bool, d: Decimal, v: Value) {
    match v
    case Int(i) => if i == 0 then !negative && d.coefficient == 0 else negative == (i < 0) && IsWorth(fl.parse(d), Abs(i))
    case Float(x) =>
      if x.magnitude == 0 then !negative && d.coefficient == 0 else negative == x.negative && fl.parse(d) == x.magnitude
    case _ => false
  }

  lemma NumeralDepicts(fl: Floats, negative: bool, d: Decimal, v: Value)
    requires FloatsSound(fl) && Scalarly(v) && AsDouble(fl, v).Some?
    requires var x := AsDouble(fl, v).value;
             if x.magnitude == 0 then !negative && d.coefficient == 0 else negative == x.negative && fl.parse(d) == x.magnitude
    ensures DepictsNumber(fl, negative, d, v)
  {
    if v.Int? {
      IntegersAreApart(fl, Abs(v.i), 0);
      SafeIsWorth(fl, Abs(v.i));
    }
    hide FloatsSound, IsWorth;
  }

  predicate Scalarly(v: Value) {
    v.Int? || v.Float?
  }

  lemma SafeIsWorth(fl: Floats, i: nat)
    requires FloatsSound(fl) && i <= MAX_SAFE_INTEGER
    ensures IsWorth(fl.ofInt(i), i)
  {
  }

  ghost predicate Depicts(fl: Floats, tree: Tree, v: Value) {
    match tree
    case Nothing => v.Null?
    case Truth(b) => v == Bool(b)
    case Numeral(negative, d) => DepictsNumber(fl, negative, d, v)
    case Text(s) => v == Str(s)
    case List(items) => v.Arr? && |items| == |v.items| && forall i | 0 <= i < |items| :: Depicts(fl, items[i], v.items[i])
    case Record(ms) =>
      && v.Obj? && |ms| == |v.fields| && Ascending(ms)
      && forall i | 0 <= i < |ms| ::
           Has(v.fields, ms[i].name) && Depicts(fl, ms[i].value, v.fields[Find(v.fields, ms[i].name)].value)
  }

  // ----- Strings -----

  lemma ControlReads(c: char, y: string)
    requires c < ' '
    ensures ReadHex("00" + [HexDigit(c as nat / 16), HexDigit(c as nat % 16)] + y) == Some(c)
  {
    var s := "00" + [HexDigit(c as nat / 16), HexDigit(c as nat % 16)] + y;
    var high, low := c as nat / 16, c as nat % 16;
    assert s[2] == HexDigit(high) && s[3] == HexDigit(low);
    assert HexValue(HexDigit(high)) == Some(high) && HexValue(HexDigit(low)) == Some(low);
    assert 16 * high + low == c as nat;
  }

  /** RFC 8785, section 3.2.2.2: a two-character escape exactly for these seven, lower-case
      hexadecimal exactly for the other controls, and every other character as it is. */
  lemma EscapesAreMinimal(c: char)
    ensures |Escaped(c)| == 2 <==> c in {'"', '\\', '\U{8}', '\t', '\n', '\U{c}', '\r'}
    ensures |Escaped(c)| == 6 <==> c < ' ' && |Escaped(c)| != 2
    ensures |Escaped(c)| == 6 ==> forall i | 2 <= i < 6 :: '0' <= Escaped(c)[i] <= '9' || 'a' <= Escaped(c)[i] <= 'f'
    ensures |Escaped(c)| == 1 ==> Escaped(c) == [c]
    ensures |Escaped(c)| in {1, 2, 6}
  {
  }

  /** Every escape reads as the character it stands for. */
  lemma EscapeReads(c: char, y: string)
    ensures (Escaped(c) + y)[0] != '"' && ReadChar(Escaped(c) + y) == Some((c, y))
  {
    var e := Escaped(c);
    var s := e + y;
    assert s[0] == e[0];
    if |e| == 1 {
      assert s[1..] == y;
    } else if |e| == 2 {
      assert s[1..] == [e[1]] + y && s[1..][1..] == y;
    } else {
      ControlReads(c, y);
      assert s[1..] == "u" + ("00" + [HexDigit(c as nat / 16), HexDigit(c as nat % 16)] + y);
      assert s[1..][1..] == "00" + [HexDigit(c as nat / 16), HexDigit(c as nat % 16)] + y;
      assert s[1..][5..] == y;
    }
  }

  lemma {:induction false} StringReadsBack(s: string, y: string)
    ensures ReadString(StringTail(s) + y) == Some((s, y))
  {
    StringStart(s, y);
    if s == "" {
      assert ("\"" + y)[1..] == y;
    } else {
      hide Escaped, ReadChar;
      EscapeReads(s[0], StringTail(s[1..]) + y);
      StringReadsBack(s[1..], y);
      assert [s[0]] + s[1..] == s;
    }
  }

  // ----- Numbers -----

  lemma {:induction false} SpanOfNumber(a: string, x: string)
    requires IsNumberText(a) && Ends(x)
    ensures NumberSpan(a + x) == |a|
  {
    if a == "" {
      assert a + x == x;
    } else {
      SpanOfNumber(a[1..], x);
      assert (a + x)[1..] == a[1..] + x;
    }
  }

  lemma ZeroReads()
    ensures ReadNumber("0") == Some((false, Decimal(0, 0)))
  {
    WholeReads("0");
    assert "0"[..0] == "";
  }

  lemma NumberReads(fl: Floats, v: Value, x: string) returns (tree: Tree)
    requires FloatsSound(fl) && WellFormed(v) && (v.Int? || v.Float?) && Scalar(fl, v).Some? && Ends(x)
    ensures ReadValue(Scalar(fl, v).value + x) == Some((tree, x)) && Depicts(fl, tree, v)
  {
    hide Number, ReadNumber, Scalar, NumberSpan, ReadValue, ReadDecimal, AsDouble, FloatsSound, WellFormed, IsNumberText, Ends;
    CanonNumberText(fl, v);
    var t, d := Scalar(fl, v).value, AsDouble(fl, v).value;
    SpanOfNumber(t, x);
    NumberReadsBack(fl, d);
    ZeroReads();
    var r := ReadNumber(t).value;
    NumeralDepicts(fl, r.0, r.1, v);
    tree := Numeral(r.0, r.1);
    NumberStart(v, t[0]);
    NumeralReads(t, x, r.0, r.1);
  }

  lemma NumberStart(v: Value, c: char)
    requires (v.Int? || v.Float?) && StartOf(v, c)
    ensures IsDigit(c) || c == '-'
  {
  }

  lemma NumeralReads(t: string, x: string, negative: bool, d: Decimal)
    requires t != "" && (IsDigit(t[0]) || t[0] == '-') && NumberSpan(t + x) == |t| && ReadNumber(t) == Some((negative, d))
    ensures ReadValue(t + x) == Some((Numeral(negative, d), x))
  {
    hide ReadNumber, NumberSpan;
    assert (t + x)[0] == t[0] && (t + x)[..|t|] == t && (t + x)[|t|..] == x;
  }

  // ----- Values -----

  lemma ScalarReads(fl: Floats, v: Value, x: string) returns (tree: Tree)
    requires FloatsSound(fl) && WellFormed(v) && !v.Arr? && !v.Obj? && Scalar(fl, v).Some? && Ends(x)
    ensures ReadValue(Scalar(fl, v).value + x) == Some((tree, x)) && Depicts(fl, tree, v)
  {
    match v
    case Null =>
      tree := Nothing;
      WordReads("null", x, tree);
    case Bool(b) =>
      tree := Truth(b);
      WordReads(if b then "true" else "false", x, tree);
    case Str(s) =>
      tree := Text(s);
      QuotedReadsBack(s, x);
    case Int(_) => tree := NumberReads(fl, v, x);
    case Float(_) => tree := NumberReads(fl, v, x);
  }

  lemma WordReads(word: string, x: string, tree: Tree)
    requires (word == "null" && tree == Nothing) || (word == "true" && tree == Truth(true)) || (word == "false" && tree == Truth(false))
    ensures ReadValue(word + x) == Some((tree, x))
  {
    assert (word + x)[0] == word[0] && word <= word + x && (word + x)[|word|..] == x;
  }

  lemma QuotedReadsBack(s: string, x: string)
    ensures ReadValue(Quoted(s) + x) == Some((Text(s), x)) && (Quoted(s) + x)[0] == '"'
    ensures ReadString((Quoted(s) + x)[1..]) == Some((s, x))
  {
    StringReadsBack(s, x);
    hide StringTail, ReadString, NumberSpan, ReadNumber, ReadItems, ReadMembers;
    assert (Quoted(s) + x)[1..] == StringTail(s) + x;
  }

  ghost predicate AllDepict(fl: Floats, trees: seq<Tree>, items: seq<Value>) {
    |trees| == |items| && forall i | 0 <= i < |trees| :: Depicts(fl, trees[i], items[i])
  }

  /** Member by member, in the same order. */
  ghost predicate MembersDepict(fl: Floats, ms: seq<Member>, m: Object) {
    |ms| == |m| && forall i | 0 <= i < |ms| :: ms[i].name == m[i].key && Depicts(fl, ms[i].value, m[i].value)
  }

  lemma {:induction false} ValueReads(fl: Floats, v: Value, depth: nat, x: string) returns (tree: Tree)
    requires FloatsSound(fl) && WellFormed(v) && Canon(fl, v, depth).Some? && Ends(x)
    ensures ReadValue(Canon(fl, v, depth).value + x) == Some((tree, x)) && Depicts(fl, tree, v)
    decreases Size(v)
  {
    if v.Arr? {
      hide Canon, ItemsTail, FieldsTail, Depicts, ReadItems;
      ArrayText(fl, v.items, depth, x);
      var t := ItemsTail(fl, v.items, true, depth + 1).value;
      ListEnd(fl, v.items, true, depth + 1, x);
      if v.items == [] {
        tree := List([]);
        NothingLeft(fl, depth + 1);
        EmptyReads(x);
        EmptyDepicts(fl);
      } else {
        var trees := ItemsReadBack(fl, v.items, depth + 1, x);
        tree := List(trees);
        BracketReads(t + x, trees, x);
        ListDepicts(fl, trees, v.items);
      }
    } else if v.Obj? {
      hide Canon, ItemsTail, FieldsTail, Depicts, ReadMembers;
      var m := SortFields(v.fields);
      SortedWellFormed(v.fields);
      ObjectText(fl, v.fields, depth, x);
      var t := FieldsTail(fl, m, true, depth + 1).value;
      ObjectEnd(fl, m, true, depth + 1, x);
      if m == [] {
        tree := Record([]);
        NothingLeft(fl, depth + 1);
        EmptyReads(x);
        EmptyDepicts(fl);
      } else {
        var ms := MembersReadBack(fl, m, depth + 1, x);
        tree := Record(ms);
        BraceReads(t + x, ms, x);
        RecordDepicts(fl, ms, v.fields);
      }
    } else {
      tree := ScalarReads(fl, v, x);
    }
  }

  lemma EmptyReads(x: string)
    ensures ReadValue("[" + ("]" + x)) == Some((List([]), x)) && ReadValue("{" + ("}" + x)) == Some((Record([]), x))
  {
    assert ("[" + ("]" + x))[2..] == x && ("{" + ("}" + x))[2..] == x;
  }

  lemma EmptyDepicts(fl: Floats)
    ensures Depicts(fl, List([]), Arr([])) && Depicts(fl, Record([]), Obj([]))
  {
  }

  lemma BracketReads(s: string, trees: seq<Tree>, x: string)
    requires s != "" && s[0] != ']' && ReadItems(s) == Some((trees, x))
    ensures ReadValue("[" + s) == Some((List(trees), x))
  {
    hide ReadItems;
    assert ("[" + s)[1..] == s;
  }

  lemma BraceReads(s: string, ms: seq<Member>, x: string)
    requires s != "" && s[0] != '}' && ReadMembers(s) == Some((ms, x))
    ensures ReadValue("{" + s) == Some((Record(ms), x))
  {
    hide ReadMembers;
    assert ("{" + s)[1..] == s;
  }

  lemma ListDepicts(fl: Floats, trees: seq<Tree>, items: seq<Value>)
    requires AllDepict(fl, trees, items)
    ensures Depicts(fl, List(trees), Arr(items))
  {
  }

  /** Members in the order of the sorted fields are ascending, and depict the object. */
  lemma RecordDepicts(fl: Floats, ms: seq<Member>, m: Object)
    requires Distinct(m) && MembersDepict(fl, ms, SortFields(m))
    ensures Depicts(fl, Record(ms), Obj(m))
  {
    var sorted := SortFields(m);
    SortedFields(m);
    assert |sorted| == |m|;
    hide SortFields;
    forall i | 0 <= i < |ms|
      ensures Has(m, ms[i].name) && Depicts(fl, ms[i].value, m[Find(m, ms[i].name)].value)
    {
      assert sorted[i] in m;
      var j :| 0 <= j < |m| && m[j] == sorted[i];
      FindUnique(m, j);
    }
    assert Ascending(ms);
  }

  lemma NoComma(s: string)
    ensures Comma(true) + s == s
  {
  }

  lemma {:induction false} ItemsReadBack(fl: Floats, items: seq<Value>, depth: nat,
                                         x: string) returns (trees: seq<Tree>)
    requires FloatsSound(fl) && (forall v | v in items :: WellFormed(v)) && items != []
    requires ItemsTail(fl, items, true, depth).Some?
    ensures ReadItems(ItemsTail(fl, items, true, depth).value + x) == Some((trees, x)) && AllDepict(fl, trees, items)
    decreases ItemsSize(items)
  {
    FirstItem(fl, items, true, depth, x);
    var t, rest := Canon(fl, items[0], depth).value, ItemsTail(fl, items[1..], false, depth).value + x;
    TailStart(fl, items[1..], [], depth, x);
    NoComma(t + rest);
    hide Canon, ItemsTail, FieldsTail, Depicts, ReadValue, Scalar, AllDepict, ReadItems, Comma, WellFormed;
    var tree := ValueReads(fl, items[0], depth, rest);
    if items[1..] == [] {
      NothingLeft(fl, depth);
      LastItem(t + rest, tree, rest, x);
      trees := [tree];
      OneDepicts(fl, tree, items);
    } else {
      var more := ItemsReadBack(fl, items[1..], depth, x);
      LaterItems(fl, items[1..], depth, x);
      NextItem(t + rest, tree, ItemsTail(fl, items[1..], true, depth).value + x, more, x);
      trees := [tree] + more;
      MoreDepict(fl, tree, more, items);
    }
  }

  lemma LastItem(s: string, tree: Tree, rest: string, x: string)
    requires ReadValue(s) == Some((tree, rest)) && rest == "]" + x
    ensures ReadItems(s) == Some(([tree], x))
  {
    hide ReadValue;
    assert rest[1..] == x;
  }

  lemma NextItem(s: string, tree: Tree, later: string, more: seq<Tree>, x: string)
    requires ReadValue(s) == Some((tree, "," + later)) && ReadItems(later) == Some((more, x))
    ensures ReadItems(s) == Some(([tree] + more, x))
  {
    hide ReadValue;
    assert ("," + later)[1..] == later;
  }

  lemma OneDepicts(fl: Floats, tree: Tree, items: seq<Value>)
    requires items != [] && items[1..] == [] && Depicts(fl, tree, items[0])
    ensures AllDepict(fl, [tree], items)
  {
    hide Depicts;
    assert |items| == 1;
  }

  lemma MoreDepict(fl: Floats, tree: Tree, more: seq<Tree>, items: seq<Value>)
    requires items != [] && Depicts(fl, tree, items[0]) && AllDepict(fl, more, items[1..])
    ensures AllDepict(fl, [tree] + more, items)
  {
    hide Depicts;
    assert items == [items[0]] + items[1..];
  }

  /** Later items are written as first ones, after a comma. */
  lemma LaterItems(fl: Floats, items: seq<Value>, depth: nat, x: string)
    requires items != [] && ItemsTail(fl, items, false, depth).Some?
    ensures ItemsTail(fl, items, true, depth).Some?
    ensures ItemsTail(fl, items, false, depth).value + x == "," + (ItemsTail(fl, items, true, depth).value + x)
  {
    hide Canon;
    FirstItem(fl, items, false, depth, x);
    FirstItem(fl, items, true, depth, x);
  }

  lemma LaterFields(fl: Floats, m: Object, depth: nat, x: string)
    requires m != [] && FieldsTail(fl, m, false, depth).Some?
    ensures FieldsTail(fl, m, true, depth).Some?
    ensures FieldsTail(fl, m, false, depth).value + x == "," + (FieldsTail(fl, m, true, depth).value + x)
  {
    hide Canon, Quoted;
    FirstField(fl, m, false, depth, x);
    FirstField(fl, m, true, depth, x);
  }

  lemma MemberReads(name: string, t: string, rest: string, tree: Tree)
    requires ReadValue(t + rest) == Some((tree, rest))
    ensures ReadMember(Quoted(name) + (":" + (t + rest))) == Some((Member(name, tree), rest))
  {
    QuotedReadsBack(name, ":" + (t + rest));
    hide ReadValue, Quoted, ReadString;
    assert (":" + (t + rest))[1..] == t + rest;
  }

  lemma {:induction false} MembersReadBack(fl: Floats, m: Object, depth: nat, x: string) returns (ms: seq<Member>)
    requires FloatsSound(fl) && (forall f | f in m :: WellFormed(f.value)) && m != []
    requires FieldsTail(fl, m, true, depth).Some?
    ensures ReadMembers(FieldsTail(fl, m, true, depth).value + x) == Some((ms, x)) && MembersDepict(fl, ms, m)
    decreases FieldsSize(m)
  {
    FirstField(fl, m, true, depth, x);
    var t, rest := Canon(fl, m[0].value, depth).value, FieldsTail(fl, m[1..], false, depth).value + x;
    TailStart(fl, [], m[1..], depth, x);
    NoComma(Quoted(m[0].key) + (":" + (t + rest)));
    hide Canon, ItemsTail, FieldsTail, Depicts, ReadValue, ReadMember, Scalar, Quoted, MembersDepict, ReadMembers, Comma, WellFormed;
    var tree := ValueReads(fl, m[0].value, depth, rest);
    var member, s := Member(m[0].key, tree), Quoted(m[0].key) + (":" + (t + rest));
    MemberReads(m[0].key, t, rest, tree);
    if m[1..] == [] {
      NothingLeft(fl, depth);
      LastMember(s, member, rest, x);
      ms := [member];
      MembersDepictOne(fl, member, m);
    } else {
      var more := MembersReadBack(fl, m[1..], depth, x);
      LaterFields(fl, m[1..], depth, x);
      NextMember(s, member, FieldsTail(fl, m[1..], true, depth).value + x, more, x);
      ms := [member] + more;
      MembersDepictMore(fl, member, more, m);
    }
  }

  lemma LastMember(s: string, member: Member, rest: string, x: string)
    requires ReadMember(s) == Some((member, rest)) && rest == "}" + x
    ensures ReadMembers(s) == Some(([member], x))
  {
    hide ReadMember;
    assert rest[1..] == x;
  }

  lemma NextMember(s: string, member: Member, later: string, more: seq<Member>, x: string)
    requires ReadMember(s) == Some((member, "," + later)) && ReadMembers(later) == Some((more, x))
    ensures ReadMembers(s) == Some(([member] + more, x))
  {
    hide ReadMember;
    assert ("," + later)[1..] == later;
  }

  lemma MembersDepictOne(fl: Floats, member: Member, m: Object)
    requires m != [] && m[1..] == [] && member.name == m[0].key && Depicts(fl, member.value, m[0].value)
    ensures MembersDepict(fl, [member], m)
  {
    hide Depicts;
    assert |m| == 1;
  }

  lemma MembersDepictMore(fl: Floats, member: Member, more: seq<Member>, m: Object)
    requires m != [] && member.name == m[0].key && Depicts(fl, member.value, m[0].value) && MembersDepict(fl, more, m[1..])
    ensures MembersDepict(fl, [member] + more, m)
  {
    hide Depicts;
    assert m == [m[0]] + m[1..];
  }

  /** Canonical text is JSON text that says the value: read to its end, it gives the value
      back, numbers by the doubles they parse to and members in ascending order. */
  lemma CanonicalReadsBack(fl: Floats, v: Value) returns (tree: Tree)
    requires FloatsSound(fl) && WellFormed(v) && Canon(fl, v, 0).Some?
    ensures ReadValue(Canon(fl, v, 0).value) == Some((tree, "")) && Depicts(fl, tree, v)
  {
    tree := ValueReads(fl, v, 0, "");
    assert Canon(fl, v, 0).value + "" == Canon(fl, v, 0).value;
  }

  // ----- What can be written -----

  /** Arrays and objects nest at most `levels` deep around anything, every integer lies within
      two to the 53 less one, and every double is finite. */
  predicate Writable(v: Value, levels: nat) {
    match v
    case Int(i) => -9007199254740991 <= i <= 9007199254740991
    case Float(d) => d.magnitude < 0x7FF0_0000_0000_0000
    case Arr(items) => forall x | x in items :: levels > 0 && Writable(x, levels - 1)
    case Obj(m) => forall f | f in m :: levels > 0 && Writable(f.value, levels - 1)
    case _ => true
  }

  predicate FieldsWritable(m: Object, levels: int) {
    forall f | f in m :: levels >= 0 && Writable(f.value, levels)
  }

  predicate ItemsWritable(items: seq<Value>, levels: int) {
    forall x | x in items :: levels >= 0 && Writable(x, levels)
  }

  lemma LevelDown(v: Value, levels: nat)
    ensures v.Arr? ==> (Writable(v, levels) <==> ItemsWritable(v.items, levels - 1))
    ensures v.Obj? ==> (Writable(v, levels) <==> FieldsWritable(v.fields, levels - 1))
  {
    if v.Arr? {
      assert Writable(v, levels) <==> forall x | x in v.items :: levels > 0 && Writable(x, levels - 1);
    } else if v.Obj? {
      assert Writable(v, levels) <==> forall f | f in v.fields :: levels > 0 && Writable(f.value, levels - 1);
    }
  }

  lemma SafeIsFinite(fl: Floats, i: nat)
    requires FloatsSound(fl) && i <= MAX_SAFE_INTEGER
    ensures fl.ofInt(i) < FINITE_MAGNITUDES
  {
    assert IsWorth(fl.ofInt(i), i);
  }

  lemma FiniteIsWritten(fl: Floats, d: Double)
    ensures Number(fl, d).Some? <==> d.magnitude < FINITE_MAGNITUDES
  {
    hide Layout, EvenOnTie;
  }

  lemma ScalarExactly(fl: Floats, v: Value, levels: nat)
    requires FloatsSound(fl) && !v.Arr? && !v.Obj?
    ensures Scalar(fl, v).Some? <==> Writable(v, levels)
  {
    hide FloatsSound, Number, Quoted;
    if v.Int? && -MAX_SAFE_INTEGER <= v.i <= MAX_SAFE_INTEGER {
      SafeIsFinite(fl, Abs(v.i));
    }
    if v.Int? || v.Float? {
      if AsDouble(fl, v).Some? { FiniteIsWritten(fl, AsDouble(fl, v).value); }
    }
  }

  lemma CanonCases(fl: Floats, v: Value, depth: nat)
    ensures depth > 128 ==> Canon(fl, v, depth) == None
    ensures depth <= 128 && v.Arr? ==> (Canon(fl, v, depth).Some? <==> ItemsTail(fl, v.items, true, depth + 1).Some?)
    ensures depth <= 128 && v.Obj? ==> (Canon(fl, v, depth).Some? <==> FieldsTail(fl, SortFields(v.fields), true, depth + 1).Some?)
    ensures depth <= 128 && !v.Arr? && !v.Obj? ==> Canon(fl, v, depth) == Scalar(fl, v)
  {
    hide ItemsTail, FieldsTail, SortFields, Scalar;
  }

  lemma SortedWritable(m: Object, levels: int)
    ensures FieldsWritable(SortFields(m), levels) <==> FieldsWritable(m, levels)
  {
    SameMembers(m, FieldBelow);
    hide Writable;
  }

  /** A value has a canonical text exactly when it can be written within 128 levels. */
  lemma {:induction false} CanonExactly(fl: Floats, v: Value, depth: nat)
    requires FloatsSound(fl)
    ensures Canon(fl, v, depth).Some? <==> depth <= 128 && Writable(v, 128 - depth)
    decreases Size(v)
  {
    CanonCases(fl, v, depth);
    hide *;
    if depth <= 128 {
      var levels := 128 - depth;
      assert 128 - (depth + 1) == levels - 1;
      if v.Arr? {
        ItemsExactly(fl, v.items, true, depth + 1) by { SizeOfParts(v); }
        LevelDown(v, levels);
      } else if v.Obj? {
        FieldsExactly(fl, SortFields(v.fields), true, depth + 1) by { SizeOfParts(v); }
        SortedWritable(v.fields, levels - 1);
        LevelDown(v, levels);
      } else {
        ScalarExactly(fl, v, levels);
      }
    }
  }

  lemma SizeOfParts(v: Value)
    ensures v.Arr? ==> ItemsSize(v.items) < Size(v)
    ensures v.Obj? ==> FieldsSize(SortFields(v.fields)) < Size(v)
  {
    if v.Obj? { SortKeepsSize(v.fields); }
  }

  lemma {:induction false} ItemsExactly(fl: Floats, items: seq<Value>, first: bool, depth: nat)
    requires FloatsSound(fl)
    ensures ItemsTail(fl, items, first, depth).Some? <==> ItemsWritable(items, 128 - depth)
    decreases ItemsSize(items)
  {
    if items != [] {
      CanonExactly(fl, items[0], depth);
      ItemsExactly(fl, items[1..], false, depth);
      hide Canon, Writable;
      assert items == [items[0]] + items[1..] && items[0] in items;
    }
  }

  lemma {:induction false} FieldsExactly(fl: Floats, m: Object, first: bool, depth: nat)
    requires FloatsSound(fl)
    ensures FieldsTail(fl, m, first, depth).Some? <==> FieldsWritable(m, 128 - depth)
    decreases FieldsSize(m)
  {
    if m != [] {
      CanonExactly(fl, m[0].value, depth);
      FieldsExactly(fl, m[1..], false, depth);
      hide Canon, Writable, Quoted;
      assert m == [m[0]] + m[1..];
    }
  }
}
