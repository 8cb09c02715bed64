/** The writer of canonical JSON (jcs.rs, after RFC 8785): `Canon` is the text of a value or
    nothing, and class `Writer` appends that text piece by piece. */
module Jcs {
  import opened Results
  import opened Json
  import opened Decimals
  import opened Numbers
  import opened Sorting

  const MAX_DEPTH: nat := 128

  // ----- The order of keys -----

  function CodeUnits(c: char): seq<nat> {
    var n := c as nat;
    if n < 0x1_0000 then [n] else [0xD800 + (n - 0x1_0000) / 0x400, 0xDC00 + (n - 0x1_0000) % 0x400]
  }

  function Utf16(s: string): seq<nat> {
    if s == "" then [] else CodeUnits(s[0]) + Utf16(s[1..])
  }

  predicate Below(a: seq<nat>, b: seq<nat>)
    decreases |a|
  {
    b != [] && (a == [] || a[0] < b[0] || (a[0] == b[0] && Below(a[1..], b[1..])))
  }

  predicate KeyBelow(a: string, b: string) {
    Below(Utf16(a), Utf16(b))
  }

  predicate SortedKeys(m: Object) {
    forall i, j | 0 <= i < j < |m| :: KeyBelow(m[i].key, m[j].key)
  }

  predicate FieldBelow(f: Field, g: Field) {
    KeyBelow(f.key, g.key)
  }

  /** The fields in the order of their keys. */
  function SortFields(m: Object): Object {
    SortedBy(m, FieldBelow)
  }

  // ----- The canonical text -----

  function HexDigit(n: nat): char
    requires n < 16
  {
    if n < 10 then DigitChar(n) else 'a' + (n - 10) as char
  }

  function Escaped(c: char): string {
    if c == '"' then "\\\""
    else if c == '\\' then "\\\\"
    else if c == '\U{8}' then "\\b"
    else if c == '\t' then "\\t"
    else if c == '\n' then "\\n"
    else if c == '\U{c}' then "\\f"
    else if c == '\r' then "\\r"
    else if c < ' ' then "\\u00" + [HexDigit(c as nat / 16), HexDigit(c as nat % 16)]
    else [c]
  }

  /** The characters of `s`, and the closing quote. */
  function StringTail(s: string): string {
    if s == "" then "\"" else Escaped(s[0]) + StringTail(s[1..])
  }

  function Quoted(s: string): string {
    "\"" + StringTail(s)
  }

  /** The double a number stands for, unless it is an integer that would be rounded. */
  function AsDouble(fl: Floats, v: Value): Option<Double> {
    match v
    case Int(i) =>
      if -MAX_SAFE_INTEGER <= i <= MAX_SAFE_INTEGER then Some(Double(i < 0, fl.ofInt(if i < 0 then -i else i))) else None
    case Float(d) => Some(d)
    case _ => None
  }

  function NumberText(fl: Floats, d: Option<Double>): Option<string> {
    match d case None => None case Some(d) => Number(fl, d)
  }

  function Scalar(fl: Floats, v: Value): Option<string>
    requires !v.Arr? && !v.Obj?
  {
    match v
    case Null => Some("null")
    case Bool(b) => Some(if b then "true" else "false")
    case Str(s) => Some(Quoted(s))
    case Int(_) => NumberText(fl, AsDouble(fl, v))
    case Float(_) => NumberText(fl, AsDouble(fl, v))
  }

  function Canon(fl: Floats, v: Value, depth: nat): Option<string>
    decreases Size(v)
  {
    if depth > MAX_DEPTH then None
    else
      match v
      case Arr(items) => Prefixed("[", ItemsTail(fl, items, true, depth + 1))
      case Obj(m) =>
        SortKeepsSize(m);
        Prefixed("{", FieldsTail(fl, SortFields(m), true, depth + 1))
      case _ => Scalar(fl, v)
  }

  function Prefixed(a: string, b: Option<string>): Option<string> {
    match b case None => None case Some(s) => Some(a + s)
  }

  function Comma(first: bool): string {
    if first then "" else ","
  }

  /** The remaining items, and the closing bracket. */
  function ItemsTail(fl: Floats, items: seq<Value>, first: bool, depth: nat): Option<string>
    decreases ItemsSize(items)
  {
    if items == [] then Some("]")
    else
      match Canon(fl, items[0], depth)
      case None => None
      case Some(t) => Prefixed(Comma(first) + t, ItemsTail(fl, items[1..], false, depth))
  }

  /** The remaining fields, and the closing brace. */
  function FieldsTail(fl: Floats, m: Object, first: bool, depth: nat): Option<string>
    decreases FieldsSize(m)
  {
    if m == [] then Some("}")
    else
      match Canon(fl, m[0].value, depth)
      case None => None
      case Some(t) =>
        Prefixed(Comma(first) + Quoted(m[0].key) + ":" + t, FieldsTail(fl, m[1..], false, depth))
  }

  lemma InsertKeepsSize(f: Field, m: Object)
    ensures FieldsSize(InsertSorted(f, m, FieldBelow)) == 1 + Size(f.value) + FieldsSize(m)
  {
    if m == [] || FieldBelow(f, m[0]) {
      assert ([f] + m)[1..] == m;
    } else {
      InsertKeepsSize(f, m[1..]);
      assert InsertSorted(f, m, FieldBelow)[1..] == InsertSorted(f, m[1..], FieldBelow);
    }
  }

  lemma SortKeepsSize(m: Object)
    ensures FieldsSize(SortFields(m)) == FieldsSize(m)
  {
    if m != [] {
      SortKeepsSize(m[1..]);
      InsertKeepsSize(m[0], SortFields(m[1..]));
    }
  }

  // ----- The writer -----

  lemma StringStep(s: string, i: nat)
    requires i < |s|
    ensures StringTail(s[i..]) == Escaped(s[i]) + StringTail(s[i + 1..])
  {
    assert s[i..][0] == s[i] && s[i..][1..] == s[i + 1..];
  }

  lemma NothingLeft(fl: Floats, depth: nat)
    ensures forall first :: ItemsTail(fl, [], first, depth) == Some("]") && FieldsTail(fl, [], first, depth) == Some("}")
  {
  }

  lemma ItemsStep(fl: Floats, items: seq<Value>, i: nat, depth: nat)
    requires i < |items|
    ensures ItemsSize(items[i..]) == 1 + Size(items[i]) + ItemsSize(items[i + 1..])
    ensures var whole, t, rest := ItemsTail(fl, items[i..], i == 0, depth), Canon(fl, items[i], depth), ItemsTail(fl, items[i + 1..], false, depth);
            && (whole.Some? <==> t.Some? && rest.Some?)
            && (whole.Some? ==> whole.value == Comma(i == 0) + t.value + rest.value)
  {
    assert items[i..][0] == items[i] && items[i..][1..] == items[i + 1..];
  }

  lemma FieldsStep(fl: Floats, m: Object, i: nat, depth: nat)
    requires i < |m|
    ensures FieldsSize(m[i..]) == 1 + Size(m[i].value) + FieldsSize(m[i + 1..])
    ensures var whole, t, rest := FieldsTail(fl, m[i..], i == 0, depth), Canon(fl, m[i].value, depth), FieldsTail(fl, m[i + 1..], false, depth);
            && (whole.Some? <==> t.Some? && rest.Some?)
            && (whole.Some? ==> whole.value == Comma(i == 0) + Quoted(m[i].key) + ":" + t.value + rest.value)
  {
    assert m[i..][0] == m[i] && m[i..][1..] == m[i + 1..];
  }

  /** `before` and `part` are written, `rest` is still to come. */
  lemma Regrouped(before: string, part: string, rest: string)
    ensures before + part + rest == before + (part + rest)
  {
  }

  class Writer {
    const fl: Floats
    var out: string

    constructor (fl: Floats)
      ensures this.fl == fl && out == ""
    {
      this.fl, out := fl, "";
    }

    /** `write_string`. */
    method WriteString(s: string)
      modifies this
      ensures out == old(out) + Quoted(s)
    {
      out := out + "\"";
      assert s[0..] == s;
      Regrouped(old(out), "\"", StringTail(s));
      for i := 0 to |s|
        invariant out + StringTail(s[i..]) == old(out) + Quoted(s)
      {
        hide Escaped, StringTail;
        ghost var before := out;
        out := out + Escaped(s[i]);
        StringStep(s, i);
        Regrouped(before, Escaped(s[i]), StringTail(s[i + 1..]));
      }
      assert s[|s|..] == "";
      out := out + "\"";
    }

    /** `write_value`. */
    method WriteValue(v: Value, depth: nat) returns (ok: bool)
      modifies this
      ensures ok <==> Canon(fl, v, depth).Some?
      ensures ok ==> out == old(out) + Canon(fl, v, depth).value
      decreases Size(v), 1
    {
      hide Number, Quoted;
      if depth > MAX_DEPTH { return false; }
      match v {
        case Null => out := out + "null"; ok := true;
        case Bool(b) => out := out + (if b then "true" else "false"); ok := true;
        case Int(i) =>
          if !(-MAX_SAFE_INTEGER <= i <= MAX_SAFE_INTEGER) { return false; }
          var text := WriteNumber(fl, Double(i < 0, fl.ofInt(if i < 0 then -i else i)));
          ok := text.Some?;
          if ok { out := out + text.value; }
        case Float(d) =>
          var text := WriteNumber(fl, d);
          ok := text.Some?;
          if ok { out := out + text.value; }
        case Str(s) =>
          WriteString(s);
          ok := true;
        case Arr(items) =>
          out := out + "[";
          ok := WriteItems(items, depth + 1);
          if ok {
            out := out + "]";
            Regrouped(old(out), "[", ItemsTail(fl, items, true, depth + 1).value);
          }
        case Obj(m) =>
          SortKeepsSize(m);
          out := out + "{";
          ok := WriteFields(SortFields(m), depth + 1);
          if ok {
            out := out + "}";
            Regrouped(old(out), "{", FieldsTail(fl, SortFields(m), true, depth + 1).value);
          }
      }
    }

    method WriteItems(items: seq<Value>, depth: nat) returns (ok: bool)
      modifies this
      ensures ok <==> ItemsTail(fl, items, true, depth).Some?
      ensures ok ==> out + "]" == old(out) + ItemsTail(fl, items, true, depth).value
      decreases ItemsSize(items), 0
    {
      hide Canon, ItemsTail, Size, ItemsSize, Prefixed;
      ghost var whole := ItemsTail(fl, items, true, depth);
      assert items[0..] == items;
      for i := 0 to |items|
        invariant ItemsSize(items[i..]) <= ItemsSize(items)
        invariant whole.Some? <==> ItemsTail(fl, items[i..], i == 0, depth).Some?
        invariant whole.Some? ==> out + ItemsTail(fl, items[i..], i == 0, depth).value == old(out) + whole.value
      {
        ItemsStep(fl, items, i, depth);
        ghost var before := out;
        if i > 0 { out := out + ","; }
        var written := WriteValue(items[i], depth);
        if !written { return false; }
        assert out == before + (Comma(i == 0) + Canon(fl, items[i], depth).value);
        if whole.Some? {
          Regrouped(before, Comma(i == 0) + Canon(fl, items[i], depth).value, ItemsTail(fl, items[i + 1..], false, depth).value);
        }
      }
      NothingLeft(fl, depth);
      assert items[|items|..] == [];
      ok := true;
    }

    method WriteFields(entries: Object, depth: nat) returns (ok: bool)
      modifies this
      ensures ok <==> FieldsTail(fl, entries, true, depth).Some?
      ensures ok ==> out + "}" == old(out) + FieldsTail(fl, entries, true, depth).value
      decreases FieldsSize(entries), 0
    {
      hide Canon, FieldsTail, Size, FieldsSize, Quoted, Prefixed;
      ghost var whole := FieldsTail(fl, entries, true, depth);
      assert entries[0..] == entries;
      for i := 0 to |entries|
        invariant FieldsSize(entries[i..]) <= FieldsSize(entries)
        invariant whole.Some? <==> FieldsTail(fl, entries[i..], i == 0, depth).Some?
        invariant whole.Some? ==> out + FieldsTail(fl, entries[i..], i == 0, depth).value == old(out) + whole.value
      {
        FieldsStep(fl, entries, i, depth);
        ghost var before := out;
        if i > 0 { out := out + ","; }
        WriteString(entries[i].key);
        out := out + ":";
        var written := WriteValue(entries[i].value, depth);
        if !written { return false; }
        ghost var part := Comma(i == 0) + Quoted(entries[i].key) + ":" + Canon(fl, entries[i].value, depth).value;
        assert out == before + part;
        if whole.Some? {
          Regrouped(before, part, FieldsTail(fl, entries[i + 1..], false, depth).value);
        }
      }
      NothingLeft(fl, depth);
      assert entries[|entries|..] == [];
      ok := true;
    }
  }

  /** `canonicalize`. */
  method Canonicalize(fl: Floats, v: Value) returns (r: Option<string>)
    ensures r == Canon(fl, v, 0)
  {
    var writer := new Writer(fl);
    var ok := writer.WriteValue(v, 0);
    if !ok { return None; }
    assert writer.out == Canon(fl, v, 0).value;
    r := Some(writer.out);
  }
}
