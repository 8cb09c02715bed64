/** The `~~`-joined wire form of a chain: `split` and `Segment` of chain.rs, `join` and
    `segment` of issue.rs. */
module Wire {
  import opened Results
  import opened Codec

  const MAX_CHAIN_BYTES: nat := 64 * 1024
  const MAX_HOPS: nat := 8

  datatype Segment = Segment(canonical: string, jwt: string)

  function Utf8Len(s: string): nat {
    if s == "" then 0
    else (if s[0] < '\U{80}' then 1 else if s[0] < '\U{800}' then 2 else if s[0] < '\U{10000}' then 3 else 4)
         + Utf8Len(s[1..])
  }

  // ----- Splitting on `~~` -----

  /** The first position of `~~`, or the length. */
  function FirstPair(s: string): (i: nat)
    ensures i <= |s| && (i < |s| ==> i + 1 < |s| && s[i] == '~' == s[i + 1])
    ensures forall j | 0 <= j < i && j + 1 < |s| :: !(s[j] == '~' == s[j + 1])
  {
    if |s| < 2 then |s| else if s[0] == '~' == s[1] then 0 else 1 + FirstPair(s[1..])
  }

  function SplitPairs(s: string): (parts: seq<string>)
    ensures parts != []
    decreases |s|
  {
    var i := FirstPair(s);
    if i == |s| then [s] else [s[..i]] + SplitPairs(s[i + 2..])
  }

  function JoinPairs(parts: seq<string>): string
    requires parts != []
  {
    if |parts| == 1 then parts[0] else parts[0] + "~~" + JoinPairs(parts[1..])
  }

  predicate NoPair(s: string) {
    forall j | 0 <= j && j + 1 < |s| :: !(s[j] == '~' == s[j + 1])
  }

  predicate PairAt(s: string, j: int) {
    0 <= j && j + 1 < |s| && s[j] == '~' == s[j + 1]
  }

  predicate EndsInTilde(s: string) {
    s != "" && s[|s| - 1] == '~'
  }

  function JwtOf(segment: string): string {
    segment[..FirstOf(segment, '~')]
  }

  /** Joining strips the trailing `~` of every part but the last. */
  function CanonicalAt(raw: seq<string>, i: nat): string
    requires i < |raw|
  {
    if i == |raw| - 1 then raw[i] else raw[i] + "~"
  }

  predicate PartsReadable(raw: seq<string>)
    requires raw != []
  {
    EndsInTilde(raw[|raw| - 1]) && forall i | 0 <= i < |raw| :: JwtOf(raw[i]) != ""
  }

  /** `split`'s treatment of the raw parts, the last of which is the closing hop. */
  function ReadSegments(raw: seq<string>): Result<seq<Segment>>
    requires raw != []
  {
    if PartsReadable(raw) then Ok(seq(|raw|, i requires 0 <= i < |raw| => Segment(CanonicalAt(raw, i), JwtOf(raw[i]))))
    else Err(Malformed)
  }

  function Split(chain: string): Result<seq<Segment>> {
    var _ :- Check(Utf8Len(chain) <= MAX_CHAIN_BYTES, Malformed);
    var raw := SplitPairs(chain);
    var _ :- Check(|raw| <= MAX_HOPS, BadChain);
    var _ :- Check(|raw| >= 2, BadChain);
    ReadSegments(raw)
  }

  function StripFront(s: string): string {
    if s != "" && s[0] == '~' then s[1..] else s
  }

  function StripBack(s: string): string {
    if EndsInTilde(s) then s[..|s| - 1] else s
  }

  /** `Segment::disclosures`. */
  function Disclosures(segment: Segment): Result<seq<string>>
    requires |segment.jwt| <= |segment.canonical|
  {
    var inner := StripBack(StripFront(segment.canonical[|segment.jwt|..]));
    if inner == "" then Ok([])
    else
      var parts := SplitOn(inner, '~');
      if "" in parts then Err(Malformed) else Ok(parts)
  }

  // ----- Writing -----

  /** `join`: every segment but the last loses one trailing `~`. */
  function Join(segments: seq<string>): string
    requires segments != []
  {
    if |segments| == 1 then segments[0] else StripBack(segments[0]) + "~~" + Join(segments[1..])
  }

  function DisclosureText(ds: seq<string>): string {
    if ds == [] then "" else ds[0] + "~" + DisclosureText(ds[1..])
  }

  function SegmentText(jwt: string, ds: seq<string>): string {
    jwt + "~" + DisclosureText(ds)
  }

  /** `segment` of issue.rs: pushes the JWT and every disclosure, each followed by `~`. */
  method WriteSegment(jwt: string, ds: seq<string>) returns (out: string)
    ensures out == SegmentText(jwt, ds)
  {
    out := jwt + "~";
    for i := 0 to |ds|
      invariant out + DisclosureText(ds[i..]) == SegmentText(jwt, ds)
    {
      assert ds[i..][0] == ds[i] && ds[i..][1..] == ds[i + 1..];
      out := out + ds[i];
      out := out + "~";
    }
    assert ds[|ds|..] == [];
  }

  // ----- What one segment looks like -----

  /** A single segment: a non-empty JWT first, no `~~` inside, `~` at the end. */
  predicate IsSegment(s: string) {
    JwtOf(s) != "" && NoPair(s) && EndsInTilde(s)
  }

  lemma FirstPairAfter(a: string, rest: string)
    requires NoPair(a) && !EndsInTilde(a)
    ensures FirstPair(a + "~~" + rest) == |a|
  {
    var s := a + "~~" + rest;
    assert s[|a|] == '~' == s[|a| + 1];
    forall j | 0 <= j < |a| ensures !(s[j] == '~' == s[j + 1]) {
      assert s[j] == a[j];
      if j + 1 < |a| { assert s[j + 1] == a[j + 1]; }
    }
  }

  /** No part holds `~~`, and none but the last ends in `~`. */
  predicate CleanParts(parts: seq<string>) {
    && (forall i | 0 <= i < |parts| :: NoPair(parts[i]))
    && (forall i | 0 <= i < |parts| - 1 :: !EndsInTilde(parts[i]))
  }

  lemma CleanTail(parts: seq<string>)
    requires CleanParts(parts) && parts != []
    ensures CleanParts(parts[1..])
  {
    forall i | 0 <= i < |parts| - 1 ensures NoPair(parts[1..][i]) && (i < |parts| - 2 ==> !EndsInTilde(parts[1..][i])) {
      assert parts[1..][i] == parts[i + 1];
    }
  }

  lemma SplitAt(a: string, rest: string)
    requires FirstPair(a + "~~" + rest) == |a|
    ensures SplitPairs(a + "~~" + rest) == [a] + SplitPairs(rest)
  {
    var s := a + "~~" + rest;
    assert s[..|a|] == a && s[|a| + 2..] == rest;
  }

  lemma {:induction false} SplitJoinedParts(parts: seq<string>)
    requires parts != [] && CleanParts(parts)
    ensures SplitPairs(JoinPairs(parts)) == parts
  {
    if |parts| == 1 {
      assert NoPair(parts[0]);
      assert FirstPair(parts[0]) == |parts[0]|;
      assert parts == [parts[0]];
    } else {
      var tail := parts[1..];
      assert CleanParts(tail) by { CleanTail(parts); }
      SplitJoinedParts(tail);
      FirstPairAfter(parts[0], JoinPairs(tail));
      SplitAt(parts[0], JoinPairs(tail));
      assert parts == [parts[0]] + tail;
    }
  }

  /** What comes before the first `~~`, or all of a text without one. */
  lemma BeforePair(s: string)
    ensures var i := FirstPair(s);
            NoPair(s[..i]) && (i < |s| ==> !EndsInTilde(s[..i]) && s == s[..i] + "~~" + s[i + 2..]) && (i == |s| ==> NoPair(s))
  {
    var i := FirstPair(s);
    if i < |s| {
      assert !EndsInTilde(s[..i]) by { assert !PairAt(s, i - 1); }
      CutPair(s, i);
    }
  }

  lemma CutPair(s: string, i: nat)
    requires i + 1 < |s| && s[i] == '~' == s[i + 1]
    ensures s == s[..i] + "~~" + s[i + 2..]
  {
  }

  lemma OnePartIsClean(s: string)
    requires NoPair(s)
    ensures CleanParts([s])
  {
  }

  lemma CleanCons(a: string, rest: seq<string>)
    requires NoPair(a) && !EndsInTilde(a) && CleanParts(rest) && rest != []
    ensures CleanParts([a] + rest)
  {
    hide NoPair, EndsInTilde;
    assert forall j | 0 < j < |rest| + 1 :: ([a] + rest)[j] == rest[j - 1];
  }

  lemma {:induction false} JoinSplitParts(s: string)
    ensures JoinPairs(SplitPairs(s)) == s
    ensures CleanParts(SplitPairs(s))
    decreases |s|
  {
    var i := FirstPair(s);
    BeforePair(s);
    if i < |s| {
      var a, rest := s[..i], SplitPairs(s[i + 2..]);
      JoinSplitParts(s[i + 2..]);
      hide FirstPair, NoPair, EndsInTilde, CleanParts;
      CleanCons(a, rest);
      assert ([a] + rest)[1..] == rest;
    } else {
      OnePartIsClean(s);
    }
  }

  /** The raw parts that `split` sees for the given canonical segments. */
  function RawParts(segments: seq<string>): (raw: seq<string>)
    requires segments != []
    ensures |raw| == |segments|
  {
    if |segments| == 1 then segments else [StripBack(segments[0])] + RawParts(segments[1..])
  }

  lemma {:induction false} JoinIsJoinedParts(segments: seq<string>)
    requires segments != []
    ensures Join(segments) == JoinPairs(RawParts(segments))
  {
    if |segments| > 1 {
      JoinIsJoinedParts(segments[1..]);
      assert RawParts(segments)[1..] == RawParts(segments[1..]);
    }
  }

  lemma StripSegment(s: string)
    requires IsSegment(s)
    ensures NoPair(StripBack(s)) && !EndsInTilde(StripBack(s))
    ensures StripBack(s) + "~" == s
    ensures JwtOf(StripBack(s)) == JwtOf(s)
  {
    var a := s[..|s| - 1];
    assert !EndsInTilde(a) by { assert !PairAt(s, |s| - 2); }
    var i := FirstOf(s, '~');
    if i < |a| {
      assert a[i] == '~';
      FirstOfAt(a, '~', i);
    } else {
      FirstOfNone(a, '~');
    }
  }

  predicate AllSegments(segments: seq<string>) {
    forall i | 0 <= i < |segments| :: IsSegment(segments[i])
  }

  /** Every text with the JWT it starts with. */
  function Parsed(segments: seq<string>): (parsed: seq<Segment>)
    ensures |parsed| == |segments|
    ensures forall i | 0 <= i < |parsed| :: parsed[i] == Segment(segments[i], JwtOf(segments[i]))
  {
    seq(|segments|, i requires 0 <= i < |segments| => Segment(segments[i], JwtOf(segments[i])))
  }

  lemma {:induction false} RawPartAt(segments: seq<string>, i: nat)
    requires i < |segments|
    ensures RawParts(segments)[i] == if i == |segments| - 1 then segments[i] else StripBack(segments[i])
  {
    if i > 0 { RawPartAt(segments[1..], i - 1); }
  }

  lemma RawPartsShape(segments: seq<string>)
    requires segments != [] && AllSegments(segments)
    ensures CleanParts(RawParts(segments))
    ensures ReadSegments(RawParts(segments)) == Ok(Parsed(segments))
  {
    var raw := RawParts(segments);
    forall i | 0 <= i < |raw|
      ensures NoPair(raw[i]) && (i < |raw| - 1 ==> !EndsInTilde(raw[i])) && (i == |raw| - 1 ==> EndsInTilde(raw[i]))
      ensures JwtOf(raw[i]) != "" && Segment(CanonicalAt(raw, i), JwtOf(raw[i])) == Parsed(segments)[i]
    {
      assert IsSegment(segments[i]);
      StripSegment(segments[i]);
      RawPartAt(segments, i);
    }
    hide NoPair, EndsInTilde, JwtOf, CanonicalAt, RawParts, IsSegment;
    assert PartsReadable(raw);
    assert ReadSegments(raw).value == Parsed(segments);
  }

  /** Splitting a joined chain gives back every segment and its JWT. */
  lemma SplitInvertsJoin(segments: seq<string>)
    requires 2 <= |segments| <= MAX_HOPS && AllSegments(segments)
    requires Utf8Len(Join(segments)) <= MAX_CHAIN_BYTES
    ensures Split(Join(segments)) == Ok(Parsed(segments))
  {
    hide Join, JoinPairs, RawParts, SplitPairs, ReadSegments, CleanParts, AllSegments, Utf8Len;
    JoinIsJoinedParts(segments);
    RawPartsShape(segments);
    SplitJoinedParts(RawParts(segments));
  }

  function Canonicals(segments: seq<Segment>): (texts: seq<string>)
    ensures |texts| == |segments|
    ensures forall i | 0 <= i < |texts| :: texts[i] == segments[i].canonical
  {
    seq(|segments|, i requires 0 <= i < |segments| => segments[i].canonical)
  }

  lemma RestoreTilde(part: string)
    requires NoPair(part) && !EndsInTilde(part) && JwtOf(part) != ""
    ensures IsSegment(part + "~") && JwtOf(part + "~") == JwtOf(part) && StripBack(part + "~") == part
  {
    var c := part + "~";
    var i := FirstOf(part, '~');
    assert c[..i] == part[..i];
    FirstOfAt(c, '~', i);
    forall j | 0 <= j && j + 1 < |c| ensures !(c[j] == '~' == c[j + 1]) {
      assert c[j] == part[j];
      if j + 1 < |part| { assert c[j + 1] == part[j + 1]; }
    }
  }

  lemma SegmentsRejoin(raw: seq<string>)
    requires raw != [] && ReadSegments(raw).Ok? && CleanParts(raw)
    ensures |ReadSegments(raw).value| == |raw|
    ensures AllSegments(Canonicals(ReadSegments(raw).value))
    ensures Parsed(Canonicals(ReadSegments(raw).value)) == ReadSegments(raw).value
    ensures RawParts(Canonicals(ReadSegments(raw).value)) == raw
  {
    var segs := ReadSegments(raw).value;
    var texts := Canonicals(segs);
    forall i | 0 <= i < |raw|
      ensures IsSegment(texts[i]) && JwtOf(texts[i]) == segs[i].jwt && RawParts(texts)[i] == raw[i]
    {
      assert NoPair(raw[i]) && JwtOf(raw[i]) != "";
      if i < |raw| - 1 { RestoreTilde(raw[i]); }
      RawPartAt(texts, i);
    }
  }

  /** Every chain `split` accepts is the join of its canonical segments. */
  lemma SplitIsJoin(chain: string)
    requires Split(chain).Ok?
    ensures 2 <= |Split(chain).value| <= 8 && Utf8Len(chain) <= 65536
    ensures Join(Canonicals(Split(chain).value)) == chain
    ensures AllSegments(Canonicals(Split(chain).value))
    ensures Parsed(Canonicals(Split(chain).value)) == Split(chain).value
  {
    JoinSplitParts(chain);
    SegmentsRejoin(SplitPairs(chain));
    JoinIsJoinedParts(Canonicals(Split(chain).value));
  }

  /** Apart from its size, a chain is refused for the number of its parts before the parts are
      looked at: the texts between its `~~`, each with a JWT in front and the last ending in `~`. */
  lemma SplitRefused(chain: string, parts: seq<string>)
    requires parts != [] && CleanParts(parts) && JoinPairs(parts) == chain
    ensures Split(chain) == Err(BadChain) <==> Utf8Len(chain) <= 65536 && !(2 <= |parts| <= 8)
    ensures Split(chain).Ok? <==> Utf8Len(chain) <= 65536 && 2 <= |parts| <= 8 && PartsReadable(parts)
    ensures Split(chain).Err? ==> Split(chain).error in {Malformed, BadChain}
  {
    SplitJoinedParts(parts);
    hide JoinPairs, CleanParts, Utf8Len, PartsReadable;
  }

  /** UTF-8 (RFC 3629, section 3). */
  function Utf8(c: char): seq<nat> {
    var n := c as nat;
    if n < 0x80 then [n]
    else if n < 0x800 then [0xC0 + n / 0x40, 0x80 + n % 0x40]
    else if n < 0x1_0000 then [0xE0 + n / 0x1000, 0x80 + n / 0x40 % 0x40, 0x80 + n % 0x40]
    else [0xF0 + n / 0x4_0000, 0x80 + n / 0x1000 % 0x40, 0x80 + n / 0x40 % 0x40, 0x80 + n % 0x40]
  }

  function Utf8Text(s: string): seq<nat> {
    if s == "" then [] else Utf8(s[0]) + Utf8Text(s[1..])
  }

  lemma {:induction false} Utf8LenExactly(s: string)
    ensures Utf8Len(s) == |Utf8Text(s)|
  {
    if s != "" { Utf8LenExactly(s[1..]); }
  }

  // ----- Disclosures of a written segment -----

  predicate Separable(ds: seq<string>) {
    forall d | d in ds :: d != "" && '~' !in d
  }

  lemma NoPairAcross(d: string, rest: string)
    requires '~' !in d && NoPair(rest) && (rest != "" ==> rest[0] != '~')
    ensures NoPair(d + "~" + rest)
  {
    var text := d + "~" + rest;
    forall j | 0 <= j && j + 1 < |text|
      ensures !(text[j] == '~' == text[j + 1])
    {
      if j < |d| { assert text[j] in d; }
      if j > |d| { assert text[j] == rest[j - |d| - 1] && text[j + 1] == rest[j - |d|]; }
    }
  }

  lemma OneDisclosureSplits(d: string)
    requires '~' !in d
    ensures SplitOn(StripBack(d + "~"), '~') == [d]
  {
    assert StripBack(d + "~") == d;
    FirstOfNone(d, '~');
  }

  lemma MoreDisclosuresSplit(d: string, rest: string)
    requires '~' !in d && EndsInTilde(rest)
    ensures SplitOn(StripBack(d + "~" + rest), '~') == [d] + SplitOn(StripBack(rest), '~')
  {
    var inner, after := StripBack(d + "~" + rest), StripBack(rest);
    assert inner == d + "~" + after;
    hide StripBack, EndsInTilde, SplitOn;
    FirstOfAt(inner, '~', |d|);
    SplitAtFirst(inner, '~');
    assert inner[..|d|] == d && inner[|d| + 1..] == after;
  }

  lemma SplitAtFirst(s: string, ch: char)
    requires FirstOf(s, ch) < |s|
    ensures SplitOn(s, ch) == [s[..FirstOf(s, ch)]] + SplitOn(s[FirstOf(s, ch) + 1..], ch)
  {
  }

  lemma {:induction false} DisclosureTextSplits(ds: seq<string>)
    requires ds != [] && forall d | d in ds :: '~' !in d
    ensures EndsInTilde(DisclosureText(ds)) && SplitOn(StripBack(DisclosureText(ds)), '~') == ds
  {
    var d, rest := ds[0], DisclosureText(ds[1..]);
    assert DisclosureText(ds) == d + "~" + rest && ds == [d] + ds[1..];
    hide SplitOn, StripBack, DisclosureText;
    if |ds| == 1 {
      OneDisclosureSplits(d);
      NoMoreText(d, ds);
    } else {
      DisclosureTextSplits(ds[1..]);
      MoreDisclosuresSplit(d, rest);
    }
  }

  lemma NoMoreText(d: string, ds: seq<string>)
    requires |ds| == 1 && ds[0] == d
    ensures DisclosureText(ds) == d + "~"
  {
    assert d + "~" + "" == d + "~";
  }

  lemma {:induction false} DisclosureTextShape(ds: seq<string>)
    requires Separable(ds)
    ensures NoPair(DisclosureText(ds))
    ensures ds != [] ==> EndsInTilde(DisclosureText(ds)) && DisclosureText(ds)[0] != '~'
    ensures ds != [] ==> SplitOn(StripBack(DisclosureText(ds)), '~') == ds
  {
    if ds != [] {
      assert forall e | e in ds[1..] :: e in ds;
      DisclosureTextShape(ds[1..]);
      NoPairAcross(ds[0], DisclosureText(ds[1..]));
      DisclosureTextSplits(ds);
      hide SplitOn, StripBack, NoPair;
    }
  }

  /** A written segment is a single segment, and its JWT and disclosures are read back. */
  lemma WrittenSegmentReads(jwt: string, ds: seq<string>)
    requires jwt != "" && '~' !in jwt && Separable(ds)
    ensures IsSegment(SegmentText(jwt, ds)) && JwtOf(SegmentText(jwt, ds)) == jwt
    ensures Disclosures(Segment(SegmentText(jwt, ds), jwt)) == Ok(ds)
  {
    var text, tail := SegmentText(jwt, ds), DisclosureText(ds);
    DisclosureTextShape(ds);
    assert text == jwt + "~" + tail;
    NoPairAcross(jwt, tail);
    FirstOfAt(text, '~', |jwt|);
    assert text[..|jwt|] == jwt && text[|jwt|..] == "~" + tail;
    hide NoPair, SplitOn, DisclosureText;
    if ds == [] {
      assert StripFront("~" + tail) == "";
    } else {
      assert StripFront("~" + tail) == tail;
      assert StripBack(tail)[..1] == tail[..1];
    }
  }

  /** Of several disclosures none may be empty. */
  lemma EmptyDisclosureRefused(jwt: string, ds: seq<string>)
    requires |ds| > 1 && "" in ds && forall d | d in ds :: '~' !in d
    ensures Disclosures(Segment(SegmentText(jwt, ds), jwt)) == Err(Malformed)
  {
    var tail := DisclosureText(ds);
    DisclosureTextSplits(ds);
    assert SegmentText(jwt, ds) == jwt + ("~" + tail);
    assert (jwt + ("~" + tail))[|jwt|..] == "~" + tail && StripFront("~" + tail) == tail;
    SplitOnNothing();
    hide SplitOn, DisclosureText, SegmentText, EndsInTilde;
  }

  lemma SplitOnNothing()
    ensures SplitOn("", '~') == [""]
  {
    FirstOfNone("", '~');
  }
}
