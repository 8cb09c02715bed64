/** The identifiers of a receipt (lib.rs of the receipt crate): computed from the chain by
    string cuts of their own, from the right and up to the first `~`, not by `split`. */
module Receipts {
  import opened Results
  import opened Codec
  import opened Wire
  import opened SdJwt
  import opened Chain
  import opened ChainTheorems
  import opened Commitment

  /** One past the last `~~`, or 0. */
  function PastLastPair(s: string): (i: nat)
    ensures i <= |s| && (i > 0 ==> PairAt(s, i - 2))
    ensures forall j | i <= j + 1 && j + 1 < |s| :: !PairAt(s, j)
  {
    if |s| < 2 then 0
    else if PairAt(s, |s| - 2) then |s|
    else
      var init := s[..|s| - 1];
      assert forall j | PairAt(s, j) :: PairAt(init, j);
      PastLastPair(init)
  }

  /** `closing_segment`: the part after the last `~~`. */
  function ClosingSegment(chain: string): Result<string> {
    var i := PastLastPair(chain);
    var last := chain[i..];
    if i > 0 && EndsInTilde(last) && last[0] != '~' then Ok(last) else Err(Malformed)
  }

  function ReferenceFor(c: Codec, chain: string): Result<string> {
    var closing :- ClosingSegment(chain);
    Ok(c.digest(closing))
  }

  function PresentationId(c: Codec, chain: string): Result<string> {
    var closing :- ClosingSegment(chain);
    var i := FirstOf(closing, '~');
    var disclosures := if i < |closing| then closing[i + 1..] else "";
    Ok(c.digest(SigningInput(closing[..i]) + "~" + disclosures))
  }

  function JwtOnlyReference(c: Codec, chain: string): Result<string> {
    var closing :- ClosingSegment(chain);
    Ok(c.digest(JwtOf(closing)))
  }

  /** The identifying part of a receipt. */
  datatype Receipt = Receipt(reference: string, mandateId: Option<string>, presentationId: Option<string>)

  function ForChain(c: Codec, chain: string): Result<Receipt> {
    var reference :- ReferenceFor(c, chain);
    var presentation :- PresentationId(c, chain);
    Ok(Receipt(reference, Some(HopId(c, JwtOf(chain))), Some(presentation)))
  }

  predicate Matches(c: Codec, receipt: Receipt, chain: string) {
    match receipt.presentationId
    case Some(id) => PresentationId(c, chain) == Ok(id)
    case None => ReferenceFor(c, chain) == Ok(receipt.reference) || JwtOnlyReference(c, chain) == Ok(receipt.reference)
  }

  // ----- Both cuts agree with `split` -----

  lemma LastPairBefore(s: string, a: nat)
    requires 2 <= a < |s| && PairAt(s, a - 2) && s[a] != '~' && NoPair(s[a..])
    ensures PastLastPair(s) == a
  {
    forall k | a <= k && k + 1 < |s|
      ensures !PairAt(s, k)
    {
      assert s[a..][k - a] == s[k] && s[a..][k - a + 1] == s[k + 1];
    }
  }

  /** The closing segment is what follows the last `~~`: it holds none itself, ends in `~` and
      does not start with it. Without one the chain is malformed. */
  lemma ClosingSegmentExactly(chain: string, last: string)
    ensures ClosingSegment(chain) == Ok(last)
       <==> NoPair(last) && EndsInTilde(last) && last[0] != '~' && exists front :: chain == front + "~~" + last
    ensures ClosingSegment(chain).Err? ==> ClosingSegment(chain) == Err(Malformed)
  {
    var i := PastLastPair(chain);
    if ClosingSegment(chain) == Ok(last) {
      var front := chain[..i - 2];
      assert chain == front + "~~" + last;
      forall k | 0 <= k && k + 1 < |last| ensures !(last[k] == '~' == last[k + 1]) {
        assert !PairAt(chain, i + k) && last[k] == chain[i + k] && last[k + 1] == chain[i + k + 1];
      }
      assert NoPair(last);
    }
    if NoPair(last) && EndsInTilde(last) && last[0] != '~' {
      if front :| chain == front + "~~" + last {
        var a := |front| + 2;
        assert chain[a..] == last && PairAt(chain, a - 2) && chain[a] == last[0];
        LastPairBefore(chain, a);
      }
    }
  }

  lemma {:induction false} JoinedEnd(parts: seq<string>)
    requires |parts| >= 1
    ensures |parts[|parts| - 1]| <= |JoinPairs(parts)|
    ensures JoinPairs(parts)[|JoinPairs(parts)| - |parts[|parts| - 1]|..] == parts[|parts| - 1]
    ensures |parts| > 1 ==> PairAt(JoinPairs(parts), |JoinPairs(parts)| - |parts[|parts| - 1]| - 2)
  {
    if |parts| > 1 {
      JoinedEnd(parts[1..]);
      assert parts[1..][|parts| - 2] == parts[|parts| - 1];
    }
  }

  lemma {:induction false} RawPartsEnd(segments: seq<string>)
    requires segments != []
    ensures RawParts(segments)[|segments| - 1] == segments[|segments| - 1]
  {
    if |segments| > 1 { RawPartsEnd(segments[1..]); }
  }

  lemma SegmentStart(s: string)
    requires IsSegment(s)
    ensures s[0] != '~'
  {
  }

  /** On every chain `split` accepts, the cut from the right is its last segment. */
  lemma ClosingIsLast(chain: string)
    requires Split(chain).Ok?
    ensures 2 <= |Split(chain).value|
    ensures ClosingSegment(chain) == Ok(Split(chain).value[|Split(chain).value| - 1].canonical)
  {
    hide Split, JoinPairs, RawParts, Join;
    SplitIsJoin(chain);
    var texts := Canonicals(Split(chain).value);
    var last := texts[|texts| - 1];
    JoinIsJoinedParts(texts);
    JoinedEnd(RawParts(texts));
    RawPartsEnd(texts);
    assert IsSegment(last);
    SegmentStart(last);
    LastPairBefore(chain, |chain| - |last|);
  }

  lemma JoinStart(segments: seq<string>)
    requires |segments| > 1 && IsSegment(segments[0])
    ensures JwtOf(Join(segments)) == JwtOf(segments[0])
  {
    StripSegment(segments[0]);
    var a, s := StripBack(segments[0]), Join(segments);
    var i := FirstOf(segments[0], '~');
    assert i <= |a| && s[..i] == segments[0][..i];
    assert s[i] == '~';
    FirstOfAt(s, '~', i);
  }

  /** And everything before the first `~` is its first JWT. */
  lemma RootIsFirst(chain: string)
    requires Split(chain).Ok?
    ensures 2 <= |Split(chain).value| && JwtOf(chain) == Split(chain).value[0].jwt
  {
    var segments := Split(chain).value;
    SplitIsJoin(chain);
    JoinStart(Canonicals(segments));
    assert Parsed(Canonicals(segments))[0].jwt == JwtOf(Canonicals(segments)[0]);
  }

  // ----- Disclosures of a segment, as text and as a list -----

  function JoinOn(parts: seq<string>, ch: char): string
    requires parts != []
  {
    if |parts| == 1 then parts[0] else parts[0] + [ch] + JoinOn(parts[1..], ch)
  }

  lemma CutApart(s: string, i: nat)
    requires i < |s|
    ensures s == s[..i] + [s[i]] + s[i + 1..]
  {
  }

  lemma {:induction false} JoinInvertsSplit(s: string, ch: char)
    ensures JoinOn(SplitOn(s, ch), ch) == s
    decreases |s|
  {
    var i := FirstOf(s, ch);
    if i < |s| {
      hide FirstOf;
      JoinInvertsSplit(s[i + 1..], ch);
      assert SplitOn(s, ch)[1..] == SplitOn(s[i + 1..], ch);
      CutApart(s, i);
    }
  }

  predicate Separated(s: string) {
    s != "" && s[0] != '~' && s[|s| - 1] != '~' && NoPair(s)
  }

  lemma {:induction false} NoEmptyPart(s: string)
    requires Separated(s)
    ensures "" !in SplitOn(s, '~')
    decreases |s|
  {
    var i := FirstOf(s, '~');
    if i < |s| {
      assert !PairAt(s, i);
      var rest := s[i + 1..];
      forall j | 0 <= j && j + 1 < |rest| ensures !PairAt(rest, j) {
        assert !PairAt(s, i + 1 + j);
      }
      assert rest[|rest| - 1] == s[|s| - 1];
      NoEmptyPart(rest);
    }
  }

  /** What follows the JWT: `~`, or the disclosures between two of them. */
  lemma TailShape(s: string)
    requires IsSegment(s)
    ensures var tail := s[|JwtOf(s)|..];
            var inner := StripBack(StripFront(tail));
            tail == (if inner == "" then "~" else "~" + inner + "~") && (inner == "" || Separated(inner))
  {
    var i := FirstOf(s, '~');
    var tail := s[i..];
    assert |JwtOf(s)| == i && tail[0] == '~' && tail[|tail| - 1] == '~';
    forall j | 0 <= j && j + 1 < |tail| ensures !PairAt(tail, j) {
      assert !PairAt(s, i + j);
    }
    if |tail| > 1 {
      assert !PairAt(tail, 0) && !PairAt(tail, |tail| - 2);
      var inner := tail[1..|tail| - 1];
      assert StripFront(tail) == tail[1..] && StripBack(tail[1..]) == inner;
      assert tail == "~" + inner + "~";
      forall j | 0 <= j && j + 1 < |inner| ensures !PairAt(inner, j) {
        assert !PairAt(tail, j + 1);
      }
    }
  }

  /** A segment's disclosures are always readable, and fix the text after the JWT. */
  lemma DisclosuresFixText(a: string, b: string)
    requires IsSegment(a) && IsSegment(b)
    ensures Disclosures(Segment(a, JwtOf(a))).Ok?
    ensures Disclosures(Segment(a, JwtOf(a))) == Disclosures(Segment(b, JwtOf(b)))
       <==> a[|JwtOf(a)|..] == b[|JwtOf(b)|..]
  {
    TailShape(a);
    TailShape(b);
    var x, y := StripBack(StripFront(a[|JwtOf(a)|..])), StripBack(StripFront(b[|JwtOf(b)|..]));
    if x != "" { NoEmptyPart(x); JoinInvertsSplit(x, '~'); }
    if y != "" { NoEmptyPart(y); JoinInvertsSplit(y, '~'); }
  }

  // ----- What a receipt refers to -----

  function Closing(segments: seq<Segment>): Segment
    requires segments != []
  {
    segments[|segments| - 1]
  }

  lemma NoTildeInInput(jwt: string)
    requires '~' !in jwt
    ensures '~' !in SigningInput(jwt)
  {
  }

  lemma ReadPresentationId(c: Codec, chain: string)
    requires Split(chain).Ok?
    ensures Split(chain).value != []
    ensures var s := Closing(Split(chain).value);
            && IsSegment(s.canonical) && s.jwt == JwtOf(s.canonical) && '~' !in SigningInput(s.jwt)
            && PresentationId(c, chain) == Ok(c.digest(SigningInput(s.jwt) + "~" + s.canonical[|s.jwt| + 1..]))
  {
    hide Split, Join, PastLastPair, SigningInput;
    ClosingIsLast(chain);
    SplitIsJoin(chain);
    var segments := Split(chain).value;
    var s := Closing(segments);
    assert Parsed(Canonicals(segments))[|segments| - 1] == s;
    assert IsSegment(Canonicals(segments)[|segments| - 1]);
    NoTildeInInput(s.jwt);
  }

  /** A receipt for one split chain matches another exactly when both closing hops have the
      same signing input and the same disclosures, however they are signed. */
  lemma MatchesExactly(c: Codec, chain: string, other: string)
    requires DigestSound(c) && Split(chain).Ok? && Split(other).Ok?
    ensures ForChain(c, chain).Ok? && Split(chain).value != [] && Split(other).value != []
    ensures var a, b := Closing(Split(chain).value), Closing(Split(other).value);
            |a.jwt| <= |a.canonical| && |b.jwt| <= |b.canonical| &&
            (Matches(c, ForChain(c, chain).value, other)
             <==> SigningInput(a.jwt) == SigningInput(b.jwt) && Disclosures(a) == Disclosures(b))
  {
    hide Split, Disclosures, SigningInput, ClosingSegment, PresentationId;
    ClosingIsLast(chain);
    ReadPresentationId(c, chain);
    ReadPresentationId(c, other);
    var a, b := Closing(Split(chain).value), Closing(Split(other).value);
    DisclosuresFixText(a.canonical, b.canonical);
    TailsAgree(a.canonical, b.canonical);
    hide IsSegment, JwtOf;
    DigestsAgree(c, SigningInput(a.jwt), a.canonical[|a.jwt| + 1..], SigningInput(b.jwt), b.canonical[|b.jwt| + 1..]);
  }

  lemma DigestsAgree(c: Codec, a: string, x: string, b: string, y: string)
    requires DigestSound(c) && '~' !in a && '~' !in b
    ensures c.digest(a + "~" + x) == c.digest(b + "~" + y) <==> a == b && x == y
  {
    if c.digest(a + "~" + x) == c.digest(b + "~" + y) { CutAt('~', a, x, b, y); }
  }

  lemma TailsAgree(a: string, b: string)
    requires IsSegment(a) && IsSegment(b)
    ensures |JwtOf(a)| < |a| && |JwtOf(b)| < |b|
    ensures a[|JwtOf(a)|..] == b[|JwtOf(b)|..] <==> a[|JwtOf(a)| + 1..] == b[|JwtOf(b)| + 1..]
  {
    var i, j := |JwtOf(a)|, |JwtOf(b)|;
    assert a[|a| - 1] == '~' && b[|b| - 1] == '~';
    assert a[i..] == ['~'] + a[i + 1..] && b[j..] == ['~'] + b[j + 1..];
    assert a[i..][1..] == a[i + 1..] && b[j..][1..] == b[j + 1..];
  }

  /** A receipt that names no presentation matches a chain exactly when its reference is the
      digest of the closing hop, with its disclosures or without. */
  lemma UnnamedMatchesExactly(c: Codec, receipt: Receipt, chain: string)
    requires receipt.presentationId == None && Split(chain).Ok?
    ensures Split(chain).value != []
    ensures var s := Closing(Split(chain).value);
            Matches(c, receipt, chain) <==> receipt.reference == c.digest(s.canonical) || receipt.reference == c.digest(s.jwt)
  {
    hide Split, ClosingSegment, JwtOf;
    ClosingIsLast(chain);
    SplitIsJoin(chain);
    var segments := Split(chain).value;
    assert Parsed(Canonicals(segments))[|segments| - 1] == Closing(segments);
  }

  /** So without its presentation's name the receipt for one chain still matches another only if
      both close with the same segment. */
  lemma UnnamedMatchesSameClosing(c: Codec, chain: string, other: string)
    requires DigestSound(c) && Split(chain).Ok? && Split(other).Ok?
    ensures ForChain(c, chain).Ok? && Split(chain).value != [] && Split(other).value != []
    ensures Matches(c, ForChain(c, chain).value.(presentationId := None), other)
       <==> Closing(Split(chain).value).canonical == Closing(Split(other).value).canonical
  {
    ClosingIsLast(chain);
    ReadPresentationId(c, chain);
    ReadPresentationId(c, other);
    hide Split, ClosingSegment, Matches, IsSegment;
    UnnamedMatchesExactly(c, ForChain(c, chain).value.(presentationId := None), other);
    SegmentIsNoJwt(Closing(Split(chain).value).canonical, Closing(Split(other).value).canonical);
  }

  lemma SegmentIsNoJwt(a: string, b: string)
    requires IsSegment(a)
    ensures a != JwtOf(b)
  {
    assert a[|a| - 1] == '~';
  }

  /** The receipt of a chain that verifies names the open mandate by the verified hop's own
      identifier, and its reference is the digest the next hop would be bound to. */
  lemma ReceiptAgrees(c: Codec, chain: string, rootKey: RootKey, opts: VerifyOptions)
    requires opts.Valid() && VerifyChain(c, chain, rootKey, opts).Ok?
    ensures var hops := VerifyChain(c, chain, rootKey, opts).value;
            && ForChain(c, chain).Ok? && Split(chain).Ok? && Split(chain).value != [] && hops != []
            && ForChain(c, chain).value.mandateId == Some(hops[0].id)
            && ForChain(c, chain).value.reference == c.digest(Closing(Split(chain).value).canonical)
  {
    AcceptedLinks(c, chain, rootKey, opts);
    var segments, hops := Split(chain).value, VerifyChain(c, chain, rootKey, opts).value;
    ClosingIsLast(chain);
    RootIsFirst(chain);
    assert Linked(c, rootKey, opts, segments, hops, 0);
  }

  /** A receipt never matches a presentation of anything else: when both chains verify, a
      match means the same verified hops. */
  lemma MatchMeansSameHops(c: Codec, chain: string, keyA: RootKey, optsA: VerifyOptions,
                           other: string, keyB: RootKey, optsB: VerifyOptions)
    requires DigestSound(c) && optsA.Valid() && optsB.Valid()
    requires VerifyChain(c, chain, keyA, optsA).Ok? && VerifyChain(c, other, keyB, optsB).Ok?
    requires ForChain(c, chain).Ok? && Matches(c, ForChain(c, chain).value, other)
    ensures VerifyChain(c, chain, keyA, optsA) == VerifyChain(c, other, keyB, optsB)
  {
    AcceptedLinks(c, chain, keyA, optsA);
    AcceptedLinks(c, other, keyB, optsB);
    MatchesExactly(c, chain, other);
    ClosingCommits(c, chain, keyA, optsA, other, keyB, optsB);
  }
}
