/** The library code the mandate crate rests on, as one record of functions: SHA-256 and
    base64url (`digest`), JSON text in base64url (`encode`, `decode`), P-256 keys and ES256
    signatures. What is assumed of them is stated as predicates and asked for by the
    theorems that need it. */
module Codec {
  import opened Results
  import opened Json

  datatype PublicJwk = PublicJwk(x: seq<nat>, y: seq<nat>)

  datatype SigningKey = SigningKey(scalar: nat, public: PublicJwk, kid: Option<string>)

  datatype SignatureCheck = NotBase64 | Rejected | Verified

  datatype Codec = Codec(
    digest: string -> string,
    encode: Value -> string,
    decode: string -> Option<Value>,
    bytes: string -> Option<seq<nat>>,
    base64: seq<nat> -> string,
    onCurve: PublicJwk -> bool,
    checkSignature: (PublicJwk, string, string) -> SignatureCheck,
    sign: (SigningKey, string) -> string)

  /** Deepest nesting `serde_json` reads. */
  const READABLE_DEPTH: nat := 127

  predicate TokenChar(c: char) {
    'A' <= c <= 'Z' || 'a' <= c <= 'z' || '0' <= c <= '9' || c == '-' || c == '_'
  }

  /** A non-empty base64url text. */
  predicate IsToken(s: string) {
    s != "" && forall c | c in s :: TokenChar(c)
  }

  /** No two texts share a digest, and a digest is a base64url text. */
  ghost predicate DigestSound(c: Codec) {
    && (forall a, b :: c.digest(a) == c.digest(b) ==> a == b)
    && (forall a :: IsToken(c.digest(a)))
  }

  /** Only well-formed values are read, and what was written is read back. */
  ghost predicate JsonSound(c: Codec) {
    && (forall s :: c.decode(s).Some? ==> WellFormed(c.decode(s).value))
    && (forall v :: IsToken(c.encode(v)))
    && (forall v :: WellFormed(v) && Fits(v, READABLE_DEPTH) ==> c.decode(c.encode(v)) == Some(v))
  }

  /** Nothing but base64url is decoded. */
  ghost predicate StrictBase64(c: Codec) {
    forall s :: c.decode(s).Some? ==> IsToken(s)
  }

  /** A signature verifies under the signer's public key, and is a base64url text. */
  ghost predicate SignSound(c: Codec) {
    forall k, input :: IsToken(c.sign(k, input)) &&
                       c.checkSignature(k.public, input, c.sign(k, input)) == Verified
  }

  ghost predicate Sound(c: Codec) {
    DigestSound(c) && JsonSound(c) && StrictBase64(c) && SignSound(c)
  }

  // ----- Characters in texts -----

  /** The first position of `ch`, or the length. */
  function FirstOf(s: string, ch: char): (i: nat)
    ensures i <= |s| && (i < |s| ==> s[i] == ch)
    ensures forall j | 0 <= j < i :: s[j] != ch
  {
    if s == "" || s[0] == ch then 0 else 1 + FirstOf(s[1..], ch)
  }

  /** One past the last position of `ch`, or 0. */
  function PastLast(s: string, ch: char): (i: nat)
    ensures i <= |s| && (i > 0 ==> s[i - 1] == ch)
    ensures forall j | i <= j < |s| :: s[j] != ch
  {
    if s == "" then 0 else if s[|s| - 1] == ch then |s| else PastLast(s[..|s| - 1], ch)
  }

  /** `str::split` on one character. */
  function SplitOn(s: string, ch: char): (parts: seq<string>)
    ensures parts != []
    decreases |s|
  {
    var i := FirstOf(s, ch);
    if i == |s| then [s] else [s[..i]] + SplitOn(s[i + 1..], ch)
  }

  lemma FirstOfAt(s: string, ch: char, i: nat)
    requires i < |s| && s[i] == ch && ch !in s[..i]
    ensures FirstOf(s, ch) == i
  {
    forall j | 0 <= j < i ensures s[j] != ch { assert s[j] in s[..i]; }
  }

  lemma FirstOfNone(s: string, ch: char)
    requires ch !in s
    ensures FirstOf(s, ch) == |s|
  {
  }

  lemma PastLastAt(a: string, ch: char, b: string)
    requires ch !in b
    ensures PastLast(a + [ch] + b, ch) == |a| + 1
  {
    var s := a + [ch] + b;
    assert s[|a|] == ch;
    forall j | |a| < j < |s| ensures s[j] != ch { assert s[j] in b; }
  }

  /** Two texts cut at the first `ch` agree on both sides. */
  lemma CutAt(ch: char, a: string, x: string, b: string, y: string)
    requires ch !in a && ch !in b && a + [ch] + x == b + [ch] + y
    ensures a == b && x == y
  {
    var s := a + [ch] + x;
    assert s[..|a|] == a && s[..|b|] == b;
    FirstOfAt(s, ch, |a|);
    FirstOfAt(s, ch, |b|);
    assert s[|a| + 1..] == x && s[|b| + 1..] == y;
  }

  lemma TokenHas(s: string, ch: char)
    requires IsToken(s) && !TokenChar(ch)
    ensures ch !in s
  {
  }
}
