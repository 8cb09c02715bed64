# Verification model of the mandate verifier

This project models the parts of the A2A delegation-governance crates that carry security
weight, and proves what their design promises about them.

- A trusted surface signs an **open mandate**. Parts of it may be hidden behind digests
  (SD-JWT, RFC 9901), and every holder on the way adds a key-bound hop: delegations, and a
  closing hop addressed to one verifier. `SdJwt`, `Resolution`, `Builder`, `Building`,
  `RoundTrip`, `Restoration` and `Placeholders` model disclosure and its resolution; `Wire`, `Jws`,
  `Chain`, `ChainTheorems`, `Refusals`, `Commitment`, `Issue` and `Completeness` model the `~~`-joined
  wire form, verification hop by hop, and issuing.
- A **decision engine** admits or refuses one concrete call. `Constraints`, `Narrowing`
  and `Permissions` model the `access.*` constraints, `Decisions`, `Engine` and `Outcomes` one call over
  the stores, and `Interleaving` and `Histories` any number of concurrent calls whose store operations interleave freely;
  `EndToEnd` carries use limits and revocations from signed mandates to every such run.
- Agent cards are signed over **canonical JSON** (RFC 8785). `Decimals`, `Doubles`, `Numbers`, `Jcs`,
  `Faithful` and `Reading` model numbers, strings and the writer; `Schema`, `Card`,
  `CardTheorems`, `CardForms` and `CardReading` the removal of default and empty values before it.
- `Receipts` and `ReceiptLog` model **receipt identifiers** and the hash-chained log.

## How it is built

Code that changes things step by step is imperative here too: the resolver that spends its
digest table, the payload builder, the loops of chain verification and constraint
evaluation, the in-memory stores, the text writer, the digit increment and the log are
classes and methods. Each is proved equal to a function of its inputs and its old state, and
the results are lemmas about those functions. JSON objects are sequences of fields, because
the crates keep insertion order; removing a field moves the last one into its place, and
equality of objects ignores order (`Equality`).

What those functions compute is stated a second time without them: keys, times and checks of a
chain by the fields they read (`ChainTheorems`, `Refusals`), constraints and closed mandates by their
words (`Permissions`, `Decisions.DecidesByTable`), the order of keys by the first difference of their
code units (`Faithful`), canonical text by a reader of its own (`Reading`), and the removal of defaults
by what a card reads as (`CardReading`).

Library code is a record of functions whose properties are stated as predicates and asked
for where they are needed:

- `Codec.DigestSound`: no two texts share a digest, and a digest is a non-empty base64url text.
- `Codec.JsonSound`: only well-formed values are read; a well-formed value that nests at most
  127 deep and was written is read back.
- `bytes` and `base64` of the codec are asked to be inverse only on the two coordinates of a key that
  is written and read back (`Jws.JwkReadsBack`).
- `Codec.StrictBase64`, `Codec.SignSound`: only base64url is decoded; a signature verifies
  under its signer's public key. Several signatures may verify for one input.
- `Numbers.FloatsSound`: the shortest digits of a double read back as it, its exact expansion
  and the double of an integer within 2^53 - 1 are worth what the bit pattern is worth
  (`Doubles.Worth`), and parsing depends on the decimal value only.

`Witnesses` shows that these can be met, and that honest signers exist: `UnaryCodecIsSound`,
`ExactFloatsAreSound` and `TwoHonestSigners`.

All results hold for every input, every run or every reachable state; the hypotheses above,
and conditions that a caller can check, are the only restrictions. Where a promise turns out
too strong for the code, the code was kept and the exact condition proved:

- The round trip of builder and resolver (`Restoration.RoundTripExactly`) needs that no array
  with elements is named twice and that no field is called `...`. Both are accepted when
  building; neither can be resolved afterwards. `Restoration.NamedTwiceFails` and
  `Restoration.EllipsisNamedFails` are the smallest cases.
- After resolution no `_sd` key remains, but a placeholder may. `Placeholders.PlaceholdersGoExactly`
  says when none does, by a condition on the payload and the disclosures alone; it fails for an
  element with `...` and an empty `_sd`, even without any disclosure
  (`Placeholders.EmptySdLeavesPlaceholder`), and for an array element disclosed as a `...` object
  (`Placeholders.DisclosedStubStays`).
- `try_consume` adds one per list entry, so two `access.max_uses` constraints of one hop count
  twice (`Decisions.LimitedTwicePassesOnce`); the count is the number of passes exactly when
  that does not occur (`Interleaving.CountIsPassesExactly`). The bounds on passes hold all the same.
- The two card payloads coincide exactly for the cards `CardForms.Plain` describes. A card
  without any empty value can still leave one behind when defaults are removed
  (`CardForms.StrippingCanEmpty`).

To verify everything: `dafny verify dfyconfig.toml`.

## Model

| member | source | states |
|---|---|---|
| SdJwt.Resolver.TakeDigest | crates/a2a-gov-mandate/src/sdjwt.rs:233-244 | A second lookup of a digest is an error; a disclosure that is found is removed from the table and counted as used, one that is not is counted as withheld |
| SdJwt.Resolver.InValue | crates/a2a-gov-mandate/src/sdjwt.rs:246-252 | Rewriting a value in place, spending the digest table, gives what the specification function says, and fails exactly where it fails |
| SdJwt.Resolver.InObject | crates/a2a-gov-mandate/src/sdjwt.rs:254-282 | The loops over the fields and over the `_sd` digests of one object, with the swap-remove of `_sd`, compute the specified object and leave the specified table |
| SdJwt.Resolver.InArray | crates/a2a-gov-mandate/src/sdjwt.rs:284-317 | The loop over array elements, dropping withheld placeholders, computes the specified list and leaves the specified table |
| SdJwt.ResolvePayload | crates/a2a-gov-mandate/src/sdjwt.rs:183-223 | `resolve`: the table built from the list, the resolver run over the payload, and the two final checks together equal the specification |
| SdJwt.ResolveValue | crates/a2a-gov-mandate/src/sdjwt.rs:246-252 | Resolution terminates on every input: the unspent table never grows, and the measure is the unspent disclosures, then the size of the value |
| Resolution.ResolutionAccounts | crates/a2a-gov-mandate/src/sdjwt.rs:225-244 | Conservation over a whole run: used + unspent is the size of the table, seen = used + withheld, and the used digests are exactly the seen ones the table knew |
| Resolution.ResolvedIsClean | crates/a2a-gov-mandate/src/sdjwt.rs:254-317 | No `_sd` key remains at any depth of a resolved payload, and no object in it repeats a key |
| Resolution.AllSpent | crates/a2a-gov-mandate/src/sdjwt.rs:209-222 | When the two final checks pass, the digests met in the payload are exactly the digests of the disclosures |
| Resolution.NothingToDisclose | crates/a2a-gov-mandate/src/sdjwt.rs:209-213 | A payload without fields resolves exactly without disclosures: what no digest refers to is refused |
| Resolution.ResolutionDetermined | crates/a2a-gov-mandate/src/sdjwt.rs:183-318 | The payload alone determines the outcome: any two disclosure lists it accepts are permutations of each other and resolve to the same object |
| Resolution.DisclosureReadExactly | crates/a2a-gov-mandate/src/sdjwt.rs:43-71 | A disclosure is read exactly from the array it is written as, salt first and under any salt, and never under the names `_sd` and `...`; every other text is a bad disclosure |
| Resolution.PlaceholderExactly | crates/a2a-gov-mandate/src/sdjwt.rs:284-299 | An array element is a placeholder exactly when it is an object of the one field `...` |
| Resolution.ListedDigestExactly | crates/a2a-gov-mandate/src/sdjwt.rs:262-280 | In a resolution that succeeds a digest under `_sd` is a text not met before, and what it discloses has a name the object does not have yet |
| Resolution.PlacedDigestExactly | crates/a2a-gov-mandate/src/sdjwt.rs:284-317 | The digest of a placeholder is a text not met before and what it discloses has no name; an element whose disclosure is withheld goes |
| Resolution.AlgorithmRefused | crates/a2a-gov-mandate/src/sdjwt.rs:183-191 | A payload that names any digest algorithm but `sha-256` is refused as a bad disclosure |
| Resolution.ResolutionRefused | crates/a2a-gov-mandate/src/sdjwt.rs:183-318 | Whatever is wrong with a payload or its disclosures, at whatever depth, the error is a bad disclosure |
| Builder.SortedSorts | crates/a2a-gov-mandate/src/sdjwt.rs:170-174 | The `_sd` digests are the collected ones, each as often, in the builder's order of texts |
| Building.TextLeqExactly | crates/a2a-gov-mandate/src/sdjwt.rs:170-174 | That order by index: one text comes before another when at the first difference it has ended or has the smaller character |
| Building.DigestsAreListed | crates/a2a-gov-mandate/src/sdjwt.rs:146-178 | A built mandate goes out as one placeholder for its last disclosure, and under `_sd` that disclosure lists the digests of the disclosures of the named fields, each once, in ascending order |
| Building.BuildsExactly | crates/a2a-gov-mandate/src/sdjwt.rs:133-178 | Hiding succeeds if and only if every array named is an array, every field named is there and named once, and there is a salt for each hidden element, each field and the mandate; otherwise the error is malformed |
| Builder.PayloadBuilder.PushParts | crates/a2a-gov-mandate/src/sdjwt.rs:133-142 | One disclosure with a fresh salt is appended and its digest returned |
| Builder.PayloadBuilder.HideAll | crates/a2a-gov-mandate/src/sdjwt.rs:156-160 | Every element of an array becomes a disclosure and is replaced by its placeholder, in order |
| Builder.PayloadBuilder.Wrap | crates/a2a-gov-mandate/src/sdjwt.rs:146-178 | `delegate_payload`: arrays, then fields, then the wrapper, with the error cases of a missing field and of a name that is no array |
| Restoration.RoundTripExactly | crates/a2a-gov-mandate/src/sdjwt.rs:133-223 | For every issuable mandate and every set of names the builder accepts: the built payload resolves with the collected disclosures if and only if no array with elements is named twice and no field is called `...`; and then it holds the original mandate as the single `delegate_payload` element |
| Restoration.BuilderRoundTrip | crates/a2a-gov-mandate/src/sdjwt.rs:146-223 | Under that condition resolution succeeds and returns the claims with the original mandate in clear |
| Restoration.NamedTwiceFails | crates/a2a-gov-mandate/src/sdjwt.rs:152-161 | A concrete counterexample: a one-element array named twice builds a payload that no longer resolves |
| Restoration.EllipsisCannotResolve | crates/a2a-gov-mandate/src/sdjwt.rs:43-71 | A field called `...` is written by the builder but refused by the disclosure parser, so what was built never resolves |
| Restoration.EllipsisNamedFails | crates/a2a-gov-mandate/src/sdjwt.rs:43-71 | A concrete counterexample: the mandate `{"...": null}` with that field hidden builds a payload that cannot be resolved |
| Json.LastFillsTheGap | crates/a2a-gov-mandate/src/sdjwt.rs:152-168 | Removing a field from an object leaves every other where it was but for the last, which fills the gap: with `preserve_order`, `Map::remove` swaps |
| Json.InsertKeepsPlaces | crates/a2a-gov-mandate/src/sdjwt.rs:152-177 | Inserting a field leaves every other where it was; a new one comes last, and one that is there keeps its place |
| RoundTrip.WrittenDisclosuresDiffer | crates/a2a-gov-mandate/src/sdjwt.rs:133-142 | Distinct salts make distinct disclosures, and with a sound digest no digest is repeated |
| RoundTrip.ArraysRestore | crates/a2a-gov-mandate/src/sdjwt.rs:152-162 | Hiding arrays one after the other keeps the item restorable from the digests kept, and all digests are kept exactly when no array with elements is hidden again |
| Placeholders.PlaceholdersGoExactly | crates/a2a-gov-mandate/src/sdjwt.rs:254-317 | Of every resolution that succeeds: no array element at any depth of the result is a placeholder if and only if no array element of the payload or of a disclosed value has just the fields `...` and an empty `_sd`, and no value disclosed as an array element is just `...`, with or without an empty `_sd` |
| Placeholders.EmptySdLeavesPlaceholder | crates/a2a-gov-mandate/src/sdjwt.rs:254-292 | A concrete payload without any disclosure that leaves one: the element `{"_sd": [], "...": "x"}` is no placeholder when it is looked at, and is one when its `_sd` is gone |
| Placeholders.DisclosedStubStays | crates/a2a-gov-mandate/src/sdjwt.rs:296-311 | Concrete payloads with one disclosure that leave one: an array element disclosed as `{"...": "x"}`, or as the element above, is put in place without being looked up |
| Wire.SplitInvertsJoin | crates/a2a-gov-mandate/src/chain.rs:158-193 | For 2 to 8 segments that start with a non-empty JWT, hold no `~~`, end in `~` and fit the size limit, splitting the joined text returns every segment and its JWT |
| Wire.SplitIsJoin | crates/a2a-gov-mandate/src/chain.rs:158-193 | Conversely every chain `split` accepts is at most 65536 bytes long, has 2 to 8 segments, each of that shape, and is the join of them |
| Wire.SplitRefused | crates/a2a-gov-mandate/src/chain.rs:158-193 | With the parts between the `~~` given: too many or too few are a bad chain, before any part is looked at; a chain is accepted exactly when it fits, has 2 to 8 parts, each with a JWT in front, and ends in `~` |
| Wire.Utf8LenExactly | crates/a2a-gov-mandate/src/chain.rs:158-162 | The size that is limited is the number of bytes of the UTF-8 encoding (RFC 3629, section 3) |
| Wire.WrittenSegmentReads | crates/a2a-gov-mandate/src/issue.rs:102-115 | A written segment is a single segment, its JWT is read back, and `Segment::disclosures` returns exactly the list that was appended |
| Wire.EmptyDisclosureRefused | crates/a2a-gov-mandate/src/chain.rs:142-155 | Of several disclosures written into a segment none may be empty: reading them is malformed |
| Wire.WriteSegment | crates/a2a-gov-mandate/src/issue.rs:102-115 | The loop that pushes the JWT and every disclosure, each followed by `~`, writes the segment text |
| Jws.SignedVerifies | crates/a2a-gov-mandate/src/jws.rs:19-75 | What is signed verifies under the signer's public key and gives the header and payload back |
| Jws.SameInputSameContents | crates/a2a-gov-mandate/src/jws.rs:44-56 | Two JWTs with one signing input decode to the same header and payload, whatever their signatures |
| Jws.HopIdExactly | crates/a2a-gov-mandate/src/sdjwt.rs:28-31 | A hop is identified by the digest of what is signed of it, whatever its signature |
| Jws.ReadJwkExactly | crates/a2a-gov-mandate/src/jwk.rs:16-45 | A key is read exactly from an object of type `EC` and curve `P-256` without `d` whose `x` and `y` are base64url texts of 32 bytes each, the first coordinate under `x` and the second under `y`, of a point on the curve |
| Jws.JwkReadsBack | crates/a2a-gov-mandate/src/jwk.rs:16-49 | A key written as a JWK is read back |
| Refusals.DecodeExactly | crates/a2a-gov-mandate/src/jws.rs:44-56 | A compact JWS is exactly three texts between two dots of which the first encodes the header object and the second the payload object; anything else is malformed |
| Refusals.SignatureRefused | crates/a2a-gov-mandate/src/jws.rs:58-75 | Another algorithm than ES256 is unsupported, then `crit` or a signature that is no base64url malformed, and then a rejected signature bad |
| Refusals.JwkRefused | crates/a2a-gov-mandate/src/jwk.rs:16-45 | Of the JWKs refused, those with a coordinate that is no base64url, where everything before it was in order, are malformed, and all others invalid keys |
| Chain.VerifySegment | crates/a2a-gov-mandate/src/chain.rs:213-276 | One turn of the loop, check after check with its early returns, verifies the hop exactly when the specification does and pushes that hop |
| Chain.VerifyPresentation | crates/a2a-gov-mandate/src/chain.rs:203-279 | The whole loop of `verify_chain` returns the specified hops or the error class of the first failing check |
| ChainTheorems.AcceptedExactly | crates/a2a-gov-mandate/src/chain.rs:203-379 | A chain is accepted with given hops if and only if it splits into as many segments and every hop is linked: kind by position and `typ`, signed with ES256 by a trusted root key or by the key the previous mandate's `cnf.jwk` says, exactly one matching binding hash, constant `vct`, integer times that hold, and audience, nonce, age and no `cnf` at the end; stated by key and text, without the code's own functions for keys, times and checks |
| ChainTheorems.TimesExact | crates/a2a-gov-mandate/src/chain.rs:356-379 | The saturating comparisons of the code are the exact integer ones over all 64-bit times and 32-bit skews |
| ChainTheorems.ClosingExact | crates/a2a-gov-mandate/src/chain.rs:339-354 | The closing checks pass exactly for the expected audience and nonce and an age within the limit, without overflow |
| ChainTheorems.BindingExact | crates/a2a-gov-mandate/src/chain.rs:321-337 | The binding check passes exactly when one of the two hashes is present and is the previous segment's |
| ChainTheorems.SingleMandateExact | crates/a2a-gov-mandate/src/chain.rs:309-319 | A hop's mandate is taken exactly when `delegate_payload` is an array of one object, which leaves the claims |
| ChainTheorems.LoopExact | crates/a2a-gov-mandate/src/chain.rs:212-278 | Loop invariant of `verify_chain`: the loop reaches a given list of hops exactly when every turn pushes its next hop |
| Refusals.TimesRefused | crates/a2a-gov-mandate/src/chain.rs:356-379 | Which times are expired, not yet valid or malformed, exactly: `exp` comes before `iat` and `iat` before `nbf`, and each is read before it is compared |
| Refusals.ClosingRefused | crates/a2a-gov-mandate/src/chain.rs:339-354 | A closing hop is refused for its audience, then its nonce, then its age, each with its own error |
| Refusals.KeyRefused | crates/a2a-gov-mandate/src/chain.rs:213-240 | An unknown `typ`, or a previous mandate without `cnf.jwk`, is a bad chain, and a root no key is trusted for an unknown issuer |
| Refusals.HopRefused | crates/a2a-gov-mandate/src/chain.rs:248-276 | Every later hop is refused for its binding, then a missing date, then its place, then as a closing hop for address and age, and last for its type of mandate |
| Refusals.MandateRefused | crates/a2a-gov-mandate/src/chain.rs:283-319 | Anything but one disclosed mandate is a bad chain, and so is an open mandate exactly when `vct`, `cnf.jwk` or `exp` is missing or of another kind |
| Refusals.ClockMoves | crates/a2a-gov-mandate/src/chain.rs:203-379 | A chain accepted at one time is at any later time accepted with the same hops or refused as expired or stale, and at any earlier time accepted or refused as not yet valid; no other error can come of the clock |
| Commitment.AcceptedShape | crates/a2a-gov-mandate/src/chain.rs:203-279 | Every accepted chain has 2 to 8 hops: a root, delegations, a closing hop, all of one `vct` |
| Commitment.ClosingCommits | crates/a2a-gov-mandate/src/chain.rs:321-337 | The closing hop commits to the chain: two accepted chains whose last JWTs have equal signing inputs have the same length, the same earlier JWTs and the same verified hops, whatever keys and clocks verified them |
| Commitment.IdFixesMandate | crates/a2a-gov-mandate/src/sdjwt.rs:28-31 | Across any two accepted chains, equal hop identifiers mean the same verified hop at the same place, and the same disclosures up to order |
| Commitment.AcceptedDuringWindow | crates/a2a-gov-mandate/src/chain.rs:339-379 | A fixed accepted chain is accepted, with the same hops, exactly at the clock values of one interval: from the latest start minus skew to the earliest expiry plus skew and the closing issue time plus age |
| Commitment.WindowExactly | crates/a2a-gov-mandate/src/chain.rs:356-379 | All time checks of all hops hold exactly between the maximum of the starts and the minimum of the ends |
| Issue.BuildHeader | crates/a2a-gov-mandate/src/issue.rs:92-100 | The header built by insertion is `alg`, `typ` and, when the key has one, `kid` |
| Issue.IssueOpenMandate | crates/a2a-gov-mandate/src/issue.rs:12-32 | `issue_open` writes the specified segment, or the builder's error |
| Issue.PresentHop | crates/a2a-gov-mandate/src/issue.rs:34-74 | `present` refuses an unusable previous segment or an empty audience or nonce, and otherwise writes the specified hop, bound to the previous segment by its digest |
| Building.PresentsExactly | crates/a2a-gov-mandate/src/issue.rs:34-74 | `present` succeeds if and only if the previous text ends in `~` and holds no `~~`, audience and nonce are not empty, and the mandate can be hidden; otherwise the error is malformed |
| Completeness.HeaderFacts | crates/a2a-gov-mandate/src/issue.rs:92-100 | By key: the header holds `ES256`, the `typ`, no `crit`, and the key's own `kid` or none |
| Completeness.IssuedChainIsAccepted | crates/a2a-gov-mandate/src/issue.rs:12-115 | End to end: a chain of any number of delegations up to the limit, issued hop by hop and joined, is accepted by `verify_chain` and yields exactly the issued mandates in order |
| Constraints.ConstrainPurpose | crates/a2a-gov-pdp/src/constraints.rs:102-113 | A purpose constraint holds unless another purpose is already fixed, and fixes its own |
| Constraints.EvaluateCall | crates/a2a-gov-pdp/src/constraints.rs:18-58 | The nested loops with their early returns compute the specified fold over hops and constraints, which `Permissions.CoveredExactly` states by the words of the constraints |
| Permissions.CoveredExactly | crates/a2a-gov-pdp/src/constraints.rs:18-143 | By the words of the constraints themselves: a call is covered if and only if every authorizing hop lists its constraints, every one of them permits the call, all are of known types, and declared and required purposes are one; it is unresolved if only a type is unknown |
| Permissions.CoversExactly | crates/a2a-gov-pdp/src/constraints.rs:76-100 | An allowance covers a detail exactly when both are objects of one type, the allowed lists of `actions`, `fields` and `locations` hold everything requested under them, and every other field is requested with an equal value |
| Permissions.LimitsAreImposed | crates/a2a-gov-pdp/src/constraints.rs:18-58 | The limits of a covered call are exactly the use limits its authorizing hops impose, each under the identifier of its hop |
| Permissions.PurposeIsRequired | crates/a2a-gov-pdp/src/constraints.rs:102-113 | The purpose of a covered call is the declared one, or else the one required; with neither there is none |
| Permissions.ReleaseIsCapped | crates/a2a-gov-pdp/src/constraints.rs:115-125 | Every release cap over a covered call is `records` or `answer-only`, and `records` wherever the call releases records |
| Permissions.LessIsCovered | crates/a2a-gov-pdp/src/constraints.rs:18-143 | A chain that covers a call covers every call with some of its details, the same purpose, and the same release or only the answer |
| Narrowing.EvaluateExact | crates/a2a-gov-pdp/src/constraints.rs:18-143 | The fold without its order: refused if and only if some constraint fails or purposes conflict; otherwise unresolved if and only if some type is unknown; otherwise covered, with every use limit in chain order. What holding means for each type is `Permissions.PermitsExactly` |
| Permissions.PermitsExactly | crates/a2a-gov-pdp/src/constraints.rs:60-143 | For each of the five types by its name, fields and words: when a constraint permits a call, and that one of another type permits every call and is unknown |
| Equality.JsonEqExactly | crates/a2a-gov-pdp/src/constraints.rs:76-100 | Equality of JSON values, as `serde_json` compares them, is equality once the fields are sorted and a zero has lost its sign |
| Narrowing.EvaluateIgnoresOrder | crates/a2a-gov-pdp/src/constraints.rs:24-57 | Permuting the constraints within hops changes neither outcome nor purpose, and keeps the limits as a multiset |
| Narrowing.DepthCountsDelegations | crates/a2a-gov-pdp/src/constraints.rs:43-43 | The depth checked against `max_depth` never underflows on accepted chains: it is the number of later delegations |
| Narrowing.DelegationOnlyNarrows | crates/a2a-gov-pdp/src/constraints.rs:18-58 | Removing any delegation hop from a covered chain leaves the call covered, the other hops' limits as they were, and any purpose still forced unchanged |
| Narrowing.CoversTransitive | crates/a2a-gov-pdp/src/constraints.rs:76-100 | An allowance covered by a second covers only what the second covers |
| Narrowing.CoveredDelegationAdmitsLess | crates/a2a-gov-pdp/src/constraints.rs:60-100 | A delegation whose allowances are each covered by the root's admits only requests the root admits |
| Decisions.ReadsOutcome | crates/a2a-gov-pdp/src/lib.rs:239-246 | The revocation reads as one step: a poisoned lock denies, else a revoked hop denies, else the rest of the call decides |
| Decisions.JobOutcome | crates/a2a-gov-pdp/src/lib.rs:239-284 | Exact effects of an uninterrupted call: it passes exactly when its verdict consumes and the stores allow it; a pass burns the nonce and records every use, finding the uses spent burns only the nonce, and every other outcome changes nothing |
| Decisions.DecideExactly | crates/a2a-gov-pdp/src/lib.rs:202-303 | Pass if and only if the chain verifies, no authorizing hop is revoked, the closed mandate holds this method, this task and details equal to the call's, the constraints cover it, the nonce is live and every limit has a use left; and the pass names the root's mandate, the purpose and the release |
| Decisions.DecidesByTable | crates/a2a-gov-pdp/src/lib.rs:202-303 | The decision on every presented call, question by question: no credential without a verified chain, and then for revocation, the closed mandate, the constraints, the nonce and the limits the answer each of them gives |
| Decisions.NothingPresented | crates/a2a-gov-pdp/src/lib.rs:202-221 | Without a presentation there is a challenge to get approval, and the stores stay as they are |
| Outcomes.PassIsPermitted | crates/a2a-gov-pdp/src/lib.rs:223-303 | Whenever a call passes, every constraint of every authorizing mandate permits it by name and word, none is unknown, and the closed mandate states it |
| Outcomes.OneClosingOneCall | crates/a2a-gov-pdp/src/lib.rs:286-303 | Two calls that pass on chains whose closing hops have one signing input have the same method, the same task and equal details, whoever verified the chains and whenever |
| Decisions.StorageErrorDenies | crates/a2a-gov-pdp/src/lib.rs:202-221 | Whenever a call gets as far as an operation whose lock is poisoned it ends in a denial, with no use recorded |
| Engine.MemoryNonces.ConsumeNonce | crates/a2a-gov-pdp/src/memory.rs:74-79 | Consuming is true exactly for an issued, unused nonce, which is gone afterwards |
| Engine.MemoryUses.TryConsume | crates/a2a-gov-pdp/src/memory.rs:121-134 | All limits have a use left and one use more is recorded for every entry, or nothing is recorded |
| Engine.DecisionEngine.AnyRevoked | crates/a2a-gov-pdp/src/lib.rs:239-246 | The loop over authorizing hops stops at the first revoked one, or at a lock error |
| Engine.DecisionEngine.DecidePresented | crates/a2a-gov-pdp/src/lib.rs:223-284 | The code of one presented call, over the mutable stores, gives the specified decision, which `Decisions.DecidesByTable` states question by question, and leaves the specified stores |
| Engine.DecisionEngine.DecideCall | crates/a2a-gov-pdp/src/lib.rs:202-221 | `decide`: without a presentation it asks for approval and touches no store; a backend error is a denial |
| Interleaving.RunIsSafe | crates/a2a-gov-pdp/src/lib.rs:223-284 | In every interleaving of any number of calls with issuing, revoking and lock poisoning: passes with a nonce never exceed its issues, passes under a limit never exceed it, and the count of a mandate is the number of its entries over the limits of all calls that consumed |
| Interleaving.RevokedNeverPasses | crates/a2a-gov-pdp/src/memory.rs:86-104 | Once `id` was revoked, no call that relies on it and had yet to read its revocation, or had yet to start, ever passes, whatever steps follow |
| Interleaving.RecordedCounts | crates/a2a-gov-pdp/src/memory.rs:130-132 | Recording adds exactly one per list entry, so two limits of one hop count twice |
| Interleaving.CountIsPassesExactly | crates/a2a-gov-pdp/src/memory.rs:121-134 | In every run the count of a mandate is at least the number of calls that passed under its limits, and equal to it if and only if no call that passed had two entries of it |
| Decisions.LimitedTwicePassesOnce | crates/a2a-gov-pdp/src/memory.rs:121-134 | A concrete chain whose root limits itself to two uses twice over: one pass counts two uses, and no second call has a use left |
| EndToEnd.MandateLimitHolds | crates/a2a-gov-mandate/src/sdjwt.rs:28-31 | End to end: once an accepted chain shows that the mandate with signing input x allows n uses, no run of interleaved calls has more than n passes that rely on that mandate, in whatever chains it is presented |
| EndToEnd.EveryCallIsFounded | crates/a2a-gov-pdp/src/lib.rs:223-284 | In every run, every call that passes was started with a chain that was accepted, and passes by the verdict on that chain |
| EndToEnd.RevokedMandateNeverPasses | crates/a2a-gov-mandate/src/sdjwt.rs:28-31 | End to end: once the mandate with signing input x was revoked, a call relying on it in any chain never passes if it started later or had yet to read that revocation |
| Interleaving.AloneIsDecide | crates/a2a-gov-pdp/src/lib.rs:202-284 | A call no other step comes between ends with the decision, and leaves the stores, of the uninterrupted one |
| Histories.RevokedExactly | crates/a2a-gov-pdp/src/memory.rs:86-104 | After any history a hop is revoked exactly when at some step it was, before the lock was poisoned: a revocation is for good |
| Histories.LiveExactly | crates/a2a-gov-pdp/src/memory.rs:57-84 | After any history a nonce is live exactly when at some step it was issued and no call has taken it since |
| Histories.NoMorePasses | crates/a2a-gov-pdp/src/lib.rs:223-284 | In plain numbers: no more calls pass with a nonce than the steps that issued it, and no more under a limit than it allows |
| Histories.EntitledPasses | crates/a2a-gov-pdp/src/lib.rs:202-284 | After every history without lock errors, a call passes once it is started and left alone if its chain verifies, none of the mandates was ever revoked, the closed one states it, the constraints cover it with uses left and its nonce is live |
| Interleaving.EveryRunKeeps | crates/a2a-gov-pdp/src/memory.rs:57-134 | The invariant over every run from empty stores that the safety results rest on |
| Decimals.IncrementBytes | crates/a2a-gov-card/src/jcs.rs:201-215 | The loop over the bytes from the last one back computes the specified increment |
| Decimals.IncrementAddsOne | crates/a2a-gov-card/src/jcs.rs:201-215 | Exactly one unit in the last place is added, with as many digits; the exponent grows only when every digit was a nine |
| Decimals.LayoutDenotes | crates/a2a-gov-card/src/jcs.rs:123-156 | For every digit string and exponent, all four layout branches write digits times ten to the n - k, as a reader of decimal text of its own confirms |
| Decimals.LayoutForm | crates/a2a-gov-card/src/jcs.rs:131-155 | The exponent is written exactly from 1e21 on and below 1e-6, and a point exactly where digits follow it (RFC 8785, section 3.2.2.3) |
| Numbers.TiesGoToEven | crates/a2a-gov-card/src/jcs.rs:163-198 | On a tie twice the value of the double is an odd number of last-place units, so it lies exactly halfway, and the even neighbour is taken exactly when it reads back as the double; without a tie the shortest digits stay |
| Numbers.EvenOnTieReadsBack | crates/a2a-gov-card/src/jcs.rs:163-198 | The digits written read back as the double, have the same number of digits, no leading zero, and no trailing zero when the input was shortest |
| Numbers.NumberReadsBack | crates/a2a-gov-card/src/jcs.rs:105-157 | Exactly the finite doubles are written; zero drops its sign, and any other text reads back as its sign and a decimal that parses to its magnitude |
| Numbers.NumberDetermines | crates/a2a-gov-card/src/jcs.rs:105-157 | Two finite doubles are written alike if and only if they are equal |
| Numbers.WriteNumber | crates/a2a-gov-card/src/jcs.rs:105-157 | The code that appends the parts of the layout writes the specified text |
| Jcs.Writer.WriteString | crates/a2a-gov-card/src/jcs.rs:83-101 | The loop over characters appends the quoted, escaped string |
| Jcs.Writer.WriteValue | crates/a2a-gov-card/src/jcs.rs:23-81 | The recursive writer appends the canonical text, or fails exactly where there is none: nesting over 128, an integer a double rounds, or a non-finite number |
| Jcs.Canonicalize | crates/a2a-gov-card/src/jcs.rs:17-21 | `canonicalize` returns the canonical text or the error, as the specification does, whose text is read back by `Reading.CanonicalReadsBack` and whose errors are those of `Reading.CanonExactly` |
| Faithful.Utf16Determines | crates/a2a-gov-card/src/jcs.rs:67-67 | UTF-16 code units determine a key |
| Faithful.SortedFields | crates/a2a-gov-card/src/jcs.rs:66-67 | Sorting keeps the fields and puts distinct keys in strictly ascending order of their UTF-16 code units, the first difference by index deciding (RFC 8785, section 3.2.3) |
| Faithful.KeysInOrderExactly | crates/a2a-gov-card/src/jcs.rs:66-67 | One key comes before another exactly when there is a position up to which their code units agree and at which it ends or has the smaller unit |
| Faithful.Utf16ReadsBack | crates/a2a-gov-card/src/jcs.rs:66-67 | The code units are UTF-16: a decoder of its own, for surrogate pairs and all other units, gives every text back |
| Faithful.OneOrder | crates/a2a-gov-card/src/jcs.rs:66-67 | There is exactly one such order, so the sort is unique |
| Faithful.StringReads | crates/a2a-gov-card/src/jcs.rs:83-101 | Escaped strings form a prefix code: two that agree, whatever text follows, are the same string and the same rest |
| Faithful.IntegersAreWrittenApart | crates/a2a-gov-card/src/jcs.rs:32-52 | No two integers that are accepted share one canonical form |
| Faithful.ValuesRead | crates/a2a-gov-card/src/jcs.rs:23-81 | Canonical texts that agree, whatever follows, come from equal values and leave the same rest |
| Faithful.CanonicalIsFaithful | crates/a2a-gov-card/src/jcs.rs:17-101 | When both values are accepted, their canonical texts are equal if and only if the values are equal up to the order of keys and numeric value; and of two such values both or neither are accepted |
| Reading.CanonicalReadsBack | crates/a2a-gov-card/src/jcs.rs:17-101 | Canonical text is JSON text: read to its end by a reader of its own it gives the value back, numbers by the doubles they parse to, members in strictly ascending UTF-16 order (RFC 8785, sections 3.2.2 and 3.2.3) |
| Reading.CanonExactly | crates/a2a-gov-card/src/jcs.rs:23-81 | A value has a canonical text if and only if it nests at most 128 deep around anything, every integer in it lies within 2^53 - 1 and every double is finite |
| Reading.EscapesAreMinimal | crates/a2a-gov-card/src/jcs.rs:83-101 | Quotation mark, backslash and control characters are escaped, the latter by their two-character escapes or four lower-case hexadecimal digits, and every other character stands for itself |
| Schema.SchemaIsAcyclic | crates/a2a-gov-card/src/schema.rs:7-131 | Every message-typed field leads to a message of lower rank: no message holds itself |
| Card.StripObject | crates/a2a-gov-card/src/canonical.rs:41-69 | The loop over the fields of a message, inserting into an output map, computes the specified fields, of which `CardReading.StripReads` says what they read as |
| CardTheorems.StrippingNeverFails | crates/a2a-gov-card/src/canonical.rs:34-37 | The depth guard of stripping never fires, however deep the card is |
| CardForms.StrippedFields | crates/a2a-gov-card/src/canonical.rs:42-68 | What stripping leaves under each key: unknown fields stay in the specification's form only, known ones stay with their value stripped unless presence is implicit and the stripped value a default, which `CardReading.IsDefaultExactly` lists |
| CardReading.IsDefaultExactly | crates/a2a-gov-card/src/canonical.rs:73-84 | The values dropped, for each shape and kind: an empty list or map, the empty text, false, zero as an integer or a fraction, and of enumerations zero or a name that ends in `_UNSPECIFIED`; never a message |
| CardReading.StripReads | crates/a2a-gov-card/src/canonical.rs:34-84 | Removal loses nothing: read with the proto3 default for every absent field of implicit presence, a stripped message reads as before in either form, and no such field, however deep, is left to say its default |
| CardReading.SignedExactly | crates/a2a-gov-card/src/canonical.rs:21-84 | Two cards that can be signed have one signed text in the specification's form if and only if they read alike, signatures aside: defaults, the order of keys and the way a number is written make no difference, and everything else does |
| CardReading.CleaningKeepsLeaves | crates/a2a-gov-card/src/canonical.rs:86-104 | Cleaning keeps every scalar but the empty texts, in the same order and under the same keys |
| CardReading.HollowSignsNull | crates/a2a-gov-card/src/canonical.rs:26-31 | In the SDK's form a card that is empty throughout is signed as `null`, and any other as what cleaning leaves |
| CardTheorems.StripAgain | crates/a2a-gov-card/src/canonical.rs:34-70 | Stripping twice is stripping once, in both forms |
| CardForms.PreparedAgain | crates/a2a-gov-card/src/canonical.rs:21-32 | Preparing a prepared card changes nothing in the specification's form |
| CardTheorems.CleanEmptyExactly | crates/a2a-gov-card/src/canonical.rs:88-104 | `clean_empty` leaves nothing exactly of a value that is empty throughout, otherwise no empty string, list or object at any depth, and changes nothing exactly where there was none |
| CardTheorems.CleanEmptyAgain | crates/a2a-gov-card/src/canonical.rs:88-104 | Cleaning twice is cleaning once |
| CardForms.FormsCoincideExactly | crates/a2a-gov-card/src/canonical.rs:10-32 | Of the cards both forms accept, the two payloads are equal if and only if no message position has an unknown field and the card stripped in the specification's form holds no empty value |
| CardForms.StrippingCanEmpty | crates/a2a-gov-card/src/canonical.rs:41-69 | A concrete card without any empty value and without an unknown field, `{"capabilities": {"extensions": [{"required": false}]}}`, that is left with an empty extension, so its two payloads differ |
| CardForms.SignaturesAreNotSigned | crates/a2a-gov-card/src/lib.rs:104-127 | Adding or replacing `signatures` does not change the payload, in either form |
| Receipts.ClosingIsLast | crates/a2a-gov-receipt/src/lib.rs:285-292 | On every chain `split` accepts, the cut from the right is the last segment |
| Receipts.ClosingSegmentExactly | crates/a2a-gov-receipt/src/lib.rs:285-292 | The closing segment of any text is what follows the last `~~`, if it ends in `~` and does not start with it; otherwise the text is malformed |
| Receipts.RootIsFirst | crates/a2a-gov-receipt/src/lib.rs:84-90 | On every such chain, the text before the first `~` is the first JWT |
| Receipts.ReceiptAgrees | crates/a2a-gov-receipt/src/lib.rs:84-90 | The receipt of a chain that verifies carries the verified root hop's identifier as `mandate_id`, and the digest of the closing segment as its reference |
| Receipts.MatchesExactly | crates/a2a-gov-receipt/src/lib.rs:167-173 | For two chains `split` accepts, the receipt of one matches the other if and only if their closing hops have equal signing inputs and equal disclosures |
| Receipts.UnnamedMatchesExactly | crates/a2a-gov-receipt/src/lib.rs:167-173 | A receipt without a presentation identifier matches a chain exactly when its reference is the digest of the closing segment or of its JWT alone |
| Receipts.UnnamedMatchesSameClosing | crates/a2a-gov-receipt/src/lib.rs:262-283 | Without that identifier the receipt for one chain matches another if and only if both close with the same segment |
| Receipts.DisclosuresFixText | crates/a2a-gov-mandate/src/chain.rs:142-155 | A segment's disclosures can always be read, and determine the text after its JWT |
| Receipts.MatchMeansSameHops | crates/a2a-gov-receipt/src/lib.rs:268-277 | When both chains verify, a match means the same verified hops |
| ReceiptLog.VerifyLog | crates/a2a-gov-receipt/src/log.rs:92-108 | Returns the head exactly of a chained log, and otherwise the fault of the first entry that has one |
| ReceiptLog.Log.Append | crates/a2a-gov-receipt/src/log.rs:67-78 | Appending keeps the log chained, leaves earlier entries as they were, and makes the new entry's hash the head |
| ReceiptLog.EntryTextDetermines | crates/a2a-gov-receipt/src/log.rs:48-52 | The decimal-and-colon text that is hashed determines position, previous hash and receipt, though a receipt may hold colons |
| ReceiptLog.HeadDeterminesLog | crates/a2a-gov-receipt/src/log.rs:92-108 | Two logs that verify to one head are equal entry by entry |
| ReceiptLog.HeadDeterminesPrefix | crates/a2a-gov-receipt/src/log.rs:92-108 | A verified log whose head is the hash of entry k of another is exactly the other's first k + 1 entries |
| ReceiptLog.ChangeIsDetected | crates/a2a-gov-receipt/src/log.rs:1-5 | Whoever kept the head detects any change: every other log fails to verify or has another head |

## Left out

- P-256 ECDSA, SHA-256, base64 and OS randomness: library code, present as the functions of
  `Codec` and as a supply of salts; running out of salts stands for the random source failing.
- JSON text parsing and printing by serde_json and the strict visitor: present as the partial
  inverse pair `decode` and `encode`; texts other than base64url ones are not modelled.
- Formatting and parsing of doubles (`{:e}`, `{:.1100e}`, `parse::<f64>`): inputs of `Floats`.
- Error texts: only the error class of each early return is kept, and the details of a denial
  or a challenge are dropped.
- Lock poisoning is a flag that a step may set at any time; what panics while holding a lock
  is not modelled. A use count is an unbounded number: the overflow of `u64` after 2^64 uses
  is not modelled, nor is the wrap of a log position.
- `StaticSurfaces` (crates/a2a-gov-pdp/src/memory.rs): trusted keys are any function of the header.
- Drawing a nonce: issuing takes the drawn nonce as an argument, and may repeat one.
- The sort of object keys and of digests is library code; it is the insertion sort of `Sorting` here, proved to be
  the only ordered arrangement of its input for keys.
- Rust's string slicing panics where an index falls inside a character; the texts that are cut
  are cut at ASCII characters only.
- Receipt payload mapping (`to_payload`, `from_payload`), released field paths, and receipt
  signing: one field at a time, only easy members. `Decision::receipt` and the outcome of a
  receipt go with them.
- Card signing and verification (crates/a2a-gov-card/src/lib.rs) beyond the payload: a loop over
  abstract signatures.
- A2A message shapes, activation and the error profile (a2a-gov-binding, a2a-gov-extension).
- Python bindings, examples, interoperability scripts, the schema generator and tests.
- Wire.SplitInvertsJoin: texts are sequences of Unicode scalar values whose UTF-8 length is
  computed, not byte strings.
- Restoration.RoundTripExactly: the mandate is free of `_sd` keys and one-key `...` array
  elements and nests at most 125 deep, as the reader of a disclosure needs; the restored
  mandate has the original's fields, in an order that may differ.
- Completeness.IssuedChainIsAccepted: issue times are integers and the mandates' own times
  hold at the verifier's clock, since the chain is refused otherwise.
- Interleaving.RunIsSafe: stores start empty; steps are the atomic store operations, and
  everything between two of them is local to its call.
