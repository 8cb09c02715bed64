/** Writing the first segment of a chain, and each further one over the last (issue.rs). */
module Issue {
  import opened Results
  import opened Json
  import opened Codec
  import opened Wire
  import opened SdJwt
  import opened Builder
  import opened Jws
  import opened Chain

  function Header(typ: string, key: SigningKey): Object {
    var h := [Field("alg", Str(ES256)), Field("typ", Str(typ))];
    match key.kid
    case Some(kid) => h + [Field("kid", Str(kid))]
    case None => h
  }

  function OpenPayload(built: Value): Object {
    [Field(DELEGATE_PAYLOAD, built), Field(SD_ALG_KEY, Str(SD_ALG))]
  }

  function HopPayload(built: Value, iat: int, aud: string, nonce: string, prevDigest: string): Object {
    [Field(DELEGATE_PAYLOAD, built), Field("iat", Int(iat)), Field("aud", Str(aud)), Field("nonce", Str(nonce)),
     Field("sd_hash", Str(prevDigest)), Field(SD_ALG_KEY, Str(SD_ALG))]
  }

  function HopTyp(mandate: Object): string {
    if Has(mandate, "cnf") then TYP_DELEGATION else TYP_CLOSING
  }

  function IssueOpen(c: Codec, mandate: Object, sd: Disclosable, key: SigningKey, salts: seq<string>): Result<string> {
    var (built, b) :- DelegatePayload(c, mandate, sd, Built([], salts));
    Ok(SegmentText(Sign(c, Header(DC_SD_JWT, key), OpenPayload(built), key), b.disclosures))
  }

  function Present(c: Codec, prev: string, mandate: Object, sd: Disclosable, key: SigningKey, aud: string,
                   nonce: string,
                   iat: int, salts: seq<string>): Result<string> {
    var _ :- Check(NoPair(prev) && EndsInTilde(prev), Malformed);
    var _ :- Check(aud != "" && nonce != "", Malformed);
    var (built, b) :- DelegatePayload(c, mandate, sd, Built([], salts));
    var payload := HopPayload(built, iat, aud, nonce, c.digest(prev));
    Ok(SegmentText(Sign(c, Header(HopTyp(mandate), key), payload, key), b.disclosures))
  }

  // ----- The code that does it -----

  lemma InsertNew(m: Object, key: string, value: Value)
    requires forall i | 0 <= i < |m| :: m[i].key != key
    ensures Insert(m, key, value) == m + [Field(key, value)]
  {
  }

  /** Inserting the header fields one by one gives the header. */
  method BuildHeader(typ: string, key: SigningKey) returns (h: Object)
    ensures h == Header(typ, key)
  {
    h := [];
    InsertNew(h, "alg", Str(ES256));
    h := Insert(h, "alg", Str(ES256));
    InsertNew(h, "typ", Str(typ));
    h := Insert(h, "typ", Str(typ));
    if key.kid.Some? {
      InsertNew(h, "kid", Str(key.kid.value));
      h := Insert(h, "kid", Str(key.kid.value));
    }
  }

  method IssueOpenMandate(c: Codec, mandate: Object, sd: Disclosable, key: SigningKey, salts: seq<string>)
    returns (segment: Result<string>)
    ensures segment == IssueOpen(c, mandate, sd, key, salts)
  {
    var builder := new PayloadBuilder(c, salts);
    var built :- builder.Wrap(mandate, sd);
    InsertNew([], DELEGATE_PAYLOAD, built);
    var payload := Insert([], DELEGATE_PAYLOAD, built);
    InsertNew(payload, SD_ALG_KEY, Str(SD_ALG));
    payload := Insert(payload, SD_ALG_KEY, Str(SD_ALG));
    assert payload == OpenPayload(built);
    var header := BuildHeader(DC_SD_JWT, key);
    var text := WriteSegment(Sign(c, header, payload, key), builder.disclosures);
    segment := Ok(text);
  }

  method BuildHopPayload(built: Value, iat: int, aud: string, nonce: string, prevDigest: string) returns (m: Object)
    ensures m == HopPayload(built, iat, aud, nonce, prevDigest)
  {
    m := Insert([], DELEGATE_PAYLOAD, built);
    InsertNew(m, "iat", Int(iat));
    m := Insert(m, "iat", Int(iat));
    InsertNew(m, "aud", Str(aud));
    m := Insert(m, "aud", Str(aud));
    InsertNew(m, "nonce", Str(nonce));
    m := Insert(m, "nonce", Str(nonce));
    InsertNew(m, "sd_hash", Str(prevDigest));
    m := Insert(m, "sd_hash", Str(prevDigest));
    InsertNew(m, SD_ALG_KEY, Str(SD_ALG));
    m := Insert(m, SD_ALG_KEY, Str(SD_ALG));
  }

  method PresentHop(c: Codec, prev: string, mandate: Object, sd: Disclosable, key: SigningKey, aud: string,
                    nonce: string,
                    iat: int, salts: seq<string>) returns (segment: Result<string>)
    ensures segment == Present(c, prev, mandate, sd, key, aud, nonce, iat, salts)
  {
    var _ :- Check(NoPair(prev) && EndsInTilde(prev), Malformed);
    var _ :- Check(aud != "" && nonce != "", Malformed);
    var typ := HopTyp(mandate);
    var builder := new PayloadBuilder(c, salts);
    var built :- builder.Wrap(mandate, sd);
    var payload := BuildHopPayload(built, iat, aud, nonce, c.digest(prev));
    var header := BuildHeader(typ, key);
    var text := WriteSegment(Sign(c, header, payload, key), builder.disclosures);
    segment := Ok(text);
  }
}
