/** PASSporT claim objects, the SHAKEN signer, and the compact JWT form
    (RFC 8225, RFC 8588). JSON, UUID text and ES256 are parameters. */
module Passport {
  import opened Prelude
  import opened Text
  import Base64
  import Utf8

  type Uuid = n: nat | n < TWO_128

  datatype Attestation = Full | Partial | Gateway {
    function Letter(): string {
      match this case Full => "A" case Partial => "B" case Gateway => "C"
    }
  }

  datatype PptType = Shaken | Div | Rcd {
    function Name(): string {
      match this case Shaken => "shaken" case Div => "div" case Rcd => "rcd"
    }
  }

  /** What the dialog layer hands to the signer. */
  datatype ClaimSummary = ClaimSummary(
    origTn: Option<string>, origUri: Option<string>,
    destTn: Option<string>, destUri: Option<string>,
    origid: Option<Uuid>, attest: Option<string>)

  datatype Orig = OrigTn(tn: string) | OrigUri(uri: string)
  datatype Dest = Dest(tn: Option<seq<string>>, uri: Option<seq<string>>)
  datatype Claims = Claims(orig: Orig, dest: Dest, iat: nat, origid: Option<Uuid>, attest: Option<Attestation>)
  datatype Header = Header(alg: string, typ: string, ppt: Option<string>, x5u: string)

  // What the verifier deserialises; every field but `alg`, `iat`, `orig` and `dest` may be absent.
  datatype ParsedHeader = ParsedHeader(alg: string, ppt: Option<string>, x5u: Option<string>)
  datatype ParsedPayload = ParsedPayload(
    iat: int, origTn: Option<string>, origUri: Option<string>,
    destTn: Option<seq<string>>, destUri: Option<seq<string>>,
    attest: Option<string>, origid: Option<string>)

  /** Code outside the crate. */
  datatype Codec<!Key> = Codec(
    headerToJson: Header -> Option<seq<byte>>,
    claimsToJson: Claims -> Option<seq<byte>>,
    headerFromJson: seq<byte> -> Option<ParsedHeader>,
    payloadFromJson: seq<byte> -> Option<ParsedPayload>,
    uuidToText: Uuid -> string,
    uuidFromText: string -> Option<Uuid>,
    es256Sign: (Key, seq<byte>) -> Option<seq<byte>>,
    es256Verify: (seq<byte>, seq<byte>, seq<byte>) -> bool,
    publicKey: Key -> seq<byte>)

  function HeaderView(h: Header): ParsedHeader { ParsedHeader(h.alg, h.ppt, Some(h.x5u)) }

  function ClaimsView<Key>(b: Codec<Key>, c: Claims): ParsedPayload {
    ParsedPayload(
      c.iat,
      if c.orig.OrigTn? then Some(c.orig.tn) else None,
      if c.orig.OrigUri? then Some(c.orig.uri) else None,
      c.dest.tn, c.dest.uri,
      if c.attest.Some? then Some(c.attest.value.Letter()) else None,
      if c.origid.Some? then Some(b.uuidToText(c.origid.value)) else None)
  }

  /** What is assumed of that code: parsing undoes printing (`iat` is read as an i64), and
      a signature made with a private key verifies under its public key. */
  ghost predicate Faithful<Key(!new)>(b: Codec<Key>) {
    && (forall h: Header :: b.headerToJson(h).Some? ==>
          b.headerFromJson(b.headerToJson(h).value) == Some(HeaderView(h)))
    && (forall c: Claims :: c.iat < TWO_63 && b.claimsToJson(c).Some? ==>
          b.payloadFromJson(b.claimsToJson(c).value) == Some(ClaimsView(b, c)))
    && (forall u: Uuid :: b.uuidFromText(b.uuidToText(u)) == Some(u))
    && (forall k: Key, m: seq<byte> :: b.es256Sign(k, m).Some? ==>
          b.es256Verify(b.publicKey(k), m, b.es256Sign(k, m).value))
  }

  /** Release-build `i64` arithmetic. */
  function WrapI64(x: int): (r: int)
    ensures -TWO_63 <= r < TWO_63
    ensures -TWO_63 <= x < TWO_63 ==> r == x
  {
    (x + TWO_63) % TWO_64 - TWO_63
  }

  // ----- Signing -----

  datatype SignerError = SigningFailed | InvalidClaims
  datatype SignerConfig<!Key> = SignerConfig(certUrl: string, defaultAttest: Attestation, ppt: PptType, iatSkew: i64,
                                             key: Key)
  datatype IdentityValue = IdentityValue(jwt: string, info: string, alg: string, ppt: string)

  function AttestOf<Key>(config: SignerConfig<Key>, requested: Option<string>)
    : (r: Result<Option<Attestation>, SignerError>) {
    match requested
    case None => Ok(if config.ppt.Shaken? then Some(config.defaultAttest) else None)
    case Some(s) =>
      if s == "A" || s == "a" then Ok(Some(Full))
      else if s == "B" || s == "b" then Ok(Some(Partial))
      else if s == "C" || s == "c" then Ok(Some(Gateway))
      else Err(InvalidClaims)
  }

  /** `build_claims`; `drawn` is the random UUID drawn when the summary names none. */
  function BuildClaims<Key>(config: SignerConfig<Key>, s: ClaimSummary, iat: nat, drawn: Uuid)
    : (r: Result<Claims, SignerError>) {
    if s.origTn.None? && s.origUri.None? then Err(InvalidClaims)
    else if s.destTn.None? && s.destUri.None? then Err(InvalidClaims)
    else
      var orig := if s.origTn.Some? then OrigTn(s.origTn.value) else OrigUri(s.origUri.value);
      var dest := Dest(
        if s.destTn.Some? then Some([s.destTn.value]) else None,
        if s.destUri.Some? then Some([s.destUri.value]) else None);
      var attest :- AttestOf(config, s.attest);
      Ok(Claims(orig, dest, iat, Some(if s.origid.Some? then s.origid.value else drawn), attest))
  }

  function IssuedAt<Key>(config: SignerConfig<Key>, now: i64): (iat: nat)
    ensures iat < TWO_63
  {
    var t := WrapI64(now + config.iatSkew);
    if t < 0 then 0 else t
  }

  /** `iat` stands for the instant `t`, raised to the epoch; a sum of two i64 outside i64 wraps. */
  predicate Stamps(iat: int, t: int) {
    if t < -TWO_63 then iat == t + TWO_64
    else if t < 0 then iat == 0
    else if t < TWO_63 then iat == t
    else iat == 0
  }

  /** Tokens are stamped with the clock, shifted by the configured skew. */
  lemma StampIsClock<Key>(config: SignerConfig<Key>, now: i64)
    ensures Stamps(IssuedAt(config, now), now + config.iatSkew)
  {
    var t := now + config.iatSkew;
    assert t >= TWO_63 ==> WrapI64(t) == t - TWO_64;
    assert t < -TWO_63 ==> WrapI64(t) == t + TWO_64;
  }

  function HeaderFor<Key>(config: SignerConfig<Key>): Header {
    Header("ES256", "passport", Some(config.ppt.Name()), config.certUrl)
  }

  /** `sign`: base64url(header) "." base64url(payload) "." base64url(signature). */
  function Sign<Key>(b: Codec<Key>, config: SignerConfig<Key>, s: ClaimSummary, now: i64, drawn: Uuid)
    : (r: Result<IdentityValue, SignerError>) {
    var claims :- BuildClaims(config, s, IssuedAt(config, now), drawn);
    var header := b.headerToJson(HeaderFor(config));
    if header.None? then Err(SigningFailed)
    else
      var payload := b.claimsToJson(claims);
      if payload.None? then Err(InvalidClaims)
      else
        var input := UrlEncode(header.value) + "." + UrlEncode(payload.value);
        var signature := b.es256Sign(config.key, Utf8.Encode(input));
        if signature.None? then Err(SigningFailed)
        else Ok(IdentityValue(input + "." + UrlEncode(signature.value), config.certUrl, "ES256", config.ppt.Name()))
  }

  function UrlEncode(b: seq<byte>): string { Base64.Encode(Base64.URL_SAFE_NO_PAD, b) }
  function UrlDecode(s: string): Option<seq<byte>> { Base64.Decode(Base64.URL_SAFE_NO_PAD, s) }

  // ----- The compact form -----

  /** `str::rfind` of a character that occurs. */
  function LastIndex(s: string, c: char): (i: nat)
    requires c in s
    ensures i < |s| && s[i] == c && forall j :: i < j < |s| ==> s[j] != c
  {
    if s[|s| - 1] == c then |s| - 1 else
      assert s == s[..|s| - 1] + [s[|s| - 1]];
      LastIndex(s[..|s| - 1], c)
  }

  datatype Segments = Segments(header: seq<byte>, payload: seq<byte>, signature: string)

  /** `split_compact_jwt`: exactly three segments, the first two decodable. */
  function SplitJwt(jwt: string): (r: Result<Segments, SignerError>) {
    var parts := Split(jwt, '.');
    if |parts| != 3 then Err(InvalidClaims)
    else
      match UrlDecode(parts[0])
      case None => Err(InvalidClaims)
      case Some(header) =>
        match UrlDecode(parts[1])
        case None => Err(InvalidClaims)
        case Some(payload) => Ok(Segments(header, payload, parts[2]))
  }

  /** What the verifier feeds to the signature check: everything before the last dot. */
  function SigningInput(jwt: string): string
    requires '.' in jwt
  {
    jwt[..LastIndex(jwt, '.')]
  }

  /** For every token that splits, the signed text is its first two segments, verbatim. */
  lemma SigningInputIsFirstTwo(jwt: string)
    requires SplitJwt(jwt).Ok?
    ensures '.' in jwt
    ensures SigningInput(jwt) == UrlEncode(SplitJwt(jwt).value.header) + "." + UrlEncode(SplitJwt(jwt).value.payload)
    ensures jwt == SigningInput(jwt) + "." + SplitJwt(jwt).value.signature
  {
    var parts := Split(jwt, '.');
    JoinOfSplit(jwt, '.');
    var p0, p1, p2 := parts[0], parts[1], parts[2];
    assert parts[1..][1..] == [p2] && parts[1..][0] == p1;
    var input := p0 + "." + p1;
    assert Join(parts[1..], '.') == p1 + "." + p2;
    assert jwt == input + "." + p2;
    LastDot(input, p2);
    Base64.EncodeOfDecode(Base64.URL_SAFE_NO_PAD, p0);
    Base64.EncodeOfDecode(Base64.URL_SAFE_NO_PAD, p1);
  }

  lemma LastIndexUnique(s: string, c: char, k: nat)
    requires k < |s| && s[k] == c && forall j :: k < j < |s| ==> s[j] != c
    ensures LastIndex(s, c) == k
  {
  }

  lemma LastDot(input: string, tail: string)
    requires '.' !in tail
    ensures '.' in input + "." + tail
    ensures SigningInput(input + "." + tail) == input
  {
    var s, k := input + "." + tail, |input|;
    assert s[k] == '.';
    forall j | k < j < |s| ensures s[j] != '.' { assert s[j] == tail[j - k - 1]; }
    LastIndexUnique(s, '.', k);
    assert s[..k] == input;
  }

  /** A base64url segment never contains a dot. */
  lemma UrlEncodeHasNoDot(b: seq<byte>)
    ensures '.' !in UrlEncode(b)
  {
    Base64.EncodeAlphabet(Base64.URL_SAFE_NO_PAD, b);
  }

  /** Splitting a token made of three encoded segments recovers them. */
  lemma SplitOfToken(header: seq<byte>, payload: seq<byte>, signature: seq<byte>)
    ensures SplitJwt(UrlEncode(header) + "." + UrlEncode(payload) + "." + UrlEncode(signature))
         == Ok(Segments(header, payload, UrlEncode(signature)))
  {
    UrlEncodeHasNoDot(header);
    UrlEncodeHasNoDot(payload);
    UrlEncodeHasNoDot(signature);
    SplitThree(UrlEncode(header), UrlEncode(payload), UrlEncode(signature), '.');
    Base64.DecodeOfEncode(Base64.URL_SAFE_NO_PAD, header);
    Base64.DecodeOfEncode(Base64.URL_SAFE_NO_PAD, payload);
  }
}
