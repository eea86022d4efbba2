/** The SHAKEN verifier (RFC 8224): sixteen checks in a fixed order, the first failing
    one deciding the outcome. HTTP, URL and X.509 parsing, path building, JSON and
    ES256 are parameters. */
module Verifier {
  import opened Prelude
  import opened Passport
  import Base64
  import LeafProfile
  import Pem
  import Utf8

  // ----- SIP side -----

  datatype Scheme = Sip | Sips | Tel | OtherScheme
  datatype Host = Domain(name: string) | Address
  datatype Uri = Uri(scheme: Scheme, user: Option<string>, host: Host, text: string)
  datatype SipHeader = From(uri: Uri) | To(uri: Uri) | OtherHeader
  datatype Identity = Identity(jwt: string, info: Option<string>)

  predicate AllDigits(s: string) { forall c :: c in s ==> IsDigit(c) }

  /** `canonical_e164_or_uri`. */
  function Canonical(uri: Uri): (r: Option<string>) {
    match uri.scheme
    case Tel => if uri.host.Domain? then Some(uri.host.name) else None
    case OtherScheme => Some(uri.text)
    case _ =>
      if uri.user.Some? && uri.user.value != [] && uri.user.value[0] == '+' && AllDigits(uri.user.value[1..])
      then uri.user else Some(uri.text)
  }

  function FirstFrom(hs: seq<SipHeader>): (r: Option<Uri>) {
    if hs == [] then None else if hs[0].From? then Some(hs[0].uri) else FirstFrom(hs[1..])
  }

  function FirstTo(hs: seq<SipHeader>): (r: Option<Uri>) {
    if hs == [] then None else if hs[0].To? then Some(hs[0].uri) else FirstTo(hs[1..])
  }

  predicate OrigMatches(p: ParsedPayload, sip: Option<string>) {
    if p.origTn.Some? then p.origTn == sip
    else p.origUri.Some? && p.origUri == sip
  }

  predicate DestMatches(p: ParsedPayload, sip: Option<string>) {
    if p.destTn.Some? && p.destTn.value != [] then sip.Some? && sip.value in p.destTn.value
    else p.destUri.Some? && p.destUri.value != [] && sip.Some? && sip.value in p.destUri.value
  }

  /** `check_claim_mismatch`: silent when From or To is absent. */
  function ClaimMismatchOf(p: ParsedPayload, hs: seq<SipHeader>): (r: Option<string>) {
    if FirstFrom(hs).None? || FirstTo(hs).None? then None
    else if !OrigMatches(p, Canonical(FirstFrom(hs).value)) then Some("orig")
    else if !DestMatches(p, Canonical(FirstTo(hs).value)) then Some("dest")
    else None
  }

  /** What the comparison is for: the claimed caller is the one SIP names, by number when the
      token has one and by URI otherwise; the callee is one of those claimed, likewise. */
  predicate ClaimsCaller(p: ParsedPayload, sip: Option<string>) {
    sip.Some? && (p.origTn == sip || (p.origTn.None? && p.origUri == sip))
  }

  predicate ClaimsCallee(p: ParsedPayload, sip: Option<string>) {
    && sip.Some?
    && (|| (p.destTn.Some? && sip.value in p.destTn.value)
        || (p.destTn in {None, Some([])} && p.destUri.Some? && sip.value in p.destUri.value))
  }

  lemma MismatchIff(p: ParsedPayload, hs: seq<SipHeader>)
    ensures ClaimMismatchOf(p, hs).None?
       <==> (FirstFrom(hs).Some? && FirstTo(hs).Some? ==>
               && ClaimsCaller(p, Canonical(FirstFrom(hs).value)) && ClaimsCallee(p, Canonical(FirstTo(hs).value)))
    ensures ClaimMismatchOf(p, hs).Some? ==>
              ClaimMismatchOf(p, hs) == Some(if ClaimsCaller(p, Canonical(FirstFrom(hs).value)) then "dest" else "orig")
  {
    hide Canonical;
  }

  /** From and To are the first of their kind; other headers do not matter. */
  lemma {:induction false} FirstOfKind(hs: seq<SipHeader>, post: seq<SipHeader>, uri: Uri)
    ensures (forall h :: h in hs ==> !h.From?) ==>
              FirstFrom(hs).None? && FirstFrom(hs + [From(uri)] + post) == Some(uri)
    ensures (forall h :: h in hs ==> !h.To?) ==>
              FirstTo(hs).None? && FirstTo(hs + [To(uri)] + post) == Some(uri)
  {
    if hs != [] {
      FirstOfKind(hs[1..], post, uri);
      assert (hs + [From(uri)] + post)[1..] == hs[1..] + [From(uri)] + post;
      assert (hs + [To(uri)] + post)[1..] == hs[1..] + [To(uri)] + post;
    }
  }

  predicate IsNumeric(s: string) { forall i :: 0 <= i < |s| ==> '0' <= s[i] <= '9' }

  /** A SIP address whose user is a plus sign and digits stands for that number, as does a tel
      URI for what it dials; any other address stands for itself. */
  lemma CanonicalIs(uri: Uri)
    ensures uri.scheme in {Sip, Sips} ==>
              forall digits: string :: IsNumeric(digits) && uri.user == Some("+" + digits) ==>
                Canonical(uri) == Some("+" + digits)
    ensures uri.scheme in {Sip, Sips} ==>
              (forall digits: string :: IsNumeric(digits) ==> uri.user != Some("+" + digits)) ==>
                Canonical(uri) == Some(uri.text)
    ensures uri.scheme.Tel? ==> Canonical(uri) == if uri.host.Domain? then Some(uri.host.name) else None
    ensures uri.scheme.OtherScheme? ==> Canonical(uri) == Some(uri.text)
  {
    forall digits: string | uri.user == Some("+" + digits) ensures uri.user.value[1..] == digits {}
    if uri.user.Some? && uri.user.value != [] && uri.user.value[0] == '+' {
      var digits := uri.user.value[1..];
      assert uri.user.value == "+" + digits;
      if AllDigits(digits) {
        forall i | 0 <= i < |digits| ensures '0' <= digits[i] <= '9' { assert digits[i] in digits; }
      }
    }
  }

  // ----- Keys and freshness -----

  /** `build_decoding_key_from_spki`, through base64url coordinates and back. */
  function DecodingKey(spki: seq<byte>): (r: Option<seq<byte>>) {
    if |spki| != 65 || spki[0] != 4 then None
    else
      var x :- UrlDecode(UrlEncode(spki[1..33]));
      var y :- UrlDecode(UrlEncode(spki[33..65]));
      Some([4] + x + y)
  }

  /** The detour through text changes nothing: the key is the SPKI, uncompressed P-256 only. */
  lemma DecodingKeyIsSpki(spki: seq<byte>)
    ensures DecodingKey(spki) == if |spki| == 65 && spki[0] == 4 then Some(spki) else None
  {
    if |spki| == 65 && spki[0] == 4 {
      Base64.DecodeOfEncode(Base64.URL_SAFE_NO_PAD, spki[1..33]);
      Base64.DecodeOfEncode(Base64.URL_SAFE_NO_PAD, spki[33..65]);
      assert spki == [4] + spki[1..33] + spki[33..65];
    }
  }

  function Skew(now: int, iat: int): int { WrapI64(now - iat) }

  /** `i64::abs` in a release build: the least value has no negation. */
  function AbsI64(x: int): int { if x == -TWO_63 then x else if x < 0 then -x else x }

  predicate IsFresh(now: int, iat: int, windowSecs: nat) {
    AbsI64(Skew(now, iat)) <= WrapI64(windowSecs)
  }

  /** The window as documented: at most `windowSecs` either way. */
  predicate WithinWindow(now: int, iat: int, windowSecs: nat) {
    now - iat <= windowSecs && iat - now <= windowSecs
  }

  /** The check is the documented window for every window below 2^63 seconds and every
      `iat` less than 2^63 seconds in the past; this is exactly where it strays. */
  lemma FreshIff(now: int, iat: int, windowSecs: nat)
    requires 0 <= now < TWO_63 && -TWO_63 <= iat < TWO_63 && windowSecs < TWO_64
    ensures (IsFresh(now, iat, windowSecs) <==> WithinWindow(now, iat, windowSecs))
       <==> (if windowSecs < TWO_63
             then !(now - iat == TWO_63 || (now - iat > TWO_63 && TWO_64 - (now - iat) <= windowSecs))
             else now - iat == TWO_63 || !WithinWindow(now, iat, windowSecs))
  {
    var d := now - iat;
    assert d >= TWO_63 ==> WrapI64(d) == d - TWO_64;
    assert windowSecs >= TWO_63 ==> WrapI64(windowSecs) == windowSecs - TWO_64;
  }

  // ----- The checks -----

  datatype Certificate = Certificate(extensions: seq<LeafProfile.Extension>, spki: seq<byte>)

  datatype World<!Key> = World(
    codec: Codec<Key>,
    parseUrl: string -> Option<string>,
    fetch: string -> Option<seq<byte>>,
    parseX509: seq<byte> -> Option<Certificate>,
    chainOk: (seq<byte>, seq<seq<byte>>, seq<seq<byte>>, int) -> bool)

  datatype Config = Config(windowSecs: nat, requireShaken: bool, anchors: seq<seq<byte>>)

  datatype InfoFault = WrongPpt(ppt: Option<string>) | MissingInfo | BadUrl(text: string)
  datatype ChainFault =
    | FetchFailed | BadBundle(pem: Pem.PemError) | BadX509 | ChainInvalid
    | ProfileRejected(profile: LeafProfile.ProfileFault) | BadKey

  datatype Outcome =
    | Valid(attest: Option<string>, origid: Option<Uuid>)
    | Stale(skew: int)
    | BadSignature
    | BadChain(chain: ChainFault)
    | ClaimMismatch(field: string)
    | BadInfo(info: InfoFault)

  /** Everything the checks look at, each part present once those before it are. */
  datatype Evidence = Evidence(
    segments: Option<Segments>, header: Option<ParsedHeader>, payload: Option<ParsedPayload>,
    urlText: Option<string>, url: Option<string>, certBytes: Option<seq<byte>>,
    bundle: Option<Result<seq<seq<byte>>, Pem.PemError>>, leaf: Option<Certificate>, key: Option<seq<byte>>)

  ghost function Gather<Key>(w: World<Key>, id: Identity): (e: Evidence)
    ensures e.header.Some? || e.payload.Some? ==> e.segments.Some?
    ensures e.leaf.Some? ==> e.bundle.Some? && e.bundle.value.Ok? && e.bundle.value.value != []
  {
    var segments := match SplitJwt(id.jwt) case Ok(s) => Some(s) case Err(_) => None;
    var header := if segments.Some? then w.codec.headerFromJson(segments.value.header) else None;
    var payload := if segments.Some? then w.codec.payloadFromJson(segments.value.payload) else None;
    var urlText := if id.info.Some? then id.info else if header.Some? then header.value.x5u else None;
    var url := if urlText.Some? then w.parseUrl(urlText.value) else None;
    var certBytes := if url.Some? then w.fetch(url.value) else None;
    var bundle := if certBytes.Some? then Some(Pem.CertBundleOf(certBytes.value)) else None;
    var leaf := if bundle.Some? && bundle.value.Ok? then w.parseX509(bundle.value.value[0]) else None;
    var key := if leaf.Some? then DecodingKey(leaf.value.spki) else None;
    Evidence(segments, header, payload, urlText, url, certBytes, bundle, leaf, key)
  }

  ghost predicate SignatureVerifies<Key>(w: World<Key>, id: Identity, e: Evidence) {
    && e.segments.Some? && e.key.Some? && '.' in id.jwt
    && UrlDecode(e.segments.value.signature).Some?
    && w.codec.es256Verify(e.key.value, Utf8.Encode(SigningInput(id.jwt)), UrlDecode(e.segments.value.signature).value)
  }

  const STAGES: nat := 16

  /** The outcome check `k` reports, or None when it passes. */
  ghost function StageFault<Key>(k: nat, w: World<Key>, c: Config, id: Identity, hs: seq<SipHeader>, now: int)
    : (r: Option<Outcome>)
    ensures r.Some? ==> !r.value.Valid? && (r.value.ClaimMismatch? <==> k == 14) && (r.value.Stale? <==> k == 15)
  {
    var e := Gather(w, id);
    match k
    case 0 => if e.segments.None? then Some(BadSignature) else None
    case 1 => if e.header.None? then Some(BadSignature) else None
    case 2 => if e.payload.None? then Some(BadSignature) else None
    case 3 => if e.header.Some? && e.header.value.alg != "ES256" then Some(BadSignature) else None
    case 4 =>
      if c.requireShaken && e.header.Some? && e.header.value.ppt != Some("shaken")
      then Some(BadInfo(WrongPpt(e.header.value.ppt))) else None
    case 5 => if e.urlText.None? then Some(BadInfo(MissingInfo)) else None
    case 6 => if e.urlText.Some? && e.url.None? then Some(BadInfo(BadUrl(e.urlText.value))) else None
    case 7 => if e.certBytes.None? then Some(BadChain(FetchFailed)) else None
    case 8 => if e.bundle.Some? && e.bundle.value.Err? then Some(BadChain(BadBundle(e.bundle.value.error))) else None
    case 9 => if e.leaf.None? then Some(BadChain(BadX509)) else None
    case 10 =>
      if && c.anchors != [] && e.leaf.Some?
         && !w.chainOk(e.bundle.value.value[0], e.bundle.value.value[1..], c.anchors, now)
      then Some(BadChain(ChainInvalid)) else None
    case 11 =>
      if c.anchors != [] && e.leaf.Some? && e.payload.Some?
      then
        match LeafProfile.ProfileFaultOf(e.leaf.value.extensions, e.payload.value.origTn, e.payload.value.attest)
        case Some(f) => Some(BadChain(ProfileRejected(f)))
        case None => None
      else None
    case 12 => if e.key.None? then Some(BadChain(BadKey)) else None
    case 13 => if !SignatureVerifies(w, id, e) then Some(BadSignature) else None
    case 14 =>
      if e.payload.Some? && ClaimMismatchOf(e.payload.value, hs).Some?
      then Some(ClaimMismatch(ClaimMismatchOf(e.payload.value, hs).value)) else None
    case 15 =>
      if e.payload.Some? && !IsFresh(now, e.payload.value.iat, c.windowSecs)
      then Some(Stale(Skew(now, e.payload.value.iat))) else None
    case _ => None
  }

  ghost function Accepted<Key>(w: World<Key>, id: Identity): Outcome {
    var p := Gather(w, id).payload;
    if p.None? then Valid(None, None)
    else Valid(p.value.attest, if p.value.origid.Some? then w.codec.uuidFromText(p.value.origid.value) else None)
  }

  /** From check `k` on: the first fault, or acceptance. */
  ghost function VerdictFrom<Key>(k: nat, w: World<Key>, c: Config, id: Identity, hs: seq<SipHeader>, now: int)
    : (o: Outcome)
    requires k <= STAGES
    decreases STAGES - k
  {
    if k == STAGES then Accepted(w, id)
    else match StageFault(k, w, c, id, hs, now)
         case Some(o) => o
         case None => VerdictFrom(k + 1, w, c, id, hs, now)
  }

  ghost function Verdict<Key>(w: World<Key>, c: Config, id: Identity, hs: seq<SipHeader>, now: int): Outcome {
    VerdictFrom(0, w, c, id, hs, now)
  }

  /** Check `k` fails and none before it does. */
  ghost predicate FirstFault<Key>(k: nat, w: World<Key>, c: Config, id: Identity, hs: seq<SipHeader>, now: int,
                                  o: Outcome) {
    k < STAGES && StageFault(k, w, c, id, hs, now) == Some(o)
    && forall j: nat :: j < k ==> StageFault(j, w, c, id, hs, now).None?
  }

  ghost predicate AllPass<Key>(w: World<Key>, c: Config, id: Identity, hs: seq<SipHeader>, now: int) {
    forall j: nat :: j < STAGES ==> StageFault(j, w, c, id, hs, now).None?
  }

  /** `verify`. */
  method Verify<Key>(w: World<Key>, c: Config, id: Identity, hs: seq<SipHeader>, now: int) returns (o: Outcome)
    ensures o == Verdict(w, c, id, hs, now)
  {
    hide IsFresh, ClaimMismatchOf, DecodingKey, SplitJwt, Utf8.Encode, LeafProfile.ProfileFaultOf, Pem.CertBundleOf;
    ghost var e := Gather(w, id);
    var split := SplitJwt(id.jwt);
    if split.Err? { return BadSignature; }
    assert Verdict(w, c, id, hs, now) == VerdictFrom(1, w, c, id, hs, now);
    var header := w.codec.headerFromJson(split.value.header);
    if header.None? { return BadSignature; }
    assert Verdict(w, c, id, hs, now) == VerdictFrom(2, w, c, id, hs, now);
    var payload := w.codec.payloadFromJson(split.value.payload);
    if payload.None? { return BadSignature; }
    assert Verdict(w, c, id, hs, now) == VerdictFrom(3, w, c, id, hs, now);
    if header.value.alg != "ES256" { return BadSignature; }
    assert Verdict(w, c, id, hs, now) == VerdictFrom(4, w, c, id, hs, now);
    if c.requireShaken && header.value.ppt != Some("shaken") { return BadInfo(WrongPpt(header.value.ppt)); }
    assert Verdict(w, c, id, hs, now) == VerdictFrom(5, w, c, id, hs, now);

    var urlText := if id.info.Some? then id.info else header.value.x5u;
    if urlText.None? { return BadInfo(MissingInfo); }
    assert Verdict(w, c, id, hs, now) == VerdictFrom(6, w, c, id, hs, now);
    var url := w.parseUrl(urlText.value);
    if url.None? { return BadInfo(BadUrl(urlText.value)); }
    assert Verdict(w, c, id, hs, now) == VerdictFrom(7, w, c, id, hs, now);
    var certBytes := w.fetch(url.value);
    if certBytes.None? { return BadChain(FetchFailed); }
    assert Verdict(w, c, id, hs, now) == VerdictFrom(8, w, c, id, hs, now);
    var bundle := Pem.DecodeCertBundle(certBytes.value);
    if bundle.Err? { return BadChain(BadBundle(bundle.error)); }
    assert Verdict(w, c, id, hs, now) == VerdictFrom(9, w, c, id, hs, now);
    var leaf := w.parseX509(bundle.value[0]);
    if leaf.None? { return BadChain(BadX509); }
    assert Verdict(w, c, id, hs, now) == VerdictFrom(10, w, c, id, hs, now);

    if c.anchors != [] {
      if !w.chainOk(bundle.value[0], bundle.value[1..], c.anchors, now) { return BadChain(ChainInvalid); }
      assert Verdict(w, c, id, hs, now) == VerdictFrom(11, w, c, id, hs, now);
      var fault := LeafProfile.EnforceShakenProfile(leaf.value.extensions, payload.value.origTn, payload.value.attest);
      if fault.Some? { return BadChain(ProfileRejected(fault.value)); }
    } else {
      assert Verdict(w, c, id, hs, now) == VerdictFrom(11, w, c, id, hs, now);
    }
    assert Verdict(w, c, id, hs, now) == VerdictFrom(12, w, c, id, hs, now);

    var key := DecodingKey(leaf.value.spki);
    if key.None? { return BadChain(BadKey); }
    assert Verdict(w, c, id, hs, now) == VerdictFrom(13, w, c, id, hs, now);
    SigningInputIsFirstTwo(id.jwt);
    var signature := UrlDecode(split.value.signature);
    if signature.None? || !w.codec.es256Verify(key.value, Utf8.Encode(SigningInput(id.jwt)), signature.value) {
      return BadSignature;
    }
    assert Verdict(w, c, id, hs, now) == VerdictFrom(14, w, c, id, hs, now);
    var mismatch := ClaimMismatchOf(payload.value, hs);
    if mismatch.Some? { return ClaimMismatch(mismatch.value); }
    assert Verdict(w, c, id, hs, now) == VerdictFrom(15, w, c, id, hs, now);
    if !IsFresh(now, payload.value.iat, c.windowSecs) { return Stale(Skew(now, payload.value.iat)); }
    assert Verdict(w, c, id, hs, now) == VerdictFrom(16, w, c, id, hs, now);
    var origid := if payload.value.origid.Some? then w.codec.uuidFromText(payload.value.origid.value) else None;
    o := Valid(payload.value.attest, origid);
  }

  // ----- Properties of the verdict -----

  lemma {:induction false} VerdictFromFirst<Key>(k: nat, w: World<Key>, c: Config, id: Identity, hs: seq<SipHeader>,
                                                 now: int)
    returns (n: nat)
    requires k <= STAGES && forall j: nat :: j < k ==> StageFault(j, w, c, id, hs, now).None?
    ensures n <= STAGES && forall j: nat :: j < n ==> StageFault(j, w, c, id, hs, now).None?
    ensures var o := VerdictFrom(k, w, c, id, hs, now);
            if n == STAGES then o == Accepted(w, id) else StageFault(n, w, c, id, hs, now) == Some(o)
    decreases STAGES - k
  {
    hide StageFault, Accepted;
    n := k;
    if k < STAGES && StageFault(k, w, c, id, hs, now).None? {
      n := VerdictFromFirst(k + 1, w, c, id, hs, now);
    }
  }

  /** The outcome is that of the first failing check; a token is accepted exactly when all pass. */
  lemma OutcomeIsFirstFault<Key>(w: World<Key>, c: Config, id: Identity, hs: seq<SipHeader>, now: int)
    ensures var o := Verdict(w, c, id, hs, now);
            if o.Valid? then AllPass(w, c, id, hs, now) && o == Accepted(w, id)
            else exists k: nat :: FirstFault(k, w, c, id, hs, now, o)
  {
    hide StageFault, VerdictFrom;
    var n := VerdictFromFirst(0, w, c, id, hs, now);
    if n < STAGES { assert FirstFault(n, w, c, id, hs, now, Verdict(w, c, id, hs, now)); }
  }

  /** ClaimMismatch, Stale and Valid are reported only for tokens whose signature verified. */
  lemma VerifiedBeforeClaims<Key>(w: World<Key>, c: Config, id: Identity, hs: seq<SipHeader>, now: int)
    ensures var o := Verdict(w, c, id, hs, now);
            o.ClaimMismatch? || o.Stale? || o.Valid? ==> SignatureVerifies(w, id, Gather(w, id))
  {
    hide VerdictFrom, Gather, SignatureVerifies;
    var n := VerdictFromFirst(0, w, c, id, hs, now);
    assert n > 13 ==> StageFault(13, w, c, id, hs, now).None?;
  }

  lemma PassingMeans<Key>(w: World<Key>, c: Config, id: Identity, hs: seq<SipHeader>, now: int)
    requires AllPass(w, c, id, hs, now)
    ensures var e := Gather(w, id);
            && e.header.Some? && e.header.value.alg == "ES256"
            && (c.requireShaken ==> e.header.value.ppt == Some("shaken"))
            && e.payload.Some? && e.leaf.Some? && SignatureVerifies(w, id, e)
            && ClaimMismatchOf(e.payload.value, hs).None? && IsFresh(now, e.payload.value.iat, c.windowSecs)
            && (c.anchors != [] ==>
                  && w.chainOk(e.bundle.value.value[0], e.bundle.value.value[1..], c.anchors, now)
                  && LeafProfile.ProfileFaultOf(e.leaf.value.extensions, e.payload.value.origTn,
                                                e.payload.value.attest).None?)
  {
    hide Gather, SignatureVerifies, ClaimMismatchOf, IsFresh, LeafProfile.ProfileFaultOf;
    assert StageFault(1, w, c, id, hs, now).None? && StageFault(2, w, c, id, hs, now).None?;
    assert StageFault(3, w, c, id, hs, now).None? && StageFault(4, w, c, id, hs, now).None?;
    assert StageFault(9, w, c, id, hs, now).None?;
    assert StageFault(10, w, c, id, hs, now).None? && StageFault(11, w, c, id, hs, now).None?;
    assert StageFault(13, w, c, id, hs, now).None? && StageFault(14, w, c, id, hs, now).None?;
    assert StageFault(15, w, c, id, hs, now).None?;
  }

  /** What acceptance means: an ES256 token, of type shaken where that is demanded, whose first
      two segments the leaf's key signed verbatim, whose claims are From and To, which is fresh,
      and whose leaf a configured trust store accepts. */
  lemma ValidMeans<Key>(w: World<Key>, c: Config, id: Identity, hs: seq<SipHeader>, now: int)
    ensures Verdict(w, c, id, hs, now).Valid? ==>
            var e := Gather(w, id);
            && e.segments.Some? && e.header.Some? && e.payload.Some? && e.leaf.Some?
            && e.header.value.alg == "ES256" && (c.requireShaken ==> e.header.value.ppt == Some("shaken"))
            && UrlDecode(e.segments.value.signature).Some?
            && w.codec.es256Verify(e.leaf.value.spki,
                 Utf8.Encode(UrlEncode(e.segments.value.header) + "." + UrlEncode(e.segments.value.payload)),
                 UrlDecode(e.segments.value.signature).value)
            && (FirstFrom(hs).Some? && FirstTo(hs).Some? ==>
                  && ClaimsCaller(e.payload.value, Canonical(FirstFrom(hs).value))
                  && ClaimsCallee(e.payload.value, Canonical(FirstTo(hs).value)))
            && IsFresh(now, e.payload.value.iat, c.windowSecs)
            && (c.anchors != [] ==>
                  && w.chainOk(e.bundle.value.value[0], e.bundle.value.value[1..], c.anchors, now)
                  && LeafProfile.LastListAuthorises(e.leaf.value.extensions, e.payload.value.origTn)
                  && LeafProfile.AllParse(e.leaf.value.extensions)
                  && LeafProfile.LastConstraintsPermit(e.leaf.value.extensions, e.payload.value.attest))
  {
    hide Verdict, StageFault, IsFresh, Canonical, ClaimMismatchOf, ClaimsCaller, ClaimsCallee;
    hide FirstFrom, FirstTo, Utf8.Encode, LeafProfile.ProfileFaultOf;
    hide LeafProfile.LastListAuthorises, LeafProfile.LastConstraintsPermit, LeafProfile.AllParse;
    OutcomeIsFirstFault(w, c, id, hs, now);
    if Verdict(w, c, id, hs, now).Valid? {
      PassingMeans(w, c, id, hs, now);
      var e := Gather(w, id);
      SigningInputIsFirstTwo(id.jwt);
      DecodingKeyIsSpki(e.leaf.value.spki);
      MismatchIff(e.payload.value, hs);
      LeafProfile.ProfileIff(e.leaf.value.extensions, e.payload.value.origTn, e.payload.value.attest);
    }
  }

  // ----- The verdict in terms of the token -----

  /** The token splits into `seg`, whose JSON parts parse to `h` and `p`. */
  ghost predicate Reads<Key>(w: World<Key>, id: Identity, seg: Segments, h: ParsedHeader, p: ParsedPayload) {
    && SplitJwt(id.jwt) == Ok(seg)
    && w.codec.headerFromJson(seg.header) == Some(h)
    && w.codec.payloadFromJson(seg.payload) == Some(p)
  }

  predicate Headed(c: Config, h: ParsedHeader) {
    h.alg == "ES256" && (c.requireShaken ==> h.ppt == Some("shaken"))
  }

  /** The certificate comes from `info`, and from `x5u` only where there is no `info`. */
  function CertUrl(id: Identity, h: ParsedHeader): Option<string> {
    match id.info case Some(url) => Some(url) case None => h.x5u
  }

  ghost predicate Fetches<Key>(w: World<Key>, id: Identity, h: ParsedHeader, bytes: seq<byte>) {
    && CertUrl(id, h).Some? && w.parseUrl(CertUrl(id, h).value).Some?
    && w.fetch(w.parseUrl(CertUrl(id, h).value).value) == Some(bytes)
  }

  /** `bytes` hold a P-256 certificate, trusted for these claims wherever there are anchors. */
  ghost predicate Vouches<Key>(w: World<Key>, c: Config, bytes: seq<byte>, cert: Certificate, p: ParsedPayload,
                               now: int) {
    && Pem.CertBundleOf(bytes).Ok?
    && var ders := Pem.CertBundleOf(bytes).value;
    && w.parseX509(ders[0]) == Some(cert) && |cert.spki| == 65 && cert.spki[0] == 4
    && (c.anchors != [] ==>
          && w.chainOk(ders[0], ders[1..], c.anchors, now)
          && LeafProfile.ProfileFaultOf(cert.extensions, p.origTn, p.attest).None?)
  }

  /** The fault of a check that the earlier ones let through is the outcome. */
  lemma Decides<Key>(k: nat, w: World<Key>, c: Config, id: Identity, hs: seq<SipHeader>, now: int)
    requires k < STAGES && forall j: nat :: j < k ==> StageFault(j, w, c, id, hs, now).None?
    ensures StageFault(k, w, c, id, hs, now).Some? ==>
              StageFault(k, w, c, id, hs, now) == Some(Verdict(w, c, id, hs, now))
  {
    hide StageFault, VerdictFrom;
    var n := VerdictFromFirst(0, w, c, id, hs, now);
  }

  /** The checks that a readable, well-headed token with a certificate passes. */
  lemma Passes<Key>(w: World<Key>, c: Config, id: Identity, hs: seq<SipHeader>, now: int, seg: Segments,
                    h: ParsedHeader, p: ParsedPayload)
    requires Reads(w, id, seg, h, p)
    ensures forall j: nat :: j < 3 ==> StageFault(j, w, c, id, hs, now).None?
    ensures Headed(c, h) ==> forall j: nat :: j < 5 ==> StageFault(j, w, c, id, hs, now).None?
    ensures Headed(c, h) && CertUrl(id, h).Some? ==> StageFault(5, w, c, id, hs, now).None?
    ensures Gather(w, id).segments == Some(seg) && Gather(w, id).header == Some(h) && Gather(w, id).payload == Some(p)
    ensures Gather(w, id).urlText == CertUrl(id, h)
  {
    hide SplitJwt, LeafProfile.ProfileFaultOf, Pem.CertBundleOf, DecodingKey, ClaimMismatchOf, IsFresh;
  }

  /** Tokens that do not read as three segments around two JSON objects. */
  lemma UnreadableTokens<Key>(w: World<Key>, c: Config, id: Identity, hs: seq<SipHeader>, now: int)
    ensures match SplitJwt(id.jwt)
            case Err(_) => Verdict(w, c, id, hs, now) == BadSignature
            case Ok(seg) =>
              w.codec.headerFromJson(seg.header).None? || w.codec.payloadFromJson(seg.payload).None? ==>
                Verdict(w, c, id, hs, now) == BadSignature
  {
    hide SplitJwt, VerdictFrom, LeafProfile.ProfileFaultOf, Pem.CertBundleOf, DecodingKey, ClaimMismatchOf, IsFresh;
    Decides(0, w, c, id, hs, now);
    if StageFault(0, w, c, id, hs, now).None? {
      Decides(1, w, c, id, hs, now);
      if StageFault(1, w, c, id, hs, now).None? { Decides(2, w, c, id, hs, now); }
    }
  }

  /** Tokens under the wrong algorithm or of the wrong type. */
  lemma MisheadedTokens<Key>(w: World<Key>, c: Config, id: Identity, hs: seq<SipHeader>, now: int, seg: Segments,
                             h: ParsedHeader, p: ParsedPayload)
    requires Reads(w, id, seg, h, p)
    ensures h.alg != "ES256" ==> Verdict(w, c, id, hs, now) == BadSignature
    ensures h.alg == "ES256" && c.requireShaken && h.ppt != Some("shaken") ==>
              Verdict(w, c, id, hs, now) == BadInfo(WrongPpt(h.ppt))
  {
    hide Gather, VerdictFrom, SignatureVerifies, LeafProfile.ProfileFaultOf, ClaimMismatchOf, IsFresh;
    Passes(w, c, id, hs, now, seg, h, p);
    Decides(3, w, c, id, hs, now);
    if h.alg == "ES256" { Decides(4, w, c, id, hs, now); }
  }

  /** Tokens that do not say where their certificate is, and certificates that are not there. */
  lemma UnlocatedCertificates<Key>(w: World<Key>, c: Config, id: Identity, hs: seq<SipHeader>, now: int, seg: Segments,
                                   h: ParsedHeader, p: ParsedPayload)
    requires Reads(w, id, seg, h, p) && Headed(c, h)
    ensures match CertUrl(id, h)
            case None => Verdict(w, c, id, hs, now) == BadInfo(MissingInfo)
            case Some(text) =>
              match w.parseUrl(text)
              case None => Verdict(w, c, id, hs, now) == BadInfo(BadUrl(text))
              case Some(url) => w.fetch(url).None? ==> Verdict(w, c, id, hs, now) == BadChain(FetchFailed)
  {
    hide SplitJwt, VerdictFrom, SignatureVerifies, LeafProfile.ProfileFaultOf, ClaimMismatchOf, IsFresh;
    hide Pem.CertBundleOf, DecodingKey;
    Passes(w, c, id, hs, now, seg, h, p);
    Decides(5, w, c, id, hs, now);
    if CertUrl(id, h).Some? {
      Decides(6, w, c, id, hs, now);
      if StageFault(6, w, c, id, hs, now).None? { Decides(7, w, c, id, hs, now); }
    }
  }

  /** The checks that a fetched certificate bundle passes. */
  lemma FetchPasses<Key>(w: World<Key>, c: Config, id: Identity, hs: seq<SipHeader>, now: int, seg: Segments,
                         h: ParsedHeader, p: ParsedPayload, bytes: seq<byte>)
    requires Reads(w, id, seg, h, p) && Headed(c, h) && Fetches(w, id, h, bytes)
    ensures forall j: nat :: j < 8 ==> StageFault(j, w, c, id, hs, now).None?
    ensures Gather(w, id).bundle == Some(Pem.CertBundleOf(bytes))
    ensures Gather(w, id).leaf
         == match Pem.CertBundleOf(bytes) case Ok(ders) => w.parseX509(ders[0]) case Err(_) => None
  {
    hide SplitJwt, SignatureVerifies, LeafProfile.ProfileFaultOf, ClaimMismatchOf, IsFresh;
    hide Pem.CertBundleOf, DecodingKey;
  }

  /** Bundles that do not decode, leaves that do not parse, chains no anchor vouches for, leaves
      outside the profile and keys that are not uncompressed P-256 points. */
  lemma UnfitCertificates<Key>(w: World<Key>, c: Config, id: Identity, hs: seq<SipHeader>, now: int, seg: Segments,
                               h: ParsedHeader, p: ParsedPayload, bytes: seq<byte>)
    requires Reads(w, id, seg, h, p) && Headed(c, h) && Fetches(w, id, h, bytes)
    ensures var o := Verdict(w, c, id, hs, now);
            match Pem.CertBundleOf(bytes)
            case Err(e) => o == BadChain(BadBundle(e))
            case Ok(ders) =>
              match w.parseX509(ders[0])
              case None => o == BadChain(BadX509)
              case Some(cert) =>
                var fault := LeafProfile.ProfileFaultOf(cert.extensions, p.origTn, p.attest);
                if c.anchors != [] && !w.chainOk(ders[0], ders[1..], c.anchors, now) then o == BadChain(ChainInvalid)
                else if c.anchors != [] && fault.Some? then o == BadChain(ProfileRejected(fault.value))
                else !(|cert.spki| == 65 && cert.spki[0] == 4) ==> o == BadChain(BadKey)
  {
    hide SplitJwt, VerdictFrom, SignatureVerifies, LeafProfile.ProfileFaultOf, ClaimMismatchOf, IsFresh;
    hide Pem.CertBundleOf, DecodingKey;
    Passes(w, c, id, hs, now, seg, h, p);
    FetchPasses(w, c, id, hs, now, seg, h, p, bytes);
    Decides(8, w, c, id, hs, now);
    if Pem.CertBundleOf(bytes).Ok? {
      Decides(9, w, c, id, hs, now);
      if Gather(w, id).leaf.Some? {
        DecodingKeyIsSpki(Gather(w, id).leaf.value.spki);
        Decides(10, w, c, id, hs, now);
        if StageFault(10, w, c, id, hs, now).None? {
          Decides(11, w, c, id, hs, now);
          if StageFault(11, w, c, id, hs, now).None? { Decides(12, w, c, id, hs, now); }
        }
      }
    }
  }

  /** The leaf's key signed the first two segments, verbatim. */
  ghost predicate SignedBy<Key>(w: World<Key>, cert: Certificate, seg: Segments) {
    && UrlDecode(seg.signature).Some?
    && w.codec.es256Verify(cert.spki, Utf8.Encode(UrlEncode(seg.header) + "." + UrlEncode(seg.payload)),
                           UrlDecode(seg.signature).value)
  }

  /** The checks that a fit certificate passes, and what the signature check then asks. */
  lemma CertificatePasses<Key>(w: World<Key>, c: Config, id: Identity, hs: seq<SipHeader>, now: int, seg: Segments,
                               h: ParsedHeader, p: ParsedPayload, bytes: seq<byte>, cert: Certificate)
    requires Reads(w, id, seg, h, p) && Headed(c, h) && Fetches(w, id, h, bytes) && Vouches(w, c, bytes, cert, p, now)
    ensures forall j: nat :: j < 13 ==> StageFault(j, w, c, id, hs, now).None?
    ensures SignatureVerifies(w, id, Gather(w, id)) <==> SignedBy(w, cert, seg)
  {
    hide SplitJwt, LeafProfile.ProfileFaultOf, ClaimMismatchOf, IsFresh, Pem.CertBundleOf, DecodingKey;
    hide Utf8.Encode, SigningInput;
    FetchPasses(w, c, id, hs, now, seg, h, p, bytes);
    DecodingKeyIsSpki(cert.spki);
    SigningInputIsFirstTwo(id.jwt);
  }

  /** With a fit certificate: an unsigned token, then claims that are not the call's, then a stale
      stamp are refused, in this order; anything else is accepted with its own claims. */
  lemma CallVerdict<Key>(w: World<Key>, c: Config, id: Identity, hs: seq<SipHeader>, now: int, seg: Segments,
                         h: ParsedHeader, p: ParsedPayload, bytes: seq<byte>, cert: Certificate)
    requires Reads(w, id, seg, h, p) && Headed(c, h) && Fetches(w, id, h, bytes) && Vouches(w, c, bytes, cert, p, now)
    ensures var o, caller, callee := Verdict(w, c, id, hs, now), FirstFrom(hs), FirstTo(hs);
            if !SignedBy(w, cert, seg) then o == BadSignature
            else if caller.Some? && callee.Some? && !ClaimsCaller(p, Canonical(caller.value))
            then o == ClaimMismatch("orig")
            else if caller.Some? && callee.Some? && !ClaimsCallee(p, Canonical(callee.value))
            then o == ClaimMismatch("dest")
            else if !IsFresh(now, p.iat, c.windowSecs) then o == Stale(Skew(now, p.iat))
            else o == Valid(p.attest, if p.origid.Some? then w.codec.uuidFromText(p.origid.value) else None)
  {
    hide Gather, VerdictFrom, SignatureVerifies, SignedBy, ClaimMismatchOf, IsFresh, LeafProfile.ProfileFaultOf;
    hide Reads, Fetches, Vouches, Canonical, FirstFrom, FirstTo, ClaimsCaller, ClaimsCallee;
    Passes(w, c, id, hs, now, seg, h, p);
    CertificatePasses(w, c, id, hs, now, seg, h, p, bytes, cert);
    MismatchIff(p, hs);
    Decides(13, w, c, id, hs, now);
    if StageFault(13, w, c, id, hs, now).None? {
      Decides(14, w, c, id, hs, now);
      if StageFault(14, w, c, id, hs, now).None? {
        Decides(15, w, c, id, hs, now);
        var n := VerdictFromFirst(0, w, c, id, hs, now);
      }
    }
  }

  // ----- The clock and the window -----

  /** The clock does not reach the other checks, once path building is held fixed. */
  lemma ClockReachesFreshnessOnly<Key>(k: nat, w: World<Key>, c: Config, id: Identity, hs: seq<SipHeader>, now: int,
                                       now': int)
    requires forall leaf, chain :: w.chainOk(leaf, chain, c.anchors, now) == w.chainOk(leaf, chain, c.anchors, now')
    requires k < 15
    ensures StageFault(k, w, c, id, hs, now) == StageFault(k, w, c, id, hs, now')
  {
  }

  /** Changing only the clock moves the outcome only between Valid and Stale. */
  lemma ClockMovesOnlyFreshness<Key>(w: World<Key>, c: Config, id: Identity, hs: seq<SipHeader>, now: int, now': int)
    requires forall leaf, chain :: w.chainOk(leaf, chain, c.anchors, now) == w.chainOk(leaf, chain, c.anchors, now')
    ensures var o, o' := Verdict(w, c, id, hs, now), Verdict(w, c, id, hs, now');
            o == o' || ((o.Valid? || o.Stale?) && (o'.Valid? || o'.Stale?) && o != o')
    ensures var o, o' := Verdict(w, c, id, hs, now), Verdict(w, c, id, hs, now');
            o.Valid? && o'.Valid? ==> o == o'
  {
    hide StageFault, VerdictFrom, Gather;
    var n := VerdictFromFirst(0, w, c, id, hs, now);
    var n' := VerdictFromFirst(0, w, c, id, hs, now');
    forall k: nat | k < 15 ensures StageFault(k, w, c, id, hs, now) == StageFault(k, w, c, id, hs, now') {
      ClockReachesFreshnessOnly(k, w, c, id, hs, now, now');
    }
    if n < 15 { assert n' == n; } else { assert n' >= 15; }
  }

  /** Only the freshness check reads the window. */
  lemma WindowReachesFreshnessOnly<Key>(k: nat, w: World<Key>, c: Config, window: nat, id: Identity,
                                        hs: seq<SipHeader>, now: int)
    requires k != 15
    ensures StageFault(k, w, c.(windowSecs := window), id, hs, now) == StageFault(k, w, c, id, hs, now)
  {
    hide Gather, SignatureVerifies, ClaimMismatchOf, LeafProfile.ProfileFaultOf;
  }

  /** A token fresh under one window is fresh under a wider one exactly unless the cast to i64
      makes the wider one negative; only the skew without an absolute value passes even then. */
  lemma WiderFreshIff(now: int, iat: int, window: nat, wider: nat)
    requires window <= wider < TWO_64 && 0 <= now < TWO_63 && -TWO_63 <= iat < TWO_63
    requires IsFresh(now, iat, window)
    ensures IsFresh(now, iat, wider) <==> wider < TWO_63 || now - iat == TWO_63
  {
    var d := now - iat;
    assert d >= TWO_63 ==> WrapI64(d) == d - TWO_64;
    assert wider >= TWO_63 ==> WrapI64(wider) == wider - TWO_64;
    assert window >= TWO_63 ==> WrapI64(window) == window - TWO_64;
  }

  /** The widest window a configuration can hold refuses a token signed this very second. */
  lemma WidestWindowIsStale()
    ensures IsFresh(1000, 1000, 60) && !IsFresh(1000, 1000, 0xFFFF_FFFF_FFFF_FFFF)
  {
    assert WrapI64(0xFFFF_FFFF_FFFF_FFFF) == -1;
  }

  /** Widening the window keeps a Valid exactly as long as the window stays below 2^63 seconds,
      or the skew is the one whose absolute value overflows. */
  lemma WiderWindowIff<Key>(w: World<Key>, c: Config, wider: nat, id: Identity, hs: seq<SipHeader>, now: int)
    requires c.windowSecs <= wider < TWO_64 && 0 <= now < TWO_63
    requires Gather(w, id).payload.Some? ==> -TWO_63 <= Gather(w, id).payload.value.iat < TWO_63
    ensures Verdict(w, c, id, hs, now).Valid? ==>
              && Gather(w, id).payload.Some?
              && (Verdict(w, c.(windowSecs := wider), id, hs, now) == Verdict(w, c, id, hs, now)
                  <==> wider < TWO_63 || now - Gather(w, id).payload.value.iat == TWO_63)
  {
    hide StageFault, VerdictFrom, Gather, IsFresh;
    var c' := c.(windowSecs := wider);
    OutcomeIsFirstFault(w, c, id, hs, now);
    if Verdict(w, c, id, hs, now).Valid? {
      PassingMeans(w, c, id, hs, now);
      var iat := Gather(w, id).payload.value.iat;
      WiderFreshIff(now, iat, c.windowSecs, wider);
      forall k: nat | k < 15 ensures StageFault(k, w, c', id, hs, now).None? {
        WindowReachesFreshnessOnly(k, w, c, wider, id, hs, now);
      }
      FreshnessStage(w, c', id, hs, now);
      var n := VerdictFromFirst(0, w, c', id, hs, now);
    }
  }

  lemma FreshnessStage<Key>(w: World<Key>, c: Config, id: Identity, hs: seq<SipHeader>, now: int)
    requires Gather(w, id).payload.Some?
    ensures var iat := Gather(w, id).payload.value.iat;
            StageFault(15, w, c, id, hs, now)
            == if IsFresh(now, iat, c.windowSecs) then None else Some(Stale(Skew(now, iat)))
  {
    hide Gather, IsFresh;
  }
}
