/** From signer to verifier: a token the signer issues is a token the verifier accepts. */
module EndToEnd {
  import opened Prelude
  import opened Passport
  import opened Verifier
  import Base64
  import Der
  import LeafProfile
  import Pem
  import TnAuthLists
  import Utf8

  /** The signer's certificate URL resolves to a bundle whose leaf carries its public key. */
  ghost predicate Published<Key>(w: World<Key>, sc: SignerConfig<Key>, leaf: seq<byte>, chain: seq<seq<byte>>,
                                 cert: Certificate) {
    && w.parseUrl(sc.certUrl).Some?
    && w.fetch(w.parseUrl(sc.certUrl).value).Some?
    && Pem.CertBundleOf(w.fetch(w.parseUrl(sc.certUrl).value).value) == Ok([leaf] + chain)
    && w.parseX509(leaf) == Some(cert)
    && cert.spki == w.codec.publicKey(sc.key) && |cert.spki| == 65 && cert.spki[0] == 4
  }

  /** The identity the signer claims for the caller, and for the callee. */
  function ClaimedOrig(s: ClaimSummary): Option<string> { if s.origTn.Some? then s.origTn else s.origUri }
  function ClaimedDest(s: ClaimSummary): Option<string> { if s.destTn.Some? then s.destTn else s.destUri }

  /** The request's From and To canonicalise to what the signer claims. */
  predicate Addressed(s: ClaimSummary, hs: seq<SipHeader>) {
    && FirstFrom(hs).Some? && Canonical(FirstFrom(hs).value) == ClaimedOrig(s)
    && FirstTo(hs).Some? && Canonical(FirstTo(hs).value) == ClaimedDest(s)
  }

  /** The attestation letter a summary asks for, the configured one when it asks for none. */
  function RequestedLetter<Key>(sc: SignerConfig<Key>, s: ClaimSummary): string {
    match s.attest
    case None => sc.defaultAttest.Letter()
    case Some(a) => if a == "a" then "A" else if a == "b" then "B" else if a == "c" then "C" else a
  }

  function Origid(s: ClaimSummary, drawn: Uuid): Uuid { if s.origid.Some? then s.origid.value else drawn }

  /** The deployment's trust store, when it has one, accepts the certificate for this call. */
  ghost predicate Trusted<Key>(w: World<Key>, c: Config, leaf: seq<byte>, chain: seq<seq<byte>>, cert: Certificate,
                               s: ClaimSummary, letter: string, now: int) {
    c.anchors != [] ==>
      && w.chainOk(leaf, chain, c.anchors, now)
      && LeafProfile.ProfileFaultOf(cert.extensions, s.origTn, Some(letter)).None?
  }

  /** The token says what the summary says. */
  ghost predicate Carries<Key>(w: World<Key>, sc: SignerConfig<Key>, s: ClaimSummary, signedAt: i64, drawn: Uuid,
                               id: Identity) {
    var e := Gather(w, id);
    && e.header == Some(ParsedHeader("ES256", Some("shaken"), Some(sc.certUrl)))
    && e.payload.Some?
    && Stamps(e.payload.value.iat, signedAt + sc.iatSkew)
    && e.payload.value.origTn == s.origTn
    && (s.origTn.None? ==> e.payload.value.origUri == s.origUri)
    && e.payload.value.destTn == (if s.destTn.Some? then Some([s.destTn.value]) else None)
    && e.payload.value.destUri == (if s.destUri.Some? then Some([s.destUri.value]) else None)
    && e.payload.value.attest == Some(RequestedLetter(sc, s))
    && e.payload.value.origid == Some(w.codec.uuidToText(Origid(s, drawn)))
  }

  /** What the signer put into the token comes out of it. */
  lemma TokenCarriesClaims<Key(!new)>(w: World<Key>, sc: SignerConfig<Key>, s: ClaimSummary, signedAt: i64, drawn: Uuid)
    requires Faithful(w.codec) && sc.ppt.Shaken? && Sign(w.codec, sc, s, signedAt, drawn).Ok?
    ensures var v := Sign(w.codec, sc, s, signedAt, drawn).value;
            v.info == sc.certUrl && Carries(w, sc, s, signedAt, drawn, Identity(v.jwt, Some(v.info)))
    ensures ClaimedOrig(s).Some? && ClaimedDest(s).Some?
  {
    hide Utf8.Encode, UrlEncode, UrlDecode, Pem.CertBundleOf, DecodingKey, SplitJwt;
    var claims := BuildClaims(sc, s, IssuedAt(sc, signedAt), drawn).value;
    var header := w.codec.headerToJson(HeaderFor(sc)).value;
    var payload := w.codec.claimsToJson(claims).value;
    var input := UrlEncode(header) + "." + UrlEncode(payload);
    SplitOfToken(header, payload, w.codec.es256Sign(sc.key, Utf8.Encode(input)).value);
    StampIsClock(sc, signedAt);
  }

  /** The signature the signer made is the one the verifier checks, over the same bytes. */
  lemma SignatureSurvives<Key(!new)>(w: World<Key>, sc: SignerConfig<Key>, s: ClaimSummary, signedAt: i64,
                                     drawn: Uuid, leaf: seq<byte>, chain: seq<seq<byte>>, cert: Certificate)
    requires Faithful(w.codec) && Sign(w.codec, sc, s, signedAt, drawn).Ok? && Published(w, sc, leaf, chain, cert)
    ensures var v := Sign(w.codec, sc, s, signedAt, drawn).value;
            SignatureVerifies(w, Identity(v.jwt, Some(v.info)), Gather(w, Identity(v.jwt, Some(v.info))))
  {
    var claims := BuildClaims(sc, s, IssuedAt(sc, signedAt), drawn).value;
    var header := w.codec.headerToJson(HeaderFor(sc)).value;
    var payload := w.codec.claimsToJson(claims).value;
    var input := UrlEncode(header) + "." + UrlEncode(payload);
    var signature := w.codec.es256Sign(sc.key, Utf8.Encode(input)).value;
    SplitOfToken(header, payload, signature);
    UrlEncodeHasNoDot(signature);
    LastDot(input, UrlEncode(signature));
    Base64.DecodeOfEncode(Base64.URL_SAFE_NO_PAD, signature);
    DecodingKeyIsSpki(cert.spki);
    assert ([leaf] + chain)[0] == leaf;
  }

  /** The evidence that makes every check but freshness pass. */
  ghost predicate GoodEvidence<Key>(w: World<Key>, c: Config, id: Identity, hs: seq<SipHeader>, now: int,
                                    leaf: seq<byte>, chain: seq<seq<byte>>, cert: Certificate) {
    var e := Gather(w, id);
    && e.header.Some? && e.header.value.alg == "ES256" && e.header.value.ppt == Some("shaken") && e.payload.Some?
    && e.bundle == Some(Ok([leaf] + chain)) && e.leaf == Some(cert)
    && (c.anchors != [] ==>
          && w.chainOk(leaf, chain, c.anchors, now)
          && LeafProfile.ProfileFaultOf(cert.extensions, e.payload.value.origTn, e.payload.value.attest).None?)
    && SignatureVerifies(w, id, e)
    && ClaimMismatchOf(e.payload.value, hs).None?
  }

  lemma EvidencePasses<Key>(k: nat, w: World<Key>, c: Config, id: Identity, hs: seq<SipHeader>, now: int,
                            leaf: seq<byte>, chain: seq<seq<byte>>, cert: Certificate)
    requires GoodEvidence(w, c, id, hs, now, leaf, chain, cert) && k < 15
    ensures StageFault(k, w, c, id, hs, now).None?
  {
    hide ClaimMismatchOf, LeafProfile.ProfileFaultOf, Pem.CertBundleOf, DecodingKey, SplitJwt;
    assert ([leaf] + chain)[0] == leaf && ([leaf] + chain)[1..] == chain;
  }

  lemma GoodEvidencePasses<Key>(w: World<Key>, c: Config, id: Identity, hs: seq<SipHeader>, now: int, leaf: seq<byte>,
                                chain: seq<seq<byte>>, cert: Certificate)
    requires GoodEvidence(w, c, id, hs, now, leaf, chain, cert)
    ensures var iat := Gather(w, id).payload.value.iat;
            Verdict(w, c, id, hs, now)
            == if IsFresh(now, iat, c.windowSecs) then Accepted(w, id) else Stale(Skew(now, iat))
  {
    hide VerdictFrom, StageFault, Gather, IsFresh, SignatureVerifies, Accepted;
    FreshnessStage(w, c, id, hs, now);
    forall k: nat | k < 15 ensures StageFault(k, w, c, id, hs, now).None? {
      EvidencePasses(k, w, c, id, hs, now, leaf, chain, cert);
    }
    var n := VerdictFromFirst(0, w, c, id, hs, now);
  }

  lemma AddressedMatches(s: ClaimSummary, p: ParsedPayload, hs: seq<SipHeader>)
    requires Addressed(s, hs) && ClaimedOrig(s).Some? && ClaimedDest(s).Some?
    requires p.origTn == s.origTn && (s.origTn.None? ==> p.origUri == s.origUri)
    requires p.destTn == (if s.destTn.Some? then Some([s.destTn.value]) else None)
    requires p.destUri == (if s.destUri.Some? then Some([s.destUri.value]) else None)
    ensures ClaimMismatchOf(p, hs).None?
  {
  }

  /** The resolver and the X.509 parser hand the verifier the published certificate. */
  lemma PublishedIsFound<Key>(w: World<Key>, sc: SignerConfig<Key>, jwt: string, leaf: seq<byte>,
                              chain: seq<seq<byte>>, cert: Certificate)
    requires Published(w, sc, leaf, chain, cert)
    ensures var e := Gather(w, Identity(jwt, Some(sc.certUrl)));
            e.bundle == Some(Ok([leaf] + chain)) && e.leaf == Some(cert)
  {
    assert ([leaf] + chain)[0] == leaf;
  }

  /** A token that carries its claims and verifies is accepted while fresh, with those claims. */
  lemma CarriedClaimsVerify<Key(!new)>(w: World<Key>, sc: SignerConfig<Key>, c: Config, s: ClaimSummary,
                                       hs: seq<SipHeader>, signedAt: i64, drawn: Uuid, now: int, id: Identity,
                                       leaf: seq<byte>, chain: seq<seq<byte>>, cert: Certificate)
    requires Faithful(w.codec) && Carries(w, sc, s, signedAt, drawn, id) && SignatureVerifies(w, id, Gather(w, id))
    requires id.info == Some(sc.certUrl) && Published(w, sc, leaf, chain, cert)
    requires Trusted(w, c, leaf, chain, cert, s, RequestedLetter(sc, s), now)
    requires Addressed(s, hs) && ClaimedOrig(s).Some? && ClaimedDest(s).Some?
    ensures var iat := Gather(w, id).payload.value.iat;
            Verdict(w, c, id, hs, now)
            == if IsFresh(now, iat, c.windowSecs) then Valid(Some(RequestedLetter(sc, s)), Some(Origid(s, drawn)))
               else Stale(Skew(now, iat))
  {
    hide Gather, SignatureVerifies, IsFresh, ClaimMismatchOf, LeafProfile.ProfileFaultOf, Published, Addressed, Verdict;
    PublishedIsFound(w, sc, id.jwt, leaf, chain, cert);
    AddressedMatches(s, Gather(w, id).payload.value, hs);
    GoodEvidencePasses(w, c, id, hs, now, leaf, chain, cert);
  }

  /** What a verifier makes of a token issued under the SHAKEN profile and sent on a request
      addressed as claimed: accepted within the window around its stamp, stale outside it. */
  lemma SignedTokenVerdict<Key(!new)>(w: World<Key>, sc: SignerConfig<Key>, c: Config, s: ClaimSummary,
                                      hs: seq<SipHeader>, signedAt: i64, drawn: Uuid, now: int, iat: nat,
                                      leaf: seq<byte>, chain: seq<seq<byte>>, cert: Certificate)
    requires Faithful(w.codec) && sc.ppt.Shaken?
    requires Sign(w.codec, sc, s, signedAt, drawn).Ok?
    requires Published(w, sc, leaf, chain, cert) && Trusted(w, c, leaf, chain, cert, s, RequestedLetter(sc, s), now)
    requires Addressed(s, hs) && Stamps(iat, signedAt + sc.iatSkew)
    requires 0 <= now < TWO_63 && c.windowSecs < TWO_63
    ensures var v := Sign(w.codec, sc, s, signedAt, drawn).value;
            Verdict(w, c, Identity(v.jwt, Some(v.info)), hs, now)
            == if WithinWindow(now, iat, c.windowSecs) then Valid(Some(RequestedLetter(sc, s)), Some(Origid(s, drawn)))
               else Stale(now - iat)
  {
    hide Sign, Gather, Verdict, Faithful, Published, Trusted, Addressed, SignatureVerifies;
    var v := Sign(w.codec, sc, s, signedAt, drawn).value;
    var id := Identity(v.jwt, Some(v.info));
    TokenCarriesClaims(w, sc, s, signedAt, drawn);
    SignatureSurvives(w, sc, s, signedAt, drawn, leaf, chain, cert);
    FreshIff(now, iat, c.windowSecs);
    CarriedClaimsVerify(w, sc, c, s, hs, signedAt, drawn, now, id, leaf, chain, cert);
  }

  /** Measured from the signer's clock and skew: a token is accepted throughout its window, with
      its attestation and origid, and is stale outside it. Only a sum that overflows i64 breaks
      this: its token is stamped with the epoch, so it is accepted only near the epoch. */
  lemma SignedTokenVerifies<Key(!new)>(w: World<Key>, sc: SignerConfig<Key>, c: Config, s: ClaimSummary,
                                       hs: seq<SipHeader>, signedAt: i64, drawn: Uuid, now: int,
                                       leaf: seq<byte>, chain: seq<seq<byte>>, cert: Certificate)
    requires Faithful(w.codec) && sc.ppt.Shaken?
    requires Sign(w.codec, sc, s, signedAt, drawn).Ok?
    requires Published(w, sc, leaf, chain, cert) && Trusted(w, c, leaf, chain, cert, s, RequestedLetter(sc, s), now)
    requires Addressed(s, hs)
    requires 0 <= now < TWO_63 && c.windowSecs < TWO_63
    ensures var v, t := Sign(w.codec, sc, s, signedAt, drawn).value, signedAt + sc.iatSkew;
            var o := Verdict(w, c, Identity(v.jwt, Some(v.info)), hs, now);
            && (WithinWindow(now, t, c.windowSecs) ==>
                  o == if t < TWO_63 || now <= c.windowSecs
                       then Valid(Some(RequestedLetter(sc, s)), Some(Origid(s, drawn))) else Stale(now))
            && (!WithinWindow(now, t, c.windowSecs) && 0 <= t < TWO_63 ==> o == Stale(now - t))
  {
    hide Verdict, Sign, Faithful, Published, Trusted, Addressed;
    StampIsClock(sc, signedAt);
    SignedTokenVerdict(w, sc, c, s, hs, signedAt, drawn, now, IssuedAt(sc, signedAt), leaf, chain, cert);
  }

  /** A signer refuses exactly the summaries that lack an identity or name an unknown level
      (when serialisation and the key do their part). */
  lemma SignerAcceptsIff<Key>(b: Codec<Key>, sc: SignerConfig<Key>, s: ClaimSummary, now: i64, drawn: Uuid)
    requires forall h :: b.headerToJson(h).Some?
    requires forall c :: b.claimsToJson(c).Some?
    requires forall m :: b.es256Sign(sc.key, m).Some?
    ensures Sign(b, sc, s, now, drawn).Ok?
       <==> (&& ClaimedOrig(s).Some? && ClaimedDest(s).Some?
             && (s.attest.Some? ==> s.attest.value in {"A", "a", "B", "b", "C", "c"}))
  {
    hide Utf8.Encode, UrlEncode, Faithful;
  }

  // ----- The assumptions can be met -----

  /** A codec that can write one header and one set of claims, and writes UUIDs in unary. */
  function OneTokenCodec(h: Header, c: Claims): Codec<bool> {
    var view := ClaimsView(BlankCodec(), c);
    BlankCodec().(
      headerToJson := x => if x == h then Some([1]) else None,
      claimsToJson := x => if x == c then Some([2]) else None,
      headerFromJson := b => if b == [1] then Some(HeaderView(h)) else None,
      payloadFromJson := b => if b == [2] then Some(view) else None)
  }

  function BlankCodec(): Codec<bool> {
    Codec(_ => None, _ => None, _ => None, _ => None,
          (u: Uuid) => seq(u, _ => '1'), t => if |t| < TWO_128 then Some(|t|) else None,
          (_, _) => Some([]), (_, _, _) => true, _ => [4] + seq(64, _ => 0))
  }

  function OneTokenWorld(codec: Codec<bool>, cert: Certificate): World<bool> {
    World(codec, t => Some(t), _ => Some([]), _ => Some(cert), (_, _, _, _) => true)
  }

  lemma OneTokenIsFaithful(h: Header, c: Claims)
    ensures Faithful(OneTokenCodec(h, c))
  {
    var b := OneTokenCodec(h, c);
    assert ClaimsView(b, c) == ClaimsView(BlankCodec(), c);
    forall u: Uuid ensures b.uuidFromText(b.uuidToText(u)) == Some(u) {
      assert |b.uuidToText(u)| == u;
    }
  }

  /** A certificate for the one-token key whose TNAuthList is a single service provider. */
  function ProviderCert(): Certificate
    requires |TnAuthLists.PrintEntries([TnAuthLists.Spc("1")])| < 0x1_0000_0000
  {
    var list := Der.Print(0x30, TnAuthLists.PrintEntries([TnAuthLists.Spc("1")]));
    Certificate([LeafProfile.Extension(LeafProfile.TN_AUTH_LIST_OID, list)], [4] + seq(64, _ => 0))
  }

  lemma ProviderListIsShort()
    ensures |TnAuthLists.PrintEntries([TnAuthLists.Spc("1")])| < 0x1_0000_0000
  {
    var es := [TnAuthLists.Spc("1")];
    var items := TnAuthLists.Items(es);
    assert Utf8.Encode("1") == [0x31] by { assert "1"[1..] == []; }
    assert items[1..] == [];
    assert |Der.Print(items[0].tag, items[0].contents)| < 100;
  }

  /** A service provider's certificate vouches for every number and level. */
  lemma ProviderCertPasses(orig: Option<string>, attest: Option<string>)
    requires |TnAuthLists.PrintEntries([TnAuthLists.Spc("1")])| < 0x1_0000_0000
    ensures LeafProfile.ProfileFaultOf(ProviderCert().extensions, orig, attest).None?
  {
    hide LeafProfile.ProfileFaultOf, LeafProfile.Authorises, LeafProfile.LeavesLevel;
    hide Der.Print, TnAuthLists.PrintEntries, TnAuthLists.TnAuthListOf, TnAuthLists.IsTnAuthList;
    var exts := ProviderCert().extensions;
    ProviderListReads();
    SpcAuthorises(orig);
    LeafProfile.OidsDiffer();
    assert LeafProfile.LastWith(exts, LeafProfile.TN_AUTH_LIST_OID, 0);
    LeafProfile.ProfileIff(exts, orig, attest);
  }

  lemma ProviderListReads()
    requires |TnAuthLists.PrintEntries([TnAuthLists.Spc("1")])| < 0x1_0000_0000
    ensures var body := ProviderCert().extensions[0].value;
            TnAuthLists.TnAuthListOf(body).Ok? && TnAuthLists.IsTnAuthList(body, [TnAuthLists.Spc("1")])
  {
    hide Der.Print, TnAuthLists.PrintEntries, TnAuthLists.TnAuthListOf;
    var es := [TnAuthLists.Spc("1")];
    var body := ProviderCert().extensions[0].value;
    TnAuthLists.ParseOfPrint(es, []);
    assert body + [] == body;
    TnAuthLists.PrintedEntriesAreEntries(es);
    var h := Der.PrintIsTlv(0x30, TnAuthLists.PrintEntries(es), []);
  }

  lemma SpcAuthorises(orig: Option<string>)
    ensures LeafProfile.Authorises([TnAuthLists.Spc("1")], orig)
  {
    var e := TnAuthLists.Spc("1");
    assert e in [e];
    assert orig.Some? ==> LeafProfile.EntryCovers(e, orig.value);
  }

  /** For every summary whose claims can be built, every issue time and every window there are
      parameters, a request, a trust store and a clock that meet all the assumptions of the
      end-to-end theorem, so it is about tokens that exist. */
  lemma AssumptionsCanHold(sc: SignerConfig<bool>, s: ClaimSummary, signedAt: i64, drawn: Uuid, windowSecs: nat)
    returns (w: World<bool>, c: Config, hs: seq<SipHeader>, now: int, cert: Certificate)
    requires BuildClaims(sc, s, IssuedAt(sc, signedAt), drawn).Ok? && 0 <= signedAt + sc.iatSkew < TWO_63
    ensures c.windowSecs == windowSecs && c.anchors != []
    ensures Faithful(w.codec) && Sign(w.codec, sc, s, signedAt, drawn).Ok? && Published(w, sc, [], [], cert)
    ensures Trusted(w, c, [], [], cert, s, RequestedLetter(sc, s), now) && Addressed(s, hs)
    ensures 0 <= now < TWO_63 && WithinWindow(now, signedAt + sc.iatSkew, c.windowSecs)
  {
    hide Faithful, LeafProfile.ProfileFaultOf, Pem.CertBundleOf, Utf8.Encode, UrlEncode;
    hide FirstFrom, FirstTo, Canonical, PlainRequest;
    var claims := BuildClaims(sc, s, IssuedAt(sc, signedAt), drawn).value;
    OneTokenIsFaithful(HeaderFor(sc), claims);
    ProviderListIsShort();
    cert := ProviderCert();
    w := OneTokenWorld(OneTokenCodec(HeaderFor(sc), claims), cert);
    c := Config(windowSecs, true, [[]]);
    hs := PlainRequest(ClaimedOrig(s).value, ClaimedDest(s).value);
    now := signedAt + sc.iatSkew;
    ProviderCertPasses(s.origTn, Some(RequestedLetter(sc, s)));
    PlainRequestIsAddressed(ClaimedOrig(s).value, ClaimedDest(s).value);
    EmptyBundle();
  }

  function PlainRequest(orig: string, dest: string): seq<SipHeader> {
    [From(Uri(OtherScheme, None, Address, orig)), To(Uri(OtherScheme, None, Address, dest))]
  }

  lemma PlainRequestIsAddressed(orig: string, dest: string)
    ensures var hs := PlainRequest(orig, dest);
            && FirstFrom(hs).Some? && Canonical(FirstFrom(hs).value) == Some(orig)
            && FirstTo(hs).Some? && Canonical(FirstTo(hs).value) == Some(dest)
  {
    var hs := PlainRequest(orig, dest);
    assert hs[1..][0] == hs[1];
  }

  lemma EmptyBundle()
    ensures Pem.CertBundleOf([]) == Ok([[]] + [])
  {
    var none: seq<byte>, noChain: seq<seq<byte>> := [], [];
    assert [none] + noChain == [none];
    assert !Pem.LooksLikePem(none) by { assert !OccursAt<char>([], Pem.BEGIN, 0); }
  }
}
