/** IMS AKA digest headers: the static provider's challenge, its answer, its validation, and
    the parameter parser between them (section 3.4 of RFC 7616). */
module AkaDigest {
  import opened Prelude
  import opened Text

  datatype Algorithm = AKAv1Md5 | AKAv2Md5 {
    function Name(): string { match this case AKAv1Md5 => "AKAv1-MD5" case AKAv2Md5 => "AKAv2-MD5" }
  }

  datatype Vector = Vector(username: string, realm: string, nonce: string, algorithm: Algorithm,
                           expectedResponse: string, subject: Option<string>, scopes: seq<string>)

  datatype Identity = Identity(username: string, subject: Option<string>, realm: string, scopes: seq<string>)

  datatype Error = ChallengeMismatch

  // ----- The parser -----

  predicate IsQuote(c: char) { c == '"' }

  function TrimQuotes(s: string): string { TrimBy(s, IsQuote) }

  /** `str::strip_prefix`, or the text itself. */
  function WithoutPrefix(s: string, prefix: string): string {
    if prefix <= s then s[|prefix|..] else s
  }

  /** One comma-separated part, if it has an equals sign. */
  function ParsePart(part: string): Option<(string, string)> {
    var t := Trim(part);
    if '=' in t then
      var i := IndexOf(t, '=');
      Some((Lower(Trim(t[..i])), TrimQuotes(Trim(t[i + 1..]))))
    else None
  }

  function Insert(params: map<string, string>, part: string): map<string, string> {
    match ParsePart(part)
    case None => params
    case Some((key, value)) => params[key := value]
  }

  /** Later parts replace earlier ones of the same name. */
  function Collect(parts: seq<string>, params: map<string, string>): map<string, string> {
    if parts == [] then params else Collect(parts[1..], Insert(params, parts[0]))
  }

  function ParamsOf(value: string): map<string, string> {
    Collect(Split(WithoutPrefix(Trim(value), "Digest "), ','), map[])
  }

  /** `parse_auth_params`. */
  method ParseAuthParams(value: string) returns (params: map<string, string>)
    ensures params == ParamsOf(value)
  {
    hide TrimBy, Lower, Split, IsWhitespace;
    var header := Trim(value);
    if "Digest " <= header { header := header[|"Digest "|..]; }
    params := map[];
    var parts := Split(header, ',');
    for i := 0 to |parts|
      invariant Collect(parts[i..], params) == Collect(parts, map[])
    {
      var part := Trim(parts[i]);
      assert parts[i..][1..] == parts[i + 1..];
      if '=' in part {
        var at := IndexOf(part, '=');
        params := params[Lower(Trim(part[..at])) := TrimQuotes(Trim(part[at + 1..]))];
      }
    }
  }

  /** No value the parser returns contains a comma. */
  lemma {:induction false} ValuesHaveNoComma(parts: seq<string>, params: map<string, string>)
    requires forall p :: p in parts ==> ',' !in p
    requires forall k :: k in params ==> ',' !in params[k]
    ensures forall k :: k in Collect(parts, params) ==> ',' !in Collect(parts, params)[k]
  {
    if parts != [] {
      assert parts[0] in parts && forall p :: p in parts[1..] ==> p in parts;
      PartHasNoComma(parts[0]);
      ValuesHaveNoComma(parts[1..], Insert(params, parts[0]));
    }
  }

  lemma PartHasNoComma(part: string)
    requires ',' !in part
    ensures ParsePart(part).Some? ==> ',' !in ParsePart(part).value.1
  {
    var t := Trim(part);
    TrimIsPart(part, IsWhitespace);
    if '=' in t {
      var v := t[IndexOf(t, '=') + 1..];
      assert forall c :: c in v ==> c in t;
      TrimIsPart(v, IsWhitespace);
      TrimIsPart(Trim(v), IsQuote);
    }
  }

  lemma ParamsHaveNoComma(value: string)
    ensures forall k :: k in ParamsOf(value) ==> ',' !in ParamsOf(value)[k]
  {
    var header := WithoutPrefix(Trim(value), "Digest ");
    JoinOfSplit(header, ',');
    ValuesHaveNoComma(Split(header, ','), map[]);
  }

  lemma {:induction false} CollectKeepsKey(parts: seq<string>, params: map<string, string>, key: string)
    requires key in params
    ensures key in Collect(parts, params)
  {
    if parts != [] { CollectKeepsKey(parts[1..], Insert(params, parts[0]), key); }
  }

  // ----- The printer -----

  /** A parameter and the text written after its equals sign. */
  datatype Param = Param(key: string, text: string)

  function Piece(p: Param): string { p.key + "=" + p.text }

  function Listed(ps: seq<Param>): string {
    if ps == [] then ""
    else if |ps| == 1 then Piece(ps[0])
    else Piece(ps[0]) + [','] + (" " + Listed(ps[1..]))
  }

  function Header(ps: seq<Param>): string { "Digest " + Listed(ps) }

  predicate IsKey(k: string) { ',' !in k && '=' !in k && Tight(k, IsWhitespace) && Lower(k) == k }

  /** A parameter that can be written and read again. */
  predicate Printable(p: Param) { IsKey(p.key) && ',' !in p.text && Tight(p.text, IsWhitespace) }

  /** What the list means: each text without its quotes, later ones first. */
  function Meaning(ps: seq<Param>, params: map<string, string>): map<string, string> {
    if ps == [] then params else Meaning(ps[1..], params[ps[0].key := TrimQuotes(ps[0].text)])
  }

  lemma Marks()
    ensures IsWhitespace(' ') && !IsWhitespace('=') && !IsWhitespace('D') && !IsWhitespace('"')
  {
  }

  lemma PieceIsTight(p: Param)
    requires Printable(p)
    ensures Tight(Piece(p), IsWhitespace)
  {
    hide IsWhitespace;
    Marks();
    var piece := Piece(p);
    assert piece[0] == (if p.key == [] then '=' else p.key[0]);
    assert piece[|piece| - 1] == (if p.text == [] then '=' else p.text[|p.text| - 1]);
  }

  lemma TrimTight(s: string, p: char -> bool)
    requires Tight(s, p)
    ensures TrimBy(s, p) == s
  {
    TrimSurrounded([], s, [], p);
    assert [] + s + [] == s;
  }

  lemma ParseOfPiece(lead: string, p: Param)
    requires Printable(p) && All(lead, IsWhitespace)
    ensures ParsePart(lead + Piece(p)) == Some((p.key, TrimQuotes(p.text)))
  {
    hide IsWhitespace, TrimStart, TrimEnd, TrimBy, Lower, TrimQuotes, Tight;
    var piece := Piece(p);
    PieceIsTight(p);
    TrimSurrounded(lead, piece, [], IsWhitespace);
    assert lead + piece + [] == lead + piece;
    IndexOfFirst(p.key, '=', p.text);
    assert piece[..|p.key|] == p.key && piece[|p.key| + 1..] == p.text;
    TrimTight(p.key, IsWhitespace);
    TrimTight(p.text, IsWhitespace);
  }

  /** Names are read in lower case, however they are written. */
  lemma NamesIgnoreCase(key: string, text: string)
    requires ',' !in key && '=' !in key && Tight(key, IsWhitespace) && ',' !in text && Tight(text, IsWhitespace)
    ensures ParsePart(key + "=" + text) == Some((Lower(key), TrimQuotes(text)))
  {
    hide TrimStart, TrimEnd, TrimBy, Lower, TrimQuotes, IsWhitespace;
    Marks();
    var piece := key + "=" + text;
    assert piece[0] == (if key == [] then '=' else key[0]);
    assert piece[|piece| - 1] == (if text == [] then '=' else text[|text| - 1]);
    TrimTight(piece, IsWhitespace);
    IndexOfFirst(key, '=', text);
    assert piece[..|key|] == key && piece[|key| + 1..] == text;
    TrimTight(key, IsWhitespace);
    TrimTight(text, IsWhitespace);
  }

  lemma {:induction false} ParseOfListed(lead: string, ps: seq<Param>, params: map<string, string>)
    requires ps != [] && (forall i :: 0 <= i < |ps| ==> Printable(ps[i])) && All(lead, IsWhitespace) && ',' !in lead
    ensures Collect(Split(lead + Listed(ps), ','), params) == Meaning(ps, params)
    decreases |ps|
  {
    hide IsWhitespace, ParsePart, Split, Tight, IsKey;
    Marks();
    var first := lead + Piece(ps[0]);
    ParseOfPiece(lead, ps[0]);
    PieceHasNoComma(ps[0]);
    var params' := Insert(params, first);
    assert ',' !in first;
    if |ps| == 1 {
      SplitNone(first, ',');
      assert [first][1..] == [] && ps[1..] == [];
    } else {
      var rest := " " + Listed(ps[1..]);
      assert lead + Listed(ps) == first + [','] + rest;
      SplitFirst(first, rest, ',');
      assert ([first] + Split(rest, ','))[1..] == Split(rest, ',');
      ParseOfListed(" ", ps[1..], params');
    }
  }

  lemma PieceHasNoComma(p: Param)
    requires Printable(p)
    ensures ',' !in Piece(p)
  {
  }

  lemma {:induction false} ListedLast(ps: seq<Param>)
    requires ps != []
    ensures |Listed(ps)| >= 1 && Listed(ps)[|Listed(ps)| - 1] == Piece(ps[|ps| - 1])[|Piece(ps[|ps| - 1])| - 1]
  {
    if |ps| > 1 { ListedLast(ps[1..]); }
  }

  /** The parser finds the list behind the scheme. */
  lemma BodyOfHeader(ps: seq<Param>)
    requires ps != [] && Tight(ps[|ps| - 1].text, IsWhitespace)
    ensures WithoutPrefix(Trim(Header(ps)), "Digest ") == Listed(ps)
  {
    hide IsWhitespace, TrimBy, Listed;
    ListedLast(ps);
    Marks();
    var header, last := Header(ps), ps[|ps| - 1];
    assert Piece(last)[|Piece(last)| - 1] == (if last.text == [] then '=' else last.text[|last.text| - 1]);
    assert header[0] == 'D' && header[|header| - 1] == Listed(ps)[|Listed(ps)| - 1];
    TrimTight(header, IsWhitespace);
    assert "Digest " <= header && header[|"Digest "|..] == Listed(ps);
  }

  /** The parser inverts the printer. */
  lemma ParseOfPrint(ps: seq<Param>)
    requires ps != [] && forall i :: 0 <= i < |ps| ==> Printable(ps[i])
    ensures ParamsOf(Header(ps)) == Meaning(ps, map[])
  {
    hide WithoutPrefix, Trim, Listed, Collect, Split, Meaning;
    BodyOfHeader(ps);
    assert [] + Listed(ps) == Listed(ps);
    ParseOfListed([], ps, map[]);
  }

  /** With distinct names, every parameter is found under its name. */
  lemma {:induction false} MeaningAt(ps: seq<Param>, params: map<string, string>, i: nat)
    requires i < |ps| && forall j :: i < j < |ps| ==> ps[j].key != ps[i].key
    ensures ps[i].key in Meaning(ps, params) && Meaning(ps, params)[ps[i].key] == TrimQuotes(ps[i].text)
  {
    if i == 0 {
      MeaningKeeps(ps[1..], params[ps[0].key := TrimQuotes(ps[0].text)], ps[0].key);
    } else {
      MeaningAt(ps[1..], params[ps[0].key := TrimQuotes(ps[0].text)], i - 1);
    }
  }

  lemma {:induction false} MeaningKeeps(ps: seq<Param>, params: map<string, string>, key: string)
    requires key in params && forall j :: 0 <= j < |ps| ==> ps[j].key != key
    ensures key in Meaning(ps, params) && Meaning(ps, params)[key] == params[key]
  {
    if ps != [] { MeaningKeeps(ps[1..], params[ps[0].key := TrimQuotes(ps[0].text)], key); }
  }

  // ----- Escaping -----

  /** `escape_header`. */
  function EscapeHeader(v: string): string { ReplaceChar(ReplaceChar(v, '\\', "\\\\"), '"', "\\\"") }

  predicate Special(c: char) { c == '"' || c == '\\' }

  predicate Clean(v: string) { forall i :: 0 <= i < |v| ==> !Special(v[i]) }

  function Escaped(c: char): string { if Special(c) then ['\\', c] else [c] }

  lemma EscapeLast(v: string)
    requires v != []
    ensures EscapeHeader(v) == EscapeHeader(v[..|v| - 1]) + Escaped(v[|v| - 1])
  {
    var u, c := v[..|v| - 1], v[|v| - 1];
    var piece := if c == '\\' then "\\\\" else [c];
    ReplaceCharAppend(ReplaceChar(u, '\\', "\\\\"), piece, '"', "\\\"");
    assert ReplaceChar(piece, '"', "\\\"") == Escaped(c) by {
      if c == '\\' {
        assert piece[..1] == ['\\'] && ['\\'][..0] == [];
        assert ReplaceChar(piece[..1], '"', "\\\"") == ['\\'];
      } else {
        assert piece[..0] == [];
      }
    }
  }

  lemma {:induction false} EscapeClean(v: string)
    requires Clean(v)
    ensures EscapeHeader(v) == v
  {
    if v != [] {
      hide EscapeHeader;
      EscapeLast(v);
      EscapeClean(v[..|v| - 1]);
    }
  }

  lemma {:induction false} EscapeLength(v: string)
    ensures |EscapeHeader(v)| >= |v|
    ensures !Clean(v) ==> |EscapeHeader(v)| > |v|
  {
    if v != [] {
      hide EscapeHeader;
      var u := v[..|v| - 1];
      EscapeLast(v);
      EscapeLength(u);
      if Clean(u) && !Clean(v) { assert Special(v[|v| - 1]); }
    }
  }

  lemma {:induction false} EscapeFirst(v: string)
    requires v != []
    ensures EscapeHeader(v) != [] && EscapeHeader(v)[0] != '"'
  {
    EscapeLast(v);
    if |v| > 1 {
      hide EscapeHeader;
      EscapeFirst(v[..|v| - 1]);
    } else {
      assert EscapeHeader(v[..0]) == [];
    }
  }

  function Quoted(v: string): string { "\"" + v + "\"" }

  /** Printing and reading a value gives it back exactly when it needed no escaping: the
      parser takes off the quotes but not the escapes. */
  lemma QuotedIff(v: string)
    ensures TrimQuotes(Quoted(EscapeHeader(v))) == v <==> Clean(v)
  {
    hide EscapeHeader, TrimBy;
    var e := EscapeHeader(v);
    EscapeLength(v);
    if Clean(v) { EscapeClean(v); }
    if v == [] {
      TrimSurrounded("\"", e, "\"", IsQuote);
    } else {
      EscapeLast(v);
      EscapeFirst(v);
      var c := v[|v| - 1];
      if c == '"' {
        var kept := EscapeHeader(v[..|v| - 1]) + "\\";
        assert Tight(kept, IsQuote) by {
          EscapeLength(v[..|v| - 1]);
          assert kept[0] == e[0];
        }
        assert Quoted(e) == "\"" + kept + "\"\"";
        TrimSurrounded("\"", kept, "\"\"", IsQuote);
        assert kept[|kept| - 1] == '\\';
      } else {
        assert e[|e| - 1] == c;
        TrimSurrounded("\"", e, "\"", IsQuote);
      }
    }
  }

  lemma EscapedComma(c: char)
    ensures ',' in Escaped(c) <==> ',' in [c]
  {
  }

  lemma InSum(c: char, a: string, b: string)
    ensures c in a + b <==> c in a || c in b
  {
  }

  lemma {:induction false} EscapeKeepsCommas(v: string)
    ensures ',' in EscapeHeader(v) <==> ',' in v
  {
    if v != [] {
      hide EscapeHeader, Escaped;
      var u, c := v[..|v| - 1], v[|v| - 1];
      EscapeLast(v);
      EscapeKeepsCommas(u);
      EscapedComma(c);
      InSum(',', EscapeHeader(u), Escaped(c));
      InSum(',', u, [c]);
      assert v == u + [c];
    }
  }

  // ----- The provider -----

  /** `{:08x}` of a 32-bit count. */
  function HexDigits(n: nat, width: nat): (s: string)
    ensures |s| == width && forall c :: c in s ==> c in HEX
  {
    if width == 0 then [] else HexDigits(n / 16, width - 1) + [HEX[n % 16]]
  }

  /** The number a text spells in hexadecimal. */
  function HexValue(s: string): int {
    if s == [] then 0
    else HexValue(s[..|s| - 1]) * 16 + DigitValue(s[|s| - 1])
  }

  function Power16(n: nat): nat { if n == 0 then 1 else 16 * Power16(n - 1) }

  lemma {:induction false} HexDigitsSpell(n: nat, width: nat)
    requires n < Power16(width)
    ensures HexValue(HexDigits(n, width)) == n
  {
    if width > 0 {
      hide DigitValue;
      var s := HexDigits(n, width);
      HexDigitsSpell(n / 16, width - 1);
      assert s[..width - 1] == HexDigits(n / 16, width - 1);
      DigitSpells(n % 16);
    }
  }

  function ChallengeParams(v: Vector): seq<Param> {
    [Param("realm", Quoted(EscapeHeader(v.realm))), Param("nonce", Quoted(EscapeHeader(v.nonce))),
     Param("algorithm", v.algorithm.Name()), Param("qop", "\"auth\"")]
  }

  /** `challenge_value`. */
  function ChallengeValue(v: Vector): string { Header(ChallengeParams(v)) }

  function BeforeUri(v: Vector): seq<Param> {
    [Param("username", Quoted(EscapeHeader(v.username))), Param("realm", Quoted(EscapeHeader(v.realm))),
     Param("nonce", Quoted(EscapeHeader(v.nonce)))]
  }

  function AfterUri(v: Vector, nonceCount: nat): seq<Param> {
    [Param("response", Quoted(EscapeHeader(v.expectedResponse))), Param("algorithm", v.algorithm.Name()),
     Param("qop", "auth"), Param("nc", HexDigits(nonceCount, 8)), Param("cnonce", "\"static-aka\"")]
  }

  function AnswerParams(v: Vector, uri: string, nonceCount: nat): seq<Param> {
    BeforeUri(v) + ([Param("uri", Quoted(EscapeHeader(uri)))] + AfterUri(v, nonceCount))
  }

  function GetOr(params: map<string, string>, key: string, default: string): string {
    if key in params then params[key] else default
  }

  /** `StaticAkaProvider::authorization`. */
  function Authorization(v: Vector, challenge: string, uri: string, nonceCount: nat): Result<string, Error> {
    var params := ParamsOf(challenge);
    if || GetOr(params, "nonce", v.nonce) != v.nonce
       || GetOr(params, "realm", v.realm) != v.realm
       || Lower(GetOr(params, "algorithm", v.algorithm.Name())) != Lower(v.algorithm.Name())
    then Err(ChallengeMismatch)
    else Ok(Header(AnswerParams(v, uri, nonceCount)))
  }

  predicate Holds(params: map<string, string>, key: string, value: string) { key in params && params[key] == value }

  /** `StaticAkaProvider::validate`. */
  function Validate(v: Vector, authorization: string): Option<Identity> {
    var params := ParamsOf(authorization);
    if && Holds(params, "username", v.username) && Holds(params, "realm", v.realm) && Holds(params, "nonce", v.nonce)
       && Holds(params, "response", v.expectedResponse)
       && "algorithm" in params && Lower(params["algorithm"]) == Lower(v.algorithm.Name())
    then Some(Identity(v.username, v.subject, v.realm, v.scopes))
    else None
  }

  /** Free of comma, double quote and backslash. */
  predicate Plain(s: string) { Clean(s) && ',' !in s }

  // ----- Printability of what the provider writes -----

  lemma QuotedPrintable(key: string, v: string)
    requires IsKey(key) && ',' !in v
    ensures Printable(Param(key, Quoted(EscapeHeader(v))))
  {
    hide EscapeHeader, IsWhitespace;
    Marks();
    EscapeKeepsCommas(v);
    var q := Quoted(EscapeHeader(v));
    assert q[0] == '"' && q[|q| - 1] == '"';
  }

  predicate LowerWord(k: string) { forall i :: 0 <= i < |k| ==> 'a' <= k[i] <= 'z' }

  lemma WordIsKey(k: string)
    requires LowerWord(k)
    ensures IsKey(k)
  {
    assert Lower(k) == k;
  }

  lemma Words()
    ensures IsKey("username") && IsKey("realm") && IsKey("nonce") && IsKey("uri") && IsKey("response")
    ensures IsKey("algorithm") && IsKey("qop") && IsKey("nc") && IsKey("cnonce")
  {
    hide IsKey;
    WordIsKey("username"); WordIsKey("realm"); WordIsKey("nonce"); WordIsKey("uri"); WordIsKey("response");
    WordIsKey("algorithm"); WordIsKey("qop"); WordIsKey("nc"); WordIsKey("cnonce");
  }

  /** Texts that are written as they are. */
  predicate Bare(t: string) { ',' !in t && Tight(t, IsWhitespace) && Tight(t, IsQuote) }

  lemma BareTexts(a: Algorithm)
    ensures Bare(a.Name()) && Bare("auth")
  {
  }

  lemma BareHex(n: nat)
    ensures Bare(HexDigits(n, 8))
  {
    hide HexDigits, IsWhitespace;
    var h := HexDigits(n, 8);
    forall c | c in h ensures c != ',' && !IsWhitespace(c) && !IsQuote(c) { HexIsBare(c); }
  }

  lemma HexIsBare(c: char)
    requires c in HEX
    ensures c != ',' && !IsWhitespace(c) && !IsQuote(c)
  {
    assert '0' <= c <= '9' || 'a' <= c <= 'f';
  }

  lemma QuotedTexts()
    ensures ',' !in "\"auth\"" && Tight("\"auth\"", IsWhitespace)
    ensures ',' !in "\"static-aka\"" && Tight("\"static-aka\"", IsWhitespace)
  {
    hide IsWhitespace;
    Marks();
  }

  lemma ChallengePrintable(v: Vector)
    requires ',' !in v.realm && ',' !in v.nonce
    ensures forall i :: 0 <= i < |ChallengeParams(v)| ==> Printable(ChallengeParams(v)[i])
  {
    hide IsKey, IsWhitespace, EscapeHeader;
    Words();
    BareTexts(v.algorithm);
    QuotedTexts();
    QuotedPrintable("realm", v.realm);
    QuotedPrintable("nonce", v.nonce);
  }

  lemma AnswerPrintable(v: Vector, n: nat)
    requires ',' !in v.username && ',' !in v.realm && ',' !in v.nonce && ',' !in v.expectedResponse
    ensures forall i :: 0 <= i < |BeforeUri(v)| ==> Printable(BeforeUri(v)[i])
    ensures forall i :: 0 <= i < |AfterUri(v, n)| ==> Printable(AfterUri(v, n)[i])
  {
    hide IsKey, IsWhitespace, EscapeHeader;
    Words();
    BareTexts(v.algorithm);
    BareHex(n);
    QuotedTexts();
    QuotedPrintable("username", v.username);
    QuotedPrintable("realm", v.realm);
    QuotedPrintable("nonce", v.nonce);
    QuotedPrintable("response", v.expectedResponse);
  }

  predicate LastOfItsName(ps: seq<Param>, i: nat) { i < |ps| && forall j :: i < j < |ps| ==> ps[j].key != ps[i].key }

  lemma ChallengeNames(v: Vector)
    ensures forall i :: 0 <= i < 3 ==> LastOfItsName(ChallengeParams(v), i)
  {
    hide EscapeHeader, Quoted;
    assert "realm"[0] == 'r' && "nonce"[0] == 'n' && |"algorithm"| == 9 && |"qop"| == 3;
  }

  lemma AnswerNames(v: Vector, n: nat)
    ensures forall i :: 0 <= i < 3 ==> LastOfItsName(BeforeUri(v), i)
    ensures forall i :: 0 <= i < 2 ==> LastOfItsName(AfterUri(v, n), i)
    ensures forall i :: 0 <= i < 5 ==> AfterUri(v, n)[i].key !in ["username", "realm", "nonce"]
    ensures "username" != "uri" && "realm" != "uri" && "nonce" != "uri"
    ensures BeforeUri(v)[0].key == "username" && BeforeUri(v)[1].key == "realm" && BeforeUri(v)[2].key == "nonce"
  {
    hide EscapeHeader, Quoted, HexDigits;
    assert "username"[0] == 'u' && "realm"[0] == 'r' && "nonce"[0] == 'n' && "uri"[0] == 'u' && "response"[0] == 'r';
    assert "algorithm"[0] == 'a' && "qop"[0] == 'q' && "nc"[0] == 'n' && "cnonce"[0] == 'c';
  }

  /** A printed list of distinct names is read back entry by entry. */
  lemma ReadsBack(ps: seq<Param>, i: nat)
    requires ps != [] && (forall j :: 0 <= j < |ps| ==> Printable(ps[j])) && LastOfItsName(ps, i)
    ensures Holds(ParamsOf(Header(ps)), ps[i].key, TrimQuotes(ps[i].text))
  {
    ParseOfPrint(ps);
    MeaningAt(ps, map[], i);
  }

  lemma BareReadsBack(t: string)
    requires Bare(t)
    ensures TrimQuotes(t) == t
  {
    TrimTight(t, IsQuote);
  }

  // ----- A name is found even when its value breaks apart -----

  lemma {:induction false} SplitPrefix(a: string, rest: string, sep: char)
    requires sep !in a
    ensures Split(a + rest, sep) == [a + Split(rest, sep)[0]] + Split(rest, sep)[1..]
  {
    if a == [] {
      assert a + rest == rest && a + Split(rest, sep)[0] == Split(rest, sep)[0];
    } else {
      SplitPrefix(a[1..], rest, sep);
      assert (a + rest)[1..] == a[1..] + rest;
      assert [a[0]] + (a[1..] + Split(rest, sep)[0]) == a + Split(rest, sep)[0];
    }
  }

  lemma {:induction false} TrimEndStops(a: string, t: string, p: char -> bool)
    requires a != [] && !p(a[|a| - 1])
    ensures TrimEnd(a + t, p) == a + TrimEnd(t, p)
  {
    if t == [] {
      assert a + t == a;
    } else if p(t[|t| - 1]) {
      assert (a + t)[..|a + t| - 1] == a + t[..|t| - 1];
      TrimEndStops(a, t[..|t| - 1], p);
    }
  }

  lemma KeyOfPart(lead: string, key: string, t: string)
    requires All(lead, IsWhitespace) && IsKey(key) && key != []
    ensures ParsePart(lead + (key + "=") + t).Some? && ParsePart(lead + (key + "=") + t).value.0 == key
  {
    hide IsWhitespace, TrimEnd, Lower, TrimQuotes;
    Marks();
    var start := key + "=";
    assert lead + start + t == lead + (start + t);
    TrimStartDrops(lead, start + t, IsWhitespace);
    assert (start + t)[0] == key[0];
    TrimEndStops(start, t, IsWhitespace);
    var tail := TrimEnd(t, IsWhitespace);
    assert start + tail == key + ['='] + tail;
    IndexOfFirst(key, '=', tail);
    assert (key + ['='] + tail)[..|key|] == key;
    TrimTight(key, IsWhitespace);
  }

  lemma KeyPresent(lead: string, key: string, t: string, params: map<string, string>)
    requires All(lead, IsWhitespace) && ',' !in lead && IsKey(key) && key != []
    ensures key in Collect(Split(lead + (key + "=") + t, ','), params)
  {
    hide IsWhitespace, ParsePart, Split;
    var whole := lead + (key + "=") + t;
    var parts := Split(whole, ',');
    SplitPrefix(lead + (key + "="), t, ',');
    KeyOfPart(lead, key, Split(t, ',')[0]);
    CollectKeepsKey(parts[1..], Insert(params, parts[0]), key);
  }

  lemma ChallengeBody(v: Vector)
    ensures WithoutPrefix(Trim(ChallengeValue(v)), "Digest ") == Listed(ChallengeParams(v))
  {
    hide IsWhitespace, WithoutPrefix, Trim, Listed, EscapeHeader;
    QuotedTexts();
    BodyOfHeader(ChallengeParams(v));
  }

  lemma RealmPresent(v: Vector)
    ensures "realm" in ParamsOf(ChallengeValue(v))
  {
    hide IsWhitespace, IsKey, WithoutPrefix, Trim, Collect, Split, EscapeHeader;
    Words();
    ChallengeBody(v);
    var ps := ChallengeParams(v);
    var t := ps[0].text + [','] + (" " + Listed(ps[1..]));
    assert Listed(ps) == [] + ("realm" + "=") + t;
    KeyPresent([], "realm", t, map[]);
  }

  lemma NoncePresent(v: Vector)
    requires ',' !in v.realm
    ensures "nonce" in ParamsOf(ChallengeValue(v))
  {
    hide IsWhitespace, IsKey, WithoutPrefix, Trim, Collect, Split, EscapeHeader, Insert;
    Marks();
    Words();
    ChallengeBody(v);
    QuotedPrintable("realm", v.realm);
    var ps := ChallengeParams(v);
    PieceHasNoComma(ps[0]);
    var rest := " " + Listed(ps[1..]);
    SplitFirst(Piece(ps[0]), rest, ',');
    var t := ps[1].text + [','] + (" " + Listed(ps[2..]));
    assert ps[1..][0] == ps[1] && ps[1..][1..] == ps[2..];
    assert rest == " " + ("nonce" + "=") + t;
    CollectFirst([Piece(ps[0])] + Split(rest, ','), map[]);
    KeyPresent(" ", "nonce", t, Insert(map[], Piece(ps[0])));
  }

  lemma CollectFirst(parts: seq<string>, params: map<string, string>)
    requires parts != []
    ensures Collect(parts, params) == Collect(parts[1..], Insert(params, parts[0]))
  {
  }

  // ----- The round trip -----

  /** The provider answers its own challenge exactly when realm and nonce are plain. */
  lemma AnswersOwnChallengeIff(v: Vector, uri: string, n: nat)
    ensures Authorization(v, ChallengeValue(v), uri, n).Ok? <==> Plain(v.realm) && Plain(v.nonce)
  {
    hide ParamsOf, ChallengeValue, TrimQuotes, EscapeHeader, Lower, IsWhitespace;
    ParamsHaveNoComma(ChallengeValue(v));
    RealmPresent(v);
    if ',' !in v.realm { NoncePresent(v); }
    if ',' !in v.realm && ',' !in v.nonce { ChallengeReads(v); }
  }

  lemma ChallengeReads(v: Vector)
    requires ',' !in v.realm && ',' !in v.nonce
    ensures var params := ParamsOf(ChallengeValue(v));
            && "realm" in params && (params["realm"] == v.realm <==> Clean(v.realm))
            && "nonce" in params && (params["nonce"] == v.nonce <==> Clean(v.nonce))
            && Holds(params, "algorithm", v.algorithm.Name())
  {
    hide ParamsOf, Header, TrimQuotes, EscapeHeader, IsWhitespace, Printable, LastOfItsName;
    ChallengePrintable(v);
    ChallengeNames(v);
    var ps := ChallengeParams(v);
    ReadsBack(ps, 0);
    ReadsBack(ps, 1);
    ReadsBack(ps, 2);
    QuotedIff(v.realm);
    QuotedIff(v.nonce);
    BareTexts(v.algorithm);
    BareReadsBack(v.algorithm.Name());
  }

  // ----- Request URIs with commas -----

  lemma {:induction false} CollectAppend(a: seq<string>, b: seq<string>, params: map<string, string>)
    ensures Collect(a + b, params) == Collect(b, Collect(a, params))
  {
    if a == [] {
      assert a + b == b;
    } else {
      assert (a + b)[1..] == a[1..] + b;
      CollectAppend(a[1..], b, Insert(params, a[0]));
    }
  }

  /** Parts add to what is there, and replace what they name. */
  lemma {:induction false} CollectOver(parts: seq<string>, params: map<string, string>)
    ensures Collect(parts, params) == params + Collect(parts, map[])
  {
    hide ParsePart;
    if parts != [] {
      CollectOver(parts[1..], Insert(params, parts[0]));
      CollectOver(parts[1..], Insert(map[], parts[0]));
    }
  }

  lemma {:induction false} ListedAppend(a: seq<Param>, b: seq<Param>)
    requires a != [] && b != []
    ensures Listed(a + b) == Listed(a) + [','] + (" " + Listed(b))
  {
    hide Piece;
    assert (a + b)[0] == a[0] && (a + b)[1..] == a[1..] + b;
    if |a| == 1 {
      assert a[1..] + b == b;
    } else {
      ListedAppend(a[1..], b);
      Strung(Piece(a[0]), Listed(a[1..]), " " + Listed(b));
    }
  }

  lemma Strung(a: string, b: string, c: string)
    ensures a + [','] + (" " + (b + [','] + c)) == (a + [','] + (" " + b)) + [','] + c
  {
  }

  /** What the URI's pieces behind its first comma bind, as they are printed. */
  function UriBinds(uri: string): map<string, string> {
    Collect(Split(Quoted(EscapeHeader(uri)), ',')[1..], map[])
  }

  lemma AnswerSplits(v: Vector, uri: string, n: nat)
    ensures var q := Quoted(EscapeHeader(uri));
            Split(Listed(AnswerParams(v, uri, n)), ',')
            == Split(Listed(BeforeUri(v)), ',')
               + (Split(" " + ("uri" + "=") + q, ',') + Split(" " + Listed(AfterUri(v, n)), ','))
  {
    hide Split, Listed, EscapeHeader, Quoted, HexDigits;
    var q := Quoted(EscapeHeader(uri));
    var uris := [Param("uri", q)];
    ListedAppend(BeforeUri(v), uris + AfterUri(v, n));
    ListedAppend(uris, AfterUri(v, n));
    ListedOne(uris[0]);
    var tail := " " + Listed(AfterUri(v, n));
    assert " " + (Piece(uris[0]) + [','] + tail) == " " + ("uri" + "=") + q + [','] + tail;
    SplitAppend(Listed(BeforeUri(v)), " " + Listed(uris + AfterUri(v, n)), ',');
    SplitAppend(" " + ("uri" + "=") + q, tail, ',');
  }

  lemma ListedOne(p: Param)
    ensures Listed([p]) == Piece(p)
  {
  }

  /** The URI parameter binds its own name, and its further pieces whatever they spell. */
  lemma UriCollected(q: string, params: map<string, string>) returns (value: string)
    ensures Collect(Split(" " + ("uri" + "=") + q, ','), params)
            == params["uri" := value] + Collect(Split(q, ',')[1..], map[])
  {
    hide IsWhitespace, ParsePart, Split, IsKey;
    Marks();
    Words();
    var start := " " + ("uri" + "=");
    SplitPrefix(start, q, ',');
    var parts := Split(start + q, ',');
    KeyOfPart(" ", "uri", Split(q, ',')[0]);
    CollectFirst(parts, params);
    CollectOver(parts[1..], Insert(params, parts[0]));
    value := ParsePart(parts[0]).value.1;
  }

  /** Everything the parser reads from an answer whose other fields have no comma. */
  lemma AnswerParsed(v: Vector, uri: string, n: nat) returns (value: string)
    requires ',' !in v.username && ',' !in v.realm && ',' !in v.nonce && ',' !in v.expectedResponse
    ensures ParamsOf(Header(AnswerParams(v, uri, n)))
            == Meaning(AfterUri(v, n), Meaning(BeforeUri(v), map[])["uri" := value] + UriBinds(uri))
  {
    hide IsWhitespace, IsKey, WithoutPrefix, Trim, Collect, Split, EscapeHeader, Meaning, Listed, Printable, HexDigits;
    Marks();
    QuotedTexts();
    BodyOfHeader(AnswerParams(v, uri, n));
    AnswerSplits(v, uri, n);
    AnswerPrintable(v, n);
    var q := Quoted(EscapeHeader(uri));
    var first, second := Split(Listed(BeforeUri(v)), ','), Split(" " + ("uri" + "=") + q, ',');
    var third := Split(" " + Listed(AfterUri(v, n)), ',');
    assert [] + Listed(BeforeUri(v)) == Listed(BeforeUri(v));
    ParseOfListed([], BeforeUri(v), map[]);
    var named := Meaning(BeforeUri(v), map[]);
    value := UriCollected(q, named);
    CollectAppend(first, second + third, map[]);
    CollectAppend(second, third, named);
    ParseOfListed(" ", AfterUri(v, n), named["uri" := value] + UriBinds(uri));
  }

  /** What the verifier then finds under the five names it looks at. */
  lemma AnswerReads(v: Vector, uri: string, n: nat)
    requires ',' !in v.username && ',' !in v.realm && ',' !in v.nonce && ',' !in v.expectedResponse
    ensures var params, bound := ParamsOf(Header(AnswerParams(v, uri, n))), UriBinds(uri);
            && (Holds(params, "username", v.username) <==> FieldSurvives(bound, "username", v.username))
            && (Holds(params, "realm", v.realm) <==> FieldSurvives(bound, "realm", v.realm))
            && (Holds(params, "nonce", v.nonce) <==> FieldSurvives(bound, "nonce", v.nonce))
            && (Holds(params, "response", v.expectedResponse) <==> Clean(v.expectedResponse))
            && Holds(params, "algorithm", v.algorithm.Name())
  {
    hide ParamsOf, Header, TrimQuotes, EscapeHeader, IsWhitespace, HexDigits, UriBinds, AnswerParams, Meaning, Clean;
    var value := AnswerParsed(v, uri, n);
    var before, after := BeforeUri(v), AfterUri(v, n);
    var named := Meaning(before, map[]);
    var all := named["uri" := value] + UriBinds(uri);
    AnswerNames(v, n);
    MeaningAt(before, map[], 0);
    MeaningAt(before, map[], 1);
    MeaningAt(before, map[], 2);
    MeaningAt(after, all, 0);
    MeaningAt(after, all, 1);
    MeaningMeets(after, all, "username");
    MeaningMeets(after, all, "realm");
    MeaningMeets(after, all, "nonce");
    QuotedIff(v.username);
    QuotedIff(v.realm);
    QuotedIff(v.nonce);
    QuotedIff(v.expectedResponse);
    BareTexts(v.algorithm);
    BareReadsBack(v.algorithm.Name());
  }

  lemma MeaningMeets(ps: seq<Param>, params: map<string, string>, key: string)
    requires key in params && forall j :: 0 <= j < |ps| ==> ps[j].key != key
    ensures Holds(Meaning(ps, params), key, params[key])
  {
    MeaningKeeps(ps, params, key);
  }

  /** The URI's last piece that names the field gives its value, or none names it and it is
      plain. */
  predicate FieldSurvives(bound: map<string, string>, name: string, value: string) {
    if name in bound then bound[name] == value else Plain(value)
  }

  /** `UriBinds` never binds a value with a comma. */
  lemma UriBindsNoComma(uri: string)
    ensures forall k :: k in UriBinds(uri) ==> ',' !in UriBinds(uri)[k]
  {
    var q := Quoted(EscapeHeader(uri));
    JoinOfSplit(q, ',');
    var pieces := Split(q, ',');
    assert forall p :: p in pieces[1..] ==> p in pieces;
    ValuesHaveNoComma(pieces[1..], map[]);
  }

  /** For every vector, URI and count, the printed answer validates, to the vector's own identity,
      exactly when the response is plain and user name, realm and nonce survive the URI. */
  lemma RoundTripIff(v: Vector, uri: string, n: nat)
    ensures Validate(v, Header(AnswerParams(v, uri, n))) ==
            (if && Plain(v.expectedResponse)
                && FieldSurvives(UriBinds(uri), "username", v.username)
                && FieldSurvives(UriBinds(uri), "realm", v.realm)
                && FieldSurvives(UriBinds(uri), "nonce", v.nonce)
             then Some(Identity(v.username, v.subject, v.realm, v.scopes)) else None)
  {
    hide ParamsOf, Header, AnswerParams, TrimQuotes, Lower, IsWhitespace, UriBinds, Clean;
    UriBindsNoComma(uri);
    ParamsHaveNoComma(Header(AnswerParams(v, uri, n)));
    if ',' !in v.username && ',' !in v.realm && ',' !in v.nonce && ',' !in v.expectedResponse {
      AnswerReads(v, uri, n);
    }
  }

  /** Without a comma in the URI: exactly when all four are plain. */
  lemma CommaFreeRoundTripIff(v: Vector, uri: string, n: nat)
    requires ',' !in uri
    ensures Validate(v, Header(AnswerParams(v, uri, n))) ==
            (if Plain(v.username) && Plain(v.realm) && Plain(v.nonce) && Plain(v.expectedResponse)
             then Some(Identity(v.username, v.subject, v.realm, v.scopes)) else None)
  {
    hide Validate, Header, AnswerParams, EscapeHeader;
    EscapeKeepsCommas(uri);
    var q := Quoted(EscapeHeader(uri));
    SplitNone(q, ',');
    assert [q][1..] == [];
    RoundTripIff(v, uri, n);
  }

  /** What is read from an answer without stray commas: the vector's own fields, and those the
      provider always writes. */
  lemma PlainAnswerReads(v: Vector, uri: string, n: nat)
    requires Plain(v.username) && Plain(v.realm) && Plain(v.nonce) && Plain(v.expectedResponse) && ',' !in uri
    ensures var params := ParamsOf(Header(AnswerParams(v, uri, n)));
            && Holds(params, "username", v.username) && Holds(params, "realm", v.realm)
            && Holds(params, "nonce", v.nonce) && Holds(params, "response", v.expectedResponse)
            && Holds(params, "algorithm", if v.algorithm.AKAv1Md5? then "AKAv1-MD5" else "AKAv2-MD5")
            && Holds(params, "qop", "auth") && Holds(params, "cnonce", "static-aka")
            && (Clean(uri) ==> Holds(params, "uri", uri))
  {
    hide ParamsOf, Header, AnswerParams, EscapeHeader;
    EscapeKeepsCommas(uri);
    SplitNone(Quoted(EscapeHeader(uri)), ',');
    assert [Quoted(EscapeHeader(uri))][1..] == [];
    AnswerReads(v, uri, n);
    FixedFieldsRead(v, uri, n);
  }

  lemma FixedFieldsRead(v: Vector, uri: string, n: nat)
    requires ',' !in v.username && ',' !in v.realm && ',' !in v.nonce && ',' !in v.expectedResponse && ',' !in uri
    ensures var params := ParamsOf(Header(AnswerParams(v, uri, n)));
            && Holds(params, "qop", "auth") && Holds(params, "cnonce", "static-aka")
            && (Clean(uri) ==> Holds(params, "uri", uri))
  {
    hide ParamsOf, Header, Printable, LastOfItsName, TrimQuotes, EscapeHeader, HexDigits, IsWhitespace, Clean;
    hide AnswerParams, Quoted;
    var ps := AnswerParams(v, uri, n);
    WholeAnswerPrintable(v, uri, n);
    QuotedIff(uri);
    FixedNames(v, uri, n);
    ReadsBack(ps, 3);
    ReadsBack(ps, 6);
    ReadsBack(ps, 8);
    BareTexts(v.algorithm);
    BareReadsBack("auth");
    StaticReads();
  }

  lemma StaticReads()
    ensures TrimQuotes("\"static-aka\"") == "static-aka"
  {
    TrimSurrounded("\"", "static-aka", "\"", IsQuote);
    assert "\"" + "static-aka" + "\"" == "\"static-aka\"";
  }

  lemma WholeAnswerPrintable(v: Vector, uri: string, n: nat)
    requires ',' !in v.username && ',' !in v.realm && ',' !in v.nonce && ',' !in v.expectedResponse && ',' !in uri
    ensures forall i :: 0 <= i < |AnswerParams(v, uri, n)| ==> Printable(AnswerParams(v, uri, n)[i])
  {
    hide Printable, EscapeHeader, Quoted, HexDigits, BeforeUri, AfterUri;
    AnswerPrintable(v, n);
    Words();
    QuotedPrintable("uri", uri);
  }

  lemma FixedNames(v: Vector, uri: string, n: nat)
    ensures var ps := AnswerParams(v, uri, n);
            && |ps| == 9 && LastOfItsName(ps, 3) && LastOfItsName(ps, 6) && LastOfItsName(ps, 8)
            && ps[3] == Param("uri", Quoted(EscapeHeader(uri))) && ps[6] == Param("qop", "auth")
            && ps[8] == Param("cnonce", "\"static-aka\"")
  {
    hide EscapeHeader, Quoted, HexDigits;
    assert "uri"[0] == 'u' && "response"[0] == 'r' && "algorithm"[0] == 'a' && "qop"[0] == 'q' && "nc"[0] == 'n';
    assert "cnonce"[0] == 'c';
  }

  /** The answer carries its count: eight digits that spell it, for every 32-bit count. */
  lemma CountIsCarried(v: Vector, uri: string, n: nat)
    requires ',' !in v.username && ',' !in v.realm && ',' !in v.nonce && ',' !in v.expectedResponse
    requires n < 0x1_0000_0000
    ensures var params := ParamsOf(Header(AnswerParams(v, uri, n)));
            "nc" in params && |params["nc"]| == 8 && HexValue(params["nc"]) == n
  {
    hide ParamsOf, Header, TrimQuotes, EscapeHeader, IsWhitespace, HexDigits, HexValue, AnswerParams, Meaning;
    var value := AnswerParsed(v, uri, n);
    var after := AfterUri(v, n);
    assert |"nc"| == 2 && |"cnonce"| == 6 && after[3].key == "nc";
    MeaningAt(after, Meaning(BeforeUri(v), map[])["uri" := value] + UriBinds(uri), 3);
    BareHex(n);
    BareReadsBack(HexDigits(n, 8));
    EightDigits();
    HexDigitsSpell(n, 8);
  }

  lemma EightDigits()
    ensures Power16(8) == 0x1_0000_0000
  {
    assert Power16(4) == 0x1_0000;
  }

  lemma AlgorithmsDiffer(a: Algorithm, b: Algorithm)
    ensures Lower(a.Name()) == Lower(b.Name()) <==> a == b
  {
    assert a.Name()[4] != b.Name()[4] <==> a != b;
    if a != b { assert Lower(a.Name())[4] != Lower(b.Name())[4]; }
  }

  /** An answer made for another vector validates exactly when the two agree in user name, realm,
      nonce, response and algorithm. */
  lemma ForeignAnswerIff(v: Vector, other: Vector, uri: string, n: nat)
    requires Plain(other.username) && Plain(other.realm) && Plain(other.nonce) && Plain(other.expectedResponse)
    requires ',' !in uri
    ensures Validate(v, Header(AnswerParams(other, uri, n))).Some?
       <==> (&& v.username == other.username && v.realm == other.realm && v.nonce == other.nonce
             && v.expectedResponse == other.expectedResponse && v.algorithm == other.algorithm)
  {
    hide ParamsOf, Header, AnswerParams, Lower, Plain;
    PlainAnswerReads(other, uri, n);
    AlgorithmsDiffer(v.algorithm, other.algorithm);
  }

  /** Another vector's challenge is answered exactly when the two agree in realm, nonce and
      algorithm; a challenge that names none of them is always answered. */
  lemma ForeignChallengeIff(v: Vector, other: Vector, uri: string, n: nat)
    requires Plain(other.realm) && Plain(other.nonce)
    ensures Authorization(v, ChallengeValue(other), uri, n)
         == (if v.realm == other.realm && v.nonce == other.nonce && v.algorithm == other.algorithm
             then Ok(Header(AnswerParams(v, uri, n))) else Err(ChallengeMismatch))
  {
    hide ParamsOf, Header, AnswerParams, ChallengeValue, Lower, Clean;
    ChallengeReads(other);
    AlgorithmsDiffer(v.algorithm, other.algorithm);
  }

  /** The algorithm is compared without regard to case. */
  lemma AlgorithmIgnoresCase(v: Vector, authorization: string)
    ensures var params := ParamsOf(authorization);
            && Holds(params, "username", v.username) && Holds(params, "realm", v.realm)
            && Holds(params, "nonce", v.nonce) && Holds(params, "response", v.expectedResponse)
            && Holds(params, "algorithm", if v.algorithm.AKAv1Md5? then "akav1-md5" else "akav2-md5")
            ==> Validate(v, authorization) == Some(Identity(v.username, v.subject, v.realm, v.scopes))
  {
    hide ParamsOf;
    var name := v.algorithm.Name();
    assert name == if v.algorithm.AKAv1Md5? then "AKAv1-MD5" else "AKAv2-MD5";
    var lower := if v.algorithm.AKAv1Md5? then "akav1-md5" else "akav2-md5";
    assert Lower(name) == lower && Lower(lower) == lower;
  }

  lemma BareChallengeIsAnswered(v: Vector, challenge: string, uri: string, n: nat)
    ensures var params := ParamsOf(challenge);
            "realm" !in params && "nonce" !in params && "algorithm" !in params ==>
              Authorization(v, challenge, uri, n) == Ok(Header(AnswerParams(v, uri, n)))
  {
  }

  /** A URI with a comma can name a field: whatever the host, this one replaces the user name, and
      the provider's own answer is refused. */
  lemma CommaCanReplaceUser(v: Vector, host: string, n: nat)
    requires Plain(host) && v.username != "b"
    ensures Validate(v, Header(AnswerParams(v, host + [','] + ("username" + "=" + "b"), n))).None?
  {
    hide Validate, Header, AnswerParams, EscapeHeader, ParsePart, Split, Clean, UriBinds;
    var uri := host + [','] + ("username" + "=" + "b");
    CommaBinds(host);
    RoundTripIff(v, uri, n);
  }

  lemma CommaBinds(host: string)
    requires Plain(host)
    ensures UriBinds(host + [','] + ("username" + "=" + "b")) == map["username" := "b"]
  {
    hide EscapeHeader, ParsePart, Split, IsKey, IsWhitespace, UriBinds, Printable, TrimBy, Clean;
    var p := Param("username", "b\"");
    var uri, first := host + [','] + ("username" + "=" + "b"), "\"" + host;
    CommaUriIsClean(host);
    EscapeClean(uri);
    Words();
    PiecePrintable();
    PieceHasNoComma(p);
    Requoted(host, "username" + "=" + "b");
    assert Piece(p) == ("username" + "=" + "b") + "\"";
    OnePieceBinds(uri, first, Piece(p));
    ParseOfPiece([], p);
    assert [] + Piece(p) == Piece(p);
    TrimSurrounded([], "b", "\"", IsQuote);
    assert [] + "b" + "\"" == "b\"";
  }

  lemma Requoted(a: string, b: string)
    ensures Quoted(a + [','] + b) == "\"" + a + [','] + (b + "\"")
  {
  }

  lemma OnePieceBinds(uri: string, first: string, rest: string)
    requires Quoted(EscapeHeader(uri)) == first + [','] + rest && ',' !in first && ',' !in rest
    ensures UriBinds(uri) == match ParsePart(rest) case Some((k, v)) => map[k := v] case None => map[]
  {
    hide EscapeHeader, ParsePart, Split;
    SplitFirst(first, rest, ',');
    SplitNone(rest, ',');
    assert ([first] + [rest])[1..] == [rest];
    CollectFirst([rest], map[]);
    assert [rest][1..] == [];
  }

  lemma CommaUriIsClean(host: string)
    requires Plain(host)
    ensures Clean(host + [','] + ("username" + "=" + "b"))
  {
    var tail := [','] + ("username" + "=" + "b");
    assert Clean(tail);
    assert host + [','] + ("username" + "=" + "b") == host + tail;
  }

  lemma PiecePrintable()
    requires IsKey("username")
    ensures Printable(Param("username", "b\""))
  {
    hide IsKey;
  }
}
