/** How the Redis provider names its records. Four families of records share one flat
    namespace of strings; the builders keep them apart. */
module RedisKeys {
  import opened Prelude
  import Utf8

  datatype Kind =
    | SipRegister | SipRequest | BasicPassword | Password | ApiKey
    | BearerToken | TokenIssuance | Digest | Other(name: string)

  datatype RateKey = RateKey(kind: Kind, subject: Option<string>, realm: Option<string>, peer: Option<string>)

  /** A record of one of the four families, its rate field left open. */
  datatype Record<R> =
    | Nonce(nonce: string)
    | Count(user: string, nonce: string)
    | Token(issuer: Option<string>, token: string)
    | Rate(rate: R)

  /** A record by what it is about, and with rate keys known by their text only. */
  type Key = Record<RateKey>
  type Name = Record<string>

  // ----- Hexadecimal -----

  function Hex(b: seq<byte>): (s: string) {
    if b == [] then [] else Hex(b[..|b| - 1]) + [HEX[b[|b| - 1] / 16], HEX[b[|b| - 1] % 16]]
  }

  /** `hex_key`. */
  method HexKey(input: string) returns (output: string)
    ensures output == Hex(Utf8.Encode(input))
  {
    var bytes := Utf8.Encode(input);
    output := [];
    for i := 0 to |bytes|
      invariant output == Hex(bytes[..i])
    {
      assert bytes[..i + 1][..i] == bytes[..i];
      output := output + [HEX[bytes[i] / 16]];
      output := output + [HEX[bytes[i] % 16]];
    }
    assert bytes[..|bytes|] == bytes;
  }

  function HexOf(s: string): string { Hex(Utf8.Encode(s)) }

  lemma HexDigitInjective(x: int, y: int)
    requires 0 <= x < 16 && 0 <= y < 16 && HEX[x] == HEX[y]
    ensures x == y
  {
  }

  lemma {:induction false} HexInjective(a: seq<byte>, b: seq<byte>)
    requires Hex(a) == Hex(b)
    ensures a == b
  {
    if a != [] && b != [] {
      var x, y: byte := a[|a| - 1], b[|b| - 1];
      var n := |Hex(a)|;
      assert Hex(a)[n - 2] == HEX[x / 16] && Hex(a)[n - 1] == HEX[x % 16];
      assert Hex(b)[n - 2] == HEX[y / 16] && Hex(b)[n - 1] == HEX[y % 16];
      HexDigitInjective(x / 16, y / 16);
      HexDigitInjective(x % 16, y % 16);
      assert Hex(a)[..n - 2] == Hex(a[..|a| - 1]) && Hex(b)[..n - 2] == Hex(b[..|b| - 1]);
      HexInjective(a[..|a| - 1], b[..|b| - 1]);
      assert a == a[..|a| - 1] + [x] && b == b[..|b| - 1] + [y];
    }
  }

  lemma {:induction false} HexAt(b: seq<byte>, i: nat)
    requires i < |b|
    ensures |Hex(b)| == 2 * |b| && Hex(b)[2 * i] == HEX[b[i] / 16] && Hex(b)[2 * i + 1] == HEX[b[i] % 16]
  {
    var n := |b| - 1;
    if i < n { HexAt(b[..n], i); } else if n > 0 { HexAt(b[..n], 0); }
  }

  /** The two digits at a byte's place spell that byte. */
  lemma HexSpells(b: seq<byte>, i: nat)
    requires i < |b|
    ensures |Hex(b)| == 2 * |b| && DigitValue(Hex(b)[2 * i]) * 16 + DigitValue(Hex(b)[2 * i + 1]) == b[i]
  {
    hide Hex, DigitValue;
    HexAt(b, i);
    DigitSpells(b[i] / 16);
    DigitSpells(b[i] % 16);
  }

  lemma {:induction false} HexAlphabet(b: seq<byte>)
    ensures forall c :: c in Hex(b) ==> c in HEX
  {
    if b != [] { HexAlphabet(b[..|b| - 1]); }
  }

  lemma HexOfInjective(s: string, t: string)
    requires HexOf(s) == HexOf(t)
    ensures s == t
  {
    HexInjective(Utf8.Encode(s), Utf8.Encode(t));
    Utf8.EncodeInjective(s, t);
  }

  lemma HexOfPlain(s: string)
    ensures ':' !in HexOf(s) && '_' !in HexOf(s)
  {
    HexAlphabet(Utf8.Encode(s));
  }

  // ----- The builders -----

  /** The letter behind the backslash that stands for a character in a debug form. */
  function DebugCode(c: char): Option<char> {
    if c == '"' || c == '\\' then Some(c)
    else if c == '\0' then Some('0') else if c == '\t' then Some('t')
    else if c == '\r' then Some('r') else if c == '\n' then Some('n') else None
  }

  function DebugChar(c: char): string { if DebugCode(c).Some? then ['\\', DebugCode(c).value] else [c] }

  function DebugText(s: string): string { if s == [] then [] else DebugChar(s[0]) + DebugText(s[1..]) }

  function KindText(k: Kind): string {
    match k
    case SipRegister => "SipRegister" case SipRequest => "SipRequest" case BasicPassword => "BasicPassword"
    case Password => "Password" case ApiKey => "ApiKey" case BearerToken => "BearerToken"
    case TokenIssuance => "TokenIssuance" case Digest => "Digest"
    case Other(name) => "Other(\"" + (DebugText(name) + "\")")
  }

  /** The debug form escapes what Rust escapes, and nothing else that prints. */
  lemma DebugIs(c: char)
    ensures DebugText("\0\t\r\n\"\\") == "\\0\\t\\r\\n\\\"\\\\"
    ensures ' ' <= c && c != '"' && c != '\\' ==> DebugText([c]) == [c]
  {
    var s := "\0\t\r\n\"\\";
    assert s[1..] == "\t\r\n\"\\" && s[1..][1..] == "\r\n\"\\" && s[1..][1..][1..] == "\n\"\\";
    assert DebugText("\n\"\\") == "\\n\\\"\\\\" by {
      assert "\n\"\\"[1..] == "\"\\" && "\"\\"[1..] == "\\" && "\\"[1..] == [];
    }
    assert [c][1..] == [];
  }

  function OrUnderscore(f: Option<string>): string { if f.Some? then f.value else "_" }

  const SUBJECT := "|subject="
  const REALM := "|realm="
  const PEER := "|peer="

  /** The three caller fields as they are written. */
  function Tail(subject: string, realm: string, peer: string): string { subject + REALM + (realm + PEER + peer) }

  function Canonical(k: RateKey): string {
    "kind=" + (KindText(k.kind) + SUBJECT + Tail(OrUnderscore(k.subject), OrUnderscore(k.realm), OrUnderscore(k.peer)))
  }

  function IssuerText(issuer: Option<string>): string { if issuer.Some? then HexOf(issuer.value) else "_" }

  function Named(k: Key): Name {
    match k
    case Nonce(n) => Nonce(n)
    case Count(u, n) => Count(u, n)
    case Token(i, t) => Token(i, t)
    case Rate(r) => Rate(Canonical(r))
  }

  function Family(k: Name): string {
    match k
    case Nonce(_) => ":digest:nonce:"
    case Count(_, _) => ":digest:nc:"
    case Token(_, _) => ":token:revoked:"
    case Rate(_) => ":rate:"
  }

  function Fields(k: Name): string {
    match k
    case Nonce(n) => HexOf(n)
    case Count(u, n) => HexOf(u) + ":" + HexOf(n)
    case Token(i, t) => IssuerText(i) + ":" + HexOf(t)
    case Rate(text) => HexOf(text)
  }

  function RenderName(namespace: string, n: Name): string { namespace + (Family(n) + Fields(n)) }

  /** `nonce_key`, `nonce_count_key`, `token_key`, `rate_limit_key`. */
  function Render(namespace: string, k: Key): string { RenderName(namespace, Named(k)) }

  /** The names as they stand in the store. */
  lemma NamesAre(ns: string, nonce: string, user: string, issuer: string, token: string)
    ensures Render(ns, Nonce(nonce)) == ns + ":digest:nonce:" + HexOf(nonce)
    ensures Render(ns, Count(user, nonce)) == ns + ":digest:nc:" + HexOf(user) + ":" + HexOf(nonce)
    ensures Render(ns, Token(None, token)) == ns + ":token:revoked:_:" + HexOf(token)
    ensures Render(ns, Token(Some(issuer), token)) == ns + ":token:revoked:" + HexOf(issuer) + ":" + HexOf(token)
  {
    hide HexOf;
    assert ":token:revoked:" + "_:" == ":token:revoked:_:";
  }

  lemma RateNameIs(ns: string, k: Kind, subject: string, peer: string)
    ensures Render(ns, Rate(RateKey(k, Some(subject), None, Some(peer))))
         == ns + ":rate:" + HexOf("kind=" + KindText(k) + "|subject=" + subject + "|realm=_|peer=" + peer)
  {
    hide HexOf, KindText;
    assert Canonical(RateKey(k, Some(subject), None, Some(peer)))
        == "kind=" + KindText(k) + "|subject=" + subject + "|realm=_|peer=" + peer;
  }

  /** The variants are named as they are declared. */
  lemma KindsAre(name: string)
    ensures [KindText(SipRegister), KindText(SipRequest), KindText(BasicPassword), KindText(Password)]
         == ["SipRegister", "SipRequest", "BasicPassword", "Password"]
    ensures [KindText(ApiKey), KindText(BearerToken), KindText(TokenIssuance), KindText(Digest)]
         == ["ApiKey", "BearerToken", "TokenIssuance", "Digest"]
    ensures KindText(Other(name)) == "Other(\"" + DebugText(name) + "\")"
  {
    assert "Other(\"" + (DebugText(name) + "\")") == "Other(\"" + DebugText(name) + "\")";
  }

  // ----- Injectivity -----

  /** A first field without the separator can be told from what follows it. */
  lemma FieldsApart(a: string, b: string, c: string, d: string, sep: char)
    requires sep !in a && sep !in c && a + [sep] + b == c + [sep] + d
    ensures a == c && b == d
  {
    var s, t := a + [sep] + b, c + [sep] + d;
    assert s[|a|] == sep && t[|c|] == sep;
    assert forall i :: 0 <= i < |a| ==> s[i] == a[i] && s[i] != sep;
    assert forall i :: 0 <= i < |c| ==> t[i] == c[i] && t[i] != sep;
    assert |a| == |c|;
    assert s[..|a|] == a && t[..|c|] == c && s[|a| + 1..] == b && t[|c| + 1..] == d;
  }

  lemma SamePrefix(p: string, a: string, b: string)
    requires p + a == p + b
    ensures a == b
  {
    assert (p + a)[|p|..] == a && (p + b)[|p|..] == b;
  }

  /** The four families never meet: the second character, or else the tenth, tells. */
  lemma FamiliesApart(k1: Name, k2: Name, rest1: string, rest2: string)
    requires Family(k1) + rest1 == Family(k2) + rest2
    ensures Family(k1) == Family(k2) && rest1 == rest2
  {
    var f1, f2 := Family(k1), Family(k2);
    assert |f1| >= 6 && |f2| >= 6;
    assert f1[1] == (f1 + rest1)[1] && f2[1] == (f2 + rest2)[1];
    if f1[1] == 'd' { assert f1[9] == (f1 + rest1)[9] && f2[9] == (f2 + rest2)[9]; }
    SamePrefix(f1, rest1, rest2);
  }

  /** Each debug form can be told from what follows, and never starts with a bare quote. */
  lemma DebugCharUnique(c: char, d: char, x: string, y: string)
    requires DebugChar(c) + x == DebugChar(d) + y
    ensures c == d && x == y
  {
    var s, t := DebugChar(c) + x, DebugChar(d) + y;
    DebugCodeUnique(c, d);
    hide DebugCode;
    assert s[0] == DebugChar(c)[0] && t[0] == DebugChar(d)[0];
    if DebugCode(c).Some? && DebugCode(d).Some? { assert s[1] == DebugChar(c)[1] && t[1] == DebugChar(d)[1]; }
    assert s[|DebugChar(c)|..] == x && t[|DebugChar(d)|..] == y;
  }

  lemma DebugCodeUnique(c: char, d: char)
    ensures DebugCode(c).Some? && DebugCode(c) == DebugCode(d) ==> c == d
    ensures DebugCode('\\').Some? && DebugCode('"').Some?
  {
  }

  /** The first bare quote ends the debug form of a string. */
  lemma {:induction false} DebugUnique(n: string, n': string, x: string, x': string)
    requires DebugText(n) + ['"'] + x == DebugText(n') + ['"'] + x'
    ensures n == n' && x == x'
  {
    hide DebugChar;
    if n == [] && n' == [] {
      assert ([] + ['"'] + x)[1..] == x && ([] + ['"'] + x')[1..] == x';
    } else if n == [] || n' == [] {
      BareQuote(n, x);
      BareQuote(n', x');
    } else {
      var rest, rest' := DebugText(n[1..]) + ['"'] + x, DebugText(n'[1..]) + ['"'] + x';
      assert DebugText(n) + ['"'] + x == DebugChar(n[0]) + rest;
      assert DebugText(n') + ['"'] + x' == DebugChar(n'[0]) + rest';
      DebugCharUnique(n[0], n'[0], rest, rest');
      DebugUnique(n[1..], n'[1..], x, x');
      assert n == [n[0]] + n[1..] && n' == [n'[0]] + n'[1..];
    }
  }

  lemma BareQuote(n: string, x: string)
    ensures (DebugText(n) + ['"'] + x)[0] == '"' <==> n == []
  {
    if n != [] { assert (DebugText(n) + ['"'] + x)[0] == DebugChar(n[0])[0]; }
  }

  lemma KindInjective(a: Kind, b: Kind)
    requires KindText(a) == KindText(b)
    ensures a == b
  {
    KindMark(a);
    KindMark(b);
    if a.Other? && b.Other? {
      SamePrefix("Other(\"", DebugText(a.name) + "\")", DebugText(b.name) + "\")");
      assert "\")" == ['"'] + ")";
      assert DebugText(a.name) + "\")" == DebugText(a.name) + ['"'] + ")";
      assert DebugText(b.name) + "\")" == DebugText(b.name) + ['"'] + ")";
      DebugUnique(a.name, b.name, ")", ")");
    }
  }

  /** Length and two letters tell the kinds apart. */
  lemma KindMark(k: Kind)
    ensures |KindText(k)| >= 5
    ensures k.Other? <==> KindText(k)[0] == 'O'
    ensures k.SipRegister? ==> KindText(k)[0] == 'S' && |KindText(k)| == 11
    ensures k.SipRequest? ==> KindText(k)[0] == 'S' && |KindText(k)| == 10
    ensures k.BasicPassword? ==> KindText(k)[0] == 'B' && |KindText(k)| == 13
    ensures k.BearerToken? ==> KindText(k)[0] == 'B' && |KindText(k)| == 11
    ensures k.Password? ==> KindText(k)[0] == 'P'
    ensures k.ApiKey? ==> KindText(k)[0] == 'A'
    ensures k.TokenIssuance? ==> KindText(k)[0] == 'T'
    ensures k.Digest? ==> KindText(k)[0] == 'D'
  {
  }

  // ----- Which rate keys have a name of their own -----

  predicate Contains(s: string, pattern: string) { Find(s, pattern).Some? }

  /** No field contains the text that introduces a later one. */
  predicate MarkerFree(k: RateKey) {
    && !Contains(OrUnderscore(k.subject), REALM)
    && !Contains(OrUnderscore(k.realm), REALM) && !Contains(OrUnderscore(k.realm), PEER)
    && !Contains(OrUnderscore(k.peer), PEER)
  }

  /** An absent field and the field "_" are written alike. */
  function Blurred(k: RateKey): RateKey {
    RateKey(k.kind, Some(OrUnderscore(k.subject)), Some(OrUnderscore(k.realm)), Some(OrUnderscore(k.peer)))
  }

  /** A bar stands at the start of the pattern and nowhere else in it. */
  predicate Marked(pattern: string) { pattern != [] && pattern[0] == '|' && '|' !in pattern[1..] }

  /** A marked pattern occurs in text before a marker, behind it, or as the marker itself. */
  lemma OccurrenceSides(a: string, m: string, b: string, pattern: string, i: nat)
    requires Marked(pattern) && Marked(m) && OccursAt(a + m + b, pattern, i)
    ensures || OccursAt(a, pattern, i)
            || (i == |a| && forall j :: 0 <= j < |pattern| && j < |m| ==> pattern[j] == m[j])
            || (i >= |a + m| && OccursAt(b, pattern, i - |a + m|))
  {
    var s := a + m + b;
    assert forall j :: 0 <= j < |pattern| ==> s[i + j] == s[i..i + |pattern|][j] == pattern[j];
    assert forall j :: 1 <= j < |pattern| ==> pattern[j] == pattern[1..][j - 1] && pattern[j] != '|';
    assert forall j :: 1 <= j < |m| ==> m[j] == m[1..][j - 1] && m[j] != '|';
    assert forall j :: 0 <= j < |m| ==> s[|a| + j] == m[j];
    if i < |a| {
      assert s[|a|] == '|';
      assert i + |pattern| <= |a|;
      assert a[i..i + |pattern|] == s[i..i + |pattern|];
    } else if i > |a| {
      assert s[i] == '|';
      assert i >= |a + m|;
      assert b[i - |a + m|..i - |a + m| + |pattern|] == s[i..i + |pattern|];
    }
  }

  lemma NotContained(s: string, pattern: string, i: nat)
    requires !Contains(s, pattern)
    ensures !OccursAt(s, pattern, i)
  {
  }

  lemma MarkersAreMarked()
    ensures Marked(REALM) && Marked(PEER)
    ensures REALM[1] == 'r' && PEER[1] == 'p'
  {
  }

  /** Where the second marker can stand in the tail of a marker-free key. */
  lemma RealmPlace(subject: string, realm: string, peer: string, i: nat)
    requires !Contains(subject, REALM) && !Contains(realm, REALM) && OccursAt(Tail(subject, realm, peer), REALM, i)
    ensures i == |subject| || i >= |subject + REALM + realm + PEER|
  {
    MarkersAreMarked();
    OccurrenceSides(subject, REALM, realm + PEER + peer, REALM, i);
    NotContained(subject, REALM, i);
    if i >= |subject + REALM| {
      var j := i - |subject + REALM|;
      OccurrenceSides(realm, PEER, peer, REALM, j);
      NotContained(realm, REALM, j);
    }
  }

  lemma PeerPlace(subject: string, realm: string, peer: string, i: nat)
    requires !Contains(realm, PEER) && !Contains(peer, PEER) && OccursAt(Tail(subject, realm, peer), PEER, i)
    ensures i == |subject + REALM + realm| || i + |PEER| <= |subject|
  {
    MarkersAreMarked();
    OccurrenceSides(subject, REALM, realm + PEER + peer, PEER, i);
    if i >= |subject + REALM| {
      var j := i - |subject + REALM|;
      OccurrenceSides(realm, PEER, peer, PEER, j);
      NotContained(realm, PEER, j);
      NotContained(peer, PEER, if j >= |realm + PEER| then j - |realm + PEER| else 0);
    }
  }

  /** In every tail the second marker occurs, and the third behind it. */
  lemma TailMarkers(subject: string, realm: string, peer: string)
    ensures var s, i := Tail(subject, realm, peer), |subject|;
            OccursAt(s, REALM, i) && OccursAt(s, PEER, i + |REALM| + |realm|)
  {
    var s, i := Tail(subject, realm, peer), |subject|;
    var j := i + |REALM| + |realm|;
    assert s == subject + REALM + realm + PEER + peer;
    assert s[i..i + |REALM|] == REALM;
    assert s[j..j + |PEER|] == PEER;
  }

  /** A marker-free tail can be read in one way only. */
  lemma TailUnique(subject: string, realm: string, peer: string, subject': string, realm': string, peer': string)
    requires !Contains(subject, REALM) && !Contains(realm, REALM) && !Contains(realm, PEER) && !Contains(peer, PEER)
    requires Tail(subject, realm, peer) == Tail(subject', realm', peer')
    ensures subject == subject' && realm == realm' && peer == peer'
  {
    hide Contains, Tail, OccursAt;
    var s := Tail(subject, realm, peer);
    TailMarkers(subject', realm', peer');
    var i, j := |subject'|, |subject'| + |REALM| + |realm'|;
    RealmPlace(subject, realm, peer, i);
    PeerPlace(subject, realm, peer, j);
    assert i == |subject| && j == |subject + REALM + realm|;
    CutTail(subject, realm, peer);
    CutTail(subject', realm', peer');
  }

  lemma CutTail(subject: string, realm: string, peer: string)
    ensures var s, i, j := Tail(subject, realm, peer), |subject|, |subject + REALM + realm|;
            i + |REALM| <= j <= |s| - |PEER|
            && s[..i] == subject && s[i + |REALM|..j] == realm && s[j + |PEER|..] == peer
  {
    var s := Tail(subject, realm, peer);
    assert s == subject + REALM + realm + PEER + peer;
  }

  /** The kind can be read in one way only: a built-in one holds no bar, and a custom one ends at
      its first bare quote. */
  lemma KindUnique(a: RateKey, b: RateKey)
    requires Canonical(a) == Canonical(b)
    ensures a.kind == b.kind
  {
    var ta := Tail(OrUnderscore(a.subject), OrUnderscore(a.realm), OrUnderscore(a.peer));
    var tb := Tail(OrUnderscore(b.subject), OrUnderscore(b.realm), OrUnderscore(b.peer));
    var ka, kb := KindText(a.kind), KindText(b.kind);
    SamePrefix("kind=", ka + SUBJECT + ta, kb + SUBJECT + tb);
    KindMark(a.kind);
    KindMark(b.kind);
    assert ka[0] == (ka + SUBJECT + ta)[0] && kb[0] == (kb + SUBJECT + tb)[0];
    if a.kind.Other? {
      OtherWritten(a.kind.name, ta);
      OtherWritten(b.kind.name, tb);
      SamePrefix("Other(\"", DebugText(a.kind.name) + ['"'] + (")" + SUBJECT + ta),
                 DebugText(b.kind.name) + ['"'] + (")" + SUBJECT + tb));
      DebugUnique(a.kind.name, b.kind.name, ")" + SUBJECT + ta, ")" + SUBJECT + tb);
    } else {
      KindTextBarFree(a.kind);
      KindTextBarFree(b.kind);
      BarSplit(ka, ta);
      BarSplit(kb, tb);
      FieldsApart(ka, "subject=" + ta, kb, "subject=" + tb, '|');
      KindInjective(a.kind, b.kind);
    }
  }

  lemma OtherWritten(name: string, t: string)
    ensures KindText(Other(name)) + SUBJECT + t == "Other(\"" + (DebugText(name) + ['"'] + (")" + SUBJECT + t))
  {
    hide DebugText;
    assert "\")" == ['"'] + ")";
  }

  lemma BarSplit(k: string, t: string)
    ensures k + SUBJECT + t == k + ['|'] + ("subject=" + t)
  {
    assert SUBJECT == ['|'] + "subject=";
  }

  lemma KindTextBarFree(k: Kind)
    requires !k.Other?
    ensures '|' !in KindText(k)
  {
  }

  /** The name of a marker-free key gives the key back, up to absent fields. */
  lemma MarkerFreeIsUnique(a: RateKey, b: RateKey)
    requires MarkerFree(a) && Canonical(a) == Canonical(b)
    ensures Blurred(a) == Blurred(b)
  {
    hide Contains;
    KindUnique(a, b);
    var ta := Tail(OrUnderscore(a.subject), OrUnderscore(a.realm), OrUnderscore(a.peer));
    var tb := Tail(OrUnderscore(b.subject), OrUnderscore(b.realm), OrUnderscore(b.peer));
    SamePrefix("kind=", KindText(a.kind) + SUBJECT + ta, KindText(b.kind) + SUBJECT + tb);
    SamePrefix(KindText(a.kind) + SUBJECT, ta, tb);
    TailUnique(OrUnderscore(a.subject), OrUnderscore(a.realm), OrUnderscore(a.peer),
               OrUnderscore(b.subject), OrUnderscore(b.realm), OrUnderscore(b.peer));
  }

  // ----- Every other key shares its name -----

  lemma Cut(s: string, pattern: string) returns (x: string, y: string)
    requires Contains(s, pattern)
    ensures s == x + pattern + y
  {
    var i := Find(s, pattern).value;
    x, y := s[..i], s[i + |pattern|..];
    assert s == s[..i] + s[i..i + |pattern|] + s[i + |pattern|..];
  }

  lemma TailRegroup(x: string, y: string, z: string, w: string)
    ensures Tail(x + REALM + y, z, w) == Tail(x, y + REALM + z, w)
    ensures Tail(x, y + PEER + z, w) == Tail(x, y, z + PEER + w)
  {
    var e := z + PEER + w;
    assert x + REALM + y + REALM + e == x + REALM + (y + REALM + z + PEER + w);
  }

  /** A key with the text of a marker in a field has a namesake that is not itself. */
  lemma Namesake(a: RateKey) returns (b: RateKey)
    requires !MarkerFree(a)
    ensures Canonical(a) == Canonical(b) && Blurred(a) != Blurred(b)
  {
    hide Contains, KindText;
    var s, r, p := OrUnderscore(a.subject), OrUnderscore(a.realm), OrUnderscore(a.peer);
    if Contains(s, REALM) {
      var x, y := Cut(s, REALM);
      TailRegroup(x, y, r, p);
      b := RateKey(a.kind, Some(x), Some(y + REALM + r), Some(p));
    } else if Contains(r, REALM) {
      var x, y := Cut(r, REALM);
      TailRegroup(s, x, y, p);
      b := RateKey(a.kind, Some(s + REALM + x), Some(y), Some(p));
    } else if Contains(r, PEER) {
      var x, y := Cut(r, PEER);
      TailRegroup(s, x, y, p);
      b := RateKey(a.kind, Some(s), Some(x), Some(y + PEER + p));
    } else {
      var x, y := Cut(p, PEER);
      TailRegroup(s, r, x, y);
      b := RateKey(a.kind, Some(s), Some(r + PEER + x), Some(y));
    }
  }

  /** A rate key shares its name with nothing but its own blurrings exactly when no field holds
      the text that introduces a later one. */
  lemma OwnNameIff(a: RateKey)
    ensures (forall b :: Canonical(b) == Canonical(a) ==> Blurred(b) == Blurred(a)) <==> MarkerFree(a)
  {
    if MarkerFree(a) {
      forall b | Canonical(b) == Canonical(a) ensures Blurred(b) == Blurred(a) { MarkerFreeIsUnique(a, b); }
    } else {
      var b := Namesake(a);
    }
  }

  /** Two distinct callers share a counter when one is anonymous and the other named "_". */
  lemma UnderscoreIsConfused()
    ensures var a, b := RateKey(Digest, None, None, None), RateKey(Digest, Some("_"), None, None);
            a != b && Canonical(a) == Canonical(b)
  {
  }

  /** So do these, for any texts: the bar in one field is read as the start of the next. */
  lemma BarIsConfused(kind: Kind, x: string, y: string, z: string, peer: Option<string>)
    ensures var a := RateKey(kind, Some(x + REALM + y), Some(z), peer);
            var b := RateKey(kind, Some(x), Some(y + REALM + z), peer);
            a != b && Canonical(a) == Canonical(b)
  {
    TailRegroup(x, y, z, OrUnderscore(peer));
    assert |x + REALM + y| > |x|;
  }

  /** Keys that are written unambiguously. */
  predicate Safe(k: Key) {
    k.Rate? ==>
      && MarkerFree(k.rate)
      && k.rate.subject != Some("_") && k.rate.realm != Some("_") && k.rate.peer != Some("_")
  }

  /** Names have distinct strings, across and within families, whatever their texts. */
  lemma RenderNameInjective(namespace: string, a: Name, b: Name)
    ensures RenderName(namespace, a) == RenderName(namespace, b) <==> a == b
  {
    if RenderName(namespace, a) == RenderName(namespace, b) { SameName(namespace, a, b); }
  }

  lemma SameName(namespace: string, a: Name, b: Name)
    requires RenderName(namespace, a) == RenderName(namespace, b)
    ensures a == b
  {
    SamePrefix(namespace, Family(a) + Fields(a), Family(b) + Fields(b));
    FamiliesApart(a, b, Fields(a), Fields(b));
    SameFamily(a, b);
    match a
    case Nonce(n) =>
      HexOfInjective(n, b.nonce);
    case Count(u, n) =>
      HexOfPlain(u);
      HexOfPlain(b.user);
      FieldsApart(HexOf(u), HexOf(n), HexOf(b.user), HexOf(b.nonce), ':');
      HexOfInjective(u, b.user);
      HexOfInjective(n, b.nonce);
    case Token(i, t) =>
      IssuerApart(i, b.issuer, HexOf(t), HexOf(b.token));
      HexOfInjective(t, b.token);
    case Rate(text) =>
      HexOfInjective(text, b.rate);
  }

  /** Two records share a string exactly when they are the same, or rate records whose keys are
      written alike. */
  lemma RenderIff(namespace: string, a: Key, b: Key)
    ensures Render(namespace, a) == Render(namespace, b)
       <==> a == b || (a.Rate? && b.Rate? && Canonical(a.rate) == Canonical(b.rate))
  {
    hide RenderName, Canonical;
    RenderNameInjective(namespace, Named(a), Named(b));
  }

  /** Safe records have distinct strings. */
  lemma RenderInjective(namespace: string, a: Key, b: Key)
    requires Safe(a) && Safe(b)
    ensures Render(namespace, a) == Render(namespace, b) <==> a == b
  {
    hide Render, Canonical, MarkerFree;
    RenderIff(namespace, a, b);
    if a.Rate? && b.Rate? && Canonical(a.rate) == Canonical(b.rate) { MarkerFreeIsUnique(a.rate, b.rate); }
  }

  lemma SameFamily(a: Name, b: Name)
    requires Family(a) == Family(b)
    ensures a.Nonce? == b.Nonce? && a.Count? == b.Count? && a.Token? == b.Token? && a.Rate? == b.Rate?
  {
    assert |Family(a)| == |Family(b)|;
  }

  lemma IssuerApart(i: Option<string>, j: Option<string>, a: string, b: string)
    requires IssuerText(i) + ":" + a == IssuerText(j) + ":" + b
    ensures i == j && a == b
  {
    if i.Some? { HexOfPlain(i.value); }
    if j.Some? { HexOfPlain(j.value); }
    FieldsApart(IssuerText(i), a, IssuerText(j), b, ':');
    assert "_"[0] == '_';
    if i.Some? && j.Some? { HexOfInjective(i.value, j.value); }
  }
}
