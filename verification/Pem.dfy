/** PEM bundles (section 5 of RFC 7468) and the trust store filled from them. */
module Pem {
  import opened Prelude
  import Base64
  import Utf8

  const BEGIN := "-----BEGIN CERTIFICATE-----"
  const END := "-----END CERTIFICATE-----"

  datatype PemError = NotUtf8 | BeginWithoutEnd | BadBase64 | NoCertificates

  function NotWhitespace(): char -> bool { (c: char) => !IsWhitespace(c) }

  /** A block's body without its whitespace. */
  function Cleaned(body: string): string { Filter(body, NotWhitespace()) }

  // ----- The grammar -----

  /** Put in front of `marker`, `filler` does not make it match any earlier. */
  ghost predicate NotBefore(filler: string, marker: string) {
    FirstAt(filler + marker, marker, |filler|)
  }

  /** `text` is `filler`, then a BEGIN/END block around `body`, then `rest`. */
  ghost predicate IsBlock(text: string, filler: string, body: string, rest: string) {
    text == filler + BEGIN + body + END + rest && NotBefore(filler, BEGIN)
  }

  /** `text` holds exactly these certificates, in order, and no further block. */
  ghost predicate IsBundle(text: string, ders: seq<seq<byte>>)
    decreases |ders|
  {
    if ders == [] then forall i: nat :: !OccursAt(text, BEGIN, i)
    else
      exists filler: string, body: string, rest: string ::
        && IsBlock(text, filler, body, rest)
        && Cleaned(body) == Base64.Encode(Base64.STANDARD, ders[0])
        && IsBundle(rest, ders[1..])
  }

  // ----- Reading -----

  function BlocksOf(cursor: string): (r: Result<seq<seq<byte>>, PemError>)
    decreases |cursor|
  {
    match Find(cursor, BEGIN)
    case None => Ok([])
    case Some(i) =>
      var after := cursor[i + |BEGIN|..];
      match Find(after, END)
      case None => Err(BeginWithoutEnd)
      case Some(j) =>
        match Base64.Decode(Base64.STANDARD, Cleaned(after[..j]))
        case None => Err(BadBase64)
        case Some(der) =>
          var ders :- BlocksOf(after[j + |END|..]);
          Ok([der] + ders)
  }

  function BundleOf(pem: seq<byte>): (r: Result<seq<seq<byte>>, PemError>) {
    match Utf8.Decode(pem)
    case None => Err(NotUtf8)
    case Some(text) => BlocksOf(text)
  }

  /** `decode_pem_bundle`. */
  method DecodePemBundle(pem: seq<byte>) returns (r: Result<seq<seq<byte>>, PemError>)
    ensures r == BundleOf(pem)
  {
    var text := Utf8.Decode(pem);
    if text.None? { return Err(NotUtf8); }
    var out: seq<seq<byte>> := [];
    var cursor := text.value;
    AfterNothing(BlocksOf(cursor));
    while true
      invariant BlocksOf(text.value) == After(out, BlocksOf(cursor))
      decreases |cursor|
    {
      var begin := Find(cursor, BEGIN);
      if begin.None? { break; }
      var afterBegin := cursor[begin.value + |BEGIN|..];
      var end := Find(afterBegin, END);
      if end.None? { return Err(BeginWithoutEnd); }
      var der := Base64.Decode(Base64.STANDARD, Cleaned(afterBegin[..end.value]));
      if der.None? { return Err(BadBase64); }
      var next := afterBegin[end.value + |END|..];
      AfterOne(out, der.value, BlocksOf(next));
      out := out + [der.value];
      cursor := next;
    }
    assert out + [] == out;
    r := Ok(out);
  }

  // ----- The reader accepts exactly the grammar -----

  lemma FirstUnique(s: string, marker: string, i: nat, j: nat)
    requires FirstAt(s, marker, i) && FirstAt(s, marker, j)
    ensures i == j
  {
  }

  /** Text behind the marker cannot create an earlier match. */
  lemma MarkerFound(filler: string, marker: string, rest: string)
    ensures NotBefore(filler, marker) <==> Find(filler + marker + rest, marker) == Some(|filler|)
  {
    var s, p := filler + marker + rest, filler + marker;
    forall j: nat | j <= |filler| ensures OccursAt(s, marker, j) <==> OccursAt(p, marker, j) {
      assert s[j..j + |marker|] == p[j..j + |marker|];
    }
    assert OccursAt(p, marker, |filler|);
    if NotBefore(filler, marker) {
      assert FirstAt(s, marker, |filler|);
      FirstUnique(s, marker, |filler|, Find(s, marker).value);
    }
  }

  /** A match agrees with the marker character by character. */
  lemma MatchAgrees(s: string, marker: string, i: nat, k: nat)
    requires k < |marker|
    ensures OccursAt(s, marker, i) ==> s[i + k] == marker[k]
  {
    if OccursAt(s, marker, i) { assert s[i + k] == s[i..i + |marker|][k]; }
  }

  /** What is found splits the text. */
  lemma FoundSplits(s: string, marker: string, i: nat)
    requires Find(s, marker) == Some(i)
    ensures s == s[..i] + marker + s[i + |marker|..] && NotBefore(s[..i], marker)
  {
    assert s == s[..i] + marker + s[i + |marker|..];
    MarkerFound(s[..i], marker, s[i + |marker|..]);
  }

  lemma {:induction false} FilterMember<T>(s: seq<T>, p: T -> bool, x: T)
    requires x in s && p(x)
    ensures x in Filter(s, p)
  {
    if s[0] != x { FilterMember(s[1..], p, x); }
  }

  /** A body that spells Base64 holds no dash, so it cannot hide an END marker. */
  lemma BodyBeforeEnd(body: string, der: seq<byte>)
    requires Cleaned(body) == Base64.Encode(Base64.STANDARD, der)
    ensures NotBefore(body, END)
  {
    Base64.EncodeAlphabet(Base64.STANDARD, der);
    forall k | 0 <= k < |body| ensures body[k] != '-' {
      if !IsWhitespace(body[k]) { FilterMember(body, NotWhitespace(), body[k]); }
    }
    var s := body + END;
    assert OccursAt(s, END, |body|);
    forall j: nat | j < |body| ensures !OccursAt(s, END, j) {
      MatchAgrees(s, END, j, 0);
      assert s[j] == body[j];
    }
  }

  lemma JoinBlock(filler: string, begin: string, body: string, end: string, rest: string)
    ensures filler + begin + (body + end + rest) == filler + begin + body + end + rest
  {
  }

  lemma {:induction false} BlocksSound(text: string)
    requires BlocksOf(text).Ok?
    ensures IsBundle(text, BlocksOf(text).value)
    decreases |text|
  {
    hide Base64.Decode, Base64.Encode, Cleaned, FindFrom, Find;
    if Find(text, BEGIN).Some? {
      var i := Find(text, BEGIN).value;
      var after := text[i + |BEGIN|..];
      var j := Find(after, END).value;
      var filler, body, rest := text[..i], after[..j], after[j + |END|..];
      assert IsBlock(text, filler, body, rest) by {
        FoundSplits(text, BEGIN, i);
        FoundSplits(after, END, j);
        JoinBlock(filler, BEGIN, body, END, rest);
      }
      Base64.EncodeOfDecode(Base64.STANDARD, Cleaned(body));
      BlocksSound(rest);
      assert BlocksOf(text).value[1..] == BlocksOf(rest).value;
    }
  }

  /** A block at the front of the text is what the loop takes off it. */
  lemma BlockTaken(text: string, filler: string, body: string, rest: string, der: seq<byte>)
    requires IsBlock(text, filler, body, rest) && Cleaned(body) == Base64.Encode(Base64.STANDARD, der)
    ensures Find(text, BEGIN) == Some(|filler|)
    ensures var after := text[|filler| + |BEGIN|..];
            Find(after, END) == Some(|body|) && after[..|body|] == body && after[|body| + |END|..] == rest
  {
    var after := body + END + rest;
    JoinBlock(filler, BEGIN, body, END, rest);
    MarkerFound(filler, BEGIN, after);
    DropTwo(filler, BEGIN, after);
    BodyBeforeEnd(body, der);
    MarkerFound(body, END, rest);
    DropTwo(body, END, rest);
  }

  lemma DropTwo(a: string, b: string, c: string)
    ensures (a + b + c)[|a| + |b|..] == c && (a + b + c)[..|a|] == a
  {
  }

  lemma BlocksOfBlock(text: string, filler: string, body: string, rest: string, ders: seq<seq<byte>>)
    requires ders != [] && IsBlock(text, filler, body, rest) && Cleaned(body) == Base64.Encode(Base64.STANDARD, ders[0])
    requires BlocksOf(rest) == Ok(ders[1..])
    ensures BlocksOf(text) == Ok(ders)
  {
    BlockTaken(text, filler, body, rest, ders[0]);
    Base64.DecodeOfEncode(Base64.STANDARD, ders[0]);
    assert ders == [ders[0]] + ders[1..];
  }

  lemma BundleParts(text: string, ders: seq<seq<byte>>) returns (filler: string, body: string, rest: string)
    requires ders != [] && IsBundle(text, ders)
    ensures IsBlock(text, filler, body, rest)
    ensures Cleaned(body) == Base64.Encode(Base64.STANDARD, ders[0])
    ensures IsBundle(rest, ders[1..])
  {
    filler, body, rest :|
      && IsBlock(text, filler, body, rest)
      && Cleaned(body) == Base64.Encode(Base64.STANDARD, ders[0])
      && IsBundle(rest, ders[1..]);
  }

  lemma {:induction false} BlocksComplete(text: string, ders: seq<seq<byte>>)
    requires IsBundle(text, ders)
    ensures BlocksOf(text) == Ok(ders)
    decreases |ders|
  {
    if ders != [] {
      var filler, body, rest := BundleParts(text, ders);
      BlocksComplete(rest, ders[1..]);
      BlocksOfBlock(text, filler, body, rest, ders);
    }
  }

  /** `decode_pem_bundle` returns a list exactly when the text is a bundle of that list. */
  lemma BundleIff(text: string, ders: seq<seq<byte>>)
    ensures BundleOf(Utf8.Encode(text)) == Ok(ders) <==> IsBundle(text, ders)
  {
    Utf8.DecodeOfEncode(text);
    if BlocksOf(text).Ok? { BlocksSound(text); }
    if IsBundle(text, ders) { BlocksComplete(text, ders); }
  }

  // ----- Armouring -----

  /** A certificate as it is written: leading text, and its Base64 with whitespace strewn in. */
  datatype Armoured = Armoured(filler: string, body: string, der: seq<byte>)

  ghost predicate WellArmoured(a: Armoured) {
    && (a.filler == [] || a.filler[|a.filler| - 1] == '\n')
    && (forall i: nat :: !OccursAt(a.filler, BEGIN, i))
    && Cleaned(a.body) == Base64.Encode(Base64.STANDARD, a.der)
  }

  function Armour(blocks: seq<Armoured>, tail: string): (text: string) {
    if blocks == [] then tail
    else blocks[0].filler + BEGIN + blocks[0].body + END + Armour(blocks[1..], tail)
  }

  /** Text that ends a line and lacks the marker cannot run into it. */
  lemma FillerBeforeBegin(filler: string)
    requires filler == [] || filler[|filler| - 1] == '\n'
    requires forall i: nat :: !OccursAt(filler, BEGIN, i)
    ensures NotBefore(filler, BEGIN)
  {
    var s := filler + BEGIN;
    assert OccursAt(s, BEGIN, |filler|);
    assert forall k :: 0 <= k < |BEGIN| ==> BEGIN[k] != '\n';
    forall j: nat | j < |filler| ensures !OccursAt(s, BEGIN, j) {
      if j + |BEGIN| <= |filler| {
        assert filler[j..j + |BEGIN|] == s[j..j + |BEGIN|];
        assert !OccursAt(filler, BEGIN, j);
      } else {
        MatchAgrees(s, BEGIN, j, |filler| - 1 - j);
        assert s[|filler| - 1] == '\n';
      }
    }
  }

  /** Every armoured list decodes to exactly its certificates, in order. */
  lemma {:induction false} DecodeOfArmour(blocks: seq<Armoured>, tail: string)
    requires forall a :: a in blocks ==> WellArmoured(a)
    requires forall i: nat :: !OccursAt(tail, BEGIN, i)
    ensures IsBundle(Armour(blocks, tail), Ders(blocks))
    ensures BundleOf(Utf8.Encode(Armour(blocks, tail))) == Ok(Ders(blocks))
  {
    if blocks != [] {
      var a, rest := blocks[0], Armour(blocks[1..], tail);
      assert WellArmoured(a);
      DecodeOfArmour(blocks[1..], tail);
      FillerBeforeBegin(a.filler);
      assert IsBlock(Armour(blocks, tail), a.filler, a.body, rest);
      assert Ders(blocks)[1..] == Ders(blocks[1..]);
    }
    BundleIff(Armour(blocks, tail), Ders(blocks));
  }

  function Ders(blocks: seq<Armoured>): (ds: seq<seq<byte>>)
    ensures |ds| == |blocks|
  {
    if blocks == [] then [] else [blocks[0].der] + Ders(blocks[1..])
  }

  // ----- Which error -----

  /** A block that never ends, or whose body is not Base64, is what is reported of it. */
  lemma BadBlock(filler: string, rest: string)
    requires NotBefore(filler, BEGIN)
    ensures (forall i: nat :: !OccursAt(rest, END, i)) ==> BlocksOf(filler + BEGIN + rest) == Err(BeginWithoutEnd)
    ensures forall body, more ::
              && rest == body + END + more && NotBefore(body, END)
              && Base64.Decode(Base64.STANDARD, Cleaned(body)).None?
              ==> BlocksOf(filler + BEGIN + rest) == Err(BadBase64)
  {
    hide Base64.Decode, Cleaned;
    MarkerFound(filler, BEGIN, rest);
    DropTwo(filler, BEGIN, rest);
    forall body, more | rest == body + END + more && NotBefore(body, END)
      ensures Find(rest, END) == Some(|body|) && rest[..|body|] == body
    {
      MarkerFound(body, END, more);
      DropTwo(body, END, more);
    }
  }

  /** Good blocks in front do not change what is reported. */
  lemma {:induction false} FirstBadBlock(blocks: seq<Armoured>, tail: string)
    requires (forall a :: a in blocks ==> WellArmoured(a)) && BlocksOf(tail).Err?
    ensures BlocksOf(Armour(blocks, tail)) == BlocksOf(tail)
  {
    hide Base64.Decode, Base64.Encode, Cleaned;
    if blocks != [] {
      var a, rest := blocks[0], Armour(blocks[1..], tail);
      assert WellArmoured(a);
      FirstBadBlock(blocks[1..], tail);
      FillerBeforeBegin(a.filler);
      BlockTaken(Armour(blocks, tail), a.filler, a.body, rest, a.der);
      Base64.DecodeOfEncode(Base64.STANDARD, a.der);
    }
  }

  // ----- Whitespace and lines -----

  /** A blank, tab or line end can be put anywhere without changing what is read. */
  lemma CleanedSkips(a: string, c: char, b: string)
    requires c in {'\t', '\n', '\U{B}', '\U{C}', '\r', ' ', '\U{85}', '\U{A0}', '\U{2028}', '\U{3000}'}
    ensures Cleaned(a + [c] + b) == Cleaned(a) + Cleaned(b)
  {
    FilterAppend(a + [c], b, NotWhitespace());
    FilterAppend(a, [c], NotWhitespace());
    assert Cleaned([c]) == [];
  }

  predicate IsPrintable(c: char) { '!' <= c <= '~' }

  /** Printable ASCII is read as it stands. */
  lemma {:induction false} CleanedKeeps(s: string)
    requires forall c :: c in s ==> IsPrintable(c)
    ensures Cleaned(s) == s
  {
    if s != [] {
      assert s == [s[0]] + s[1..] && s[0] in s;
      CleanedKeeps(s[1..]);
    }
  }

  /** The lines, each ended by `eol`. */
  function Lines(lines: seq<string>, eol: string): string {
    if lines == [] then [] else lines[0] + eol + Lines(lines[1..], eol)
  }

  function Concat(lines: seq<string>): string {
    if lines == [] then [] else lines[0] + Concat(lines[1..])
  }

  lemma CleanedEol(eol: string)
    requires eol in {"\n", "\r\n"}
    ensures Cleaned(eol) == []
  {
    if eol == "\n" { CleanedSkips([], '\n', []); }
    if eol == "\r\n" {
      CleanedSkips(['\r'], '\n', []);
      CleanedSkips([], '\r', []);
    }
  }

  lemma {:induction false} CleanedLines(lines: seq<string>, eol: string)
    requires eol in {"\n", "\r\n"} && forall c :: c in Concat(lines) ==> IsPrintable(c)
    ensures Cleaned(Lines(lines, eol)) == Concat(lines)
  {
    if lines != [] {
      var rest := Lines(lines[1..], eol);
      forall c | c in lines[0] || c in Concat(lines[1..]) ensures c in Concat(lines) {}
      CleanedLines(lines[1..], eol);
      CleanedKeeps(lines[0]);
      CleanedEol(eol);
      FilterAppend(lines[0] + eol, rest, NotWhitespace());
      FilterAppend(lines[0], eol, NotWhitespace());
    }
  }

  /** A certificate as files hold it: leading text, and its Base64 cut into lines anywhere. */
  datatype Wrapped = Wrapped(filler: string, lines: seq<string>, der: seq<byte>)

  ghost predicate WellWrapped(x: Wrapped) {
    && (x.filler == [] || x.filler[|x.filler| - 1] == '\n')
    && (forall i: nat :: !OccursAt(x.filler, BEGIN, i))
    && Concat(x.lines) == Base64.Encode(Base64.STANDARD, x.der)
  }

  /** The file: every BEGIN and END on a line of its own. */
  function Written(xs: seq<Wrapped>, eol: string, tail: string): (text: string) {
    if xs == [] then tail
    else xs[0].filler + BEGIN + (eol + Lines(xs[0].lines, eol)) + END + Written(xs[1..], eol, tail)
  }

  /** The file's certificates, as blocks with a body. */
  function Bodies(xs: seq<Wrapped>, eol: string): (bs: seq<Armoured>)
    ensures |bs| == |xs|
    ensures forall i :: 0 <= i < |xs| ==> bs[i] == Armoured(xs[i].filler, eol + Lines(xs[i].lines, eol), xs[i].der)
  {
    seq(|xs|, i requires 0 <= i < |xs| => Armoured(xs[i].filler, eol + Lines(xs[i].lines, eol), xs[i].der))
  }

  lemma Base64IsPrintable(der: seq<byte>)
    ensures forall c :: c in Base64.Encode(Base64.STANDARD, der) ==> IsPrintable(c)
  {
    Base64.EncodeAlphabet(Base64.STANDARD, der);
  }

  lemma WrappedIsArmoured(x: Wrapped, eol: string)
    requires WellWrapped(x) && eol in {"\n", "\r\n"}
    ensures WellArmoured(Armoured(x.filler, eol + Lines(x.lines, eol), x.der))
  {
    hide Base64.Encode, Lines, Concat, IsPrintable;
    Base64IsPrintable(x.der);
    CleanedLines(x.lines, eol);
    CleanedEol(eol);
    FilterAppend(eol, Lines(x.lines, eol), NotWhitespace());
  }

  lemma {:induction false} WrittenIsArmour(xs: seq<Wrapped>, eol: string, tail: string)
    ensures Written(xs, eol, tail) == Armour(Bodies(xs, eol), tail)
  {
    if xs != [] {
      WrittenIsArmour(xs[1..], eol, tail);
      assert Bodies(xs, eol)[1..] == Bodies(xs[1..], eol);
    }
  }

  /** Certificates written in lines of any length, ended in either way, are read back in order. */
  lemma DecodeOfLines(xs: seq<Wrapped>, eol: string, tail: string)
    requires eol in {"\n", "\r\n"} && forall x :: x in xs ==> WellWrapped(x)
    requires forall i: nat :: !OccursAt(tail, BEGIN, i)
    ensures BundleOf(Utf8.Encode(Written(xs, eol, tail))) == Ok(seq(|xs|, i requires 0 <= i < |xs| => xs[i].der))
  {
    hide BundleOf, WellWrapped, WellArmoured, Utf8.Encode, Written, Armour;
    var bs := Bodies(xs, eol);
    forall b | b in bs ensures WellArmoured(b) {
      var i :| 0 <= i < |bs| && bs[i] == b;
      WrappedIsArmoured(xs[i], eol);
    }
    WrittenIsArmour(xs, eol, tail);
    DecodeOfArmour(bs, tail);
    DersAt(bs);
    assert Ders(bs) == seq(|xs|, i requires 0 <= i < |xs| => xs[i].der);
  }

  lemma {:induction false} DersAt(bs: seq<Armoured>)
    ensures forall i :: 0 <= i < |bs| ==> Ders(bs)[i] == bs[i].der
  {
    if bs != [] { DersAt(bs[1..]); }
  }

  // ----- Certificate bundles and the trust store -----

  predicate LooksLikePem(bytes: seq<byte>) {
    Utf8.Decode(bytes).Some? && Find(Utf8.Decode(bytes).value, BEGIN).Some?
  }

  /** The resolver's answer as a list of certificates, leaf first. */
  function CertBundleOf(bytes: seq<byte>): (r: Result<seq<seq<byte>>, PemError>)
    ensures r.Ok? ==> r.value != []
  {
    if LooksLikePem(bytes) then BundleOf(bytes) else Ok([bytes])
  }

  /** `decode_cert_bundle`. The test for an empty bundle can never fire. */
  method DecodeCertBundle(bytes: seq<byte>) returns (r: Result<seq<seq<byte>>, PemError>)
    ensures r == CertBundleOf(bytes)
    ensures r.Ok? ==> r.value != []
    ensures r != Err(NoCertificates)
  {
    if LooksLikePem(bytes) {
      r := DecodePemBundle(bytes);
      NeverNoCertificates(Utf8.Decode(bytes).value);
      if r.Ok? && r.value == [] { assert false; r := Err(NoCertificates); }
    } else {
      r := Ok([bytes]);
    }
  }

  /** What holds no certificate block is taken as one DER certificate; anything else is the bundle. */
  lemma CertBundleIs(bytes: seq<byte>)
    ensures CertBundleOf(bytes)
         == if BundleOf(bytes) == Ok([]) || BundleOf(bytes) == Err(NotUtf8) then Ok([bytes]) else BundleOf(bytes)
  {
    var text := Utf8.Decode(bytes);
    if text.Some? { NeverNoCertificates(text.value); }
  }

  lemma {:induction false} NeverNoCertificates(text: string)
    ensures BlocksOf(text) != Err(NoCertificates) && BlocksOf(text) != Err(NotUtf8)
    decreases |text|
  {
    if Find(text, BEGIN).Some? {
      var after := text[Find(text, BEGIN).value + |BEGIN|..];
      if Find(after, END).Some? { NeverNoCertificates(after[Find(after, END).value + |END|..]); }
    }
  }

  /** `TrustStore`: the operator's roots, appended to in place. */
  class TrustStore {
    var anchors: seq<seq<byte>>

    constructor ()
      ensures anchors == []
    {
      anchors := [];
    }

    /** Appends every certificate of the bundle, or nothing at all. */
    method AddPem(pem: seq<byte>) returns (r: Result<nat, PemError>)
      modifies this
      ensures match BundleOf(pem)
              case Err(e) => r == Err(e) && anchors == old(anchors)
              case Ok(ders) =>
                if ders == [] then r == Err(NoCertificates) && anchors == old(anchors)
                else r == Ok(|ders|) && anchors == old(anchors) + ders
    {
      var added := DecodePemBundle(pem);
      if added.Err? { return Err(added.error); }
      if |added.value| == 0 { return Err(NoCertificates); }
      anchors := anchors + added.value;
      r := Ok(|added.value|);
    }

    method AddDer(der: seq<byte>)
      modifies this
      ensures anchors == old(anchors) + [der]
    {
      anchors := anchors + [der];
    }
  }
}
