/** The JWT Claim Constraints extension (section 8 of RFC 8226), as the code reads it:

      JWTClaimConstraints ::= SEQUENCE OF (mustInclude [0] | permittedValues [1])
      permittedValues ::= SEQUENCE OF { claim IA5String, values SEQUENCE OF UTF8String }

    `mustInclude` is skipped whatever it holds; both fields may repeat, in any order. */
module ClaimConstraints {
  import opened Prelude
  import opened Der
  import Utf8

  datatype Claim = Claim(name: string, values: seq<string>)

  /** One field of the outer SEQUENCE. */
  datatype Block = MustInclude | Permitted(claims: seq<Claim>)

  datatype Constraints = Constraints(permitted: seq<Claim>) {
    /** The values permitted for a claim: those of its first mention. */
    function PermittedFor(claim: string): (r: Option<seq<string>>) {
      FirstNamed(permitted, claim)
    }
  }

  function FirstNamed(cs: seq<Claim>, claim: string): (r: Option<seq<string>>) {
    if cs == [] then None
    else if cs[0].name == claim then Some(cs[0].values)
    else FirstNamed(cs[1..], claim)
  }

  lemma {:induction false} FirstNamedIff(cs: seq<Claim>, claim: string, values: seq<string>)
    ensures FirstNamed(cs, claim) == Some(values)
       <==> exists i :: 0 <= i < |cs| && cs[i] == Claim(claim, values) && forall j :: 0 <= j < i ==> cs[j].name != claim
  {
    if cs != [] && cs[0].name != claim {
      FirstNamedIff(cs[1..], claim, values);
      if i :|
        && 0 <= i < |cs[1..]| && cs[1..][i] == Claim(claim, values)
        && forall j :: 0 <= j < i ==> cs[1..][j].name != claim
      {
        assert cs[i + 1] == Claim(claim, values);
        forall j | 0 <= j < i + 1 ensures cs[j].name != claim { if j > 0 { assert cs[j] == cs[1..][j - 1]; } }
      }
      if i :| 0 <= i < |cs| && cs[i] == Claim(claim, values) && forall j :: 0 <= j < i ==> cs[j].name != claim {
        assert cs[1..][i - 1] == Claim(claim, values);
      }
    } else if cs != [] {
      assert cs[0] == Claim(claim, cs[0].values);
    }
  }

  datatype ConstraintError =
    | OuterTruncated | NotSequence(tag: byte)
    | FieldTruncated | UnknownField(tag: byte)
    | ClaimTruncated | ClaimNotSequence(tag: byte)
    | NameTruncated | NameNotIa5(tag: byte) | NameNotUtf8
    | ValuesTruncated | ValuesNotSequence(tag: byte)
    | ValueTruncated | ValueNotUtf8String(tag: byte) | ValueNotUtf8

  function Flatten(bs: seq<Block>): (cs: seq<Claim>) {
    if bs == [] then []
    else (if bs[0].Permitted? then bs[0].claims else []) + Flatten(bs[1..])
  }

  lemma {:induction false} FlattenAppend(bs: seq<Block>, b: Block)
    ensures Flatten(bs + [b]) == Flatten(bs) + (if b.Permitted? then b.claims else [])
  {
    if bs == [] {
      assert bs + [b] == [b];
    } else {
      var head, last := if bs[0].Permitted? then bs[0].claims else [], if b.Permitted? then b.claims else [];
      calc {
        Flatten(bs + [b]);
        { assert (bs + [b])[1..] == bs[1..] + [b]; }
        head + Flatten(bs[1..] + [b]);
        { FlattenAppend(bs[1..], b); }
        head + (Flatten(bs[1..]) + last);
        Flatten(bs) + last;
      }
    }
  }

  // ----- The grammar, level by level -----

  ghost predicate IsValue(tag: byte, contents: seq<byte>, v: string) {
    tag == 0x0C && contents == Utf8.Encode(v)
  }

  /** A claim name, a SEQUENCE of values, and whatever follows. */
  ghost predicate IsClaimBody(body: seq<byte>, c: Claim) {
    exists h1: seq<byte>, rest1: seq<byte>, h2: seq<byte>, values: seq<byte>, junk: seq<byte> ::
      && IsTlv(body, h1, 0x16, Utf8.Encode(c.name), rest1)
      && IsTlv(rest1, h2, 0x30, values, junk)
      && IsElements(values, c.values, IsValue)
  }

  ghost predicate IsClaim(tag: byte, contents: seq<byte>, c: Claim) {
    tag == 0x30 && IsClaimBody(contents, c)
  }

  ghost predicate IsBlock(tag: byte, contents: seq<byte>, b: Block) {
    match b
    case MustInclude => tag == 0xA0
    case Permitted(cs) => tag == 0xA1 && IsElements(contents, cs, IsClaim)
  }

  ghost predicate IsConstraints(body: seq<byte>, bs: seq<Block>) {
    exists h: seq<byte>, contents: seq<byte>, rest: seq<byte> ::
      IsTlv(body, h, 0x30, contents, rest) && IsElements(contents, bs, IsBlock)
  }

  // ----- Reading -----

  function ValueOf(tag: byte, contents: seq<byte>): (r: Result<string, ConstraintError>) {
    if tag != 0x0C then Err(ValueNotUtf8String(tag))
    else match Utf8.Decode(contents) case None => Err(ValueNotUtf8) case Some(v) => Ok(v)
  }

  function ClaimOf(tag: byte, contents: seq<byte>): (r: Result<Claim, ConstraintError>) {
    if tag != 0x30 then Err(ClaimNotSequence(tag))
    else
      match FirstTlv(contents)
      case None => Err(NameTruncated)
      case Some(n) =>
        if n.tag != 0x16 then Err(NameNotIa5(n.tag))
        else
          match Utf8.Decode(n.contents)
          case None => Err(NameNotUtf8)
          case Some(name) =>
            match FirstTlv(n.rest)
            case None => Err(ValuesTruncated)
            case Some(vs) =>
              if vs.tag != 0x30 then Err(ValuesNotSequence(vs.tag))
              else var values :- ElementsOf(vs.contents, ValueTruncated, ValueOf); Ok(Claim(name, values))
  }

  function BlockOf(tag: byte, contents: seq<byte>): (r: Result<Block, ConstraintError>) {
    if tag == 0xA0 then Ok(MustInclude)
    else if tag == 0xA1 then
      var cs :- ElementsOf(contents, ClaimTruncated, ClaimOf); Ok(Permitted(cs))
    else Err(UnknownField(tag))
  }

  function ConstraintsOf(body: seq<byte>): (r: Result<Constraints, ConstraintError>) {
    match FirstTlv(body)
    case None => Err(OuterTruncated)
    case Some(t) =>
      if t.tag != 0x30 then Err(NotSequence(t.tag))
      else var bs :- ElementsOf(t.contents, FieldTruncated, BlockOf); Ok(Constraints(Flatten(bs)))
  }

  /** The innermost loop of `parse_jwt_claim_constraints`: the values of one claim. */
  method ReadValues(body: seq<byte>) returns (r: Result<seq<string>, ConstraintError>)
    ensures r == ElementsOf(body, ValueTruncated, ValueOf)
  {
    var vbytes := body;
    var values: seq<string> := [];
    AfterNothing(ElementsOf(vbytes, ValueTruncated, ValueOf));
    while vbytes != []
      invariant ElementsOf(body, ValueTruncated, ValueOf) == After(values, ElementsOf(vbytes, ValueTruncated, ValueOf))
      decreases |vbytes|
    {
      var value := ReadTlv(vbytes);
      if value.None? { return Err(ValueTruncated); }
      if value.value.tag != 0x0C { return Err(ValueNotUtf8String(value.value.tag)); }
      var v := Utf8.Decode(value.value.contents);
      if v.None? { return Err(ValueNotUtf8); }
      AfterOne(values, v.value, ElementsOf(value.value.rest, ValueTruncated, ValueOf));
      values := values + [v.value];
      vbytes := value.value.rest;
    }
    assert values + [] == values;
    r := Ok(values);
  }

  /** The middle loop: the claims of one `permittedValues` block. */
  method ReadClaims(body: seq<byte>) returns (r: Result<seq<Claim>, ConstraintError>)
    ensures r == ElementsOf(body, ClaimTruncated, ClaimOf)
  {
    var inner := body;
    var claims: seq<Claim> := [];
    AfterNothing(ElementsOf(inner, ClaimTruncated, ClaimOf));
    while inner != []
      invariant ElementsOf(body, ClaimTruncated, ClaimOf) == After(claims, ElementsOf(inner, ClaimTruncated, ClaimOf))
      decreases |inner|
    {
      var entry := ReadTlv(inner);
      if entry.None? { return Err(ClaimTruncated); }
      if entry.value.tag != 0x30 { return Err(ClaimNotSequence(entry.value.tag)); }
      var name := ReadTlv(entry.value.contents);
      if name.None? { return Err(NameTruncated); }
      if name.value.tag != 0x16 { return Err(NameNotIa5(name.value.tag)); }
      var text := Utf8.Decode(name.value.contents);
      if text.None? { return Err(NameNotUtf8); }
      var list := ReadTlv(name.value.rest);
      if list.None? { return Err(ValuesTruncated); }
      if list.value.tag != 0x30 { return Err(ValuesNotSequence(list.value.tag)); }
      var values := ReadValues(list.value.contents);
      if values.Err? { return Err(values.error); }
      var claim := Claim(text.value, values.value);
      assert ClaimOf(entry.value.tag, entry.value.contents) == Ok(claim);
      AfterOne(claims, claim, ElementsOf(entry.value.rest, ClaimTruncated, ClaimOf));
      claims := claims + [claim];
      inner := entry.value.rest;
    }
    assert claims + [] == claims;
    r := Ok(claims);
  }

  /** `parse_jwt_claim_constraints`. */
  method ParseConstraints(body: seq<byte>) returns (r: Result<Constraints, ConstraintError>)
    ensures r == ConstraintsOf(body)
  {
    var outer := ReadTlv(body);
    if outer.None? { return Err(OuterTruncated); }
    if outer.value.tag != 0x30 { return Err(NotSequence(outer.value.tag)); }

    var permitted: seq<Claim> := [];
    var cur := outer.value.contents;
    ghost var done: seq<Block> := [];
    AfterNothing(ElementsOf(cur, FieldTruncated, BlockOf));
    while cur != []
      invariant permitted == Flatten(done)
      invariant ElementsOf(outer.value.contents, FieldTruncated, BlockOf)
             == After(done, ElementsOf(cur, FieldTruncated, BlockOf))
      decreases |cur|
    {
      var field := ReadTlv(cur);
      if field.None? { return Err(FieldTruncated); }
      ghost var block := MustInclude;
      if field.value.tag == 0xA0 {
      } else if field.value.tag == 0xA1 {
        var claims := ReadClaims(field.value.contents);
        if claims.Err? { return Err(claims.error); }
        permitted := permitted + claims.value;
        block := Permitted(claims.value);
      } else {
        return Err(UnknownField(field.value.tag));
      }
      assert BlockOf(field.value.tag, field.value.contents) == Ok(block);
      AfterOne(done, block, ElementsOf(field.value.rest, FieldTruncated, BlockOf));
      FlattenAppend(done, block);
      done := done + [block];
      cur := field.value.rest;
    }
    assert done + [] == done;
    r := Ok(Constraints(permitted));
  }

  // ----- The reader accepts exactly the grammar -----

  lemma ValuesRead()
    ensures Reads(ValueOf, IsValue)
  {
    forall tag: byte, contents: seq<byte>, v: string
      ensures ValueOf(tag, contents) == Ok(v) <==> IsValue(tag, contents, v)
    {
      Utf8.DecodeIff(contents, v);
    }
  }

  lemma ClaimIff(tag: byte, contents: seq<byte>, c: Claim)
    ensures ClaimOf(tag, contents) == Ok(c) <==> IsClaim(tag, contents, c)
  {
    ValuesRead();
    if ClaimOf(tag, contents) == Ok(c) {
      var n := FirstTlv(contents).value;
      var vs := FirstTlv(n.rest).value;
      var h1 := FirstTlvSound(contents);
      var h2 := FirstTlvSound(n.rest);
      Utf8.DecodeIff(n.contents, c.name);
      ElementsIff(vs.contents, c.values, ValueTruncated, ValueOf, IsValue);
      assert IsTlv(contents, h1, 0x16, Utf8.Encode(c.name), n.rest) && IsTlv(n.rest, h2, 0x30, vs.contents, vs.rest);
    }
    if IsClaim(tag, contents, c) {
      var h1: seq<byte>, rest1: seq<byte>, h2: seq<byte>, values: seq<byte>, junk: seq<byte> :|
        && IsTlv(contents, h1, 0x16, Utf8.Encode(c.name), rest1)
        && IsTlv(rest1, h2, 0x30, values, junk)
        && IsElements(values, c.values, IsValue);
      FirstTlvComplete(contents, h1, 0x16, Utf8.Encode(c.name), rest1);
      FirstTlvComplete(rest1, h2, 0x30, values, junk);
      Utf8.DecodeIff(Utf8.Encode(c.name), c.name);
      ElementsIff(values, c.values, ValueTruncated, ValueOf, IsValue);
    }
  }

  lemma ClaimsRead()
    ensures Reads(ClaimOf, IsClaim)
  {
    forall tag: byte, contents: seq<byte>, c: Claim
      ensures ClaimOf(tag, contents) == Ok(c) <==> IsClaim(tag, contents, c)
    {
      ClaimIff(tag, contents, c);
    }
  }

  lemma BlocksRead()
    ensures Reads(BlockOf, IsBlock)
  {
    ClaimsRead();
    forall tag: byte, contents: seq<byte>, b: Block
      ensures BlockOf(tag, contents) == Ok(b) <==> IsBlock(tag, contents, b)
    {
      if b.Permitted? { ElementsIff(contents, b.claims, ClaimTruncated, ClaimOf, IsClaim); }
    }
  }

  /** `parse_jwt_claim_constraints` succeeds exactly on the spellings of block lists,
      `mustInclude` blocks anywhere, and returns the permitted claims in order. */
  lemma ConstraintsIff(body: seq<byte>, c: Constraints)
    ensures ConstraintsOf(body) == Ok(c)
       <==> exists bs: seq<Block> :: IsConstraints(body, bs) && c.permitted == Flatten(bs)
  {
    BlocksRead();
    if ConstraintsOf(body) == Ok(c) {
      var t := FirstTlv(body).value;
      var h := FirstTlvSound(body);
      var bs := ElementsOf(t.contents, FieldTruncated, BlockOf).value;
      ElementsIff(t.contents, bs, FieldTruncated, BlockOf, IsBlock);
      assert IsConstraints(body, bs) by { assert IsTlv(body, h, 0x30, t.contents, t.rest); }
    }
    forall bs: seq<Block> | IsConstraints(body, bs) && c.permitted == Flatten(bs) ensures ConstraintsOf(body) == Ok(c) {
      var h: seq<byte>, contents: seq<byte>, rest: seq<byte> :|
        IsTlv(body, h, 0x30, contents, rest) && IsElements(contents, bs, IsBlock);
      FirstTlvComplete(body, h, 0x30, contents, rest);
      ElementsIff(contents, bs, FieldTruncated, BlockOf, IsBlock);
    }
  }

  /** Bytes behind the outer element never change the parse. */
  lemma ConstraintsIgnoreTrailing(body: seq<byte>, more: seq<byte>)
    requires FirstTlv(body).Some?
    ensures ConstraintsOf(body + more) == ConstraintsOf(body)
  {
    FirstTlvAppend(body, more);
  }

  // ----- A printer -----

  function ValueItems(vs: seq<string>): (items: seq<Item>)
    ensures |items| == |vs| && forall i :: 0 <= i < |vs| ==> items[i] == Item(0x0C, Utf8.Encode(vs[i]))
  {
    seq(|vs|, i requires 0 <= i < |vs| => Item(0x0C, Utf8.Encode(vs[i])))
  }

  /** The name and the values, if they fit. */
  function ClaimItems(c: Claim): Option<seq<Item>> {
    if !Fits(ValueItems(c.values)) then None
    else Some([Item(0x16, Utf8.Encode(c.name)), Item(0x30, PrintAll(ValueItems(c.values)))])
  }

  predicate PrintableClaim(c: Claim) { ClaimItems(c).Some? && Fits(ClaimItems(c).value) }

  function PrintClaim(c: Claim): (b: seq<byte>)
    requires PrintableClaim(c)
  {
    PrintAll(ClaimItems(c).value)
  }

  function ClaimsItems(cs: seq<Claim>): (items: seq<Item>)
    requires forall i :: 0 <= i < |cs| ==> PrintableClaim(cs[i])
    ensures |items| == |cs|
  {
    if cs == [] then [] else [Item(0x30, PrintClaim(cs[0]))] + ClaimsItems(cs[1..])
  }

  lemma {:induction false} ClaimsItemAt(cs: seq<Claim>, i: nat)
    requires i < |cs| && forall j :: 0 <= j < |cs| ==> PrintableClaim(cs[j])
    ensures ClaimsItems(cs)[i] == Item(0x30, PrintClaim(cs[i]))
  {
    hide PrintClaim, PrintableClaim;
    if i > 0 { ClaimsItemAt(cs[1..], i - 1); }
  }

  predicate PrintableBlock(b: Block) {
    b.Permitted? ==> (forall i :: 0 <= i < |b.claims| ==> PrintableClaim(b.claims[i])) && Fits(ClaimsItems(b.claims))
  }

  /** A `mustInclude` block may hold any bytes. */
  function BlockItem(b: Block, must: seq<byte>): Item
    requires PrintableBlock(b)
  {
    if b.Permitted? then Item(0xA1, PrintAll(ClaimsItems(b.claims))) else Item(0xA0, must)
  }

  function BlockItems(bs: seq<Block>, musts: seq<seq<byte>>): (items: seq<Item>)
    requires |musts| == |bs| && forall i :: 0 <= i < |bs| ==> PrintableBlock(bs[i])
    ensures |items| == |bs|
    ensures forall i :: 0 <= i < |bs| ==> PrintableBlock(bs[i]) && items[i] == BlockItem(bs[i], musts[i])
  {
    if bs == [] then [] else [BlockItem(bs[0], musts[0])] + BlockItems(bs[1..], musts[1..])
  }

  lemma PrintedClaim(c: Claim)
    requires PrintableClaim(c)
    ensures IsClaimBody(PrintClaim(c), c)
  {
    hide Print;
    var items := ClaimItems(c).value;
    var name, values := items[0].contents, items[1].contents;
    assert items[1..][1..] == [] && items[1..][0] == items[1];
    var second := PrintAll(items[1..]);
    assert second == Print(0x30, values) + [] by { assert PrintAll(items[1..][1..]) == []; }
    var h1 := PrintIsTlv(0x16, name, second);
    var h2 := PrintIsTlv(0x30, values, []);
    PrintedElements(ValueItems(c.values), c.values, IsValue);
    assert IsTlv(PrintAll(items), h1, 0x16, name, second) && IsTlv(second, h2, 0x30, values, []);
  }

  lemma PrintedBlock(b: Block)
    requires PrintableBlock(b) && b.Permitted?
    ensures IsBlock(0xA1, PrintAll(ClaimsItems(b.claims)), b)
  {
    hide PrintAll, IsClaimBody, PrintClaim, PrintableClaim;
    forall i | 0 <= i < |b.claims| ensures IsClaim(0x30, ClaimsItems(b.claims)[i].contents, b.claims[i]) {
      PrintedClaim(b.claims[i]);
      ClaimsItemAt(b.claims, i);
    }
    forall i | 0 <= i < |b.claims| ensures ClaimsItems(b.claims)[i].tag == 0x30 { ClaimsItemAt(b.claims, i); }
    PrintedElements(ClaimsItems(b.claims), b.claims, IsClaim);
  }

  /** Every list of blocks that fits survives printing and parsing. */
  lemma ParseOfPrint(bs: seq<Block>, musts: seq<seq<byte>>, trailing: seq<byte>)
    requires |musts| == |bs| && forall i :: 0 <= i < |bs| ==> PrintableBlock(bs[i])
    requires Fits(BlockItems(bs, musts)) && |PrintAll(BlockItems(bs, musts))| < 0x1_0000_0000
    ensures ConstraintsOf(Print(0x30, PrintAll(BlockItems(bs, musts))) + trailing) == Ok(Constraints(Flatten(bs)))
  {
    hide Print, PrintAll, ConstraintsOf, PrintableBlock, IsTlv, ClaimsItems, BlockItems;
    var items := BlockItems(bs, musts);
    forall i | 0 <= i < |bs| ensures IsBlock(items[i].tag, items[i].contents, bs[i]) {
      if bs[i].Permitted? { PrintedBlock(bs[i]); }
    }
    PrintedElements(items, bs, IsBlock);
    var h := PrintIsTlv(0x30, PrintAll(items), trailing);
    assert IsConstraints(Print(0x30, PrintAll(items)) + trailing, bs);
    ConstraintsIff(Print(0x30, PrintAll(items)) + trailing, Constraints(Flatten(bs)));
  }

  // ----- Which error -----

  /** What is no element, or no SEQUENCE, holds no constraints. */
  lemma NoConstraints(body: seq<byte>)
    ensures FirstTlv(body).None? ==> ConstraintsOf(body) == Err(OuterTruncated)
    ensures forall h, tag: byte, contents, rest :: IsTlv(body, h, tag, contents, rest) && tag != 0x30 ==>
              ConstraintsOf(body) == Err(NotSequence(tag))
  {
    forall h, tag: byte, contents, rest | IsTlv(body, h, tag, contents, rest)
      ensures FirstTlv(body) == Some(Tlv(tag, contents, rest))
    {
      FirstTlvComplete(body, h, tag, contents, rest);
    }
  }

  /** Behind fields that can be read, the first that cannot is reported: cut short, of an unknown
      kind, or with the error of its first bad claim. */
  lemma FirstBadField(body: seq<byte>, h: seq<byte>, pre: seq<byte>, bs: seq<Block>, bad: seq<byte>, junk: seq<byte>)
    requires IsTlv(body, h, 0x30, pre + bad, junk) && IsElements(pre, bs, IsBlock) && bad != []
    ensures match FirstTlv(bad)
            case None => ConstraintsOf(body) == Err(FieldTruncated)
            case Some(t) =>
              && (t.tag !in {0xA0, 0xA1} ==> ConstraintsOf(body) == Err(UnknownField(t.tag)))
              && (t.tag == 0xA1 && BlockOf(t.tag, t.contents).Err? ==>
                    ConstraintsOf(body) == Err(BlockOf(t.tag, t.contents).error))
  {
    hide IsTlv, FirstTlv, ElementsOf, IsElements;
    BlocksRead();
    FirstTlvComplete(body, h, 0x30, pre + bad, junk);
    FirstBadElement(pre, bs, bad, FieldTruncated, BlockOf, IsBlock);
  }

  lemma FirstBadClaim(pre: seq<byte>, cs: seq<Claim>, bad: seq<byte>)
    requires IsElements(pre, cs, IsClaim) && bad != []
    ensures match FirstTlv(bad)
            case None => BlockOf(0xA1, pre + bad) == Err(ClaimTruncated)
            case Some(t) =>
              && (t.tag != 0x30 ==> BlockOf(0xA1, pre + bad) == Err(ClaimNotSequence(t.tag)))
              && (ClaimOf(t.tag, t.contents).Err? ==>
                    BlockOf(0xA1, pre + bad) == Err(ClaimOf(t.tag, t.contents).error))
  {
    hide FirstTlv, ElementsOf, IsElements, IsClaimBody;
    ClaimsRead();
    FirstBadElement(pre, cs, bad, ClaimTruncated, ClaimOf, IsClaim);
  }
}
