/** The SHAKEN leaf-certificate profile: which certificates may vouch for which
    originating number and attestation level. */
module LeafProfile {
  import opened Prelude
  import opened TnAuthLists
  import CC = ClaimConstraints

  const TN_AUTH_LIST_OID := "1.3.6.1.5.5.7.1.26"
  const JWT_CLAIM_CONSTRAINTS_OID := "1.3.6.1.5.5.7.1.27"

  datatype Extension = Extension(oid: string, value: seq<byte>)

  datatype ProfileFault =
    | BadTnAuthList(tnError: TnAuthError)
    | BadConstraints(ccError: CC.ConstraintError)
    | TnAuthListMissing
    | TnAuthListEmpty
    | OrigNotAuthorised(tn: string)
    | AttestNotPermitted(attest: string)

  // ----- Telephone numbers and ranges -----

  function Decimal(s: string): (n: nat)
    requires forall c :: c in s ==> IsDigit(c)
  {
    if s == [] then 0 else assert IsDigit(s[|s| - 1]); Decimal(s[..|s| - 1]) * 10 + (s[|s| - 1] as int - '0' as int)
  }

  function StripPlus(s: string): string {
    if s != [] && s[0] == '+' then s[1..] else s
  }

  /** `str::parse::<u128>`, which itself accepts one leading plus sign. */
  function ParseU128(s: string): (r: Option<nat>)
    ensures r.Some? ==> r.value < TWO_128
  {
    var d := StripPlus(s);
    if d == [] || exists c :: c in d && !IsDigit(c) then None
    else if Decimal(d) >= TWO_128 then None
    else Some(Decimal(d))
  }

  /** The number a telephone number or range start stands for. */
  function NumberOf(tn: string): (r: Option<nat>)
    ensures r.Some? ==> r.value < TWO_128
  {
    ParseU128(StripPlus(tn))
  }

  /** `u128::saturating_add`. */
  function SaturatingAdd(a: nat, b: nat): nat {
    if a + b < TWO_128 then a + b else TWO_128 - 1
  }

  /** `tn_within_range`. */
  predicate TnWithinRange(tn: string, start: string, count: nat) {
    var t, s := NumberOf(tn), NumberOf(start);
    t.Some? && s.Some? && s.value <= t.value < SaturatingAdd(s.value, count)
  }

  /** Decimal as it is written. */
  function PrintDecimal(n: nat): (s: string) {
    if n < 10 then [('0' as int + n) as char]
    else PrintDecimal(n / 10) + [('0' as int + n % 10) as char]
  }

  lemma {:induction false} PrintedDigits(n: nat)
    ensures PrintDecimal(n) != [] && forall c :: c in PrintDecimal(n) ==> IsDigit(c)
  {
    if n >= 10 { PrintedDigits(n / 10); }
  }

  lemma {:induction false} DecimalOfPrint(n: nat)
    requires forall c :: c in PrintDecimal(n) ==> IsDigit(c)
    ensures Decimal(PrintDecimal(n)) == n
  {
    var s := PrintDecimal(n);
    if n >= 10 {
      PrintedDigits(n / 10);
      DecimalOfPrint(n / 10);
      assert s[..|s| - 1] == PrintDecimal(n / 10);
    }
  }

  /** A number written in decimal, behind a plus sign or not, is read as itself, up to 128 bits;
      a text with any other character in it is read as no number. */
  lemma NumberOfPrint(n: nat)
    ensures var r := if n < TWO_128 then Some(n) else None;
            NumberOf(PrintDecimal(n)) == r && NumberOf("+" + PrintDecimal(n)) == r
  {
    PrintedDigits(n);
    DecimalOfPrint(n);
    var s := PrintDecimal(n);
    assert s[0] in s && ("+" + s)[1..] == s;
  }

  lemma OtherTextIsNoNumber(a: string, c: char, b: string)
    requires !IsDigit(c) && (a == [] ==> c != '+') && (a == "+" ==> c != '+')
    ensures NumberOf(a + [c] + b).None?
  {
    var s := a + [c] + b;
    assert s[|a|] == c;
    var once := StripPlus(s);
    assert c in once;
    assert once != [] && once[0] == '+' ==> c in once[1..];
  }

  /** `tn` is one of the `count` numbers from `start` on, and not the one the saturating end loses. */
  predicate Spans(start: string, count: nat, tn: string) {
    && NumberOf(start).Some? && NumberOf(tn).Some?
    && var s, t := NumberOf(start).value, NumberOf(tn).value;
    && 0 <= t - s < count && (t == TWO_128 - 1 ==> s + count < TWO_128)
  }

  /** A range holds exactly the `count` numbers from its start on, whichever way either is
      written; only where it reaches 2^128 does the saturating end lose the last number. */
  lemma RangeIff(t: nat, s: nat, count: nat, tn: string, start: string)
    requires t < TWO_128 && tn in {PrintDecimal(t), "+" + PrintDecimal(t)}
    requires s < TWO_128 && start in {PrintDecimal(s), "+" + PrintDecimal(s)}
    ensures Spans(start, count, tn) <==> TnWithinRange(tn, start, count)
    ensures s + count < TWO_128 ==> (TnWithinRange(tn, start, count) <==> s <= t < s + count)
    ensures s + count >= TWO_128 ==> (TnWithinRange(tn, start, count) <==> s <= t < TWO_128 - 1)
  {
    NumberOfPrint(t);
    NumberOfPrint(s);
  }

  /** Splitting a range changes nothing, even where the upper end saturates. */
  lemma RangeSplit(tn: string, start: string, mid: string, a: nat, b: nat)
    requires NumberOf(start).Some? && NumberOf(mid) == Some(NumberOf(start).value + a)
    ensures TnWithinRange(tn, start, a + b) <==> TnWithinRange(tn, start, a) || TnWithinRange(tn, mid, b)
  {
  }

  // ----- The authorisation rule -----

  /** One entry speaks for a number: an SPC for any, a TN for itself, a range for its span. */
  predicate EntryCovers(e: TnEntry, tn: string) {
    match e
    case Spc(_) => true
    case One(t) => t == tn
    case Range(s, c) => Spans(s, c, tn)
  }

  /** What the profile asks of the entries: some exist, and one covers the number. */
  ghost predicate Authorises(es: seq<TnEntry>, orig: Option<string>) {
    es != [] && (orig.Some? ==> exists e :: e in es && EntryCovers(e, orig.value))
  }

  /** The code's own check, over the three lists. */
  function ListFault(l: TnAuthList, orig: Option<string>): (r: Option<ProfileFault>) {
    if l.IsEmpty() then Some(TnAuthListEmpty)
    else if l.spcs == [] && orig.Some?
         && !(orig.value in l.tns) && !(exists r :: r in l.ranges && TnWithinRange(orig.value, r.0, r.1))
    then Some(OrigNotAuthorised(orig.value))
    else None
  }

  lemma {:induction false} CollectMembers(es: seq<TnEntry>)
    ensures forall t :: t in Collect(es).spcs <==> Spc(t) in es
    ensures forall t :: t in Collect(es).tns <==> One(t) in es
    ensures forall s, c: nat :: (s, c) in Collect(es).ranges <==> Range(s, c) in es
  {
    if es != [] {
      CollectMembers(es[..|es| - 1]);
      assert es == es[..|es| - 1] + [es[|es| - 1]];
    }
  }

  /** The three-list check decides the authorisation rule. */
  lemma ListFaultIff(es: seq<TnEntry>, orig: Option<string>)
    ensures ListFault(Collect(es), orig).None? <==> Authorises(es, orig)
  {
    var l := Collect(es);
    CollectMembers(es);
    if es != [] {
      var e := es[0];
      assert e in es;
      match e
      case Spc(t) => assert t in l.spcs;
      case One(t) => assert t in l.tns;
      case Range(s, c) => assert (s, c) in l.ranges;
    } else {
      assert l == EMPTY;
    }
    if es != [] && orig.Some? {
      var tn := orig.value;
      if l.spcs != [] { assert Spc(l.spcs[0]) in es && EntryCovers(Spc(l.spcs[0]), tn); }
      if tn in l.tns { assert EntryCovers(One(tn), tn); }
      if r :| r in l.ranges && TnWithinRange(tn, r.0, r.1) {
        assert Range(r.0, r.1) in es && EntryCovers(Range(r.0, r.1), tn);
      }
      if e :| e in es && EntryCovers(e, tn) {
        match e
        case Spc(t) => assert t in l.spcs;
        case One(t) => assert t in l.tns;
        case Range(s, c) => assert (s, c) in l.ranges;
      }
    }
  }

  /** Adding entries, anywhere and in any order, never turns acceptance into refusal. */
  lemma MoreEntriesStillAuthorise(es: seq<TnEntry>, more: seq<TnEntry>, orig: Option<string>)
    requires forall e :: e in es ==> e in more
    ensures ListFault(Collect(es), orig).None? ==> ListFault(Collect(more), orig).None?
  {
    ListFaultIff(es, orig);
    ListFaultIff(more, orig);
    if Authorises(es, orig) { assert es[0] in more; }
  }

  /** Replacing a range entry by its two halves changes no verdict. */
  lemma SplitEntryKeepsVerdict(pre: seq<TnEntry>, post: seq<TnEntry>, start: string, mid: string, a: nat, b: nat,
                               orig: Option<string>)
    requires NumberOf(start).Some? && NumberOf(mid) == Some(NumberOf(start).value + a)
    ensures ListFault(Collect(pre + [Range(start, a + b)] + post), orig).None?
       <==> ListFault(Collect(pre + [Range(start, a), Range(mid, b)] + post), orig).None?
  {
    hide ListFault, Collect, TnWithinRange, NumberOf;
    var whole, halves := pre + [Range(start, a + b)] + post, pre + [Range(start, a), Range(mid, b)] + post;
    ListFaultIff(whole, orig);
    ListFaultIff(halves, orig);
    if orig.Some? {
      RangeSplit(orig.value, start, mid, a, b);
      assert Range(start, a) in halves && Range(mid, b) in halves && Range(start, a + b) in whole;
      if e :| e in whole && EntryCovers(e, orig.value) {
        assert e in halves || EntryCovers(Range(start, a), orig.value) || EntryCovers(Range(mid, b), orig.value);
      }
      if e :| e in halves && EntryCovers(e, orig.value) {
        assert e in whole || EntryCovers(Range(start, a + b), orig.value);
      }
    }
  }

  // ----- The profile over a certificate's extensions -----

  /** What an extension means to the profile. */
  datatype Relevant =
    | Tn(list: Result<TnAuthList, TnAuthError>)
    | Jcc(constraints: Result<CC.Constraints, CC.ConstraintError>)
    | Other

  function Classify(ext: Extension): Relevant {
    if ext.oid == TN_AUTH_LIST_OID then Tn(TnAuthListOf(ext.value))
    else if ext.oid == JWT_CLAIM_CONSTRAINTS_OID then Jcc(CC.ConstraintsOf(ext.value))
    else Other
  }

  function ClassifyAll(exts: seq<Extension>): (rs: seq<Relevant>)
    ensures |rs| == |exts| && forall i :: 0 <= i < |exts| ==> rs[i] == Classify(exts[i])
  {
    seq(|exts|, i requires 0 <= i < |exts| => Classify(exts[i]))
  }

  datatype Found = Found(tnauth: Option<TnAuthList>, jcc: Option<CC.Constraints>)

  function Note(f: Found, x: Relevant): (r: Result<Found, ProfileFault>) {
    match x
    case Tn(Ok(l)) => Ok(f.(tnauth := Some(l)))
    case Tn(Err(e)) => Err(BadTnAuthList(e))
    case Jcc(Ok(c)) => Ok(f.(jcc := Some(c)))
    case Jcc(Err(e)) => Err(BadConstraints(e))
    case Other => Ok(f)
  }

  /** What the extensions leave behind: the last of each kind, or the first parse error. */
  function Scan(xs: seq<Relevant>): (r: Result<Found, ProfileFault>) {
    if xs == [] then Ok(Found(None, None))
    else var f :- Scan(xs[..|xs| - 1]); Note(f, xs[|xs| - 1])
  }

  /** The constraints leave this attestation level to the signer. */
  predicate Permits(c: CC.Constraints, attest: string) {
    match c.PermittedFor("attest")
    case None => true
    case Some(permitted) => attest in permitted
  }

  function AttestFault(jcc: Option<CC.Constraints>, attest: Option<string>): (r: Option<ProfileFault>) {
    if jcc.None? || attest.None? || Permits(jcc.value, attest.value) then None
    else Some(AttestNotPermitted(attest.value))
  }

  /** The verdict of the whole profile: the fault of the first check that fails. */
  function ProfileFaultOf(exts: seq<Extension>, orig: Option<string>, attest: Option<string>)
    : (r: Option<ProfileFault>) {
    match Scan(ClassifyAll(exts))
    case Err(e) => Some(e)
    case Ok(f) =>
      if f.tnauth.None? then Some(TnAuthListMissing)
      else if ListFault(f.tnauth.value, orig).Some? then ListFault(f.tnauth.value, orig)
      else AttestFault(f.jcc, attest)
  }

  /** The loop of `enforce_shaken_profile` over the extensions. */
  method ScanExtensions(exts: seq<Extension>) returns (r: Result<Found, ProfileFault>)
    ensures r == Scan(ClassifyAll(exts))
  {
    var tnauth: Option<TnAuthList> := None;
    var jcc: Option<CC.Constraints> := None;
    ghost var xs := ClassifyAll(exts);
    for i := 0 to |exts|
      invariant Scan(xs[..i]) == Ok(Found(tnauth, jcc))
    {
      assert xs[..i + 1][..i] == xs[..i];
      ScanErr(xs, i + 1);
      if exts[i].oid == TN_AUTH_LIST_OID {
        var parsed := ParseTnAuthList(exts[i].value);
        if parsed.Err? { return Err(BadTnAuthList(parsed.error)); }
        tnauth := Some(parsed.value);
      } else if exts[i].oid == JWT_CLAIM_CONSTRAINTS_OID {
        var parsed := CC.ParseConstraints(exts[i].value);
        if parsed.Err? { return Err(BadConstraints(parsed.error)); }
        jcc := Some(parsed.value);
      }
    }
    assert xs[..|exts|] == xs;
    r := Ok(Found(tnauth, jcc));
  }

  /** `enforce_shaken_profile`. */
  method EnforceShakenProfile(exts: seq<Extension>, orig: Option<string>, attest: Option<string>)
    returns (r: Option<ProfileFault>)
    ensures r == ProfileFaultOf(exts, orig, attest)
  {
    var found := ScanExtensions(exts);
    if found.Err? { return Some(found.error); }
    var Found(tnauth, jcc) := found.value;
    if tnauth.None? { return Some(TnAuthListMissing); }
    if tnauth.value.IsEmpty() { return Some(TnAuthListEmpty); }
    if tnauth.value.spcs == [] && orig.Some? {
      var matchesTn := orig.value in tnauth.value.tns;
      var matchesRange := exists r :: r in tnauth.value.ranges && TnWithinRange(orig.value, r.0, r.1);
      if !matchesTn && !matchesRange { return Some(OrigNotAuthorised(orig.value)); }
    }
    if jcc.Some? {
      var permitted := jcc.value.PermittedFor("attest");
      if permitted.Some? && attest.Some? && attest.value !in permitted.value {
        return Some(AttestNotPermitted(attest.value));
      }
    }
    r := None;
  }

  /** A parse error met early is the verdict of the whole scan. */
  lemma {:induction false} ScanErr(xs: seq<Relevant>, i: nat)
    requires i <= |xs|
    ensures Scan(xs[..i]).Err? ==> Scan(xs) == Scan(xs[..i])
    decreases |xs|
  {
    if i < |xs| {
      ScanErr(xs[..|xs| - 1], i);
      assert xs[..|xs| - 1][..i] == xs[..i];
    } else {
      assert xs[..i] == xs;
    }
  }

  lemma {:induction false} ScanParses(xs: seq<Relevant>)
    ensures Scan(xs).Ok? <==> forall x :: x in xs ==> !(x.Tn? && x.list.Err?) && !(x.Jcc? && x.constraints.Err?)
  {
    if xs != [] {
      ScanParses(xs[..|xs| - 1]);
      assert xs == xs[..|xs| - 1] + [xs[|xs| - 1]];
    }
  }

  /** `l` is the last list among `xs`; and `c` the last constraints. */
  ghost predicate LastList(xs: seq<Relevant>, l: Option<TnAuthList>) {
    match l
    case None => forall j :: 0 <= j < |xs| ==> !xs[j].Tn?
    case Some(v) => exists i :: 0 <= i < |xs| && xs[i] == Tn(Ok(v)) && forall j :: i < j < |xs| ==> !xs[j].Tn?
  }

  ghost predicate LastConstraints(xs: seq<Relevant>, c: Option<CC.Constraints>) {
    match c
    case None => forall j :: 0 <= j < |xs| ==> !xs[j].Jcc?
    case Some(v) => exists i :: 0 <= i < |xs| && xs[i] == Jcc(Ok(v)) && forall j :: i < j < |xs| ==> !xs[j].Jcc?
  }

  lemma LastListStep(xs: seq<Relevant>, x: Relevant, l: Option<TnAuthList>)
    requires LastList(xs, l)
    ensures if x.Tn? then x.list.Ok? ==> LastList(xs + [x], Some(x.list.value)) else LastList(xs + [x], l)
  {
    if x.Tn? && x.list.Ok? { assert (xs + [x])[|xs|] == Tn(Ok(x.list.value)); }
    if !x.Tn? && l.Some? {
      var i :| 0 <= i < |xs| && xs[i] == Tn(Ok(l.value)) && forall j :: i < j < |xs| ==> !xs[j].Tn?;
      assert (xs + [x])[i] == Tn(Ok(l.value));
    }
  }

  lemma LastConstraintsStep(xs: seq<Relevant>, x: Relevant, c: Option<CC.Constraints>)
    requires LastConstraints(xs, c)
    ensures x.Jcc? && x.constraints.Ok? ==> LastConstraints(xs + [x], Some(x.constraints.value))
    ensures !x.Jcc? ==> LastConstraints(xs + [x], c)
  {
    if x.Jcc? && x.constraints.Ok? { assert (xs + [x])[|xs|] == Jcc(Ok(x.constraints.value)); }
    if !x.Jcc? && c.Some? {
      var i :| 0 <= i < |xs| && xs[i] == Jcc(Ok(c.value)) && forall j :: i < j < |xs| ==> !xs[j].Jcc?;
      assert (xs + [x])[i] == Jcc(Ok(c.value));
    }
  }

  /** The scan keeps the last list and the last constraints. */
  lemma {:induction false} ScanKeepsLast(xs: seq<Relevant>)
    requires Scan(xs).Ok?
    ensures LastList(xs, Scan(xs).value.tnauth) && LastConstraints(xs, Scan(xs).value.jcc)
  {
    if xs != [] {
      var pre, x := xs[..|xs| - 1], xs[|xs| - 1];
      ScanKeepsLast(pre);
      assert xs == pre + [x];
      LastListStep(pre, x, Scan(pre).value.tnauth);
      LastConstraintsStep(pre, x, Scan(pre).value.jcc);
    }
  }

  /** Extension `i` is the last one carrying `oid`. */
  ghost predicate LastWith(exts: seq<Extension>, oid: string, i: int) {
    0 <= i < |exts| && exts[i].oid == oid && forall j :: i < j < |exts| ==> exts[j].oid != oid
  }

  ghost predicate AllParse(exts: seq<Extension>) {
    forall e :: e in exts ==>
      && (e.oid == TN_AUTH_LIST_OID ==> TnAuthListOf(e.value).Ok?)
      && (e.oid == JWT_CLAIM_CONSTRAINTS_OID ==> CC.ConstraintsOf(e.value).Ok?)
  }

  /** Some TNAuthList is the last one and spells entries that authorise the number. */
  ghost predicate LastListAuthorises(exts: seq<Extension>, orig: Option<string>) {
    exists i, es: seq<TnEntry> ::
      LastWith(exts, TN_AUTH_LIST_OID, i) && IsTnAuthList(exts[i].value, es) && Authorises(es, orig)
  }

  /** Where the claims mention the level at all, their first mention lists this one. */
  ghost predicate LeavesLevel(claims: seq<CC.Claim>, attest: string) {
    forall i :: FirstMention(claims, "attest", i) ==> attest in claims[i].values
  }

  ghost predicate FirstMention(claims: seq<CC.Claim>, name: string, i: int) {
    0 <= i < |claims| && claims[i].name == name && forall j :: 0 <= j < i ==> claims[j].name != name
  }

  lemma PermitsIff(c: CC.Constraints, attest: string)
    ensures Permits(c, attest) <==> LeavesLevel(c.permitted, attest)
  {
    hide CC.FirstNamed;
    forall i | FirstMention(c.permitted, "attest", i)
      ensures CC.FirstNamed(c.permitted, "attest") == Some(c.permitted[i].values)
    {
      assert c.permitted[i] == CC.Claim("attest", c.permitted[i].values);
      CC.FirstNamedIff(c.permitted, "attest", c.permitted[i].values);
    }
    if c.PermittedFor("attest").Some? {
      var values := c.PermittedFor("attest").value;
      CC.FirstNamedIff(c.permitted, "attest", values);
      var i :| 0 <= i < |c.permitted| && c.permitted[i] == CC.Claim("attest", values)
               && forall j :: 0 <= j < i ==> c.permitted[j].name != "attest";
      assert FirstMention(c.permitted, "attest", i);
    }
  }

  /** The last constraints, if any, permit the attestation level, if any. */
  ghost predicate LastConstraintsPermit(exts: seq<Extension>, attest: Option<string>)
    requires AllParse(exts)
  {
    forall j :: LastWith(exts, JWT_CLAIM_CONSTRAINTS_OID, j) && attest.Some? ==>
      LeavesLevel(CC.ConstraintsOf(exts[j].value).value.permitted, attest.value)
  }

  lemma OidsDiffer()
    ensures TN_AUTH_LIST_OID != JWT_CLAIM_CONSTRAINTS_OID
  {
    assert TN_AUTH_LIST_OID[17] != JWT_CLAIM_CONSTRAINTS_OID[17];
  }

  lemma AllParseIff(exts: seq<Extension>)
    ensures Scan(ClassifyAll(exts)).Ok? <==> AllParse(exts)
  {
    var xs := ClassifyAll(exts);
    OidsDiffer();
    ScanParses(xs);
    forall i | 0 <= i < |exts| ensures exts[i] in exts && xs[i] in xs && xs[i] == Classify(exts[i]) {}
  }

  /** The list the scan kept is that of the last TNAuthList extension. */
  lemma KeptList(exts: seq<Extension>) returns (i: int)
    requires Scan(ClassifyAll(exts)).Ok?
    ensures var l := Scan(ClassifyAll(exts)).value.tnauth;
            if l.Some? then LastWith(exts, TN_AUTH_LIST_OID, i) && TnAuthListOf(exts[i].value) == Ok(l.value)
            else forall k :: !LastWith(exts, TN_AUTH_LIST_OID, k)
  {
    var xs := ClassifyAll(exts);
    var l := Scan(xs).value.tnauth;
    ScanKeepsLast(xs);
    i := 0;
    if l.Some? {
      i :| 0 <= i < |xs| && xs[i] == Tn(Ok(l.value)) && forall j :: i < j < |xs| ==> !xs[j].Tn?;
      forall j | i < j < |exts| ensures exts[j].oid != TN_AUTH_LIST_OID { assert !xs[j].Tn?; }
    } else {
      forall k | 0 <= k < |exts| ensures exts[k].oid != TN_AUTH_LIST_OID { assert xs[k] == Classify(exts[k]); }
    }
  }

  /** For a body that parses, the list check decides what its entries authorise. */
  lemma BodyAuthorises(body: seq<byte>, l: TnAuthList, orig: Option<string>)
    requires TnAuthListOf(body) == Ok(l)
    ensures ListFault(l, orig).None? <==> exists es: seq<TnEntry> :: IsTnAuthList(body, es) && Authorises(es, orig)
  {
    TnAuthListIff(body, l);
    var es: seq<TnEntry> :| IsTnAuthList(body, es) && l == Collect(es);
    ListFaultIff(es, orig);
    forall es': seq<TnEntry> | IsTnAuthList(body, es') && Authorises(es', orig) ensures ListFault(l, orig).None? {
      TnAuthListIff(body, Collect(es'));
      ListFaultIff(es', orig);
    }
  }

  lemma ListIff(exts: seq<Extension>, orig: Option<string>)
    requires Scan(ClassifyAll(exts)).Ok?
    ensures var f := Scan(ClassifyAll(exts)).value;
            f.tnauth.Some? && ListFault(f.tnauth.value, orig).None? <==> LastListAuthorises(exts, orig)
  {
    var l := Scan(ClassifyAll(exts)).value.tnauth;
    var i := KeptList(exts);
    if l.Some? { BodyAuthorises(exts[i].value, l.value, orig); }
  }

  /** The constraints the scan kept are those of the last such extension. */
  lemma KeptConstraints(exts: seq<Extension>) returns (i: int)
    requires Scan(ClassifyAll(exts)).Ok?
    ensures var c := Scan(ClassifyAll(exts)).value.jcc;
            && (c.Some? ==> LastWith(exts, JWT_CLAIM_CONSTRAINTS_OID, i))
            && (c.Some? ==> CC.ConstraintsOf(exts[i].value) == Ok(c.value))
            && (c.None? ==> forall k :: !LastWith(exts, JWT_CLAIM_CONSTRAINTS_OID, k))
  {
    hide Scan, TnAuthListOf, CC.ConstraintsOf;
    OidsDiffer();
    var xs := ClassifyAll(exts);
    var c := Scan(xs).value.jcc;
    ScanKeepsLast(xs);
    i := 0;
    if c.Some? {
      i :| 0 <= i < |xs| && xs[i] == Jcc(Ok(c.value)) && forall j :: i < j < |xs| ==> !xs[j].Jcc?;
      forall j | i < j < |exts| ensures exts[j].oid != JWT_CLAIM_CONSTRAINTS_OID { assert !xs[j].Jcc?; }
    } else {
      forall k | 0 <= k < |exts| ensures exts[k].oid != JWT_CLAIM_CONSTRAINTS_OID { assert xs[k] == Classify(exts[k]); }
    }
  }

  lemma ConstraintsPermitIff(exts: seq<Extension>, attest: Option<string>)
    requires AllParse(exts) && Scan(ClassifyAll(exts)).Ok?
    ensures AttestFault(Scan(ClassifyAll(exts)).value.jcc, attest).None? <==> LastConstraintsPermit(exts, attest)
  {
    hide Scan, ClassifyAll, AllParse, Permits, LeavesLevel, CC.ConstraintsOf;
    var i := KeptConstraints(exts);
    var jcc := Scan(ClassifyAll(exts)).value.jcc;
    if jcc.Some? && attest.Some? { PermitsIff(jcc.value, attest.value); }
  }

  /** A leaf passes exactly when its extensions parse, its last TNAuthList spells entries
      that authorise the originating number, and its last constraints permit the level. */
  lemma ProfileIff(exts: seq<Extension>, orig: Option<string>, attest: Option<string>)
    ensures ProfileFaultOf(exts, orig, attest).None?
       <==> AllParse(exts) && LastListAuthorises(exts, orig) && LastConstraintsPermit(exts, attest)
  {
    AllParseIff(exts);
    if AllParse(exts) {
      ListIff(exts, orig);
      ConstraintsPermitIff(exts, attest);
    }
  }

  /** Which fault is reported once everything parses: a missing list, an empty one, a number it
      does not authorise, a level the constraints do not permit, in this order. */
  lemma ProfileFaultIs(exts: seq<Extension>, orig: Option<string>, attest: Option<string>, i: int, es: seq<TnEntry>)
    requires AllParse(exts)
    ensures var r := ProfileFaultOf(exts, orig, attest);
            && ((forall k :: !LastWith(exts, TN_AUTH_LIST_OID, k)) ==> r == Some(TnAuthListMissing))
            && (LastWith(exts, TN_AUTH_LIST_OID, i) && IsTnAuthList(exts[i].value, es) ==>
                  r == if es == [] then Some(TnAuthListEmpty)
                       else if !Authorises(es, orig) then Some(OrigNotAuthorised(orig.value))
                       else if !LastConstraintsPermit(exts, attest) then Some(AttestNotPermitted(attest.value))
                       else None)
  {
    hide Scan, ClassifyAll, AllParse, LastConstraintsPermit, IsTnAuthList, TnAuthListOf, Collect, Permits;
    AllParseIff(exts);
    ConstraintsPermitIff(exts, attest);
    var k := KeptList(exts);
    if LastWith(exts, TN_AUTH_LIST_OID, i) && IsTnAuthList(exts[i].value, es) {
      TnAuthListIff(exts[i].value, Collect(es));
      ListFaultIff(es, orig);
      CollectEmpty(es);
    }
  }

  lemma CollectEmpty(es: seq<TnEntry>)
    ensures Collect(es).IsEmpty() <==> es == []
  {
    CollectMembers(es);
    if es != [] {
      var e := es[0];
      match e
      case Spc(t) => assert t in Collect(es).spcs;
      case One(t) => assert t in Collect(es).tns;
      case Range(s, c) => assert (s, c) in Collect(es).ranges;
    }
  }

  /** The first extension that does not parse decides, with its own error. */
  lemma FirstParseError(exts: seq<Extension>, orig: Option<string>, attest: Option<string>, i: nat)
    requires i < |exts| && AllParse(exts[..i])
    ensures var e, r := exts[i], ProfileFaultOf(exts, orig, attest);
            && (e.oid == TN_AUTH_LIST_OID && TnAuthListOf(e.value).Err? ==>
                  r == Some(BadTnAuthList(TnAuthListOf(e.value).error)))
            && (e.oid == JWT_CLAIM_CONSTRAINTS_OID && CC.ConstraintsOf(e.value).Err? ==>
                  r == Some(BadConstraints(CC.ConstraintsOf(e.value).error)))
  {
    hide AllParse, TnAuthListOf, CC.ConstraintsOf;
    OidsDiffer();
    var xs := ClassifyAll(exts);
    AllParseIff(exts[..i]);
    assert ClassifyAll(exts[..i]) == xs[..i] && xs[..i + 1][..i] == xs[..i];
    ScanErr(xs, i + 1);
  }
}
