/** The TNAuthList certificate extension (section 9 of RFC 8226), as the code reads it:

      TNAuthorizationList ::= SEQUENCE OF TNEntry
      TNEntry ::= spc [0] text | range [1] { start, count } | one [2] text
*/
module TnAuthLists {
  import opened Prelude
  import opened Der
  import Utf8

  datatype TnEntry = Spc(text: string) | Range(start: string, count: nat) | One(text: string)

  datatype TnAuthList = TnAuthList(spcs: seq<string>, tns: seq<string>, ranges: seq<(string, nat)>) {
    predicate IsEmpty() { spcs == [] && tns == [] && ranges == [] }

    /** The list with one more entry behind those of its kind. */
    function Push(e: TnEntry): TnAuthList {
      match e
      case Spc(t) => this.(spcs := spcs + [t])
      case One(t) => this.(tns := tns + [t])
      case Range(s, c) => this.(ranges := ranges + [(s, c)])
    }
  }

  datatype TnAuthError =
    | OuterTruncated | NotSequence(tag: byte)
    | EntryTruncated | UnknownEntry(tag: byte)
    | SpcNotUtf8 | TnNotUtf8
    | StartTruncated | StartNotIa5(tag: byte) | StartNotUtf8
    | CountTruncated | CountNotInteger(tag: byte) | CountOutOfRange

  const EMPTY := TnAuthList([], [], [])

  /** Entries sorted into the three lists, each in the order met. */
  function Collect(es: seq<TnEntry>): (l: TnAuthList) {
    if es == [] then EMPTY else Collect(es[..|es| - 1]).Push(es[|es| - 1])
  }

  // ----- The grammar -----

  /** `body` spells `count`: at most eight bytes, or nine led by a zero. */
  predicate IsCount(body: seq<byte>, count: nat) {
    1 <= |body| && (|body| <= 8 || (|body| == 9 && body[0] == 0)) && BigEndian(body) == count
  }

  /** Inside a range entry: an IA5String, an INTEGER, and whatever follows. */
  ghost predicate IsRangeBody(body: seq<byte>, start: string, count: nat) {
    exists h1: seq<byte>, rest1: seq<byte>, h2: seq<byte>, n: seq<byte>, junk: seq<byte> ::
      IsTlv(body, h1, 0x16, Utf8.Encode(start), rest1) && IsTlv(rest1, h2, 0x02, n, junk) && IsCount(n, count)
  }

  /** An element with this tag and these contents denotes `e`. */
  ghost predicate Denotes(tag: byte, contents: seq<byte>, e: TnEntry) {
    match e
    case Spc(t) => tag == 0x80 && contents == Utf8.Encode(t)
    case One(t) => tag == 0x82 && contents == Utf8.Encode(t)
    case Range(s, c) => tag == 0xA1 && IsRangeBody(contents, s, c)
  }

  /** `body` opens with a SEQUENCE of elements that denote `es`. */
  ghost predicate IsTnAuthList(body: seq<byte>, es: seq<TnEntry>) {
    exists h: seq<byte>, contents: seq<byte>, rest: seq<byte> ::
      IsTlv(body, h, 0x30, contents, rest) && IsElements(contents, es, Denotes)
  }

  // ----- Reading -----

  function RangeOf(body: seq<byte>): (r: Result<TnEntry, TnAuthError>) {
    match FirstTlv(body)
    case None => Err(StartTruncated)
    case Some(start) =>
      if start.tag != 0x16 then Err(StartNotIa5(start.tag))
      else
        match Utf8.Decode(start.contents)
        case None => Err(StartNotUtf8)
        case Some(text) =>
          match FirstTlv(start.rest)
          case None => Err(CountTruncated)
          case Some(count) =>
            if count.tag != 0x02 then Err(CountNotInteger(count.tag))
            else
              match UnsignedInteger(count.contents)
              case None => Err(CountOutOfRange)
              case Some(n) => Ok(Range(text, n))
  }

  function EntryOf(tag: byte, contents: seq<byte>): (r: Result<TnEntry, TnAuthError>) {
    if tag == 0x80 then
      match Utf8.Decode(contents) { case None => Err(SpcNotUtf8) case Some(t) => Ok(Spc(t)) }
    else if tag == 0x82 then
      match Utf8.Decode(contents) { case None => Err(TnNotUtf8) case Some(t) => Ok(One(t)) }
    else if tag == 0xA1 then RangeOf(contents)
    else Err(UnknownEntry(tag))
  }

  function TnAuthListOf(body: seq<byte>): (r: Result<TnAuthList, TnAuthError>) {
    match FirstTlv(body)
    case None => Err(OuterTruncated)
    case Some(t) =>
      if t.tag != 0x30 then Err(NotSequence(t.tag))
      else var es :- ElementsOf(t.contents, EntryTruncated, EntryOf); Ok(Collect(es))
  }

  /** `parse_tnauth_list`. */
  method ParseTnAuthList(body: seq<byte>) returns (r: Result<TnAuthList, TnAuthError>)
    ensures r == TnAuthListOf(body)
  {
    var outer := ReadTlv(body);
    if outer.None? { return Err(OuterTruncated); }
    if outer.value.tag != 0x30 { return Err(NotSequence(outer.value.tag)); }

    var out := EMPTY;
    var cur := outer.value.contents;
    ghost var done: seq<TnEntry> := [];
    AfterNothing(ElementsOf(cur, EntryTruncated, EntryOf));
    while cur != []
      invariant out == Collect(done)
      invariant ElementsOf(outer.value.contents, EntryTruncated, EntryOf)
             == After(done, ElementsOf(cur, EntryTruncated, EntryOf))
      decreases |cur|
    {
      var next := ReadTlv(cur);
      if next.None? { return Err(EntryTruncated); }
      var Tlv(tag, contents, rest) := next.value;
      var entry: TnEntry;
      if tag == 0x80 {
        var s := Utf8.Decode(contents);
        if s.None? { return Err(SpcNotUtf8); }
        out, entry := out.(spcs := out.spcs + [s.value]), Spc(s.value);
      } else if tag == 0x82 {
        var s := Utf8.Decode(contents);
        if s.None? { return Err(TnNotUtf8); }
        out, entry := out.(tns := out.tns + [s.value]), One(s.value);
      } else if tag == 0xA1 {
        var start := ReadTlv(contents);
        if start.None? { return Err(StartTruncated); }
        if start.value.tag != 0x16 { return Err(StartNotIa5(start.value.tag)); }
        var text := Utf8.Decode(start.value.contents);
        if text.None? { return Err(StartNotUtf8); }
        var count := ReadTlv(start.value.rest);
        if count.None? { return Err(CountTruncated); }
        if count.value.tag != 0x02 { return Err(CountNotInteger(count.value.tag)); }
        var n := ReadUnsignedInteger(count.value.contents);
        if n.None? { return Err(CountOutOfRange); }
        out, entry := out.(ranges := out.ranges + [(text.value, n.value)]), Range(text.value, n.value);
      } else {
        return Err(UnknownEntry(tag));
      }
      AfterOne(done, entry, ElementsOf(rest, EntryTruncated, EntryOf));
      assert (done + [entry])[..|done|] == done;
      done := done + [entry];
      cur := rest;
    }
    assert done + [] == done;
    r := Ok(out);
  }

  // ----- The reader accepts exactly the grammar -----

  lemma CountIff(body: seq<byte>, count: nat)
    ensures UnsignedInteger(body) == Some(count) <==> IsCount(body, count)
  {
    if body != [] && body[0] == 0 {
      assert body == [body[0]] + body[1..];
      BigEndianSplit([body[0]], body[1..]);
    }
  }

  lemma RangeIff(body: seq<byte>, start: string, count: nat)
    ensures RangeOf(body) == Ok(Range(start, count)) <==> IsRangeBody(body, start, count)
  {
    if RangeOf(body) == Ok(Range(start, count)) {
      var t1 := FirstTlv(body).value;
      var t2 := FirstTlv(t1.rest).value;
      var h1 := FirstTlvSound(body);
      var h2 := FirstTlvSound(t1.rest);
      Utf8.DecodeIff(t1.contents, start);
      CountIff(t2.contents, count);
      assert IsTlv(body, h1, 0x16, Utf8.Encode(start), t1.rest) && IsTlv(t1.rest, h2, 0x02, t2.contents, t2.rest);
    }
    forall h1: seq<byte>, rest1: seq<byte>, h2: seq<byte>, n: seq<byte>, junk: seq<byte> |
      IsTlv(body, h1, 0x16, Utf8.Encode(start), rest1) && IsTlv(rest1, h2, 0x02, n, junk) && IsCount(n, count)
      ensures RangeOf(body) == Ok(Range(start, count))
    {
      FirstTlvComplete(body, h1, 0x16, Utf8.Encode(start), rest1);
      FirstTlvComplete(rest1, h2, 0x02, n, junk);
      Utf8.DecodeIff(Utf8.Encode(start), start);
      CountIff(n, count);
    }
  }

  lemma EntryIff(tag: byte, contents: seq<byte>, e: TnEntry)
    ensures EntryOf(tag, contents) == Ok(e) <==> Denotes(tag, contents, e)
  {
    hide RangeOf, IsRangeBody, Utf8.Decode, Utf8.Encode;
    if e.Range? {
      RangeIff(contents, e.start, e.count);
    } else {
      Utf8.DecodeIff(contents, e.text);
    }
    RangeIsRange(contents);
  }

  lemma RangeIsRange(body: seq<byte>)
    ensures RangeOf(body).Ok? ==> RangeOf(body).value.Range?
  {
  }

  lemma EntriesRead()
    ensures Reads(EntryOf, Denotes)
  {
    forall tag: byte, contents: seq<byte>, e: TnEntry
      ensures EntryOf(tag, contents) == Ok(e) <==> Denotes(tag, contents, e)
    {
      EntryIff(tag, contents, e);
    }
  }

  /** Printing and parsing agree: `parse_tnauth_list` succeeds exactly on the spellings
      of entry lists, with any admissible lengths and any trailing bytes, and then
      returns those entries sorted by kind. */
  lemma TnAuthListIff(body: seq<byte>, l: TnAuthList)
    ensures TnAuthListOf(body) == Ok(l) <==> exists es: seq<TnEntry> :: IsTnAuthList(body, es) && l == Collect(es)
  {
    EntriesRead();
    if TnAuthListOf(body) == Ok(l) {
      var t := FirstTlv(body).value;
      var h := FirstTlvSound(body);
      var es := ElementsOf(t.contents, EntryTruncated, EntryOf).value;
      ElementsIff(t.contents, es, EntryTruncated, EntryOf, Denotes);
      assert IsTnAuthList(body, es) by { assert IsTlv(body, h, 0x30, t.contents, t.rest); }
    }
    forall es: seq<TnEntry> | IsTnAuthList(body, es) && l == Collect(es) ensures TnAuthListOf(body) == Ok(l) {
      var h: seq<byte>, contents: seq<byte>, rest: seq<byte> :|
        IsTlv(body, h, 0x30, contents, rest) && IsElements(contents, es, Denotes);
      FirstTlvComplete(body, h, 0x30, contents, rest);
      ElementsIff(contents, es, EntryTruncated, EntryOf, Denotes);
    }
  }

  /** Bytes behind the outer element never change a successful parse. */
  lemma TnAuthListIgnoresTrailing(body: seq<byte>, more: seq<byte>)
    requires FirstTlv(body).Some?
    ensures TnAuthListOf(body + more) == TnAuthListOf(body)
  {
    FirstTlvAppend(body, more);
  }

  // ----- A printer -----

  function PrintRangeBody(start: string, count: nat): (b: seq<byte>)
    requires count < TWO_64 && |Utf8.Encode(start)| < 0x1_0000_0000
  {
    Pow256Values();
    Print(0x16, Utf8.Encode(start)) + Print(0x02, [0] + Digits(count, 8))
  }

  function TagOf(e: TnEntry): byte {
    match e case Spc(_) => 0x80 case One(_) => 0x82 case Range(_, _) => 0xA1
  }

  /** Every part of the entry fits in lengths of four bytes. */
  predicate Printable(e: TnEntry) {
    && (e.Range? ==> e.count < TWO_64 && |Utf8.Encode(e.start)| < 0x1_0000_0000)
    && |ContentsOf(e)| < 0x1_0000_0000
  }

  function ContentsOf(e: TnEntry): (b: seq<byte>)
    requires e.Range? ==> e.count < TWO_64 && |Utf8.Encode(e.start)| < 0x1_0000_0000
  {
    match e
    case Spc(t) => Utf8.Encode(t)
    case One(t) => Utf8.Encode(t)
    case Range(s, c) => PrintRangeBody(s, c)
  }

  function Items(es: seq<TnEntry>): (items: seq<Item>)
    requires forall e :: e in es ==> Printable(e)
    ensures Fits(items) && |items| == |es|
    ensures forall i :: 0 <= i < |es| ==> Printable(es[i]) && items[i] == Item(TagOf(es[i]), ContentsOf(es[i]))
  {
    if es == [] then [] else
      assert Printable(es[0]);
      [Item(TagOf(es[0]), ContentsOf(es[0]))] + Items(es[1..])
  }

  function PrintEntries(es: seq<TnEntry>): (b: seq<byte>)
    requires forall e :: e in es ==> Printable(e)
  {
    PrintAll(Items(es))
  }

  lemma PrintRangeBodyIsRange(start: string, count: nat)
    requires count < TWO_64 && |Utf8.Encode(start)| < 0x1_0000_0000
    ensures IsRangeBody(PrintRangeBody(start, count), start, count)
  {
    Pow256Values();
    var n := [0] + Digits(count, 8);
    var rest := Print(0x02, n);
    var h1 := PrintIsTlv(0x16, Utf8.Encode(start), rest);
    var h2 := PrintIsTlv(0x02, n, []);
    assert rest + [] == rest;
    BigEndianSplit([0], Digits(count, 8));
    assert IsTlv(PrintRangeBody(start, count), h1, 0x16, Utf8.Encode(start), rest) && IsTlv(rest, h2, 0x02, n, []);
  }

  lemma PrintedEntriesAreEntries(es: seq<TnEntry>)
    requires forall e :: e in es ==> Printable(e)
    ensures IsElements(PrintEntries(es), es, Denotes)
  {
    forall i | 0 <= i < |es| ensures Denotes(TagOf(es[i]), Items(es)[i].contents, es[i]) {
      assert Printable(es[i]);
      if es[i].Range? { PrintRangeBodyIsRange(es[i].start, es[i].count); }
    }
    PrintedElements(Items(es), es, Denotes);
  }

  /** Every list of entries that fits survives printing and parsing. */
  lemma ParseOfPrint(es: seq<TnEntry>, trailing: seq<byte>)
    requires forall e :: e in es ==> Printable(e)
    requires |PrintEntries(es)| < 0x1_0000_0000
    ensures TnAuthListOf(Print(0x30, PrintEntries(es)) + trailing) == Ok(Collect(es))
  {
    PrintedEntriesAreEntries(es);
    var h := PrintIsTlv(0x30, PrintEntries(es), trailing);
    FirstTlvComplete(Print(0x30, PrintEntries(es)) + trailing, h, 0x30, PrintEntries(es), trailing);
    EntriesRead();
    ElementsIff(PrintEntries(es), es, EntryTruncated, EntryOf, Denotes);
  }

  // ----- Which error -----

  /** What is no element, or no SEQUENCE, is no list. */
  lemma NoList(body: seq<byte>)
    ensures FirstTlv(body).None? ==> TnAuthListOf(body) == Err(OuterTruncated)
    ensures forall h, tag: byte, contents, rest :: IsTlv(body, h, tag, contents, rest) && tag != 0x30 ==>
              TnAuthListOf(body) == Err(NotSequence(tag))
  {
    forall h, tag: byte, contents, rest | IsTlv(body, h, tag, contents, rest)
      ensures FirstTlv(body) == Some(Tlv(tag, contents, rest))
    {
      FirstTlvComplete(body, h, tag, contents, rest);
    }
  }

  /** Behind entries that can be read, the first that cannot is reported: cut short, of an unknown
      kind, or with a text that is not UTF-8. */
  lemma FirstBadEntry(body: seq<byte>, h: seq<byte>, pre: seq<byte>, es: seq<TnEntry>, bad: seq<byte>, junk: seq<byte>)
    requires IsTlv(body, h, 0x30, pre + bad, junk) && IsElements(pre, es, Denotes) && bad != []
    ensures match FirstTlv(bad)
            case None => TnAuthListOf(body) == Err(EntryTruncated)
            case Some(t) =>
              && (t.tag !in {0x80, 0x82, 0xA1} ==> TnAuthListOf(body) == Err(UnknownEntry(t.tag)))
              && (t.tag == 0x80 && Utf8.Decode(t.contents).None? ==> TnAuthListOf(body) == Err(SpcNotUtf8))
              && (t.tag == 0x82 && Utf8.Decode(t.contents).None? ==> TnAuthListOf(body) == Err(TnNotUtf8))
              && (t.tag == 0xA1 && RangeOf(t.contents).Err? ==> TnAuthListOf(body) == Err(RangeOf(t.contents).error))
  {
    hide IsTlv, FirstTlv, Utf8.Decode, RangeOf, IsElements;
    EntriesRead();
    FirstTlvComplete(body, h, 0x30, pre + bad, junk);
    FirstBadElement(pre, es, bad, EntryTruncated, EntryOf, Denotes);
  }

  /** Inside a range: what stands where the start and the count should. */
  lemma BadRange(body: seq<byte>, h: seq<byte>, tag: byte, contents: seq<byte>, rest: seq<byte>)
    ensures FirstTlv(body).None? ==> RangeOf(body) == Err(StartTruncated)
    ensures IsTlv(body, h, tag, contents, rest) ==>
              if tag != 0x16 then RangeOf(body) == Err(StartNotIa5(tag))
              else if Utf8.Decode(contents).None? then RangeOf(body) == Err(StartNotUtf8)
              else match FirstTlv(rest)
                   case None => RangeOf(body) == Err(CountTruncated)
                   case Some(n) =>
                     if n.tag != 0x02 then RangeOf(body) == Err(CountNotInteger(n.tag))
                     else (forall count: nat :: !IsCount(n.contents, count)) ==> RangeOf(body) == Err(CountOutOfRange)
  {
    hide IsTlv, FirstTlv, Utf8.Decode, UnsignedInteger, IsCount;
    if IsTlv(body, h, tag, contents, rest) {
      FirstTlvComplete(body, h, tag, contents, rest);
      var next := FirstTlv(rest);
      if next.Some? && UnsignedInteger(next.value.contents).Some? {
        CountIff(next.value.contents, UnsignedInteger(next.value.contents).value);
      }
    }
  }
}
