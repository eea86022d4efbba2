/** The hand-written DER reader: one tag-length-value at a time, with definite
    lengths of at most four length bytes (section 8.1.3 of X.690). */
module Der {
  import opened Prelude

  datatype Tlv = Tlv(tag: byte, contents: seq<byte>, rest: seq<byte>)

  // ----- Big-endian numbers -----

  function BigEndian(b: seq<byte>): (n: nat) {
    if b == [] then 0 else BigEndian(b[..|b| - 1]) * 256 + b[|b| - 1]
  }

  function Pow256(k: nat): (p: nat)
    ensures p > 0
  {
    if k == 0 then 1 else 256 * Pow256(k - 1)
  }

  lemma {:induction false} BigEndianBound(b: seq<byte>)
    ensures BigEndian(b) < Pow256(|b|)
  {
    if b != [] { BigEndianBound(b[..|b| - 1]); }
  }

  lemma {:induction false} Pow256Monotone(j: nat, k: nat)
    requires j <= k
    ensures Pow256(j) <= Pow256(k)
  {
    if j < k { Pow256Monotone(j, k - 1); }
  }

  lemma Pow256Values()
    ensures Pow256(4) == 0x1_0000_0000 && Pow256(8) == TWO_64
  {
    assert Pow256(2) == 0x1_0000 && Pow256(4) == 0x1_0000 * Pow256(2);
    assert Pow256(6) == 0x1_0000 * Pow256(4) && Pow256(8) == 0x1_0000 * Pow256(6);
  }

  /** `checked_shl(8)` on a 64-bit word: it drops the high byte without noticing. */
  function Shl8(acc: nat): (r: nat) { acc * 256 % TWO_64 }

  lemma ShiftIn(n: nat, b: byte)
    ensures Shl8(n % TWO_64) + b < TWO_64
    ensures Shl8(n % TWO_64) + b == (n * 256 + b) % TWO_64
  {
    var q, r := n / TWO_64, n % TWO_64;
    var q2 := r * 256 / TWO_64;
    var low := r - q2 * 0x100_0000_0000_0000;
    assert Shl8(r) == low * 256 && 0 <= low * 256 < TWO_64;
    assert n * 256 + b == (q * 256 + q2) * TWO_64 + (low * 256 + b);
    ModUnique(n * 256 + b, q * 256 + q2, low * 256 + b);
  }

  lemma ModUnique(n: nat, q: nat, r: nat)
    requires n == q * TWO_64 + r && r < TWO_64
    ensures n % TWO_64 == r
  {
  }

  /** The shift-accumulate loop of both readers. The checked addition cannot fail;
      what the loop computes is the big-endian value modulo 2^64. */
  method Accumulate(bytes: seq<byte>) returns (r: Option<nat>)
    ensures r == Some(BigEndian(bytes) % TWO_64)
  {
    var acc: nat := 0;
    for i := 0 to |bytes|
      invariant acc == BigEndian(bytes[..i]) % TWO_64
    {
      assert bytes[..i + 1][..i] == bytes[..i];
      ShiftIn(BigEndian(bytes[..i]), bytes[i]);
      acc := Shl8(acc);
      if acc + bytes[i] >= TWO_64 { assert false; return None; }
      acc := acc + bytes[i];
    }
    assert bytes[..|bytes|] == bytes;
    r := Some(acc);
  }

  /** At most eight bytes lose nothing. */
  lemma ShortIsExact(b: seq<byte>)
    requires |b| <= 8
    ensures BigEndian(b) < TWO_64
  {
    BigEndianBound(b);
    Pow256Monotone(|b|, 8);
    Pow256Values();
  }

  // ----- The grammar of one element -----

  /** `field` is a definite-length field announcing `n` bytes. */
  predicate IsLength(field: seq<byte>, n: nat) {
    && |field| >= 1
    && if field[0] < 0x80 then |field| == 1 && field[0] == n
       else
         && 0x81 <= field[0] <= 0x84
         && |field| == 1 + (field[0] - 0x80)
         && BigEndian(field[1..]) == n
  }

  /** `bytes` is header `h` (tag and length), then `contents`, then `rest`. */
  predicate IsTlv(bytes: seq<byte>, h: seq<byte>, tag: byte, contents: seq<byte>, rest: seq<byte>) {
    && |h| >= 2 && h[0] == tag && IsLength(h[1..], |contents|)
    && bytes == h + contents + rest
  }

  /** What the reader is to return: the element at the front, if there is one. */
  function FirstTlv(bytes: seq<byte>): (r: Option<Tlv>)
    ensures r.Some? ==> |r.value.contents| + |r.value.rest| + 2 <= |bytes|
  {
    if |bytes| < 2 then None
    else
      var k := if bytes[1] < 0x80 then 2 else 2 + (bytes[1] - 0x80);
      if bytes[1] == 0x80 || bytes[1] > 0x84 || |bytes| < k then None
      else
        var n := if bytes[1] < 0x80 then bytes[1] else BigEndian(bytes[2..k]);
        if |bytes| < k + n then None
        else Some(Tlv(bytes[0], bytes[k..k + n], bytes[k + n..]))
  }

  /** An element is read off whatever follows it. */
  lemma FirstTlvComplete(bytes: seq<byte>, h: seq<byte>, tag: byte, contents: seq<byte>, rest: seq<byte>)
    requires IsTlv(bytes, h, tag, contents, rest)
    ensures FirstTlv(bytes) == Some(Tlv(tag, contents, rest))
  {
    assert bytes[0] == h[0] && bytes[1] == h[1] && h[1..][0] == h[1];
    assert bytes[2..|h|] == h[1..][1..];
    assert bytes[|h|..|h| + |contents|] == contents;
    assert bytes[|h| + |contents|..] == rest;
  }

  /** Whatever is read splits the input into header, contents and rest. */
  lemma FirstTlvSound(bytes: seq<byte>) returns (h: seq<byte>)
    requires FirstTlv(bytes).Some?
    ensures var t := FirstTlv(bytes).value; IsTlv(bytes, h, t.tag, t.contents, t.rest)
  {
    var k := if bytes[1] < 0x80 then 2 else 2 + (bytes[1] - 0x80);
    h := bytes[..k];
    assert h[1..][1..] == bytes[2..k];
  }

  /** Bytes appended behind an element only lengthen the rest. */
  lemma FirstTlvAppend(bytes: seq<byte>, more: seq<byte>)
    requires FirstTlv(bytes).Some?
    ensures var t := FirstTlv(bytes).value;
            FirstTlv(bytes + more) == Some(Tlv(t.tag, t.contents, t.rest + more))
  {
    var t := FirstTlv(bytes).value;
    var h := FirstTlvSound(bytes);
    assert bytes + more == h + t.contents + (t.rest + more);
    FirstTlvComplete(bytes + more, h, t.tag, t.contents, t.rest + more);
  }

  // ----- Printing -----

  /** `n` as exactly `k` big-endian bytes. */
  function Digits(n: nat, k: nat): (b: seq<byte>)
    requires n < Pow256(k)
    ensures |b| == k && BigEndian(b) == n
  {
    if k == 0 then [] else Digits(n / 256, k - 1) + [n % 256]
  }

  /** The encoder of the crate's tests, extended to three and four length bytes. */
  function Print(tag: byte, contents: seq<byte>): (b: seq<byte>)
    requires |contents| < 0x1_0000_0000
  {
    var n := |contents|;
    Pow256Values();
    assert Pow256(1) == 0x100 && Pow256(2) == 0x1_0000 && Pow256(3) == 0x100_0000;
    if n < 0x80 then [tag, n] + contents
    else if n < 0x100 then [tag, 0x81] + Digits(n, 1) + contents
    else if n < 0x1_0000 then [tag, 0x82] + Digits(n, 2) + contents
    else if n < 0x100_0000 then [tag, 0x83] + Digits(n, 3) + contents
    else [tag, 0x84] + Digits(n, 4) + contents
  }

  lemma PrintIsTlv(tag: byte, contents: seq<byte>, rest: seq<byte>) returns (h: seq<byte>)
    requires |contents| < 0x1_0000_0000
    ensures IsTlv(Print(tag, contents) + rest, h, tag, contents, rest)
  {
    h := Print(tag, contents)[..|Print(tag, contents)| - |contents|];
    Pow256Values();
    assert Pow256(1) == 0x100 && Pow256(2) == 0x1_0000 && Pow256(3) == 0x100_0000;
    var n := |contents|;
    if n >= 0x80 {
      var k := if n < 0x100 then 1 else if n < 0x1_0000 then 2 else if n < 0x100_0000 then 3 else 4;
      assert h == [tag, 0x80 + k] + Digits(n, k);
      assert h[1..][1..] == Digits(n, k);
    }
  }

  /** `read_tlv`. The four-byte cap keeps the shift-accumulate loop exact. */
  method ReadTlv(bytes: seq<byte>) returns (r: Option<Tlv>)
    ensures r == FirstTlv(bytes)
  {
    if |bytes| < 2 { return None; }
    var tag, firstLen := bytes[0], bytes[1];
    var len: nat, headerLen: nat := firstLen, 2;
    if firstLen >= 0x80 {
      var n := firstLen - 0x80;
      if n == 0 || n > 4 || |bytes| < 2 + n { return None; }
      var acc := Accumulate(bytes[2..2 + n]);
      if acc.None? { return None; }
      ShortIsExact(bytes[2..2 + n]);
      len, headerLen := acc.value, 2 + n;
    }
    if |bytes| < headerLen + len { return None; }
    r := Some(Tlv(tag, bytes[headerLen..headerLen + len], bytes[headerLen + len..]));
  }

  // ----- SEQUENCE OF: a run of elements -----

  /** Elements read one after the other, each by `elem`: what they denote, or the error
      of the first that fails. Each level of the parsers' loops is an instance. */
  function ElementsOf<T, E>(cur: seq<byte>, truncated: E, elem: (byte, seq<byte>) -> Result<T, E>)
    : (r: Result<seq<T>, E>) {
    if cur == [] then Ok([])
    else
      match FirstTlv(cur)
      case None => Err(truncated)
      case Some(t) =>
        var x :- elem(t.tag, t.contents);
        var xs :- ElementsOf(t.rest, truncated, elem);
        Ok([x] + xs)
  }

  /** `bytes` is the concatenation of elements that denote `xs`, in order. */
  ghost predicate IsElements<T>(bytes: seq<byte>, xs: seq<T>, denotes: (byte, seq<byte>, T) -> bool)
    decreases |xs|
  {
    if xs == [] then bytes == []
    else
      exists h: seq<byte>, tag: byte, contents: seq<byte>, rest: seq<byte> ::
        IsTlv(bytes, h, tag, contents, rest) && denotes(tag, contents, xs[0]) && IsElements(rest, xs[1..], denotes)
  }

  /** `elem` returns a value exactly for the elements that denote it. */
  ghost predicate Reads<T(!new), E>(elem: (byte, seq<byte>) -> Result<T, E>, denotes: (byte, seq<byte>, T) -> bool) {
    forall tag: byte, contents: seq<byte>, x: T :: elem(tag, contents) == Ok(x) <==> denotes(tag, contents, x)
  }

  datatype Item = Item(tag: byte, contents: seq<byte>)

  /** Every element fits in a length of four bytes. */
  predicate Fits(items: seq<Item>) { forall i :: 0 <= i < |items| ==> |items[i].contents| < 0x1_0000_0000 }

  function PrintAll(items: seq<Item>): (b: seq<byte>)
    requires Fits(items)
  {
    if items == [] then [] else Print(items[0].tag, items[0].contents) + PrintAll(items[1..])
  }

  lemma {:induction false} PrintedElements<T>(items: seq<Item>, xs: seq<T>, denotes: (byte, seq<byte>, T) -> bool)
    requires Fits(items) && |items| == |xs|
    requires forall i :: 0 <= i < |xs| ==> denotes(items[i].tag, items[i].contents, xs[i])
    ensures IsElements(PrintAll(items), xs, denotes)
  {
    if xs != [] {
      hide Print;
      var x, rest := items[0], PrintAll(items[1..]);
      PrintedElements(items[1..], xs[1..], denotes);
      var h := PrintIsTlv(x.tag, x.contents, rest);
      assert IsTlv(PrintAll(items), h, x.tag, x.contents, rest);
    }
  }

  lemma {:induction false} ElementsSound<T(!new), E>(cur: seq<byte>, truncated: E,
                                                     elem: (byte, seq<byte>) -> Result<T, E>,
                                                     denotes: (byte, seq<byte>, T) -> bool)
    requires Reads(elem, denotes) && ElementsOf(cur, truncated, elem).Ok?
    ensures IsElements(cur, ElementsOf(cur, truncated, elem).value, denotes)
    decreases |cur|
  {
    if cur != [] {
      var t := FirstTlv(cur).value;
      var h := FirstTlvSound(cur);
      var xs := ElementsOf(cur, truncated, elem).value;
      ElementsSound(t.rest, truncated, elem, denotes);
      assert xs[1..] == ElementsOf(t.rest, truncated, elem).value;
      assert IsTlv(cur, h, t.tag, t.contents, t.rest);
    }
  }

  lemma {:induction false} ElementsComplete<T(!new), E>(cur: seq<byte>, xs: seq<T>, truncated: E,
                                                        elem: (byte, seq<byte>) -> Result<T, E>,
                                                        denotes: (byte, seq<byte>, T) -> bool)
    requires Reads(elem, denotes) && IsElements(cur, xs, denotes)
    ensures ElementsOf(cur, truncated, elem) == Ok(xs)
    decreases |xs|
  {
    hide IsTlv, FirstTlv;
    if xs != [] {
      var h: seq<byte>, tag: byte, contents: seq<byte>, rest: seq<byte> :|
        IsTlv(cur, h, tag, contents, rest) && denotes(tag, contents, xs[0]) && IsElements(rest, xs[1..], denotes);
      assert IsTlv(cur, h, tag, contents, rest);
      FirstTlvComplete(cur, h, tag, contents, rest);
      ElementsComplete(rest, xs[1..], truncated, elem, denotes);
      assert xs == [xs[0]] + xs[1..];
    }
  }

  /** A loop reads exactly the concatenations of elements it can read. */
  lemma ElementsIff<T(!new), E>(cur: seq<byte>, xs: seq<T>, truncated: E, elem: (byte, seq<byte>) -> Result<T, E>,
                                denotes: (byte, seq<byte>, T) -> bool)
    requires Reads(elem, denotes)
    ensures ElementsOf(cur, truncated, elem) == Ok(xs) <==> IsElements(cur, xs, denotes)
  {
    if ElementsOf(cur, truncated, elem).Ok? { ElementsSound(cur, truncated, elem, denotes); }
    if IsElements(cur, xs, denotes) { ElementsComplete(cur, xs, truncated, elem, denotes); }
  }

  /** The first element that cannot be read decides: bytes that are no element, or its own error. */
  lemma {:induction false} FirstBadElement<T(!new), E>(pre: seq<byte>, xs: seq<T>, bad: seq<byte>, truncated: E,
                                                       elem: (byte, seq<byte>) -> Result<T, E>,
                                                       denotes: (byte, seq<byte>, T) -> bool)
    requires Reads(elem, denotes) && IsElements(pre, xs, denotes) && bad != []
    ensures match FirstTlv(bad)
            case None => ElementsOf(pre + bad, truncated, elem) == Err(truncated)
            case Some(t) =>
              elem(t.tag, t.contents).Err? ==>
                ElementsOf(pre + bad, truncated, elem) == Err(elem(t.tag, t.contents).error)
    decreases |xs|
  {
    hide IsTlv, FirstTlv;
    if xs == [] {
      assert pre + bad == bad;
    } else {
      var h: seq<byte>, tag: byte, contents: seq<byte>, rest: seq<byte> :|
        IsTlv(pre, h, tag, contents, rest) && denotes(tag, contents, xs[0]) && IsElements(rest, xs[1..], denotes);
      assert IsTlv(pre, h, tag, contents, rest);
      FirstTlvComplete(pre, h, tag, contents, rest);
      FirstTlvAppend(pre, bad);
      FirstBadElement(rest, xs[1..], bad, truncated, elem, denotes);
    }
  }

  // ----- Unsigned integers -----

  /** The magnitude bytes of an INTEGER body: one leading zero is skipped. */
  function Magnitude(body: seq<byte>): (m: seq<byte>) {
    if |body| > 1 && body[0] == 0 then body[1..] else body
  }

  function UnsignedInteger(body: seq<byte>): (r: Option<nat>)
    ensures r.Some? ==> r.value < TWO_64
  {
    if body == [] || |body| > 9 || |Magnitude(body)| > 8 then None
    else
      ShortIsExact(Magnitude(body));
      Some(BigEndian(Magnitude(body)))
  }

  /** `read_unsigned_integer`. The eight-byte cap keeps the loop exact. */
  method ReadUnsignedInteger(body: seq<byte>) returns (r: Option<nat>)
    ensures r == UnsignedInteger(body)
  {
    if body == [] || |body| > 9 { return None; }
    var bytes := if |body| > 1 && body[0] == 0 then body[1..] else body;
    if |bytes| > 8 { return None; }
    r := Accumulate(bytes);
    ShortIsExact(bytes);
  }

  // ----- What the reader's documentation says, and when it holds -----

  /** The value of an INTEGER body in two's complement (section 8.3 of X.690). */
  function TwosComplement(body: seq<byte>): (n: int) {
    BigEndian(body) - (if body != [] && body[0] >= 0x80 then Pow256(|body|) else 0)
  }

  /** The documented promise: the value, unless it is negative or overflows. */
  function DocumentedInteger(body: seq<byte>): (r: Option<nat>) {
    var n := TwosComplement(body);
    if body == [] || n < 0 || n >= TWO_64 then None else Some(n)
  }

  lemma {:induction false} BigEndianSplit(a: seq<byte>, b: seq<byte>)
    ensures BigEndian(a + b) == BigEndian(a) * Pow256(|b|) + BigEndian(b)
  {
    if b == [] {
      assert a + b == a;
    } else {
      var b' := b[..|b| - 1];
      BigEndianSplit(a, b');
      assert (a + b)[..|a + b| - 1] == a + b';
      assert BigEndian(a) * Pow256(|b|) == BigEndian(a) * Pow256(|b'|) * 256;
    }
  }

  lemma {:induction false} BigEndianZero(b: seq<byte>)
    ensures BigEndian(b) == 0 <==> forall i :: 0 <= i < |b| ==> b[i] == 0
  {
    if b != [] { BigEndianZero(b[..|b| - 1]); }
  }

  /** More than eight bytes stay below 2^64 exactly when the leading ones are zero. */
  lemma BigEndianLong(b: seq<byte>)
    requires |b| > 8
    ensures BigEndian(b) < TWO_64 <==> forall i :: 0 <= i < |b| - 8 ==> b[i] == 0
  {
    var hi, lo := b[..|b| - 8], b[|b| - 8..];
    assert b == hi + lo;
    BigEndianSplit(hi, lo);
    BigEndianZero(hi);
    BigEndianBound(lo);
    Pow256Values();
    if BigEndian(hi) > 0 { assert BigEndian(hi) * TWO_64 >= TWO_64; }
    assert forall i :: 0 <= i < |hi| ==> hi[i] == b[i];
  }

  /** Not every INTEGER is read as documented: 0xFF is minus one, and reads as 255. */
  lemma NegativeIntegerIsRead()
    ensures UnsignedInteger([0xFF]) == Some(255) && DocumentedInteger([0xFF]) == None
  {
    assert Pow256(1) == 256 && BigEndian([0xFF]) == 255;
  }

  /** The reader keeps its documented promise exactly when the body is neither a
      negative number of at most eight bytes nor over-long with superfluous zeros. */
  lemma UnsignedIntegerAsDocumented(body: seq<byte>)
    ensures UnsignedInteger(body) == DocumentedInteger(body)
      <==> (!(1 <= |body| <= 8 && body[0] >= 0x80)
            && !(|body| > 9 && forall i :: 0 <= i < |body| - 8 ==> body[i] == 0))
  {
    if body != [] {
      BigEndianBound(body);
      Pow256Values();
      Pow256Monotone(if |body| <= 8 then |body| else 8, 8);
      if |body| > 8 { BigEndianLong(body); }
      if body[0] == 0 {
        assert body == [body[0]] + body[1..];
        BigEndianSplit([body[0]], body[1..]);
      }
    }
  }
}
