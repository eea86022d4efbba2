/** The two Base64 engines the STIR/SHAKEN crate uses (RFC 4648): strict decoders
    that refuse stray padding, missing padding and non-zero trailing bits. */
module Base64 {
  import opened Prelude

  type sextet = v: int | 0 <= v < 64

  datatype Engine = Engine(c62: char, c63: char, pad: bool)

  const URL_SAFE_NO_PAD := Engine('-', '_', false)
  const STANDARD := Engine('+', '/', true)

  predicate IsEngine(e: Engine) { e == URL_SAFE_NO_PAD || e == STANDARD }

  function Letter(e: Engine, v: sextet): char {
    if v < 26 then (v + 65) as char
    else if v < 52 then (v + 71) as char
    else if v < 62 then (v - 4) as char
    else if v == 62 then e.c62
    else e.c63
  }

  function Sextet(e: Engine, c: char): (r: Option<sextet>) {
    if 'A' <= c <= 'Z' then Some(c as int - 65)
    else if 'a' <= c <= 'z' then Some(c as int - 71)
    else if '0' <= c <= '9' then Some(c as int + 4)
    else if c == e.c62 then Some(62)
    else if c == e.c63 then Some(63)
    else None
  }

  function Padding(e: Engine, n: nat): string {
    if !e.pad then [] else if n == 1 then "=" else "=="
  }

  /** Three bytes cut into four sextets, and back. */
  function Sextets(b0: byte, b1: byte, b2: byte): (v: seq<sextet>)
    ensures |v| == 4
  {
    [b0 / 4, b0 % 4 * 16 + b1 / 16, b1 % 16 * 4 + b2 / 64, b2 % 64]
  }

  function Bytes(v0: sextet, v1: sextet, v2: sextet, v3: sextet): (b: seq<byte>)
    ensures |b| == 3
  {
    var n0: int, n1: int, n2: int, n3: int := v0, v1, v2, v3;
    [n0 * 4 + n1 / 16, n1 % 16 * 16 + n2 / 4, n2 % 4 * 64 + n3]
  }

  function Encode(e: Engine, b: seq<byte>): (s: string) {
    if |b| == 0 then []
    else if |b| == 1 then
      var v := Sextets(b[0], 0, 0);
      [Letter(e, v[0]), Letter(e, v[1])] + Padding(e, 2)
    else if |b| == 2 then
      var v := Sextets(b[0], b[1], 0);
      [Letter(e, v[0]), Letter(e, v[1]), Letter(e, v[2])] + Padding(e, 1)
    else
      var v := Sextets(b[0], b[1], b[2]);
      [Letter(e, v[0]), Letter(e, v[1]), Letter(e, v[2]), Letter(e, v[3])] + Encode(e, b[3..])
  }

  function Decode(e: Engine, s: string): (r: Option<seq<byte>>) {
    if s == [] then Some([])
    else if |s| >= 4 && !(e.pad && |s| == 4 && s[3] == '=') then
      var v0 :- Sextet(e, s[0]);
      var v1 :- Sextet(e, s[1]);
      var v2 :- Sextet(e, s[2]);
      var v3 :- Sextet(e, s[3]);
      var rest :- Decode(e, s[4..]);
      Some(Bytes(v0, v1, v2, v3) + rest)
    else
      DecodeTail(e, s)
  }

  /** The last, short quantum: one or two bytes, padded exactly when the engine pads.
      The bits that fall off must be zero. */
  function DecodeTail(e: Engine, s: string): (r: Option<seq<byte>>) {
    if |s| >= 2 && s[2..] == Padding(e, 2) then
      var v0 :- Sextet(e, s[0]);
      var v1 :- Sextet(e, s[1]);
      if v1 % 16 == 0 then Some(Bytes(v0, v1, 0, 0)[..1]) else None
    else if |s| >= 3 && s[3..] == Padding(e, 1) then
      var v0 :- Sextet(e, s[0]);
      var v1 :- Sextet(e, s[1]);
      var v2 :- Sextet(e, s[2]);
      if v2 % 4 == 0 then Some(Bytes(v0, v1, v2, 0)[..2]) else None
    else None
  }

  lemma SextetOfLetter(e: Engine, v: sextet)
    requires IsEngine(e)
    ensures Sextet(e, Letter(e, v)) == Some(v)
    ensures Letter(e, v) != '='
  {
  }

  lemma LetterOfSextet(e: Engine, c: char)
    requires IsEngine(e) && Sextet(e, c).Some?
    ensures Letter(e, Sextet(e, c).value) == c
  {
  }

  // A two-digit number gives back its digits.
  lemma Split4(q: int, r: int) requires 0 <= r < 4 ensures (q * 4 + r) / 4 == q && (q * 4 + r) % 4 == r {}
  lemma Split16(q: int, r: int) requires 0 <= r < 16 ensures (q * 16 + r) / 16 == q && (q * 16 + r) % 16 == r {}
  lemma Split64(q: int, r: int) requires 0 <= r < 64 ensures (q * 64 + r) / 64 == q && (q * 64 + r) % 64 == r {}

  lemma BytesOfSextets(b0: byte, b1: byte, b2: byte)
    ensures var v := Sextets(b0, b1, b2); Bytes(v[0], v[1], v[2], v[3]) == [b0, b1, b2]
  {
    Split16(b0 % 4, b1 / 16);
    Split4(b1 % 16, b2 / 64);
  }

  lemma SextetsOfBytes(v0: sextet, v1: sextet, v2: sextet, v3: sextet)
    ensures var b := Bytes(v0, v1, v2, v3); Sextets(b[0], b[1], b[2]) == [v0, v1, v2, v3]
  {
    Split4(v0, v1 / 16);
    Split16(v1 % 16, v2 / 4);
    Split64(v2 % 4, v3);
  }

  lemma DecodeOfEncodeOne(e: Engine, b: byte)
    requires IsEngine(e)
    ensures Decode(e, Encode(e, [b])) == Some([b])
  {
    var s, v := Encode(e, [b]), Sextets(b, 0, 0);
    SextetOfLetter(e, v[0]);
    SextetOfLetter(e, v[1]);
    BytesOfSextets(b, 0, 0);
    assert s[2..] == Padding(e, 2);
    assert Bytes(v[0], v[1], 0, 0)[..1] == [b];
  }

  lemma DecodeOfEncodeTwo(e: Engine, b0: byte, b1: byte)
    requires IsEngine(e)
    ensures Decode(e, Encode(e, [b0, b1])) == Some([b0, b1])
  {
    var s, v := Encode(e, [b0, b1]), Sextets(b0, b1, 0);
    SextetOfLetter(e, v[0]);
    SextetOfLetter(e, v[1]);
    SextetOfLetter(e, v[2]);
    BytesOfSextets(b0, b1, 0);
    assert s[3..] == Padding(e, 1);
    assert s[2..][0] == s[2];
    assert Bytes(v[0], v[1], v[2], 0)[..2] == [b0, b1];
  }

  /** `Decode` undoes `Encode`. */
  lemma {:induction false} DecodeOfEncode(e: Engine, b: seq<byte>)
    requires IsEngine(e)
    ensures Decode(e, Encode(e, b)) == Some(b)
  {
    if |b| == 1 {
      assert b == [b[0]];
      DecodeOfEncodeOne(e, b[0]);
    } else if |b| == 2 {
      assert b == [b[0], b[1]];
      DecodeOfEncodeTwo(e, b[0], b[1]);
    } else if |b| > 2 {
      var s, v := Encode(e, b), Sextets(b[0], b[1], b[2]);
      BytesOfSextets(b[0], b[1], b[2]);
      SextetOfLetter(e, v[0]);
      SextetOfLetter(e, v[1]);
      SextetOfLetter(e, v[2]);
      SextetOfLetter(e, v[3]);
      DecodeOfEncode(e, b[3..]);
      assert s[4..] == Encode(e, b[3..]);
      assert b == [b[0], b[1], b[2]] + b[3..];
    }
  }

  lemma EncodeOfDecodeTail(e: Engine, s: string)
    requires IsEngine(e) && DecodeTail(e, s).Some?
    ensures Encode(e, DecodeTail(e, s).value) == s
  {
    LetterOfSextet(e, s[0]);
    LetterOfSextet(e, s[1]);
    var v0, v1 := Sextet(e, s[0]).value, Sextet(e, s[1]).value;
    if |s| >= 2 && s[2..] == Padding(e, 2) {
      SextetsOfBytes(v0, v1, 0, 0);
      assert s == [s[0], s[1]] + s[2..];
    } else {
      LetterOfSextet(e, s[2]);
      SextetsOfBytes(v0, v1, Sextet(e, s[2]).value, 0);
      assert s == [s[0], s[1], s[2]] + s[3..];
    }
  }

  /** Decoding is strict: the only text that decodes to `b` is `Encode(b)`. */
  lemma {:induction false} EncodeOfDecode(e: Engine, s: string)
    requires IsEngine(e) && Decode(e, s).Some?
    ensures Encode(e, Decode(e, s).value) == s
  {
    if s == [] {
    } else if |s| >= 4 && !(e.pad && |s| == 4 && s[3] == '=') {
      var b, rest := Decode(e, s).value, Decode(e, s[4..]).value;
      var v0, v1, v2, v3 := Sextet(e, s[0]).value, Sextet(e, s[1]).value, Sextet(e, s[2]).value, Sextet(e, s[3]).value;
      assert b == Bytes(v0, v1, v2, v3) + rest;
      SextetsOfBytes(v0, v1, v2, v3);
      LetterOfSextet(e, s[0]);
      LetterOfSextet(e, s[1]);
      LetterOfSextet(e, s[2]);
      LetterOfSextet(e, s[3]);
      EncodeOfDecode(e, s[4..]);
      assert b[3..] == rest;
      assert s == [s[0], s[1], s[2], s[3]] + s[4..];
    } else {
      EncodeOfDecodeTail(e, s);
    }
  }

  /** Every character of an encoding is a letter of the engine, or padding. */
  lemma {:induction false} EncodeAlphabet(e: Engine, b: seq<byte>)
    requires IsEngine(e)
    ensures forall c :: c in Encode(e, b) ==> Sextet(e, c).Some? || (e.pad && c == '=')
  {
    hide Letter, Sextet, Sextets;
    forall v: sextet ensures Sextet(e, Letter(e, v)) == Some(v) { SextetOfLetter(e, v); }
    if |b| > 2 { EncodeAlphabet(e, b[3..]); }
  }

  // ----- What the encoding is -----

  /** Four letters spell, in base 64, the number that three bytes spell in base 256. */
  lemma GroupSpells(b0: byte, b1: byte, b2: byte)
    ensures var v := Sextets(b0, b1, b2);
            var n0: int, n1: int, n2: int, c0: int, c1: int := v[0], v[1], v[2], b0, b1;
            n0 * 262144 + n1 * 4096 + n2 * 64 + v[3] == c0 * 65536 + c1 * 256 + b2
  {
    assert b0 == b0 / 4 * 4 + b0 % 4 && b1 == b1 / 16 * 16 + b1 % 16 && b2 == b2 / 64 * 64 + b2 % 64;
  }

  /** The alphabets (tables 1 and 2 of RFC 4648): A to Z, a to z, 0 to 9, and two more. */
  lemma LettersAre(e: Engine, v: sextet)
    ensures v < 26 ==> 'A' <= Letter(e, v) <= 'Z' && Letter(e, v) as int - 'A' as int == v
    ensures 26 <= v < 52 ==> 'a' <= Letter(e, v) <= 'z' && Letter(e, v) as int - 'a' as int + 26 == v
    ensures 52 <= v < 62 ==> '0' <= Letter(e, v) <= '9' && Letter(e, v) as int - '0' as int + 52 == v
    ensures Letter(STANDARD, 62) == '+' && Letter(STANDARD, 63) == '/'
    ensures Letter(URL_SAFE_NO_PAD, 62) == '-' && Letter(URL_SAFE_NO_PAD, 63) == '_'
  {
  }

  lemma FirstGroup(e: Engine, b: seq<byte>)
    requires |b| >= 3
    ensures |Encode(e, b[..3])| == 4 && Encode(e, b) == Encode(e, b[..3]) + Encode(e, b[3..])
  {
    hide Letter, Sextets, Padding;
    assert b[..3][3..] == [];
  }

  /** Full groups are encoded one by one, in order, whatever follows them. */
  lemma {:induction false} EncodeAt(e: Engine, n: nat, b: seq<byte>, tail: seq<byte>)
    requires |b| == 3 * n
    ensures |Encode(e, b)| == 4 * n && Encode(e, b + tail) == Encode(e, b) + Encode(e, tail)
  {
    if n == 0 {
      assert b + tail == tail;
    } else {
      hide Encode;
      FirstGroup(e, b);
      FirstGroup(e, b + tail);
      assert (b + tail)[..3] == b[..3] && (b + tail)[3..] == b[3..] + tail;
      EncodeAt(e, n - 1, b[3..], tail);
      Regroup(Encode(e, b[..3]), Encode(e, b[3..]), Encode(e, tail));
    }
  }

  lemma Regroup(a: string, b: string, c: string)
    ensures a + (b + c) == a + b + c
  {
  }

  /** The vectors of section 10 of RFC 4648 for one, two and three bytes, in both alphabets. */
  lemma Vectors()
    ensures Encode(STANDARD, [0x66, 0x6F, 0x6F]) == "Zm9v"
    ensures Encode(STANDARD, [0x66, 0x6F]) == "Zm8=" && Encode(STANDARD, [0x66]) == "Zg=="
  {
  }

  lemma UrlVectors()
    ensures Encode(URL_SAFE_NO_PAD, [0x66, 0x6F]) == "Zm8" && Encode(URL_SAFE_NO_PAD, [0x66]) == "Zg"
    ensures Encode(URL_SAFE_NO_PAD, [0xFB, 0xEF, 0xFF]) == "--__"
  {
  }
}
