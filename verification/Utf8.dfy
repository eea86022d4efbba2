/** UTF-8 as `std::str::from_utf8` accepts it: no overlong forms, no surrogates. */
module Utf8 {
  import opened Prelude

  function EncodeChar(c: char): (b: seq<byte>)
    ensures 1 <= |b| <= 4
  {
    var n := c as int;
    if n < 0x80 then [n]
    else if n < 0x800 then [0xC0 + n / 64, 0x80 + n % 64]
    else if n < 0x10000 then [0xE0 + n / 4096, 0x80 + n / 64 % 64, 0x80 + n % 64]
    else [0xF0 + n / 262144, 0x80 + n / 4096 % 64, 0x80 + n / 64 % 64, 0x80 + n % 64]
  }

  function Encode(s: string): (b: seq<byte>) {
    if s == [] then [] else EncodeChar(s[0]) + Encode(s[1..])
  }

  predicate IsContinuation(b: byte) { 0x80 <= b < 0xC0 }

  // The scalar value spelled by a lead byte's payload and its continuation bytes.
  function Payload2(a: int, b: int): int { a * 64 + (b - 0x80) }
  function Payload3(a: int, b: int, c: int): int { Payload2(a, b) * 64 + (c - 0x80) }
  function Payload4(a: int, b: int, c: int, d: int): int { Payload3(a, b, c) * 64 + (d - 0x80) }

  /** The scalar value at the front of `b` and the number of bytes it takes. */
  function DecodeChar(b: seq<byte>): (r: Option<(char, nat)>)
    ensures r.Some? ==> 1 <= r.value.1 <= |b|
  {
    if |b| == 0 then None
    else if b[0] < 0x80 then Some((b[0] as char, 1))
    else if 0xC2 <= b[0] < 0xE0 then
      if |b| >= 2 && IsContinuation(b[1])
      then Some((Payload2(b[0] - 0xC0, b[1]) as char, 2)) else None
    else if 0xE0 <= b[0] < 0xF0 then
      if |b| >= 3 && IsContinuation(b[1]) && IsContinuation(b[2]) then
        var n := Payload3(b[0] - 0xE0, b[1], b[2]);
        if 0x800 <= n < 0xD800 || 0xE000 <= n then Some((n as char, 3)) else None
      else None
    else if 0xF0 <= b[0] < 0xF5 then
      if |b| >= 4 && IsContinuation(b[1]) && IsContinuation(b[2]) && IsContinuation(b[3]) then
        var n := Payload4(b[0] - 0xF0, b[1], b[2], b[3]);
        if 0x10000 <= n < 0x110000 then Some((n as char, 4)) else None
      else None
    else None
  }

  /** `from_utf8`: the text when every byte belongs to a well-formed sequence. */
  function Decode(b: seq<byte>): (r: Option<string>) {
    if b == [] then Some([])
    else
      var first :- DecodeChar(b);
      var rest :- Decode(b[first.1..]);
      Some([first.0] + rest)
  }

  lemma DecodeCharOfEncodeChar(c: char, rest: seq<byte>)
    ensures DecodeChar(EncodeChar(c) + rest) == Some((c, |EncodeChar(c)|))
  {
    var n := c as int;
    assert n / 64 / 64 == n / 4096 && n / 4096 / 64 == n / 262144;
  }

  lemma SplitDigit(n: int, a: int, d: int)
    requires n == a * 64 + d && 0 <= d < 64
    ensures n / 64 == a && n % 64 == d
  {
  }

  lemma EncodeCharOfDecodeChar(b: seq<byte>)
    requires DecodeChar(b).Some?
    ensures var (c, k) := DecodeChar(b).value; EncodeChar(c) == b[..k]
  {
    var (c, k) := DecodeChar(b).value;
    var n := c as int;
    if k == 1 {
      assert b[..1] == [b[0]];
    } else if k == 2 {
      SplitDigit(n, b[0] - 0xC0, b[1] - 0x80);
      assert b[..2] == [b[0], b[1]];
    } else if k == 3 {
      ThreeBytes(n, b[0] - 0xE0, b[1], b[2]);
      assert b[..3] == [b[0], b[1], b[2]];
    } else {
      FourBytes(n, b[0] - 0xF0, b[1], b[2], b[3]);
      assert b[..4] == [b[0], b[1], b[2], b[3]];
    }
  }

  lemma ThreeBytes(n: int, a: int, b: byte, c: byte)
    requires n == Payload3(a, b, c) && IsContinuation(b) && IsContinuation(c)
    ensures n / 4096 == a && 0x80 + n / 64 % 64 == b && 0x80 + n % 64 == c
  {
    SplitDigit(n, Payload2(a, b), c - 0x80);
    SplitDigit(Payload2(a, b), a, b - 0x80);
    assert n / 4096 == n / 64 / 64;
  }

  lemma FourBytes(n: int, a: int, b: byte, c: byte, d: byte)
    requires n == Payload4(a, b, c, d) && IsContinuation(b) && IsContinuation(c) && IsContinuation(d)
    ensures n / 262144 == a && 0x80 + n / 4096 % 64 == b && 0x80 + n / 64 % 64 == c && 0x80 + n % 64 == d
  {
    SplitDigit(n, Payload3(a, b, c), d - 0x80);
    ThreeBytes(Payload3(a, b, c), a, b, c);
    assert n / 4096 == n / 64 / 64 && n / 262144 == n / 64 / 4096;
  }

  lemma {:induction false} DecodeOfEncode(s: string)
    ensures Decode(Encode(s)) == Some(s)
  {
    hide DecodeChar, EncodeChar;
    if s != [] {
      DecodeCharOfEncodeChar(s[0], Encode(s[1..]));
      assert Encode(s)[|EncodeChar(s[0])|..] == Encode(s[1..]);
      DecodeOfEncode(s[1..]);
      assert s == [s[0]] + s[1..];
    }
  }

  lemma {:induction false} EncodeOfDecode(b: seq<byte>)
    requires Decode(b).Some?
    ensures Encode(Decode(b).value) == b
    decreases |b|
  {
    hide DecodeChar, EncodeChar;
    if b != [] {
      var (c, k) := DecodeChar(b).value;
      EncodeCharOfDecodeChar(b);
      EncodeOfDecode(b[k..]);
      assert Decode(b).value[1..] == Decode(b[k..]).value;
      assert b[..k] + b[k..] == b;
    }
  }

  /** Decoding succeeds on exactly the encodings. */
  lemma DecodeIff(b: seq<byte>, s: string)
    ensures Decode(b) == Some(s) <==> b == Encode(s)
  {
    DecodeOfEncode(s);
    if Decode(b).Some? { EncodeOfDecode(b); }
  }

  /** Encoding is injective. */
  lemma EncodeInjective(s: string, t: string)
    requires Encode(s) == Encode(t)
    ensures s == t
  {
    DecodeOfEncode(s);
    DecodeOfEncode(t);
  }

  /** Examples of section 7 of RFC 3629: one to four bytes. */
  lemma Examples()
    ensures EncodeChar('A') == [0x41] && EncodeChar('\U{391}') == [0xCE, 0x91]
    ensures EncodeChar('\U{2262}') == [0xE2, 0x89, 0xA2] && EncodeChar('\U{233B4}') == [0xF0, 0xA3, 0x8E, 0xB4]
  {
  }
}
