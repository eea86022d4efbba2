/** The mu-law encoder of the SIPp tone generator, against the decoder of section 3 of ITU-T
    G.711. Masks and shifts are written as division by powers of two. */
module MuLaw {
  import opened Prelude

  const BIAS := 0x84
  const CLIP := 32635

  function Pow2(n: nat): (p: nat)
    ensures p >= 1
  {
    if n == 0 then 1 else 2 * Pow2(n - 1)
  }

  function Magnitude(sample: int): nat { if sample < 0 then -sample else sample }

  function Clipped(sample: int): (m: nat)
    ensures m <= CLIP
  {
    if Magnitude(sample) > CLIP then CLIP else Magnitude(sample)
  }

  function Biased(sample: int): nat { Clipped(sample) + BIAS }

  /** The segment of a biased magnitude. */
  predicate InSegment(b: nat, e: nat) { e <= 7 && Pow2(e + 7) <= b < Pow2(e + 8) }

  /** A segment has sixteen cells of equal width. */
  predicate InCell(b: nat, e: nat, m: nat) {
    e <= 7 && m < 16 && (16 + m) * Pow2(e + 3) <= b < (17 + m) * Pow2(e + 3)
  }

  function CodeOf(negative: bool, e: nat, m: nat): (code: byte)
    requires e <= 7 && m < 16
  {
    255 - ((if negative then 0x80 else 0x00) + e * 16 + m)
  }

  /** The code holds the sign, the segment the biased magnitude lies in and the cell within
      it, all inverted. */
  ghost predicate Encodes(sample: int, code: byte) {
    exists e, m :: e <= 7 && m < 16 && InCell(Biased(sample), e, m) && code == CodeOf(sample < 0, e, m)
  }

  /** `linear2ulaw`. */
  method Linear2Ulaw(sample: int) returns (code: byte)
    ensures Encodes(sample, code)
  {
    hide Pow2, InCell;
    var sign := if sample < 0 then 0x80 else 0x00;
    var s := sample;
    if sign != 0 { s := -s; }
    if s > CLIP { s := CLIP; }
    s := s + BIAS;
    assert s == Biased(sample);
    var exponent, mask := 7, 0x4000;
    PowersOfTwo();
    while s / mask % 2 == 0 && exponent > 0
      invariant 0 <= exponent <= 7 && mask == Pow2(exponent + 7) && s < 2 * mask
    {
      TopBit(s, mask);
      Halve(exponent + 7);
      exponent := exponent - 1;
      mask := mask / 2;
    }
    if exponent > 0 { TopBit(s, mask); }
    var mantissa := s / Pow2(exponent + 3) % 16;
    CellFound(s, exponent);
    code := 255 - (sign + exponent * 16 + mantissa);
    assert InCell(Biased(sample), exponent, mantissa) && code == CodeOf(sample < 0, exponent, mantissa);
  }

  lemma PowersOfTwo()
    ensures Pow2(7) == 0x80 && Pow2(14) == 0x4000
  {
    assert Pow2(4) == 16;
    assert Pow2(8) == 256;
    assert Pow2(12) == 4096;
  }

  lemma Halve(n: nat)
    requires n > 0
    ensures Pow2(n) == 2 * Pow2(n - 1)
  {
  }

  /** Below twice the mask, the masked bit tells whether the mask is reached. */
  lemma TopBit(s: nat, mask: nat)
    requires mask >= 1 && s < 2 * mask
    ensures s / mask % 2 == (if s < mask then 0 else 1)
  {
    var q := Division(s, mask);
    Smaller(q, 2, mask);
    if s >= mask {
      Smaller(1, q + 1, mask);
    } else {
      Smaller(q, 1, mask);
    }
  }

  lemma Division(s: nat, d: nat) returns (q: nat)
    requires d >= 1
    ensures q == s / d && q * d <= s < (q + 1) * d && (q + 1) * d == q * d + d
  {
    q := s / d;
    Next(q, d);
    assert s == d * (s / d) + s % d;
  }

  lemma CellFound(b: nat, e: nat)
    requires e <= 7 && Pow2(e + 7) <= b < 2 * Pow2(e + 7)
    ensures InCell(b, e, b / Pow2(e + 3) % 16)
  {
    var q := Pow2(e + 3);
    SixteenCells(e + 3);
    Quotient(b, q);
  }

  lemma SixteenCells(n: nat)
    ensures Pow2(n + 4) == 16 * Pow2(n) && Pow2(n + 5) == 32 * Pow2(n)
  {
    assert Pow2(n + 2) == 4 * Pow2(n);
    assert Pow2(n + 4) == 4 * Pow2(n + 2);
  }

  lemma Quotient(b: nat, q: nat)
    requires q >= 1 && 16 * q <= b < 32 * q
    ensures var m := b / q % 16; 0 <= m < 16 && (16 + m) * q <= b < (17 + m) * q
  {
    var k := Division(b, q);
    Smaller(16, k + 1, q);
    Smaller(k, 32, q);
    assert k % 16 == k - 16;
  }

  lemma Ordered(j: nat, k: nat, q: nat)
    requires j <= k
    ensures j * q <= k * q
  {
  }

  lemma Smaller(j: nat, k: nat, q: nat)
    requires j * q < k * q
    ensures j < k
  {
    assert (k - j) * q > 0;
  }

  // ----- The decoder of G.711 -----

  function SegmentOf(code: byte): (e: nat)
    ensures e <= 7
  {
    (255 - code) / 16 % 8
  }

  function MantissaOf(code: byte): (m: nat)
    ensures m < 16
  {
    (255 - code) % 16
  }

  predicate Negative(code: byte) { code < 128 }

  function Level(e: nat, m: nat): nat { (16 + m) * Pow2(e + 3) + Pow2(e + 2) }

  function Decode(code: byte): int {
    var magnitude := Level(SegmentOf(code), MantissaOf(code)) - BIAS;
    if Negative(code) then -magnitude else magnitude
  }

  // ----- Segments and cells -----

  lemma {:induction false} Pow2Grows(a: nat, b: nat)
    requires a <= b
    ensures Pow2(a) <= Pow2(b)
  {
    if a < b { Pow2Grows(a, b - 1); }
  }

  /** The decoder's segment is the one whose powers of two enclose the biased magnitude. */
  lemma CellInSegment(b: nat, e: nat, m: nat)
    requires InCell(b, e, m)
    ensures InSegment(b, e)
  {
    hide Pow2;
    SixteenCells(e + 3);
    Ordered(16, 16 + m, Pow2(e + 3));
    Ordered(17 + m, 32, Pow2(e + 3));
  }

  /** A decoded level is the middle of its own cell. */
  lemma LevelInCell(e: nat, m: nat)
    requires e <= 7 && m < 16
    ensures InCell(Level(e, m), e, m)
  {
    hide Pow2;
    Halve(e + 3);
    Next(16 + m, Pow2(e + 3));
  }

  lemma Next(k: nat, q: nat)
    ensures (k + 1) * q == k * q + q
  {
  }

  /** Cells are ordered by segment and then by place. */
  lemma CellsOrdered(a: nat, b: nat, e: nat, m: nat, f: nat, n: nat)
    requires InCell(a, e, m) && InCell(b, f, n) && a <= b
    ensures e < f || (e == f && m <= n)
  {
    hide Pow2;
    CellInSegment(a, e, m);
    CellInSegment(b, f, n);
    if f < e { Pow2Grows(f + 8, e + 7); }
    if e == f && n < m { Ordered(17 + n, 16 + m, Pow2(e + 3)); }
  }

  lemma LevelsOrdered(e: nat, m: nat, f: nat, n: nat)
    requires e <= 7 && m < 16 && f <= 7 && n < 16 && (e < f || (e == f && m <= n))
    ensures Level(e, m) <= Level(f, n)
  {
    hide Pow2;
    if e < f {
      LevelInCell(e, m);
      LevelInCell(f, n);
      CellInSegment(Level(e, m), e, m);
      CellInSegment(Level(f, n), f, n);
      Pow2Grows(e + 8, f + 7);
    } else {
      Ordered(16 + m, 16 + n, Pow2(e + 3));
    }
  }

  /** What the encoder chose can be read off its code. */
  lemma Parts(sample: int, code: byte)
    requires Encodes(sample, code)
    ensures InCell(Biased(sample), SegmentOf(code), MantissaOf(code)) && Negative(code) == (sample < 0)
  {
    hide InCell;
    var e, m :| e <= 7 && m < 16 && InCell(Biased(sample), e, m) && code == CodeOf(sample < 0, e, m);
    ReadParts(sample < 0, e, m);
  }

  lemma ReadParts(negative: bool, e: nat, m: nat)
    requires e <= 7 && m < 16
    ensures var code := CodeOf(negative, e, m);
            SegmentOf(code) == e && MantissaOf(code) == m && Negative(code) == negative
  {
  }

  lemma CodeFromParts(code: byte)
    ensures code == CodeOf(Negative(code), SegmentOf(code), MantissaOf(code))
  {
  }

  // ----- What coding keeps -----

  function ClippedSample(sample: int): int {
    var m: int := Clipped(sample);
    if sample < 0 then -m else m
  }

  /** The segment is the right one, and the decoded value is at most 2^(e+2) away from the
      clipped sample. */
  lemma ErrorBound(sample: int, code: byte)
    requires Encodes(sample, code)
    ensures InSegment(Biased(sample), SegmentOf(code))
    ensures Magnitude(Decode(code) - ClippedSample(sample)) <= Pow2(SegmentOf(code) + 2)
  {
    hide Pow2, SegmentOf, MantissaOf, Encodes;
    Parts(sample, code);
    var e, m := SegmentOf(code), MantissaOf(code);
    CellInSegment(Biased(sample), e, m);
    Halve(e + 3);
    Next(16 + m, Pow2(e + 3));
  }

  /** Larger samples never decode to smaller values. */
  lemma DecodeMonotone(x: int, y: int, cx: byte, cy: byte)
    requires x <= y
    ensures Encodes(x, cx) && Encodes(y, cy) ==> Decode(cx) <= Decode(cy)
  {
    hide InCell, Level, SegmentOf, MantissaOf, Encodes;
    if Encodes(x, cx) && Encodes(y, cy) {
      Parts(x, cx);
      Parts(y, cy);
      LevelAtLeastBias(cx);
      LevelAtLeastBias(cy);
      var e, m, f, n := SegmentOf(cx), MantissaOf(cx), SegmentOf(cy), MantissaOf(cy);
      if x >= 0 {
        CellsOrdered(Biased(x), Biased(y), e, m, f, n);
        LevelsOrdered(e, m, f, n);
      } else if y < 0 {
        CellsOrdered(Biased(y), Biased(x), f, n, e, m);
        LevelsOrdered(f, n, e, m);
      }
    }
  }

  /** Every sample has one code. */
  lemma EncodingUnique(sample: int, c: byte, d: byte)
    ensures Encodes(sample, c) && Encodes(sample, d) ==> c == d
  {
    hide InCell, SegmentOf, MantissaOf, Encodes;
    if Encodes(sample, c) && Encodes(sample, d) {
      Parts(sample, c);
      Parts(sample, d);
      CellsOrdered(Biased(sample), Biased(sample), SegmentOf(c), MantissaOf(c), SegmentOf(d), MantissaOf(d));
      CellsOrdered(Biased(sample), Biased(sample), SegmentOf(d), MantissaOf(d), SegmentOf(c), MantissaOf(c));
      CodeFromParts(c);
      CodeFromParts(d);
    }
  }

  /** Only the first level of the first segment decodes to zero, and the last still decodes
      below the clip. */
  lemma LevelRange(e: nat, m: nat)
    requires e <= 7 && m < 16
    ensures BIAS <= Level(e, m) <= CLIP + BIAS && (Level(e, m) == BIAS <==> e == 0 && m == 0)
  {
    LevelsOrdered(0, 0, e, m);
    LevelsOrdered(e, m, 7, 15);
    assert Level(0, 0) == BIAS && Level(0, 1) == BIAS + 8;
    assert Level(7, 15) == 32256 by { assert Pow2(5) == 32; assert Pow2(7) == 128; assert Pow2(9) == 512; }
    if e > 0 || m > 0 { LevelsOrdered(0, 1, e, m); }
  }

  lemma LevelAtLeastBias(code: byte)
    ensures Level(SegmentOf(code), MantissaOf(code)) >= BIAS
  {
    LevelRange(SegmentOf(code), MantissaOf(code));
  }

  const NEGATIVE_ZERO: byte := 0x7F

  /** Encoding what a code decodes to gives the code back, except that negative zero comes
      back as positive zero. */
  lemma ReencodeIff(code: byte)
    ensures Encodes(Decode(code), code) <==> code != NEGATIVE_ZERO
    ensures code == NEGATIVE_ZERO ==> Encodes(Decode(code), 0xFF)
  {
    hide InCell, Level;
    var e, m := SegmentOf(code), MantissaOf(code);
    LevelInCell(e, m);
    LevelRange(e, m);
    assert Biased(Decode(code)) == Level(e, m);
    CodeFromParts(code);
    if code == NEGATIVE_ZERO {
      assert 0xFF == CodeOf(false, e, m);
      if Encodes(Decode(code), code) { Parts(Decode(code), code); }
    }
  }
}
