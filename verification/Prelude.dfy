/** Shared vocabulary: optional and failing results, bytes, and the few text
    operations of Rust's `str` that several components rely on. */
module Prelude {

  datatype Option<+T> = None | Some(value: T) {
    predicate IsFailure() { None? }

    function PropagateFailure<U>(): Option<U>
      requires None?
    {
      None
    }

    function Extract(): T
      requires Some?
    {
      value
    }
  }

  datatype Result<+T, +E> = Ok(value: T) | Err(error: E) {
    predicate IsFailure() { Err? }

    function PropagateFailure<U>(): Result<U, E>
      requires Err?
    {
      Err(error)
    }

    function Extract(): T
      requires Ok?
    {
      value
    }
  }

  type byte = b: int | 0 <= b < 256

  const TWO_63: int := 0x8000_0000_0000_0000
  const TWO_64: int := 0x1_0000_0000_0000_0000
  const TWO_128: int := TWO_64 * TWO_64

  type i64 = x: int | -TWO_63 <= x < TWO_63

  const HEX := "0123456789abcdef"

  predicate IsDigit(c: char) { '0' <= c <= '9' }

  /** The value of a hexadecimal digit in lower case. */
  function DigitValue(c: char): int { if IsDigit(c) then c as int - '0' as int else c as int - 'a' as int + 10 }

  lemma DigitSpells(d: nat)
    requires d < 16
    ensures DigitValue(HEX[d]) == d
  {
  }

  /** Unicode White_Space, which is what `char::is_whitespace` tests. */
  predicate IsWhitespace(c: char) {
    var n := c as int;
    || 0x9 <= n <= 0xD || n == 0x20 || n == 0x85 || n == 0xA0 || n == 0x1680
    || 0x2000 <= n <= 0x200A || n == 0x2028 || n == 0x2029 || n == 0x202F
    || n == 0x205F || n == 0x3000
  }

  /** The elements of `s` that satisfy `p`, in order. */
  function Filter<T>(s: seq<T>, p: T -> bool): (r: seq<T>) {
    if s == [] then []
    else (if p(s[0]) then [s[0]] else []) + Filter(s[1..], p)
  }

  lemma {:induction false} FilterAppend<T>(s: seq<T>, t: seq<T>, p: T -> bool)
    ensures Filter(s + t, p) == Filter(s, p) + Filter(t, p)
  {
    if s == [] {
      assert s + t == t;
    } else {
      var head := if p(s[0]) then [s[0]] else [];
      calc {
        Filter(s + t, p);
        { assert (s + t)[1..] == s[1..] + t; }
        head + Filter(s[1..] + t, p);
        { FilterAppend(s[1..], t, p); }
        head + (Filter(s[1..], p) + Filter(t, p));
        Filter(s, p) + Filter(t, p);
      }
    }
  }

  /** `needle` occurs in `s` at offset `i`. */
  predicate OccursAt<T(==)>(s: seq<T>, needle: seq<T>, i: nat) {
    i + |needle| <= |s| && s[i..i + |needle|] == needle
  }

  /** `i` is the first offset at which `needle` occurs in `s`. */
  ghost predicate FirstAt<T>(s: seq<T>, needle: seq<T>, i: nat) {
    OccursAt(s, needle, i) && forall j: nat :: j < i ==> !OccursAt(s, needle, j)
  }

  /** `str::find`: the offset of the first occurrence. */
  function Find<T(==)>(s: seq<T>, needle: seq<T>): (r: Option<nat>)
    ensures r.Some? ==> FirstAt(s, needle, r.value)
    ensures r.None? ==> forall j: nat :: !OccursAt(s, needle, j)
  {
    FindFrom(s, needle, 0)
  }

  function FindFrom<T(==)>(s: seq<T>, needle: seq<T>, from: nat): (r: Option<nat>)
    requires forall j: nat :: j < from ==> !OccursAt(s, needle, j)
    ensures r.Some? ==> FirstAt(s, needle, r.value)
    ensures r.None? ==> forall j: nat :: !OccursAt(s, needle, j)
    decreases |s| - from
  {
    if OccursAt(s, needle, from) then Some(from)
    else if |s| <= from then None
    else FindFrom(s, needle, from + 1)
  }

  /** Where a reading loop stands: `done` has been read, `r` is what the rest will give. */
  ghost function After<T, E>(done: seq<T>, r: Result<seq<T>, E>): Result<seq<T>, E> {
    match r case Ok(xs) => Ok(done + xs) case Err(e) => Err(e)
  }

  lemma AfterNothing<T, E>(r: Result<seq<T>, E>)
    ensures After([], r) == r
  {
    if r.Ok? { assert [] + r.value == r.value; }
  }

  lemma AfterOne<T, E>(done: seq<T>, x: T, r: Result<seq<T>, E>)
    ensures After(done, After([x], r)) == After(done + [x], r)
  {
    if r.Ok? { assert done + ([x] + r.value) == done + [x] + r.value; }
  }
}
