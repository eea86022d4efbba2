/** Operations of Rust's `str` on which the text formats rest. */
module Text {
  import opened Prelude

  // ----- Splitting -----

  /** `str::split`: the pieces between separators; always at least one. */
  function Split(s: string, sep: char): (pieces: seq<string>)
    ensures |pieces| >= 1
  {
    if s == [] then [[]]
    else if s[0] == sep then [[]] + Split(s[1..], sep)
    else var rest := Split(s[1..], sep); [[s[0]] + rest[0]] + rest[1..]
  }

  lemma {:induction false} SplitFirst(a: string, rest: string, sep: char)
    requires sep !in a
    ensures Split(a + [sep] + rest, sep) == [a] + Split(rest, sep)
  {
    var s := a + [sep] + rest;
    if a == [] {
      assert s == [sep] + rest && s[1..] == rest;
    } else {
      SplitFirst(a[1..], rest, sep);
      assert s[1..] == a[1..] + [sep] + rest;
      assert [a[0]] + a[1..] == a;
    }
  }

  lemma {:induction false} SplitNone(a: string, sep: char)
    requires sep !in a
    ensures Split(a, sep) == [a]
  {
    if a != [] {
      SplitNone(a[1..], sep);
      assert [a[0]] + a[1..] == a;
    }
  }

  lemma SplitThree(a: string, b: string, c: string, sep: char)
    requires sep !in a && sep !in b && sep !in c
    ensures Split(a + [sep] + b + [sep] + c, sep) == [a, b, c]
  {
    assert a + [sep] + b + [sep] + c == a + [sep] + (b + [sep] + c);
    SplitFirst(a, b + [sep] + c, sep);
    SplitFirst(b, c, sep);
    SplitNone(c, sep);
  }

  /** Joining the pieces with the separator gives the string back. */
  function Join(pieces: seq<string>, sep: char): string
    requires |pieces| >= 1
  {
    if |pieces| == 1 then pieces[0] else pieces[0] + [sep] + Join(pieces[1..], sep)
  }

  lemma {:induction false} JoinOfSplit(s: string, sep: char)
    ensures Join(Split(s, sep), sep) == s
    ensures forall p :: p in Split(s, sep) ==> sep !in p
  {
    if s != [] {
      JoinOfSplit(s[1..], sep);
      var rest := Split(s[1..], sep);
      assert [s[0]] + s[1..] == s;
      if s[0] == sep {
        assert ([[]] + rest)[1..] == rest;
      } else {
        var pieces := [[s[0]] + rest[0]] + rest[1..];
        assert pieces[1..] == rest[1..];
        if |rest| > 1 {
          assert [s[0]] + (rest[0] + [sep] + Join(rest[1..], sep)) == [s[0]] + rest[0] + [sep] + Join(rest[1..], sep);
        }
      }
    }
  }

  /** `str::split_once`, for a character that occurs: its first place. */
  function IndexOf(s: string, c: char): (i: nat)
    requires c in s
    ensures i < |s| && s[i] == c && c !in s[..i]
  {
    if s[0] == c then 0 else
      assert s == [s[0]] + s[1..];
      var i := IndexOf(s[1..], c);
      assert s[..i + 1] == [s[0]] + s[1..][..i];
      i + 1
  }

  lemma IndexOfFirst(a: string, c: char, b: string)
    requires c !in a
    ensures c in a + [c] + b && IndexOf(a + [c] + b, c) == |a|
  {
    var s := a + [c] + b;
    assert s[|a|] == c;
    var i := IndexOf(s, c);
    assert forall j :: 0 <= j < |a| ==> s[j] == a[j] && s[j] != c;
    assert forall j :: 0 <= j < i ==> s[..i][j] == s[j] && s[j] != c;
  }

  /** A separator splits whatever is on either side of it. */
  lemma {:induction false} SplitAppend(a: string, b: string, sep: char)
    ensures Split(a + [sep] + b, sep) == Split(a, sep) + Split(b, sep)
    decreases |a|
  {
    hide Split, IndexOf;
    if sep in a {
      var i := IndexOf(a, sep);
      var x, y := a[..i], a[i + 1..];
      assert a == x + [sep] + y;
      assert a + [sep] + b == x + [sep] + (y + [sep] + b);
      SplitFirst(x, y + [sep] + b, sep);
      SplitFirst(x, y, sep);
      SplitAppend(y, b, sep);
      assert [x] + (Split(y, sep) + Split(b, sep)) == [x] + Split(y, sep) + Split(b, sep);
    } else {
      SplitFirst(a, b, sep);
      SplitNone(a, sep);
    }
  }

  // ----- Trimming -----

  function TrimStart(s: string, p: char -> bool): string {
    if s != [] && p(s[0]) then TrimStart(s[1..], p) else s
  }

  function TrimEnd(s: string, p: char -> bool): string {
    if s != [] && p(s[|s| - 1]) then TrimEnd(s[..|s| - 1], p) else s
  }

  /** `str::trim_matches`. */
  function TrimBy(s: string, p: char -> bool): string { TrimEnd(TrimStart(s, p), p) }

  /** Nothing to trim at either end. */
  predicate Tight(s: string, p: char -> bool) { s != [] ==> !p(s[0]) && !p(s[|s| - 1]) }

  predicate All(s: string, p: char -> bool) { forall i :: 0 <= i < |s| ==> p(s[i]) }

  lemma {:induction false} TrimStartDrops(a: string, s: string, p: char -> bool)
    requires All(a, p)
    ensures TrimStart(a + s, p) == TrimStart(s, p)
  {
    if a == [] {
      assert a + s == s;
    } else {
      assert (a + s)[1..] == a[1..] + s;
      TrimStartDrops(a[1..], s, p);
    }
  }

  lemma {:induction false} TrimEndDrops(s: string, b: string, p: char -> bool)
    requires All(b, p)
    ensures TrimEnd(s + b, p) == TrimEnd(s, p)
  {
    if b == [] {
      assert s + b == s;
    } else {
      var n := |b| - 1;
      assert (s + b)[..|s| + n] == s + b[..n];
      TrimEndDrops(s, b[..n], p);
    }
  }

  /** Trimming takes off exactly what surrounds a tight text. */
  lemma TrimSurrounded(a: string, s: string, b: string, p: char -> bool)
    requires All(a, p) && All(b, p) && Tight(s, p)
    ensures TrimBy(a + s + b, p) == s
  {
    assert a + s + b == a + (s + b);
    TrimStartDrops(a, s + b, p);
    if s == [] {
      assert s + b == b + [];
      TrimStartDrops(b, [], p);
    } else {
      assert (s + b)[0] == s[0];
      TrimEndDrops(s, b, p);
    }
  }

  /** What remains is a part of the text. */
  lemma TrimIsPart(s: string, p: char -> bool)
    ensures forall c :: c in TrimBy(s, p) ==> c in s
  {
    TrimStartIsPart(s, p);
    TrimEndIsPart(TrimStart(s, p), p);
  }

  lemma {:induction false} TrimStartIsPart(s: string, p: char -> bool)
    ensures forall c :: c in TrimStart(s, p) ==> c in s
  {
    if s != [] && p(s[0]) { TrimStartIsPart(s[1..], p); }
  }

  lemma {:induction false} TrimEndIsPart(s: string, p: char -> bool)
    ensures forall c :: c in TrimEnd(s, p) ==> c in s
  {
    if s != [] && p(s[|s| - 1]) { TrimEndIsPart(s[..|s| - 1], p); }
  }

  function Trim(s: string): string { TrimBy(s, IsWhitespace) }

  // ----- Replacing -----

  /** `str::replace` of one character. */
  function ReplaceChar(s: string, c: char, sub: string): string {
    if s == [] then [] else ReplaceChar(s[..|s| - 1], c, sub) + (if s[|s| - 1] == c then sub else [s[|s| - 1]])
  }

  lemma {:induction false} ReplaceCharAppend(s: string, t: string, c: char, sub: string)
    ensures ReplaceChar(s + t, c, sub) == ReplaceChar(s, c, sub) + ReplaceChar(t, c, sub)
  {
    if t == [] {
      assert s + t == s;
    } else {
      var n := |t| - 1;
      assert (s + t)[..|s| + n] == s + t[..n];
      ReplaceCharAppend(s, t[..n], c, sub);
    }
  }

  /** `str::to_ascii_lowercase`. */
  function LowerChar(c: char): char { if 'A' <= c <= 'Z' then (c as int + 32) as char else c }

  function Lower(s: string): (r: string)
    ensures |r| == |s| && forall i :: 0 <= i < |s| ==> r[i] == LowerChar(s[i])
  {
    seq(|s|, i requires 0 <= i < |s| => LowerChar(s[i]))
  }

  /** Capital letters become the small letters at the same place of the alphabet, and nothing else
      changes. */
  lemma LowerIs(s: string, i: nat)
    requires i < |s|
    ensures if 'A' <= s[i] <= 'Z'
            then 'a' <= Lower(s)[i] <= 'z' && Lower(s)[i] as int - 'a' as int == s[i] as int - 'A' as int
            else Lower(s)[i] == s[i]
  {
  }
}
