/** LDAP search filters: escaping of a user name and its substitution into a template
    (section 3 of RFC 4515). */
module LdapFilter {
  import opened Prelude

  const USERNAME := "{username}"
  const USER := "{user}"

  function EscapeChar(c: char): string {
    if c == '*' then "\\2a" else if c == '(' then "\\28" else if c == ')' then "\\29"
    else if c == '\\' then "\\5c" else if c == '\0' then "\\00" else [c]
  }

  function Escape(v: string): string {
    if v == [] then [] else EscapeChar(v[0]) + Escape(v[1..])
  }

  /** `escape_filter_value`. */
  method EscapeFilterValue(value: string) returns (escaped: string)
    ensures escaped == Escape(value)
  {
    hide Escape;
    escaped := [];
    EscapeEmpty();
    for i := 0 to |value|
      invariant escaped + Escape(value[i..]) == Escape(value)
    {
      EscapeStep(escaped, value, i);
      var piece: string;
      match value[i] {
        case '*' => piece := "\\2a";
        case '(' => piece := "\\28";
        case ')' => piece := "\\29";
        case '\\' => piece := "\\5c";
        case '\0' => piece := "\\00";
        case c => piece := [c];
      }
      assert piece == EscapeChar(value[i]);
      escaped := escaped + piece;
    }
    assert value[|value|..] == [] && escaped + [] == escaped;
  }

  lemma EscapeEmpty()
    ensures Escape([]) == []
  {
  }

  lemma EscapeStep(done: string, v: string, i: nat)
    requires i < |v|
    ensures done + Escape(v[i..]) == done + EscapeChar(v[i]) + Escape(v[i + 1..])
  {
    assert v[i..][1..] == v[i + 1..];
    assert done + (EscapeChar(v[i]) + Escape(v[i + 1..])) == done + EscapeChar(v[i]) + Escape(v[i + 1..]);
  }

  /** `str::replace`: every occurrence, left to right, without overlap. */
  function Replace(s: string, pattern: string, text: string): string
    requires pattern != []
  {
    if s == [] then []
    else if pattern <= s then text + Replace(s[|pattern|..], pattern, text)
    else [s[0]] + Replace(s[1..], pattern, text)
  }

  /** `render_user_filter`: two passes, the second over what the first inserted too. */
  function RenderUserFilter(template: string, username: string): string {
    Replace(Replace(template, USERNAME, Escape(username)), USER, Escape(username))
  }

  // ----- The filter keeps its shape -----

  /** The characters that give a filter its structure. */
  predicate Structural(c: char) { c == '(' || c == ')' || c == '*' || c == '\0' }

  function Shape(s: string): string { Filter(s, Structural) }

  lemma {:induction false} NoShape(s: string)
    requires forall i :: 0 <= i < |s| ==> !Structural(s[i])
    ensures Shape(s) == []
  {
    if s != [] { NoShape(s[1..]); }
  }

  lemma {:induction false} EscapeHasNoShape(v: string)
    ensures Shape(Escape(v)) == []
  {
    hide Structural;
    if v != [] {
      EscapeHasNoShape(v[1..]);
      CharHasNoShape(v[0]);
      FilterAppend(EscapeChar(v[0]), Escape(v[1..]), Structural);
    }
  }

  lemma CharHasNoShape(c: char)
    ensures Shape(EscapeChar(c)) == []
  {
    NoShape(EscapeChar(c));
  }

  /** Replacing shapeless text by shapeless text keeps the shape, wherever it occurs. */
  lemma {:induction false} ReplaceKeepsShape(s: string, pattern: string, text: string)
    requires pattern != [] && Shape(pattern) == [] && Shape(text) == []
    ensures Shape(Replace(s, pattern, text)) == Shape(s)
  {
    hide Structural;
    if s != [] {
      if pattern <= s {
        var rest := s[|pattern|..];
        ReplaceKeepsShape(rest, pattern, text);
        assert s == pattern + rest;
        FilterAppend(pattern, rest, Structural);
        FilterAppend(text, Replace(rest, pattern, text), Structural);
      } else {
        ReplaceKeepsShape(s[1..], pattern, text);
        assert s == [s[0]] + s[1..];
        FilterAppend([s[0]], s[1..], Structural);
        FilterAppend([s[0]], Replace(s[1..], pattern, text), Structural);
      }
    }
  }

  /** Whatever the template and the user name, the rendered filter has exactly the template's
      parentheses, stars and zero bytes, in order. */
  lemma RenderKeepsShape(template: string, username: string)
    ensures Shape(RenderUserFilter(template, username)) == Shape(template)
  {
    hide Structural, Filter, Escape, Replace;
    EscapeHasNoShape(username);
    PlaceholdersHaveNoShape();
    ReplaceKeepsShape(template, USERNAME, Escape(username));
    ReplaceKeepsShape(Replace(template, USERNAME, Escape(username)), USER, Escape(username));
  }

  lemma PlaceholdersHaveNoShape()
    ensures Shape(USERNAME) == [] && Shape(USER) == []
  {
    hide Filter;
    NoShape(USERNAME);
    NoShape(USER);
  }

  // ----- The value survives -----

  function HexValue(c: char): Option<int> {
    if IsDigit(c) then Some(c as int - '0' as int)
    else if 'a' <= c <= 'f' then Some(c as int - 'a' as int + 10)
    else if 'A' <= c <= 'F' then Some(c as int - 'A' as int + 10)
    else None
  }

  /** Reading an assertion value: a backslash and two hex digits stand for one character, and
      the structural characters may not stand for themselves. */
  function Unescape(s: string): Option<string> {
    if s == [] then Some([])
    else if s[0] == '\\' then
      if |s| < 3 then None
      else
        var hi :- HexValue(s[1]);
        var lo :- HexValue(s[2]);
        var rest :- Unescape(s[3..]);
        Some([(16 * hi + lo) as char] + rest)
    else if Structural(s[0]) then None
    else
      var rest :- Unescape(s[1..]);
      Some([s[0]] + rest)
  }

  lemma UnescapeHex(h: char, l: char, c: char, s: string)
    requires Unescape(s).Some? && HexValue(h).Some? && HexValue(l).Some?
    requires 16 * HexValue(h).value + HexValue(l).value == c as int
    ensures Unescape(['\\', h, l] + s) == Some([c] + Unescape(s).value)
  {
    hide HexValue;
    var t := ['\\', h, l] + s;
    assert t[0] == '\\' && t[1] == h && t[2] == l && t[3..] == s;
  }

  lemma UnescapePlain(c: char, s: string)
    requires Unescape(s).Some? && c != '\\' && !Structural(c)
    ensures Unescape([c] + s) == Some([c] + Unescape(s).value)
  {
    assert ([c] + s)[1..] == s;
  }

  lemma UnescapeChar(c: char, s: string)
    requires Unescape(s).Some?
    ensures Unescape(EscapeChar(c) + s) == Some([c] + Unescape(s).value)
  {
    hide Unescape;
    if c == '*' { UnescapeHex('2', 'a', c, s); }
    else if c == '(' { UnescapeHex('2', '8', c, s); }
    else if c == ')' { UnescapeHex('2', '9', c, s); }
    else if c == '\\' { UnescapeHex('5', 'c', c, s); }
    else if c == '\0' { UnescapeHex('0', '0', c, s); }
    else { UnescapePlain(c, s); }
  }

  /** Unescaping undoes escaping, for every value. */
  lemma {:induction false} UnescapeOfEscape(v: string)
    ensures Unescape(Escape(v)) == Some(v)
  {
    if v != [] {
      UnescapeOfEscape(v[1..]);
      UnescapeChar(v[0], Escape(v[1..]));
      assert [v[0]] + v[1..] == v;
    }
  }

  // ----- Two passes and one -----

  /** Substituting both placeholders in one pass over the template. */
  function Substitute(t: string, text: string): string {
    if t == [] then []
    else if USERNAME <= t then text + Substitute(t[|USERNAME|..], text)
    else if USER <= t then text + Substitute(t[|USER|..], text)
    else [t[0]] + Substitute(t[1..], text)
  }

  datatype Segment = Literal(text: string) | UserName | User

  /** A template given by its segments, with a text for each placeholder. */
  function Fill(segs: seq<Segment>, username: string, user: string): string {
    if segs == [] then []
    else
      var first := match segs[0] case Literal(t) => t case UserName => username case User => user;
      first + Fill(segs[1..], username, user)
  }

  predicate Plain(segs: seq<Segment>) {
    forall i :: 0 <= i < |segs| && segs[i].Literal? ==> '{' !in segs[i].text
  }

  /** Opening braces occur only in placeholders. */
  ghost predicate OpensOnlyPlaceholders(t: string) { exists segs :: Plain(segs) && t == Fill(segs, USERNAME, USER) }

  lemma {:induction false} ReplaceSkips(a: string, s: string, pattern: string, text: string)
    requires pattern != [] && pattern[0] !in a
    ensures Replace(a + s, pattern, text) == a + Replace(s, pattern, text)
  {
    if a == [] {
      assert a + s == s;
    } else {
      assert (a + s)[0] == a[0] && (a + s)[1..] == a[1..] + s;
      ReplaceSkips(a[1..], s, pattern, text);
      assert [a[0]] + (a[1..] + Replace(s, pattern, text)) == a + Replace(s, pattern, text);
    }
  }

  lemma ReplaceHits(s: string, pattern: string, text: string)
    requires pattern != []
    ensures Replace(pattern + s, pattern, text) == text + Replace(s, pattern, text)
  {
    assert (pattern + s)[|pattern|..] == s;
  }

  /** The longer placeholder does not match the shorter. */
  lemma UserIsNoUserName(s: string)
    ensures !(USERNAME <= USER + s)
  {
    assert (USER + s)[5] == '}' && USERNAME[5] == 'n';
  }

  lemma ReplaceMisses(s: string, text: string)
    ensures Replace(USER + s, USERNAME, text) == USER + Replace(s, USERNAME, text)
  {
    UserIsNoUserName(s);
    var tail := USER[1..];
    assert USER == ['{'] + tail && USERNAME[0] == '{' && (USER + s)[1..] == tail + s;
    assert '{' !in tail;
    ReplaceSkips(tail, s, USERNAME, text);
    assert ['{'] + (tail + Replace(s, USERNAME, text)) == USER + Replace(s, USERNAME, text);
  }

  lemma {:induction false} FirstPass(segs: seq<Segment>, text: string)
    requires Plain(segs)
    ensures Replace(Fill(segs, USERNAME, USER), USERNAME, text) == Fill(segs, text, USER)
  {
    hide Replace;
    if segs == [] {
      ReplaceEmpty(USERNAME, text);
    } else {
      var rest := Fill(segs[1..], USERNAME, USER);
      FirstPass(segs[1..], text);
      match segs[0]
      case Literal(t) => ReplaceSkips(t, rest, USERNAME, text);
      case UserName => ReplaceHits(rest, USERNAME, text);
      case User => ReplaceMisses(rest, text);
    }
  }

  lemma ReplaceEmpty(pattern: string, text: string)
    requires pattern != []
    ensures Replace([], pattern, text) == []
  {
  }

  lemma {:induction false} SubstituteSkips(a: string, s: string, text: string)
    requires '{' !in a
    ensures Substitute(a + s, text) == a + Substitute(s, text)
  {
    if a == [] {
      assert a + s == s;
    } else {
      assert (a + s)[0] == a[0] && (a + s)[1..] == a[1..] + s;
      assert USERNAME[0] == '{' && USER[0] == '{';
      SubstituteSkips(a[1..], s, text);
      assert [a[0]] + (a[1..] + Substitute(s, text)) == a + Substitute(s, text);
    }
  }

  lemma SubstituteHits(s: string, text: string)
    ensures Substitute(USERNAME + s, text) == text + Substitute(s, text)
    ensures Substitute(USER + s, text) == text + Substitute(s, text)
  {
    assert (USERNAME + s)[|USERNAME|..] == s;
    assert (USER + s)[|USER|..] == s;
    UserIsNoUserName(s);
  }

  lemma {:induction false} OnePass(segs: seq<Segment>, text: string)
    requires Plain(segs)
    ensures Substitute(Fill(segs, USERNAME, USER), text) == Fill(segs, text, text)
  {
    hide Substitute;
    if segs == [] {
      SubstituteEmpty(text);
    } else {
      var rest := Fill(segs[1..], USERNAME, USER);
      OnePass(segs[1..], text);
      match segs[0]
      case Literal(t) => SubstituteSkips(t, rest, text);
      case UserName => SubstituteHits(rest, text);
      case User => SubstituteHits(rest, text);
    }
  }

  lemma SubstituteEmpty(text: string)
    ensures Substitute([], text) == []
  {
  }

  // ----- When the second pass reaches into inserted text -----

  /** The occurrences of a placeholder that a pass replaces. */
  function Count(s: string, pattern: string): nat
    requires pattern != []
  {
    if s == [] then 0
    else if pattern <= s then 1 + Count(s[|pattern|..], pattern)
    else Count(s[1..], pattern)
  }

  /** What stands between the `{user}` placeholders once the first pass has put `text` in. */
  function Chunks(segs: seq<Segment>, text: string): (chunks: seq<string>)
    ensures |chunks| >= 1
  {
    if segs == [] then [[]]
    else
      var rest := Chunks(segs[1..], text);
      match segs[0]
      case Literal(t) => [t + rest[0]] + rest[1..]
      case UserName => [text + rest[0]] + rest[1..]
      case User => [[]] + rest
  }

  function Joined(chunks: seq<string>, sep: string): string
    requires |chunks| >= 1
  {
    if |chunks| == 1 then chunks[0] else chunks[0] + sep + Joined(chunks[1..], sep)
  }

  function Total(chunks: seq<string>): nat {
    if chunks == [] then 0 else Count(chunks[0], USER) + Total(chunks[1..])
  }

  function Replaced(chunks: seq<string>, text: string): (r: seq<string>)
    ensures |r| == |chunks| && forall i :: 0 <= i < |r| ==> r[i] == Replace(chunks[i], USER, text)
  {
    seq(|chunks|, i requires 0 <= i < |chunks| => Replace(chunks[i], USER, text))
  }

  lemma JoinedFirst(head: string, rest: seq<string>, sep: string)
    requires |rest| >= 1
    ensures Joined([head + rest[0]] + rest[1..], sep) == head + Joined(rest, sep)
    ensures Joined([[]] + rest, sep) == sep + Joined(rest, sep)
  {
    var chunks := [head + rest[0]] + rest[1..];
    assert chunks[1..] == rest[1..];
    if |rest| > 1 {
      assert head + rest[0] + sep + Joined(rest[1..], sep) == head + (rest[0] + sep + Joined(rest[1..], sep));
    }
    assert ([[]] + rest)[1..] == rest && [] + sep == sep;
  }

  lemma {:induction false} FillIsJoined(segs: seq<Segment>, text: string, user: string)
    ensures Fill(segs, text, user) == Joined(Chunks(segs, text), user)
  {
    if segs != [] {
      FillIsJoined(segs[1..], text, user);
      var rest := Chunks(segs[1..], text);
      match segs[0]
      case Literal(t) => JoinedFirst(t, rest, user);
      case UserName => JoinedFirst(text, rest, user);
      case User => JoinedFirst([], rest, user);
    }
  }

  /** `{user}` cannot begin inside text and end inside the next `{user}`. */
  lemma NoStraddle(a: string, b: string)
    requires a != []
    ensures USER <= a + USER + b <==> USER <= a
  {
    var s := a + USER + b;
    assert forall i :: 0 <= i < |a| ==> s[i] == a[i];
    assert s[|a|] == '{' && forall i :: 1 <= i < |USER| ==> USER[i] != '{';
    assert USER <= s ==> forall i :: 0 <= i < |USER| ==> s[i] == USER[i];
    assert USER <= s ==> |USER| <= |a| && a[..|USER|] == USER;
    assert USER <= a ==> s[..|USER|] == USER;
  }

  /** A placeholder in the text cuts both the pass and the count in two. */
  lemma {:induction false} Cut(a: string, b: string, text: string)
    ensures Replace(a + USER + b, USER, text) == Replace(a, USER, text) + text + Replace(b, USER, text)
    ensures Count(a + USER + b, USER) == Count(a, USER) + 1 + Count(b, USER)
    decreases |a|
  {
    var s := a + USER + b;
    if a == [] {
      assert s == USER + b && s[|USER|..] == b;
      assert [] + text == text;
    } else {
      NoStraddle(a, b);
      if USER <= a {
        var rest := a[|USER|..];
        assert s[|USER|..] == rest + USER + b;
        Cut(rest, b, text);
        assert text + (Replace(rest, USER, text) + text + Replace(b, USER, text))
            == text + Replace(rest, USER, text) + text + Replace(b, USER, text);
      } else {
        assert s[0] == a[0] && s[1..] == a[1..] + USER + b;
        Cut(a[1..], b, text);
        assert [a[0]] + (Replace(a[1..], USER, text) + text + Replace(b, USER, text))
            == [a[0]] + Replace(a[1..], USER, text) + text + Replace(b, USER, text);
      }
    }
  }

  lemma {:induction false} CutEverywhere(chunks: seq<string>, text: string)
    requires |chunks| >= 1
    ensures Replace(Joined(chunks, USER), USER, text) == Joined(Replaced(chunks, text), text)
    ensures Count(Joined(chunks, USER), USER) == Total(chunks) + |chunks| - 1
  {
    hide Replace, Count;
    if |chunks| == 1 {
      assert chunks[1..] == [];
    } else {
      Cut(chunks[0], Joined(chunks[1..], USER), text);
      CutEverywhere(chunks[1..], text);
      assert Replaced(chunks, text)[1..] == Replaced(chunks[1..], text);
    }
  }

  /** Replacing changes the length by a fixed amount each time. */
  lemma {:induction false} ReplaceLength(s: string, text: string)
    ensures |Replace(s, USER, text)| == |s| + Count(s, USER) * (|text| - |USER|)
  {
    if s != [] {
      if USER <= s {
        ReplaceLength(s[|USER|..], text);
        Distribute(1, Count(s[|USER|..], USER), |text| - |USER|);
      } else {
        ReplaceLength(s[1..], text);
      }
    }
  }

  lemma {:induction false} ReplaceNothing(s: string, text: string)
    requires Count(s, USER) == 0 || text == USER
    ensures Replace(s, USER, text) == s
  {
    if s != [] {
      if USER <= s {
        ReplaceNothing(s[|USER|..], text);
      } else {
        ReplaceNothing(s[1..], text);
      }
    }
  }

  lemma {:induction false} ReplaceSomething(s: string, text: string)
    requires Count(s, USER) > 0 && |text| == |USER| && Replace(s, USER, text) == s
    ensures text == USER
  {
    if USER <= s {
      assert Replace(s, USER, text)[..|USER|] == text && s[..|USER|] == USER;
    } else {
      assert Replace(s, USER, text)[1..] == Replace(s[1..], USER, text);
      ReplaceSomething(s[1..], text);
    }
  }

  lemma {:induction false} JoinedLength(chunks: seq<string>, text: string)
    requires |chunks| >= 1
    ensures |Joined(Replaced(chunks, text), text)| == |Joined(chunks, text)| + Total(chunks) * (|text| - |USER|)
  {
    hide Replace, Count;
    ReplaceLength(chunks[0], text);
    if |chunks| == 1 {
      assert chunks[1..] == [] && Total(chunks) == Count(chunks[0], USER);
    } else {
      JoinedLength(chunks[1..], text);
      assert Replaced(chunks, text)[1..] == Replaced(chunks[1..], text);
      Distribute(Count(chunks[0], USER), Total(chunks[1..]), |text| - |USER|);
    }
  }

  lemma Distribute(m: int, n: int, k: int)
    ensures (m + n) * k == m * k + n * k
  {
  }

  lemma {:induction false} NothingLeft(chunks: seq<string>, text: string)
    requires Total(chunks) == 0 || text == USER
    ensures Replaced(chunks, text) == chunks
  {
    hide Replace, Count;
    if chunks != [] {
      ReplaceNothing(chunks[0], text);
      NothingLeft(chunks[1..], text);
      assert Replaced(chunks, text) == [Replace(chunks[0], USER, text)] + Replaced(chunks[1..], text);
    }
  }

  lemma {:induction false} SomethingLeft(chunks: seq<string>, text: string)
    requires |chunks| >= 1 && Total(chunks) > 0 && |text| == |USER|
    requires Joined(Replaced(chunks, text), text) == Joined(chunks, text)
    ensures text == USER
  {
    hide Replace, Count;
    var r := Replaced(chunks, text);
    ReplaceLength(chunks[0], text);
    assert r[0] == Joined(r, text)[..|r[0]|] && chunks[0] == Joined(chunks, text)[..|chunks[0]|];
    if Count(chunks[0], USER) > 0 {
      ReplaceSomething(chunks[0], text);
    } else {
      assert |chunks| > 1;
      assert r[1..] == Replaced(chunks[1..], text);
      var n := |chunks[0]| + |text|;
      assert Joined(r, text)[n..] == Joined(r[1..], text) && Joined(chunks, text)[n..] == Joined(chunks[1..], text);
      SomethingLeft(chunks[1..], text);
    }
  }

  /** The second pass does what it should exactly when it finds no placeholder that the first
      put there, or the text is the placeholder itself. */
  lemma JoinedIff(chunks: seq<string>, text: string)
    requires |chunks| >= 1
    ensures Joined(Replaced(chunks, text), text) == Joined(chunks, text) <==> text == USER || Total(chunks) == 0
  {
    hide Joined;
    if text == USER || Total(chunks) == 0 {
      NothingLeft(chunks, text);
    } else if Joined(Replaced(chunks, text), text) == Joined(chunks, text) {
      JoinedLength(chunks, text);
      assert Total(chunks) * (|text| - |USER|) == 0;
      SomethingLeft(chunks, text);
    }
  }

  // ----- Counting in the template -----

  function Users(segs: seq<Segment>): nat {
    if segs == [] then 0 else (if segs[0].User? then 1 else 0) + Users(segs[1..])
  }

  lemma {:induction false} ChunksAreUsers(segs: seq<Segment>, text: string)
    ensures |Chunks(segs, text)| == Users(segs) + 1
  {
    if segs != [] { ChunksAreUsers(segs[1..], text); }
  }

  lemma {:induction false} CountSkips(a: string, s: string)
    requires '{' !in a
    ensures Count(a + s, USER) == Count(s, USER)
  {
    if a == [] {
      assert a + s == s;
    } else {
      assert (a + s)[0] == a[0] && (a + s)[1..] == a[1..] + s;
      assert USER[0] == '{';
      CountSkips(a[1..], s);
    }
  }

  lemma CountMisses(s: string)
    ensures Count(USERNAME + s, USER) == Count(s, USER)
  {
    var tail := USERNAME[1..];
    assert (USERNAME + s)[5] == 'n' && USER[5] == '}' && (USERNAME + s)[1..] == tail + s;
    assert '{' !in tail;
    CountSkips(tail, s);
  }

  lemma {:induction false} CountTemplate(segs: seq<Segment>)
    requires Plain(segs)
    ensures Count(Fill(segs, USERNAME, USER), USER) == Users(segs)
  {
    if segs != [] {
      hide Count;
      var rest := Fill(segs[1..], USERNAME, USER);
      CountTemplate(segs[1..]);
      match segs[0]
      case Literal(t) => CountSkips(t, rest);
      case UserName => CountMisses(rest);
      case User => CountHits(rest);
    }
  }

  lemma CountHits(s: string)
    ensures Count(USER + s, USER) == 1 + Count(s, USER)
  {
    assert (USER + s)[|USER|..] == s;
  }

  // ----- The exact condition -----

  /** The first pass makes no new `{user}`, neither inside what it inserts nor across it. */
  predicate NoNewPlaceholder(template: string, text: string) {
    Count(Replace(template, USERNAME, text), USER) == Count(template, USER)
  }

  /** For a template whose braces are only in placeholders, the two passes are the simultaneous
      substitution exactly when the first pass makes no new `{user}`, or the escaped name is
      `{user}` itself. */
  lemma RenderIsSubstitutionIff(template: string, username: string)
    requires OpensOnlyPlaceholders(template)
    ensures RenderUserFilter(template, username) == Substitute(template, Escape(username))
            <==> Escape(username) == USER || NoNewPlaceholder(template, Escape(username))
  {
    hide Replace, Substitute, Escape, Fill, Count, Joined;
    var segs :| Plain(segs) && template == Fill(segs, USERNAME, USER);
    var text := Escape(username);
    var chunks := Chunks(segs, text);
    FirstPass(segs, text);
    OnePass(segs, text);
    FillIsJoined(segs, text, USER);
    FillIsJoined(segs, text, text);
    CutEverywhere(chunks, text);
    CountTemplate(segs);
    ChunksAreUsers(segs, text);
    JoinedIff(chunks, text);
  }

  lemma {:induction false} EscapeBraces(v: string)
    ensures '{' in Escape(v) <==> '{' in v
  {
    if v != [] {
      EscapeBraces(v[1..]);
      assert v == [v[0]] + v[1..];
    }
  }

  lemma {:induction false} FillHasNoNewUser(segs: seq<Segment>, text: string)
    requires Plain(segs) && '{' !in text
    ensures Count(Fill(segs, text, USER), USER) == Users(segs)
  {
    if segs != [] {
      hide Count;
      var rest := Fill(segs[1..], text, USER);
      FillHasNoNewUser(segs[1..], text);
      match segs[0]
      case Literal(t) => CountSkips(t, rest);
      case UserName => CountSkips(text, rest);
      case User => CountHits(rest);
    }
  }

  /** In particular for every user name without an opening brace. */
  lemma RenderIsSubstitution(template: string, username: string)
    requires OpensOnlyPlaceholders(template) && '{' !in username
    ensures RenderUserFilter(template, username) == Substitute(template, Escape(username))
  {
    hide Replace, Substitute, Escape, Fill, Count;
    var segs :| Plain(segs) && template == Fill(segs, USERNAME, USER);
    EscapeBraces(username);
    FirstPass(segs, Escape(username));
    FillHasNoNewUser(segs, Escape(username));
    CountTemplate(segs);
    RenderIsSubstitutionIff(template, username);
  }

  /** With an opening brace in the user name the second pass can reach into the first's text. */
  lemma BraceIsSubstitutedTwice()
    ensures var u := "{user}x"; RenderUserFilter(USERNAME, u) != Substitute(USERNAME, Escape(u))
  {
    hide Replace, Substitute, Escape;
    var u := "{user}x";
    EscapePlain(u);
    assert USERNAME + [] == USERNAME && USER + "x" == u;
    ReplaceHits([], USERNAME, u);
    ReplaceHits("x", USER, u);
    SubstituteHits([], u);
    assert Replace("x", USER, u) == "x" by {
      ReplaceSkips("x", [], USER, u);
      ReplaceEmpty(USER, u);
      assert "x" + [] == "x";
    }
    ReplaceEmpty(USERNAME, u);
    SubstituteEmpty(u);
    assert u + [] == u && |u + "x"| == |u| + 1;
  }

  lemma {:induction false} EscapePlain(v: string)
    requires forall i :: 0 <= i < |v| ==> EscapeChar(v[i]) == [v[i]]
    ensures Escape(v) == v
  {
    if v != [] {
      EscapePlain(v[1..]);
      assert [v[0]] + v[1..] == v;
    }
  }
}
