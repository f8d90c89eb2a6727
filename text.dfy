/** The string operations the roster uses: `str.strip()`, `str.lower()`, `<=` on str and `in` on str. */
module Text {

  /** `c.isspace()` in Python: the characters `str.strip()` removes. */
  predicate IsSpace(c: char) {
    ('\t' <= c <= '\r') || ('\U{1C}' <= c <= ' ') || c == '\U{85}' || c == '\U{A0}' ||
    c == '\U{1680}' || ('\U{2000}' <= c <= '\U{200A}') || c == '\U{2028}' || c == '\U{2029}' ||
    c == '\U{202F}' || c == '\U{205F}' || c == '\U{3000}'
  }

  predicate AllSpace(s: string) {
    forall i :: 0 <= i < |s| ==> IsSpace(s[i])
  }

  function StripStart(s: string): string
  {
    if s != [] && IsSpace(s[0]) then StripStart(s[1..]) else s
  }

  lemma {:induction false} StripStartFacts(s: string)
    ensures |StripStart(s)| <= |s| && StripStart(s) == s[|s| - |StripStart(s)|..]
    ensures AllSpace(s[..|s| - |StripStart(s)|])
    ensures StripStart(s) != [] ==> !IsSpace(StripStart(s)[0])
  {
    if s != [] && IsSpace(s[0]) {
      StripStartFacts(s[1..]);
      var r := StripStart(s);
      assert s[..|s| - |r|] == [s[0]] + s[1..][..|s| - 1 - |r|];
    }
  }

  function StripEnd(s: string): string
  {
    if s != [] && IsSpace(s[|s| - 1]) then StripEnd(s[..|s| - 1]) else s
  }

  lemma {:induction false} StripEndFacts(s: string)
    ensures |StripEnd(s)| <= |s| && StripEnd(s) == s[..|StripEnd(s)|]
    ensures AllSpace(s[|StripEnd(s)|..])
    ensures StripEnd(s) != [] ==> !IsSpace(StripEnd(s)[|StripEnd(s)| - 1])
  {
    if s != [] && IsSpace(s[|s| - 1]) {
      StripEndFacts(s[..|s| - 1]);
      var r := StripEnd(s);
      assert s[|r|..] == s[..|s| - 1][|r|..] + [s[|s| - 1]];
    }
  }

  /** `s.strip()`: `s` without its leading and trailing whitespace. */
  function Strip(s: string): (r: string)
    ensures |r| <= |s|
    ensures r != [] ==> !IsSpace(r[0]) && !IsSpace(r[|r| - 1])
    ensures r == [] <==> AllSpace(s)
  {
    var t := StripStart(s);
    var r := StripEnd(t);
    StripStartFacts(s);
    StripEndFacts(t);
    assert r != [] ==> r[0] == t[0];
    assert t != [] ==> t[0] == s[|s| - |t|];
    assert r == [] ==> AllSpace(s) by {
      if r == [] {
        assert t[0..] == t;
        assert s[..|s| - |t|] == s;
      }
    }
    r
  }

  lemma StripIdempotent(s: string)
    ensures Strip(Strip(s)) == Strip(s)
  {
    var r := Strip(s);
    StripStartFacts(s);
    StripEndFacts(StripStart(s));
    if r != [] {
      assert StripStart(r) == r;
      assert StripEnd(r) == r;
    }
  }

  /** The capitals lower-cased by adding one: the letter pairs of Latin Extended-A and of the
      Cyrillic supplement, capital first. */
  predicate PairUpper(n: int) {
    ((0x100 <= n <= 0x12F || 0x132 <= n <= 0x137 || 0x14A <= n <= 0x177 ||
      0x460 <= n <= 0x481 || 0x48A <= n <= 0x4BF || 0x4D0 <= n <= 0x4FF) && n % 2 == 0) ||
    ((0x139 <= n <= 0x148 || 0x179 <= n <= 0x17E || 0x4C1 <= n <= 0x4CE) && n % 2 == 1)
  }

  /** The capitals whose lower-case forms this model knows: Basic Latin, Latin-1, Latin
      Extended-A except U+0130, the Greek capitals U+0391 to U+03A9 except sigma, and the
      Cyrillic capitals of U+0400 to U+04FF. */
  predicate IsUpper(c: char) {
    var n := c as int;
    (0x41 <= n <= 0x5A) || (0xC0 <= n <= 0xDE && n != 0xD7) || n == 0x178 ||
    (0x391 <= n <= 0x3A9 && n != 0x3A2 && n != 0x3A3) || (0x400 <= n <= 0x42F) || n == 0x4C0 ||
    PairUpper(n)
  }

  /** The lower-case form of one character, as `str.lower()` maps the capitals IsUpper names;
      every other character is kept. */
  function LowerChar(c: char): (r: char)
    ensures !IsUpper(r)
    ensures !IsUpper(c) ==> r == c
    ensures IsUpper(c) ==> r != c
  {
    var n := c as int;
    if (0x41 <= n <= 0x5A) || (0xC0 <= n <= 0xDE && n != 0xD7) ||
       (0x391 <= n <= 0x3A9 && n != 0x3A2 && n != 0x3A3) || (0x410 <= n <= 0x42F) then
      (n + 32) as char
    else if 0x400 <= n <= 0x40F then
      (n + 80) as char
    else if n == 0x178 then
      '\U{FF}'
    else if n == 0x4C0 then
      '\U{4CF}'
    else if PairUpper(n) then
      (n + 1) as char
    else
      c
  }

  /** `s.lower()`. */
  function Lower(s: string): (r: string)
    ensures |r| == |s|
    ensures forall i :: 0 <= i < |s| ==> r[i] == LowerChar(s[i])
  {
    if s == [] then [] else [LowerChar(s[0])] + Lower(s[1..])
  }

  lemma LowerIdempotent(s: string)
    ensures Lower(Lower(s)) == Lower(s)
  {
  }

  /** Python's `a <= b` on strings: code-point lexicographic order. */
  predicate LexLe(a: string, b: string) {
    a == [] || (b != [] && (a[0] < b[0] || (a[0] == b[0] && LexLe(a[1..], b[1..]))))
  }

  lemma {:induction false} LexLeTotal(a: string, b: string)
    ensures LexLe(a, b) || LexLe(b, a)
  {
    if a != [] && b != [] && a[0] == b[0] {
      LexLeTotal(a[1..], b[1..]);
    }
  }

  lemma {:induction false} LexLeTransitive(a: string, b: string, c: string)
    requires LexLe(a, b) && LexLe(b, c)
    ensures LexLe(a, c)
  {
    if a != [] && a[0] == b[0] && b[0] == c[0] {
      LexLeTransitive(a[1..], b[1..], c[1..]);
    }
  }

  lemma {:induction false} LexLeAntisymmetric(a: string, b: string)
    requires LexLe(a, b) && LexLe(b, a)
    ensures a == b
  {
    if a != [] {
      LexLeAntisymmetric(a[1..], b[1..]);
      assert a == [a[0]] + a[1..] && b == [b[0]] + b[1..];
    }
  }

  predicate StartsWith(s: string, p: string) {
    |p| <= |s| && s[..|p|] == p
  }

  /** Python's `needle in hay` on strings. */
  predicate Contains(hay: string, needle: string) {
    StartsWith(hay, needle) || (hay != [] && Contains(hay[1..], needle))
  }

  predicate OccursAt(hay: string, needle: string, i: int) {
    0 <= i <= |hay| - |needle| && hay[i..i + |needle|] == needle
  }

  /** `Contains` holds exactly when `needle` occurs at some offset of `hay`. */
  lemma {:induction false} ContainsAt(hay: string, needle: string)
    ensures Contains(hay, needle) <==> exists i :: OccursAt(hay, needle, i)
  {
    if hay != [] {
      ContainsAt(hay[1..], needle);
      if exists i :: OccursAt(hay, needle, i) {
        var i :| OccursAt(hay, needle, i);
        if i > 0 {
          assert hay[1..][i - 1..i - 1 + |needle|] == hay[i..i + |needle|];
          assert OccursAt(hay[1..], needle, i - 1);
        }
      }
      if Contains(hay[1..], needle) {
        var i :| OccursAt(hay[1..], needle, i);
        assert hay[1..][i..i + |needle|] == hay[i + 1..i + 1 + |needle|];
        assert OccursAt(hay, needle, i + 1);
      }
      if StartsWith(hay, needle) {
        assert OccursAt(hay, needle, 0);
      }
    } else {
      if StartsWith(hay, needle) {
        assert OccursAt(hay, needle, 0);
      }
    }
  }
}
