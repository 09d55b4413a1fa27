/** The two string primitives the validation layer relies on: JavaScript's
    `String.prototype.trim` (and the white-space class `\s` of its regular
    expressions, which is the same set) and `toLowerCase`, restricted to ASCII. */
module Text {

  /** ECMAScript WhiteSpace and LineTerminator code points: what `trim` strips
      and what `\s` matches. */
  predicate IsWhitespace(c: char) {
    || c == '\t' || c == '\n' || c == '\U{000B}' || c == '\U{000C}' || c == '\r'
    || c == ' ' || c == '\U{00A0}' || c == '\U{1680}'
    || ('\U{2000}' <= c <= '\U{200A}')
    || c == '\U{2028}' || c == '\U{2029}' || c == '\U{202F}' || c == '\U{205F}'
    || c == '\U{3000}' || c == '\U{FEFF}'
  }

  predicate AllWhitespace(s: string) {
    forall i :: 0 <= i < |s| ==> IsWhitespace(s[i])
  }

  /** Drops the leading white space: the result is the suffix of `s` that starts
      at its first non-white-space character. */
  function TrimStart(s: string): (r: string)
    ensures |r| <= |s| && r == s[|s| - |r|..]
    ensures forall i :: 0 <= i < |s| - |r| ==> IsWhitespace(s[i])
    ensures r == [] || !IsWhitespace(r[0])
  {
    if s != [] && IsWhitespace(s[0]) then TrimStart(s[1..]) else s
  }

  /** Drops the trailing white space: the result is the prefix of `s` that ends
      at its last non-white-space character. */
  function TrimEnd(s: string): (r: string)
    ensures |r| <= |s| && r == s[..|r|]
    ensures forall i :: |r| <= i < |s| ==> IsWhitespace(s[i])
    ensures r == [] || !IsWhitespace(r[|r| - 1])
  {
    if s != [] && IsWhitespace(s[|s| - 1]) then TrimEnd(s[..|s| - 1]) else s
  }

  /** `s.trim()`: the longest infix of `s` that neither starts nor ends with
      white space, after removing only white space on either side. */
  function Trim(s: string): (r: string)
    ensures |r| <= |s|
    ensures r == [] <==> AllWhitespace(s)
    ensures r != [] ==> !IsWhitespace(r[0]) && !IsWhitespace(r[|r| - 1])
    ensures exists i, j :: 0 <= i <= j <= |s| && r == s[i..j]
  {
    var front := TrimStart(s);
    TrimmedPieceEmpty(s, front);
    TrimmedPieceIsInfix(s, front);
    TrimEnd(front)
  }

  /** When trimming the tail leaves nothing of the suffix `front`, the whole of
      `s` was white space. */
  lemma TrimmedPieceEmpty(s: string, front: string)
    requires front == TrimStart(s)
    ensures TrimEnd(front) == [] ==> AllWhitespace(s)
  {
    assert front == [] || IsWhitespace(front[0]) || TrimEnd(front) != [];
  }

  /** Trimming the tail of the suffix `front` leaves a contiguous piece of `s`. */
  lemma TrimmedPieceIsInfix(s: string, front: string)
    requires front == TrimStart(s)
    ensures exists i, j :: 0 <= i <= j <= |s| && TrimEnd(front) == s[i..j]
  {
    PrefixOfSuffixIsInfix(s, front, TrimEnd(front));
  }

  /** A prefix of a suffix of `s` is an infix of `s`. */
  lemma PrefixOfSuffixIsInfix(s: string, front: string, r: string)
    requires |front| <= |s| && front == s[|s| - |front|..]
    requires |r| <= |front| && r == front[..|r|]
    ensures exists i, j :: 0 <= i <= j <= |s| && r == s[i..j]
  {
    var i := |s| - |front|;
    assert r == s[i..i + |r|];
  }

  /** Leading white space makes no difference to `TrimStart`. */
  lemma {:induction false} TrimStartSkipsWhitespace(a: string, t: string)
    requires AllWhitespace(a)
    ensures TrimStart(a + t) == TrimStart(t)
  {
    if a == [] {
      assert a + t == t;
    } else {
      assert (a + t)[0] == a[0];
      assert (a + t)[1..] == a[1..] + t;
      TrimStartSkipsWhitespace(a[1..], t);
    }
  }

  /** Trailing white space makes no difference to `TrimEnd`. */
  lemma {:induction false} TrimEndSkipsWhitespace(t: string, b: string)
    requires AllWhitespace(b)
    ensures TrimEnd(t + b) == TrimEnd(t)
  {
    if b == [] {
      assert t + b == t;
    } else {
      assert (t + b)[|t + b| - 1] == b[|b| - 1];
      assert (t + b)[..|t + b| - 1] == t + b[..|b| - 1];
      TrimEndSkipsWhitespace(t, b[..|b| - 1]);
    }
  }

  /** `Trim` is characterised by what it keeps: white space around a core that
      starts and ends with a non-white-space character is exactly what goes. */
  lemma TrimOfPadded(a: string, core: string, b: string)
    requires AllWhitespace(a) && AllWhitespace(b)
    requires core != [] && !IsWhitespace(core[0]) && !IsWhitespace(core[|core| - 1])
    ensures Trim(a + core + b) == core
  {
    var rest := core + b;
    assert a + core + b == a + rest;
    TrimStartSkipsWhitespace(a, rest);
    assert rest[0] == core[0];
    assert TrimStart(rest) == rest;
    TrimEndSkipsWhitespace(core, b);
    assert TrimEnd(core) == core;
  }

  /** ASCII `toLowerCase` of one character: `A`..`Z` become `a`..`z`. */
  function LowerChar(c: char): char {
    if 'A' <= c <= 'Z' then (c as int - 'A' as int + 'a' as int) as char else c
  }

  predicate IsUpper(c: char) {
    'A' <= c <= 'Z'
  }

  /** `s.toLowerCase()` over ASCII: the same length, each character lowered. */
  function ToLower(s: string): (r: string)
    ensures |r| == |s|
    ensures forall i :: 0 <= i < |s| ==> r[i] == LowerChar(s[i])
  {
    seq(|s|, i requires 0 <= i < |s| => LowerChar(s[i]))
  }

  /** The lowered string has no capital letter, and it differs from the input
      only where the input had one. */
  lemma LowerRemovesCapitals(s: string)
    ensures forall i :: 0 <= i < |s| ==> !IsUpper(ToLower(s)[i])
    ensures forall i :: 0 <= i < |s| && !IsUpper(s[i]) ==> ToLower(s)[i] == s[i]
  {
  }

  /** Lower-casing is idempotent: a lowered string is its own lower case. */
  lemma ToLowerIdempotent(s: string)
    ensures ToLower(ToLower(s)) == ToLower(s)
  {
  }

  /** Lower-casing leaves white space, `@` and `.` alone and never produces
      any of them from another character. */
  lemma LowerCharKeepsClass(c: char)
    ensures IsWhitespace(LowerChar(c)) <==> IsWhitespace(c)
    ensures LowerChar(c) == '@' <==> c == '@'
    ensures LowerChar(c) == '.' <==> c == '.'
  {
  }
}
