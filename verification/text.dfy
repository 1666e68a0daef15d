/** The string predicates the business layer relies on: Java's
    `String.isBlank`, `String.equalsIgnoreCase` and a case-insensitive
    substring test. Case folding covers ASCII letters only. */
module Text {

  /** Java's `Character.isWhitespace` on UTF-16 code units: the space,
      line and paragraph separators except the non-breaking ones, plus the
      control characters U+0009..U+000D and U+001C..U+001F. */
  predicate IsWhitespace(c: char)
  {
    || ('\t' <= c <= '\r')
    || ('\U{1C}' <= c <= '\U{1F}')
    || c == ' '
    || c == '\U{1680}'
    || ('\U{2000}' <= c <= '\U{2006}')
    || ('\U{2008}' <= c <= '\U{200A}')
    || c == '\U{2028}'
    || c == '\U{2029}'
    || c == '\U{205F}'
    || c == '\U{3000}'
  }

  /** Java's `String.isBlank`: empty, or whitespace only. */
  predicate IsBlank(s: string)
  {
    forall i :: 0 <= i < |s| ==> IsWhitespace(s[i])
  }

  function ToLower(c: char): (r: char)
    ensures 'A' <= c <= 'Z' ==> 'a' <= r <= 'z'
    ensures !('A' <= c <= 'Z') ==> r == c
  {
    if 'A' <= c <= 'Z' then (c as int + 32) as char else c
  }

  /** Java's `String.equalsIgnoreCase`, restricted to ASCII folding. */
  predicate EqualsIgnoreCase(a: string, b: string)
  {
    |a| == |b| && forall i :: 0 <= i < |a| ==> ToLower(a[i]) == ToLower(b[i])
  }

  /** `needle` occurs in `hay` starting at offset `i`, ignoring case. */
  predicate MatchesAt(hay: string, needle: string, i: int)
  {
    0 <= i <= |hay| - |needle| && EqualsIgnoreCase(hay[i..i + |needle|], needle)
  }

  /** `needle` occurs somewhere in `hay`, ignoring case. */
  predicate ContainsIgnoreCase(hay: string, needle: string)
  {
    exists i | 0 <= i <= |hay| :: MatchesAt(hay, needle, i)
  }
}
