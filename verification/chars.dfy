/** Character classes used by the parser's regular expressions and by PHP's
    `trim` and `strtoupper`. A source line is a sequence of characters; every
    class below is ASCII, so a non-ASCII character never belongs to any of them. */
module Chars {

  /** PCRE `\s` without the `u` flag: space, tab, line feed, vertical tab,
      form feed and carriage return. */
  predicate IsSpace(c: char) {
    c == ' ' || c == '\t' || c == '\n' || c == '\U{B}' || c == '\U{C}' || c == '\r'
  }

  /** The characters PHP's `trim` removes by default: space, tab, line feed,
      carriage return, NUL and vertical tab. Form feed is NOT among them. */
  predicate IsTrimChar(c: char) {
    c == ' ' || c == '\t' || c == '\n' || c == '\r' || c == '\0' || c == '\U{B}'
  }

  /** PCRE `\d`. */
  predicate IsDigit(c: char) {
    '0' <= c <= '9'
  }

  predicate IsOctDigit(c: char) {
    '0' <= c <= '7'
  }

  predicate IsHexDigit(c: char) {
    IsDigit(c) || 'a' <= c <= 'f' || 'A' <= c <= 'F'
  }

  predicate IsLetter(c: char) {
    'a' <= c <= 'z' || 'A' <= c <= 'Z'
  }

  /** PCRE `\w` in the C locale: letters, digits and underscore. */
  predicate IsWordChar(c: char) {
    IsLetter(c) || IsDigit(c) || c == '_'
  }

  /** The punctuation an IPPcode23 identifier may contain anywhere. */
  predicate IsIdentPunct(c: char) {
    c == '_' || c == '-' || c == '$' || c == '&' || c == '%' || c == '*' || c == '!' || c == '?'
  }

  /** First character of an identifier: `[a-zA-Z_\-$&%*!?]`. */
  predicate IsIdentStart(c: char) {
    IsLetter(c) || IsIdentPunct(c)
  }

  /** Later characters of an identifier: `[\w\-$&%*!?]`. */
  predicate IsIdentChar(c: char) {
    IsWordChar(c) || IsIdentPunct(c)
  }

  /** `strtoupper` in the C locale: only ASCII lower-case letters change. */
  function UpperChar(c: char): (u: char)
    ensures 'a' <= c <= 'z' ==> u != c && u as int == c as int - 32
    ensures !('a' <= c <= 'z') ==> u == c
    ensures !('a' <= u <= 'z')
  {
    if 'a' <= c <= 'z' then (c as int - 32) as char else c
  }

  function Upper(s: string): (u: string)
    ensures |u| == |s|
    ensures forall i :: 0 <= i < |s| ==> u[i] == UpperChar(s[i])
  {
    if s == [] then [] else [UpperChar(s[0])] + Upper(s[1..])
  }

  /** Upper-casing is idempotent, so comparing `Upper(t)` with an upper-case
      name is insensitive to the case of `t`. */
  lemma UpperIdempotent(s: string)
    ensures Upper(Upper(s)) == Upper(s)
  {
  }

  /** Two texts that differ only in the case of ASCII letters upper-case alike. */
  lemma UpperIgnoresCase(s: string, t: string)
    requires |s| == |t|
    requires forall i :: 0 <= i < |s| ==> UpperChar(s[i]) == UpperChar(t[i])
    ensures Upper(s) == Upper(t)
  {
  }
}
