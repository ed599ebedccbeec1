/** Character classes used by sanitizeSlug's regular expressions, stated as
    JavaScript defines them for a regular expression without the `u` flag. */
module CharClass {

  /** ASCII capital letters: the only characters whose lower-case form the model computes. */
  predicate IsUpper(c: char) {
    'A' <= c <= 'Z'
  }

  /** ASCII letters and digits. */
  predicate IsAlnum(c: char) {
    ('a' <= c <= 'z') || ('A' <= c <= 'Z') || ('0' <= c <= '9')
  }

  /** `\w`: `[A-Za-z0-9_]` (ASCII only without the `u` flag). */
  predicate IsWordChar(c: char) {
    IsAlnum(c) || c == '_'
  }

  /** `\s`, which is also the set that `String.prototype.trim` removes:
      the ECMAScript WhiteSpace and LineTerminator code points. */
  predicate IsSpace(c: char) {
    || c == '\t' || c == '\n' || c == '\U{000B}' || c == '\U{000C}' || c == '\r'
    || c == ' ' || c == '\U{00A0}' || c == '\U{1680}'
    || ('\U{2000}' <= c <= '\U{200A}')
    || c == '\U{2028}' || c == '\U{2029}' || c == '\U{202F}' || c == '\U{205F}'
    || c == '\U{3000}' || c == '\U{FEFF}'
  }

  /** The class `[\s_-]` whose runs become one hyphen. */
  predicate IsSeparator(c: char) {
    IsSpace(c) || c == '_' || c == '-'
  }

  /** The class `[\w\s-]`: the characters that survive the deletion of `[^\w\s-]`. */
  predicate IsKept(c: char) {
    IsWordChar(c) || IsSpace(c) || c == '-'
  }

  /** The characters a canonical slug is made of: lower-case letters, digits and `-`. */
  predicate IsSlugChar(c: char) {
    ('a' <= c <= 'z') || ('0' <= c <= '9') || c == '-'
  }

  /** Lower-case mapping of one character, ASCII letters only. */
  function ToLowerChar(c: char): (r: char)
    ensures !IsUpper(r)
    ensures !IsUpper(c) ==> r == c
    ensures IsUpper(c) ==> 'a' <= r <= 'z' && r as int - 'a' as int == c as int - 'A' as int
    ensures IsAlnum(r) == IsAlnum(c) && IsKept(r) == IsKept(c) && IsSeparator(r) == IsSeparator(c)
  {
    if IsUpper(c) then (c as int - 'A' as int + 'a' as int) as char else c
  }

  // How the classes relate, stated as lemmas rather than as the predicates'
  // contracts, so that only the proofs that call them see these facts.

  /** Without the `u` flag, only ASCII characters are word characters. */
  lemma WordCharsAreAscii(c: char)
    ensures IsWordChar(c) ==> c as int < 0x80
  {
  }

  /** No whitespace character is a word character or a hyphen, and every one
      lies in the Basic Multilingual Plane (one UTF-16 code unit). */
  lemma SpacesAreApart(c: char)
    ensures IsSpace(c) ==> !IsWordChar(c) && c != '-'
    ensures IsSpace(c) ==> c as int < 0x1_0000
  {
  }

  /** A separator is never a letter or a digit. */
  lemma SeparatorsAreNotAlnum(c: char)
    ensures IsSeparator(c) ==> !IsAlnum(c)
  {
  }

  /** The characters stage 3 keeps are exactly the letters, digits and separators. */
  lemma KeptAreAlnumOrSeparator(c: char)
    ensures IsKept(c) <==> IsAlnum(c) || IsSeparator(c)
  {
  }
}
