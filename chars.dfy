/**
 * The character classes the extractor's regular expressions and string
 * methods rely on, restricted to ASCII: `\s` (and `str.isspace`), `\w`,
 * and `str.lower`.
 */
module CharClasses {

  /** `\s` and `str.isspace()` on ASCII: space, tab, line feed, vertical tab,
      form feed, carriage return, and the four separators U+001C..U+001F. */
  predicate IsSpace(c: char) {
    c == ' ' || '\t' <= c <= '\r' || '\U{1C}' <= c <= '\U{1F}'
  }

  predicate NotSpace(c: char) {
    !IsSpace(c)
  }

  /** `\w` on ASCII: letters, digits and the underscore. */
  predicate IsWordChar(c: char) {
    'a' <= c <= 'z' || 'A' <= c <= 'Z' || '0' <= c <= '9' || c == '_'
  }

  /** The character class `[:\s]`. */
  predicate IsColonOrSpace(c: char) {
    c == ':' || IsSpace(c)
  }

  predicate NotColonOrSpace(c: char) {
    !IsColonOrSpace(c)
  }

  /** `str.lower()` on one ASCII character. */
  function Lower(c: char): (r: char)
    ensures 'A' <= c <= 'Z' ==> r as int == c as int + 32
    ensures !('A' <= c <= 'Z') ==> r == c
    ensures !('A' <= r <= 'Z')
    ensures IsSpace(r) == IsSpace(c) && IsWordChar(r) == IsWordChar(c)
  {
    if 'A' <= c <= 'Z' then (c as int + 32) as char else c
  }

  /** `str.lower()`: lowers every character and keeps every position. */
  function LowerStr(s: string): (r: string)
    ensures |r| == |s|
    ensures forall i :: 0 <= i < |s| ==> r[i] == Lower(s[i])
  {
    seq(|s|, i requires 0 <= i < |s| => Lower(s[i]))
  }

  /** Lowering commutes with taking a slice. */
  lemma LowerStrSlice(s: string, a: nat, b: nat)
    requires a <= b <= |s|
    ensures LowerStr(s[a..b]) == LowerStr(s)[a..b]
  {
    assert forall i :: 0 <= i < b - a ==> LowerStr(s[a..b])[i] == LowerStr(s)[a..b][i];
  }

  /** Lowering twice is lowering once. */
  lemma LowerStrIdempotent(s: string)
    ensures LowerStr(LowerStr(s)) == LowerStr(s)
  {
    assert forall i :: 0 <= i < |s| ==> LowerStr(LowerStr(s))[i] == LowerStr(s)[i];
  }
}
