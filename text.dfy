/**
 * The character and string classifications of the .NET base library that the
 * shell's history and line editor depend on, over Dafny's Unicode scalar values.
 */
module Text {

  /** char.IsWhiteSpace: the Unicode space, line and paragraph separators, plus
      U+0009..U+000D and U+0085. */
  predicate IsWhiteSpace(c: char)
  {
    c == ' ' || ('\t' <= c <= '\r') || c == '\U{85}' || c == '\U{A0}' || c == '\U{1680}'
    || ('\U{2000}' <= c <= '\U{200A}') || c == '\U{2028}' || c == '\U{2029}'
    || c == '\U{202F}' || c == '\U{205F}' || c == '\U{3000}'
  }

  /** string.IsNullOrWhiteSpace (a Dafny string is never null): true of the
      empty string and of every string made only of white space. */
  predicate IsNullOrWhiteSpace(s: string)
  {
    forall i :: 0 <= i < |s| ==> IsWhiteSpace(s[i])
  }

  /** char.IsControl: the Unicode general category Cc, U+0000..U+001F and U+007F..U+009F. */
  predicate IsControl(c: char)
  {
    c <= '\U{1F}' || ('\U{7F}' <= c <= '\U{9F}')
  }
}
