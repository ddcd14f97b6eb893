/** Character classes the recognizers consult.

    Kotlin's `Char.isDigit`, `Char.isLetterOrDigit` and `Char.isWhitespace`
    are Unicode-aware; this model uses their ASCII subsets. */
module CharClass {

  /** `Char.isDigit` restricted to ASCII: the decimal digits. */
  predicate IsDigit(c: char) {
    '0' <= c <= '9'
  }

  /** `Char.isLetterOrDigit` restricted to ASCII: letters and decimal digits.
      The underscore is not a letter. */
  predicate IsLetterOrDigit(c: char) {
    IsDigit(c) || ('a' <= c <= 'z') || ('A' <= c <= 'Z')
  }

  /** `Char.isWhitespace` restricted to ASCII: horizontal tab, line feed,
      vertical tab, form feed, carriage return, the four information
      separators U+001C..U+001F, and space. */
  predicate IsWhitespace(c: char) {
    (9 <= c as int <= 13) || (28 <= c as int <= 31) || c == ' '
  }

}
