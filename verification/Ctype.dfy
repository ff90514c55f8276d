/** <cctype> in the C locale. */
module Ctype {

  predicate IsSpace(c: char) {
    c == ' ' || c == '\t' || c == '\n' || c == '\r' || c == '\U{0B}' || c == '\U{0C}'
  }

  /** Tab to carriage return, and space. */
  lemma SpaceCodes(c: char)
    ensures IsSpace(c) <==> 9 <= c as int <= 13 || c as int == 32
    ensures IsDigit(c) <==> 48 <= c as int <= 57
  {
  }

  predicate IsDigit(c: char) {
    '0' <= c <= '9'
  }
}
