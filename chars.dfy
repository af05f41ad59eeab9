/** The ASCII character classes the timer text and the e-mail pattern use. */
module Chars {

  predicate IsAsciiLetter(ch: char)
  {
    'a' <= ch <= 'z' || 'A' <= ch <= 'Z'
  }

  predicate IsAsciiDigit(ch: char)
  {
    '0' <= ch <= '9'
  }
}
