/**
 * The character classes of <ctype.h> that the core uses, in the "C" locale
 * (plain ASCII predicates).
 */
module Ctype {

  /** isspace: blank, tab, newline, vertical tab, form feed, carriage return. */
  predicate IsSpace(c: char)
  {
    c == ' ' || c == '\t' || c == '\n' || c == '\U{0B}' || c == '\U{0C}' || c == '\r'
  }

  /** isdigit */
  predicate IsDigit(c: char)
  {
    '0' <= c <= '9'
  }

  /** isalpha */
  predicate IsAlpha(c: char)
  {
    ('A' <= c <= 'Z') || ('a' <= c <= 'z')
  }

  /** isalnum */
  predicate IsAlnum(c: char)
  {
    IsAlpha(c) || IsDigit(c)
  }
}
