/** Character classes used by the sanitiser (main.py:30, 31, 34). */
module Chars {

  /** Printable ASCII, the range `\x20-\x7E` of the deletion pattern. */
  predicate IsPrintable(c: char) {
    ' ' <= c <= '~'
  }

  /** Characters that survive the deletion pass: printable ASCII, newline, carriage return and tab. */
  predicate IsKept(c: char) {
    IsPrintable(c) || c == '\n' || c == '\r' || c == '\t'
  }

  /** ASCII whitespace, the part of Python's `\s` and `str.strip()` that can still occur after the deletion pass. */
  predicate IsSpace(c: char) {
    c == ' ' || c == '\t' || c == '\n' || c == '\r' || c == '\U{000B}' || c == '\U{000C}'
  }

  /** Sentence-terminal punctuation, the look-behind class `[.!?]` of the splitting pattern. */
  predicate IsTerminal(c: char) {
    c == '.' || c == '!' || c == '?'
  }
}
