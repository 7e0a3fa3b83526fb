/**
 * Character classification helpers that the scanner calls but that live outside the
 * scanner's own source: the digit maps of the runtime's `Convert` helper class and
 * `char.IsWhiteSpace`. They are given here as small total functions.
 */
module Chars {

  /** The value both digit maps return for a character that is not a digit (Int32.MaxValue). */
  const NOT_A_DIGIT: int := 0x7fff_ffff

  /** '0'-'9' give 0-9, 'A'-'Z' and 'a'-'z' give 10-35, everything else is not a digit. */
  function AlphaNumericToDigit(c: char): (d: int)
    ensures 0 <= d
    ensures d < 36 <==> ('0' <= c <= '9' || 'A' <= c <= 'Z' || 'a' <= c <= 'z')
    ensures d < 10 <==> '0' <= c <= '9'
    ensures d < 10 ==> d == NumericToDigit(c)
  {
    if '0' <= c <= '9' then c as int - '0' as int
    else if 'A' <= c <= 'Z' then c as int - 'A' as int + 10
    else if 'a' <= c <= 'z' then c as int - 'a' as int + 10
    else NOT_A_DIGIT
  }

  /** '0'-'9' give 0-9, everything else is not a digit. */
  function NumericToDigit(c: char): (d: int)
    ensures 0 <= d
    ensures d < 10 <==> '0' <= c <= '9'
    ensures d < 10 ==> d == c as int - '0' as int
  {
    if '0' <= c <= '9' then c as int - '0' as int else NOT_A_DIGIT
  }

  /** The characters `char.IsWhiteSpace` accepts: Unicode separators and the ASCII/Latin-1 controls. */
  predicate IsWhiteSpace(c: char)
  {
    var n := c as int;
    (0x09 <= n <= 0x0D) || n == 0x20 || n == 0x85 || n == 0xA0 || n == 0x1680
    || (0x2000 <= n <= 0x200A) || n == 0x2028 || n == 0x2029 || n == 0x202F
    || n == 0x205F || n == 0x3000
  }

  /** Spaces and tabs: the only characters a heredoc indentation may consist of. */
  predicate IsIndentChar(c: char)
  {
    c == ' ' || c == '\t'
  }
}
