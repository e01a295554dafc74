/** Character classes of Python's `str` that the fact parser depends on.
    Characters are Unicode scalar values, compared by code point. */
module Text {

  /** The whitespace class `\s` of a Python 3 `str` regular expression:
      exactly the characters for which `str.isspace()` holds. */
  predicate IsSpace(c: char) {
    var n := c as int;
    (0x09 <= n <= 0x0D) || (0x1C <= n <= 0x20) || n == 0x85 || n == 0xA0
    || n == 0x1680 || (0x2000 <= n <= 0x200A) || n == 0x2028 || n == 0x2029
    || n == 0x202F || n == 0x205F || n == 0x3000
  }

  /** The line boundaries of Python's `str.splitlines`. The pair "\r\n" is
      one boundary; that is handled by the splitter, not here. */
  predicate IsLineBreak(c: char) {
    var n := c as int;
    (0x0A <= n <= 0x0D) || (0x1C <= n <= 0x1E) || n == 0x85 || n == 0x2028 || n == 0x2029
  }

  /** A string with no line boundary in it. */
  predicate NoBreak(s: string) {
    forall m :: 0 <= m < |s| ==> !IsLineBreak(s[m])
  }
}
