/**
 * The character classes that the service's string handling relies on, following
 * Python's `str.isspace`, `str.isalnum` and `str.lower`.
 *
 * Whitespace is Python's complete set. Letters, digits and case are exact for the
 * Latin-1 range U+0000..U+00FF, which holds ASCII and the Norwegian letters; every
 * character above U+00FF is treated as neither alphanumeric nor upper case.
 */
module Chars {

  /** Python's `str.isspace` for one character (the set `str.strip()` removes). */
  predicate IsSpace(c: char) {
    var n := c as int;
    (0x09 <= n <= 0x0D) || (0x1C <= n <= 0x20) || n == 0x85 || n == 0xA0 || n == 0x1680
    || (0x2000 <= n <= 0x200A) || n == 0x2028 || n == 0x2029 || n == 0x202F
    || n == 0x205F || n == 0x3000
  }

  /** Python's `str.isalnum` for one character of the Latin-1 range. */
  predicate IsAlnum(c: char) {
    var n := c as int;
    ('0' <= c <= '9') || ('A' <= c <= 'Z') || ('a' <= c <= 'z')
    // ª ² ³ µ ¹ º ¼ ½ ¾
    || n == 0xAA || n == 0xB2 || n == 0xB3 || n == 0xB5 || n == 0xB9 || n == 0xBA
    || (0xBC <= n <= 0xBE)
    // À..ÿ without × and ÷
    || (0xC0 <= n <= 0xFF && n != 0xD7 && n != 0xF7)
  }

  /** Upper-case letters of the Latin-1 range: A..Z and À..Þ without ×. */
  predicate IsUpper(c: char) {
    var n := c as int;
    ('A' <= c <= 'Z') || (0xC0 <= n <= 0xDE && n != 0xD7)
  }

  /** Python's `str.lower` for one character of the Latin-1 range. */
  function Lower(c: char): char {
    if IsUpper(c) then (c as int + 0x20) as char else c
  }

  /**
   * Lower-casing maps each upper-case letter to the letter 0x20 code points above it
   * and leaves every other character alone; the result is never upper case and is
   * alphanumeric exactly when the input is.
   */
  lemma LowerSpec(c: char)
    ensures !IsUpper(Lower(c))
    ensures IsAlnum(Lower(c)) == IsAlnum(c)
    ensures IsUpper(c) ==> Lower(c) as int == c as int + 0x20
    ensures !IsUpper(c) ==> Lower(c) == c
  {
  }
}
