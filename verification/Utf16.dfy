/** JavaScript strings: sequences of UTF-16 code units, compared unit by unit. */
module Utf16 {
  type CodeUnit = x: int | 0 <= x < 0x1_0000

  type Text = seq<CodeUnit>

  predicate IsDigit(c: CodeUnit) {
    48 <= c <= 57
  }
}
