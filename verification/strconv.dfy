/**
 * Declarations shared by the scalar text codecs of `repr::strconv`.
 *
 * Every `format_*` function of the source appends text to a caller-owned
 * buffer and reports whether that text can be embedded in a list literal
 * as it is. Here a formatter returns the text it appends together with
 * that signal; the buffer itself only matters to the list escaper, which
 * is modelled on an explicit buffer.
 */
module Strconv {
  import opened Text

  /** Whether formatted text can be nested in a list literal without escaping. */
  datatype Nestable = Yes | MayNeedEscaping

  /** The text a formatter appends and the signal it returns. */
  datatype Formatted = Formatted(text: string, nest: Nestable)

  /** The errors of the parsers: a `bail!` message, or one of the two
      failures of the `hex` crate's decoder. */
  datatype Error =
    | Message(text: string)
    | OddLength
    | InvalidHexCharacter(c: byte, index: nat)

  /** `format_string`: the text is copied verbatim and may need escaping. */
  function FormatString(s: string): (r: Formatted)
    ensures r.text == s && r.nest == MayNeedEscaping
  {
    Formatted(s, MayNeedEscaping)
  }
}
