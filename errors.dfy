/** Failure values for the character-grid engine.
    The source signals every rejected call by raising; the model returns one of
    these instead. `IndexOutOfRange` stands for Python's IndexError, every other
    case for a ValueError (the distinction matters to `merge_display`, which
    swallows ValueError only). */
module Errors {

  datatype Error =
    | InvalidSize        // Display size outside the terminal bounds
    | InvalidCharacter   // a Character that is not a one-character string
    | InvalidPosition    // a coordinate outside the display
    | InvalidPattern     // a line pattern with non-printable characters
    | InvalidMask        // a mask / restrict / ignore string with non-printable characters
    | InvalidStyle       // a box style whose length is not 1, 2, 3, 4, 5 or 8
    | InvalidText        // draw_str text that is a nested list
    | InvalidMaxLine     // negative max_line
    | InvalidEllipsis    // non-printable ellipsis symbol or non-positive count
    | InvalidIndent      // negative indent
    | InvalidNeighbour   // fill neighbourhood other than 4 or 8
    | InvalidForward     // a non-empty draw_str direction without its 'action' key
    | InvalidReset       // clear() called with neither "screen" nor "all"
    | InvalidWidth       // a wrap width that range() or textwrap rejects
    | EmptyText          // max() over an empty list of lines
    | IndexOutOfRange    // a list assignment past the end of a row
    | DivideByZero       // Position divided by 0
  {
    /** True for every failure the source raises as a ValueError. */
    predicate IsValueError() {
      !IndexOutOfRange?
    }
  }

  datatype Result<+T> = Success(value: T) | Failure(error: Error)

  datatype Outcome = Pass | Fail(error: Error)

  datatype Option<+T> = None | Some(value: T)
}
