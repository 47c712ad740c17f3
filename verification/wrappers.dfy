/** Option and Result values used for the program's missing values and fatal errors. */
module Wrappers {

  datatype Option<+T> = None | Some(value: T)

  datatype Result<+T, +E> = Ok(value: T) | Err(error: E)

  /** The conditions on which the program stops with a panic. */
  datatype Failure =
    | RelativeBeforeAbsolute  // a relative point before any absolute one (get_rect)
    | NoUppercaseGlyph        // no glyph for any of 'A'..='Z' (`rect.unwrap()` in main)
    | EmptyReference          // the reference box took in no point at all
}
