/** Small failure-carrying datatypes shared by every module of the model. */
module Wrappers {

  datatype Option<+T> = None | Some(value: T)

  /** Why a compilation aborted: the JavaScript source throws in each of these cases. */
  datatype ParseError =
    | UnmatchedBrace     // findBlockEnd ran out of lines
    | MalformedQuestion  // a `Q:` line that the question regex does not match (null match)
    | CodeThrew          // a code block whose evaluation threw

  datatype Result<+T> = Ok(value: T) | Err(error: ParseError)
}
