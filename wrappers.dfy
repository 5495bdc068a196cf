/** Option and Result, the two outcome shapes the models return instead of a pointer or an exception. */
module Wrappers {

  /** nullptr / end() versus a found element. */
  datatype Option<+T> = None | Some(value: T)

  /** A normal return versus a thrown exception carrying its message. */
  datatype Result<+T> = Ok(value: T) | Err(message: string)
}
