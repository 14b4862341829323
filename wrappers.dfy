/** Failure-carrying wrappers used throughout the model.
    Option stands in for the IEEE NaN sentinel values the program stores or returns;
    Result stands in for the program's fatal exits (a message printed, then exit). */
module Wrappers {

  datatype Option<+T> = None | Some(value: T)

  datatype Result<+T> = Ok(value: T) | Fail(msg: string)
}
