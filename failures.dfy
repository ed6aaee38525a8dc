/** The exceptions the trainer's string handling can raise, and the result
    type that carries either a value or one of them. */
module Failures {

  datatype Error =
    | IndexOutOfRange           // IndexError from indexing a list that is too short
    | SchemeNotGs               // ValueError("URI scheme must be gs")
    | NotBqUri                  // Exception("uri is not a BQ uri. ...")
    | WrongPartCount(found: nat) // ValueError from unpacking a split into three names

  datatype Result<+T> = Ok(value: T) | Err(error: Error)
}
