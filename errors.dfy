/** Error kinds and result wrappers shared by the disk and filesystem layers.
    Each constructor of Error stands for the .NET exception the source throws. */
module Errors {

  datatype Error =
    | ArgumentNull      // ArgumentNullException: a required path is null or empty
    | FileNotFound      // FileNotFoundException
    | AlreadyExists     // IOException whose message says the target already exists
    | IOFailure         // any other IOException (engine status, failed scan, failed mount, ...)
    | ObjectDisposed    // ObjectDisposedException
    | NullDereference   // a null handle dereferenced (managed or native fault)

  datatype Result<T> = Ok(value: T) | Err(error: Error)

  datatype Outcome = Pass | Fail(error: Error)

  datatype Option<T> = None | Some(value: T)
}
