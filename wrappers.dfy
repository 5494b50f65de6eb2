/** Option and Result values, standing for the null references and thrown
    exceptions of the modelled C# code. */
module Wrappers {

  datatype Option<+T> = None | Some(value: T)

  datatype Result<+R, +E> = Success(value: R) | Failure(error: E)
}
