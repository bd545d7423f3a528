/** Option and Result values shared by the other modules. `Result` stands for
    `anyhow::Result`: a failure carries only the error's message. */
module Wrappers {

  datatype Option<+T> = None | Some(value: T)

  datatype Result<+T> = Success(value: T) | Failure(error: string)
}
