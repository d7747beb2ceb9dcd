/** Outcomes of the operations that can raise in the editor script. */
module Errors {

  /** The two exceptions the modelled code raises on its own inputs. */
  datatype Error =
    | TypeError(message: string)          // searchAndReplace on a root that is not a container
    | NotADirectoryError(path: string)    // os.listdir on a path that names a file

  datatype Result<+T> = Ok(value: T) | Err(error: Error)
}
