/** Option and Result, and the error kinds the configuration engine raises. */
module Wrappers {

  datatype Option<+T> = None | Some(value: T)

  datatype Result<+R, +E> = Success(value: R) | Failure(error: E)

  /** Which registry an UnsupportedExtensionException comes from. */
  datatype Kind = ParseKind | DumpKind

  /**
   * The exceptions of the engine, each with the payload it is raised with:
   * FileNotFoundException carries the path, UnsupportedExtensionException the
   * extension, and a failing adapter its class and its own message.
   */
  datatype Error =
    | FileNotFound(path: string)
    | UnsupportedExtension(kind: Kind, ext: string)
    | AdapterFailure(adapter: string, message: string)
}
