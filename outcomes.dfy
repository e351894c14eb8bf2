/** Optional values, results, and the Python exceptions the core can raise,
    with the text `str(e)` gives for each. */
module Outcomes {

  datatype Option<T> = None | Some(value: T)

  /** A value, or the exception that interrupted its computation. */
  datatype Result<T> = Ok(value: T) | Err(error: Exception)

  /** The exceptions raised inside the core: by `list.index`, by list
      indexing, and by `open` on a path that is a directory or is missing. */
  datatype Exception =
    | ValueError(message: string)
    | IndexError(message: string)
    | IsADirectoryError(path: string)
    | FileNotFoundError(path: string)

  /** `str(e)` for each exception, as CPython renders it. */
  function Str(e: Exception): string
  {
    match e
    case ValueError(m) => m
    case IndexError(m) => m
    case IsADirectoryError(p) => "[Errno 21] Is a directory: '" + p + "'"
    case FileNotFoundError(p) => "[Errno 2] No such file or directory: '" + p + "'"
  }
}
