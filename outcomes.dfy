/**
 How operations of the store report failure. Each error stands for an
 exception the Python code raises; an operation that raises part-way
 leaves the changes it made before that point in place.
 */
module Outcomes {

  datatype Option<T> = None | Some(value: T)

  datatype Error =
    /** `IOError('File "%s" not found!')`: a file asked to exist does not. */
    | FileNotFound(path: string)
    /** `IOError('File "%s" already exists!')`: `save` refused to overwrite. */
    | FileExists(path: string)
    /** `ValueError` from unpacking `split(SEPARATOR, 1)`: a line without a separator. */
    | MalformedLine(line: string)
    /** `TypeError` from `sorted(None)`: a native-direction query on an absent key. */
    | NoListForKey(key: string)

  /** Result of an operation that either completes or raises. */
  datatype Outcome = Pass | Fail(error: Error)

  /** Result of an operation that either returns a value or raises. */
  datatype Result<T> = Ok(value: T) | Err(error: Error)
}
