/** The callback convention of the driver, `cb(err, value)`, as values: an
    operation either yields a value or an error, never both. */
module Outcomes {

  datatype Option<+T> = None | Some(value: T)

  /** What a Node-style callback receives: `cb(null, value)` or `cb(err)`. */
  datatype Result<+T> = Ok(value: T) | Err(error: Error)

  /** The errors that can reach a callback of the driver. */
  datatype Error =
    | StatError(code: string, path: string)  // fs.stat failed on `path` (ENOENT, EACCES, ...)
    | Reported(message: string)              // the glob walk or the lint engine reported an error
}
