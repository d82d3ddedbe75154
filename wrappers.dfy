/** Optional values and the build's failure results. */
module Wrappers {

  datatype Option<+T> = None | Some(value: T)

  /** The failures the build scripts raise (each one aborts the whole build). */
  datatype BuildError =
    | RangeError           // `'00'.repeat(k)` with a negative count
    | RuntimeTooLong       // a section body longer than the section length
    | RuntimeLengthsDiffer // the two runtime variants differ in byte length
    | EmptySeparator       // Python `str.split('')` raises ValueError

  datatype Result<+T> = Ok(value: T) | Err(error: BuildError)
}
