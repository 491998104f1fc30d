/** Option, Result and the ways a run of one of the tools can end early. */
module Wrappers {

  datatype Option<+T> = None | Some(value: T)

  datatype Result<+T, +E> = Success(value: T) | Failure(error: E)

  /** Why a run stops: the Python exception that escapes, or the explicit exit. */
  datatype Fault =
    | IndexError          // a list index past the end (a missing field)
    | ValueError          // int() of a string that is not a number, or a bad unpacking
    | KeyError            // a dictionary lookup of an absent key
    | FileNotFound        // open() of a name that does not exist
    | BadMismatchCount    // find_adapter's "Only 0 or 1 mismatches" exit
}
