/** Failure values shared by the walks over the image.
    The C# code lets `List<byte>.GetRange` and `RemoveRange` throw when a read
    or an edit runs past the end of the buffer, and recurses without bound into
    directories; here both become explicit failures. */
module Outcomes {

  datatype Fault =
    | OutOfRange   // a read or an edit runs past the end of the image buffer
    | TooDeep      // the directory hierarchy is deeper than the fuel given to the walk
    | EmptyName    // the requested file name is empty (the C# code indexes oldName[0])
    | FileNotFound // the requested file is not in the directory tree
    | BadCast      // a cast the runtime refuses (the array cast in `ChangeEndian` as written)

  datatype Result<+T> = Ok(value: T) | Err(fault: Fault) {
    predicate IsFailure() { Err? }

    function PropagateFailure<U>(): Result<U>
      requires Err?
    {
      Err(fault)
    }

    function Extract(): T
      requires Ok?
    {
      value
    }
  }
}
