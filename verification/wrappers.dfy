/** Failure-compatible wrappers shared by every module of the PAK model. */
module Wrappers {

  datatype Option<+T> = None | Some(value: T) {
    predicate IsFailure() {
      None?
    }

    function PropagateFailure<U>(): Option<U>
      requires None?
    {
      None
    }

    function Extract(): T
      requires Some?
    {
      value
    }
  }

  /** The error kinds the decoder, the encoder and the escape decoder raise. */
  datatype Error =
    | HeaderTooShort        // fewer than 16 bytes
    | BadMagic              // first four bytes are not "PAK\0"
    | NoValidExtHeader      // no header-offset candidate qualified
    | IndexEntryTruncated   // fewer than 52 bytes left at an entry start
    | NameUnterminated      // no zero byte after the fixed entry header
    | IndexInflateFailed    // the index blob did not inflate
    | IndexSizeMismatch     // the inflated index has the wrong length
    | RangeError            // a file slice runs past the end of the container
    | InflateFailed         // a file payload did not inflate
    | SizeMismatch          // an inflated payload has the wrong length
    | SourceNotFound        // encode-time input file is missing
    | ByteOutOfRange        // a decimal escape names a value above 255

  datatype Result<+R> = Success(value: R) | Failure(error: Error) {
    predicate IsFailure() {
      Failure?
    }

    function PropagateFailure<U>(): Result<U>
      requires Failure?
    {
      Failure(error)
    }

    function Extract(): R
      requires Success?
    {
      value
    }
  }

  function Need(condition: bool, error: Error): (r: Result<()>)
    ensures r.Success? <==> condition
  {
    if condition then Success(()) else Failure(error)
  }
}
