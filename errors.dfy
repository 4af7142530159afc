/**
 * Error kinds of the DFU file parser and the result type every parsing
 * stage returns.
 *
 * The crate has two error enums, one for the standard DFU layer (the file
 * suffix) and one for the DfuSe extension, and both reach the caller wrapped
 * in an `anyhow::Error`, next to the I/O errors of the file system.
 */
module Errors {

  /** Errors of the standard DFU layer (src/lib.rs). */
  datatype DfuError =
    | InvalidSuffixSignature   // the suffix signature is not "UFD"
    | InsufficientFileSize     // the file is smaller than the suffix

  /** Errors of the DfuSe extension (src/dfuse.rs). */
  datatype DfuseError =
    | InvalidPrefixSignature        // the file prefix signature is not "DfuSe"
    | InvalidTargetPrefixSignature  // a target prefix signature is not "Target"
    | InsufficientFileSize          // the file is smaller than prefix + suffix

  /**
   * What a failing operation reports: one of the two parser error kinds, or
   * an I/O failure (a read past the end of the file, a seek before its start).
   */
  datatype Error =
    | Dfu(dfu: DfuError)
    | Dfuse(dfuse: DfuseError)
    | Io

  /** The crate's `anyhow::Result`; `:-` plays the part of Rust's `?`. */
  datatype Result<+T> = Ok(value: T) | Err(error: Error) {

    predicate IsFailure() {
      Err?
    }

    /** Only called on an `Err` (`:-` tests IsFailure first); the `Ok` case
        gives an arbitrary error so that no caller has to prove the test. */
    function PropagateFailure<U>(): Result<U> {
      match this
      case Err(e) => Err(e)
      case Ok(_) => Err(Io)
    }

    function Extract(): T
      requires Ok?
    {
      value
    }
  }

  /** The outcome of a parsing step that threads a file cursor: the step's
      result and the cursor value it leaves behind, on success or failure. */
  datatype Parsed<+T> = Parsed(result: Result<T>, pos: nat)
}
