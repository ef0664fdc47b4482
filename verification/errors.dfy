/**
 Results and errors. The linter distinguishes positioned validation
 findings (`ValidationError`) from configuration errors (those wrapping
 `ErrConfiguration`) and from every other error it returns.
 */
module Errors {

  datatype Option<T> = None | Some(value: T)

  /** What a validation finding says, without its human-readable text. */
  datatype Message =
    | EolMismatch(expected: string)
    | IndentStyleMismatch(style: string)
    | IndentSizeMismatch(size: int, got: int)
    | FinalNewlineMissing
    | ExtraneousFinalNewline
    | TrailingWhitespace
    | BlockCommentPrefixExpected
    | LineTooLong(length: int, maxLength: int)
    | BomPrefixMissing(charset: string, found: string)
    | CharsetMismatch(detected: string, expected: string)

  /**
   A positioned finding. `position` is a byte offset into `line`,
   `index` the zero-based line number.
   */
  datatype ValidationError = ValidationError(
    message: Message,
    filename: string,
    line: seq<bv8>,
    index: int,
    position: int)

  /** Why a configuration or other non-positioned error was raised. */
  datatype Problem =
    | InvalidEndOfLine(value: string)
    | InvalidIndentStyle(value: string)
    | InvalidIndentSize(size: int)
    | NotAnInteger(key: string, value: string)
    | BlockCommentEndMissing
    | InvalidMaxLineLength(value: string)
    | CannotOverride(key: string)
    | UnsupportedCharset(charset: string)
    | DetectorFailure
    | EolUnavailable
    | NegativeRepeatCount(count: int)

  datatype Error =
    | Validation(ve: ValidationError)
      /** An error wrapping `ErrConfiguration`. */
    | Configuration(problem: Problem)
      /** Any other returned error. */
    | Plain(problem: Problem)
      /** A Go runtime panic. */
    | Panic(problem: Problem)

  /** A check's verdict: Go's `nil` error or the returned error. */
  datatype Outcome = Pass | Fail(error: Error)

  datatype Result<T> = Ok(value: T) | Err(error: Error)

  /** A fresh `ValidationError{Message: m, Position: p}`, not yet enriched. */
  function Invalid(m: Message, p: int): Error {
    Validation(ValidationError(m, "", [], 0, p))
  }

  /** True when `o` failed with a validation finding at position `p`. */
  predicate FailsAt(o: Outcome, p: int) {
    o.Fail? && o.error.Validation? && o.error.ve.position == p
  }
}
