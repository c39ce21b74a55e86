/**
 * The error values the table builder returns, by kind. Messages and stack
 * traces are dropped; what remains is which sentinel errors of
 * pkg/errors/errors.go an error wraps, as `errors.Is` sees them.
 */
module KAnonymityErrors {
  /** The three sentinel errors declared by the package. */
  datatype Sentinel = ErrNilHashFactory | ErrBadPrefixLength | ErrTooLargePrefix

  datatype Error =
    /** The hash factory is nil. */
    | NilHashFactory
    /** A non-positive prefix length, with the length that was asked for. */
    | BadPrefixLength(prefixLength: int)
    /** A prefix longer than a digest; it wraps both length sentinels. */
    | TooLargePrefix(prefixLength: int)
    /** "generate hash: ..." around the error of the digest generator. */
    | HashFailed(cause: Error)
    /** "scanner: ..." around an I/O error of the input stream. */
    | ScannerFailed
    /** "errgroup wait: ..." around the first error of a per-line unit of work. */
    | WaitFailed(cause: Error)

  /** Whether `e` wraps sentinel `s` anywhere in its chain (Go's `errors.Is`). */
  predicate Is(e: Error, s: Sentinel) {
    match e
    case NilHashFactory => s == ErrNilHashFactory
    case BadPrefixLength(_) => s == ErrBadPrefixLength
    case TooLargePrefix(_) => s == ErrBadPrefixLength || s == ErrTooLargePrefix
    case HashFailed(cause) => Is(cause, s)
    case ScannerFailed => false
    case WaitFailed(cause) => Is(cause, s)
  }
}
