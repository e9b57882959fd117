/** The Option and Result wrappers and the error values the Go code returns. */
module Wrappers {

  datatype Option<+T> = None | Some(value: T)

  /** A Go `(value, error)` pair where exactly one half is meaningful. */
  datatype Result<+T> = Success(value: T) | Failure(error: Error)

  /** The errors that the modelled Go functions create or wrap. */
  datatype Error =
    | ChunkError(expected: int, found: int)   // internal.ChunkLine: too few items
    | AddrError(address: string, reason: string) // net.SplitHostPort
    | InvalidIP(host: string)                 // internal.ParseNetAddr
    | NumError(input: string, reason: string) // strconv.Atoi
    | PidError(cause: Error)                  // "error parsing pid: %w"
    | AddressesError(cause: Error)            // netstat: "unable to parse addresses: %w"
    | HeaderError(cause: Error)               // tasklist: "unexpected header format: %w"
    | ChunkReadError(cause: Error)            // tasklist: "unable to read tasklist chunk: %w"
    | ImageMissing                            // tasklist: "couldn't decode image from line"
    | PidMissing                              // tasklist: "couldn't decode pid from line"
    | LineFormat(found: int)                  // lookup decoder: "unrecognised open file line"
    | FilterError(pattern: string)            // onf.Filter: the pivot does not compile
    | RegexError(pattern: string)             // lookup: the selector does not compile
    | EOF                                     // io.EOF
    | ReadFailure(reason: string)             // any other read error of an io.Reader
    | ShortWrite                              // io.Writer accepted fewer bytes than given
    | WriteFailure                            // the csv.Writer's underlying writer failed
    | Unsupported(message: string)            // encoder.ValidateType: an unknown encoding
    | Panic(reason: string)                   // a Go runtime panic that ends the run
}
