/** The exceptions the library raises, and the host exceptions its code can run into.
    In the library ChecksumMismatch and UnexpectedEOF are subclasses of InvalidArchive,
    and all three, with SeekNotSupported, are Tar::Error. */
module Errors {

  datatype Error =
    | InvalidArchive                                 // a lone empty header record
    | ChecksumMismatch(expected: int, actual: int)   // stored vs computed header checksum
    | UnexpectedEOF(got: nat)                         // a record read came back short
    | SeekNotSupported                                // seek on a stream that cannot seek
    | IOError                                         // "closed stream"
    | EOFError                                        // "end of file reached"
    | ArgumentError                                   // bad argument count, seek mode, ...
    | InvalidSeek                                     // Errno::EINVAL: seek before offset 0
    | IllegalSeek                                     // Errno::ESPIPE: seek on a pipe
    | NoMethodError                                   // a method called on nil
    | IndexError                                      // string index out of range
    | KeyError                                        // unknown schema field
    | TypeError                                       // no implicit conversion
    | EncodingCompatibilityError                      // Encoding::CompatibilityError

  /** `rescue Tar::InvalidArchive` catches exactly these. */
  predicate IsInvalidArchive(e: Error) {
    e.InvalidArchive? || e.ChecksumMismatch? || e.UnexpectedEOF?
  }

  /** `rescue Tar::Error` catches exactly these. */
  predicate IsTarError(e: Error) {
    IsInvalidArchive(e) || e.SeekNotSupported?
  }
}
