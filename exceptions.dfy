/** The Java exceptions the modelled code raises or lets through, as values. */
module Exceptions {

  /** Causes of a checked `IOException`. */
  datatype IoError =
    | NoSuchFile(path: string)     // creation under a parent that is not a directory
    | AlreadyExists(path: string)  // a copy onto a path that already exists
    | StreamUnavailable            // the stream provider could not open the stream
    | ReadFailed                   // draining the stream into the staged file failed

  datatype Exception =
    | IllegalArgument(message: string)
    | NullPointer                  // a dereference of a `null` field or property
    | UnsupportedOperation(message: string)
    | Wrapped(cause: IoError)      // `new RuntimeException(ioException)`
    | DecoderFailure               // the external SPSS decoder threw
    | NoSuchElement                // `Optional.get()` on an empty stream
    | NoSuchValueTable(name: string)  // the decoder's datasource has no table of that name
}
