/** The exceptions the archive reader throws, as values. Messages are the
    ones the Java code passes to the exception constructors. */
module Exceptions {

  datatype Exception =
    | IOException(message: string)
    | IllegalArgumentException(message: string)
    | UnsupportedOptionsException(message: string)
    | NullPointerException
    | NegativeArraySizeException
    | IndexOutOfBoundsException
      /** Stands for a skip loop that would spin forever because the stream
          it skips over has no bytes left (see Util.SkipFully). */
    | StreamExhausted

  const READ_FAILED: string := "Failed to read from stream."
  const INVALID_ZIM: string := "Invalid ZIM file."
  const TOO_MANY_BLOBS: string := "Blob number greater than total blobs."
  const TOO_MANY_REDIRECTS: string := "Too many redirects."
  const NO_MAIN_PAGE: string := "The ZIM file does not contain a main page."
  const UNSUPPORTED_LZMA2: string := "Unsupported LZMA2 properties"
  /** FileChannel.position and Random.nextInt reject their argument with an
      IllegalArgumentException; the message is not part of the model. */
  const BAD_ARGUMENT: string := ""
}
