/** The failures a parse can end in. CsvParsingException carries a message, the
    raw line and its line number; here the message is the error kind. */
module CsvErrors {

  datatype ErrorKind =
    | UnterminatedEmbedded                              // "Unterminated embedded quote"
    | UnterminatedQuoted                                // "Unterminated quoted entry"
    | CountMismatch(entries: nat, headerCount: nat)     // "Row has N entries, but header has M"
    | FailedToRead                                      // "Failed to read"

  datatype CsvParsingException = CsvParsingException(kind: ErrorKind, line: string, lineNum: int)

  /** What can escape from a call to parse: a CsvParsingException, or the
      NullPointerException raised when there is no header line. */
  datatype Thrown = Parsing(exception: CsvParsingException) | NullPointer
}
