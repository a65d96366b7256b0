/** The ways in which reading JSON goes wrong. */
module JsonErrors {

  /** Every way the reader reports or throws an error. */
  datatype ReaderError =
    | EmptyEscapeSequence
    | BadEscapeSequence
    | FourDigitsExpected
    | HexDigitExpected
    | SixCharactersExpected
    | SecondSurrogateExpected
    | NotANumber
    | MissingColon
    | DuplicateKey
    | MissingCommaInObject
    | MissingMemberName
    | MissingCommaInArray
    | NegativeArrayIndex
    | ValueExpected
    | ExtraAfterValue
    | RootNotStructured
    | StackLimitExceeded
    | KeyTooLong
    | StringTooLong

  datatype Result<+T> = Ok(value: T) | Err(error: ReaderError)
}
