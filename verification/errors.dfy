/** The exceptions the reader raises, one constructor per distinct failure. */
module ReadErrors {
  import opened SyntaxElement

  datatype ReadError =
    | ReadingDisallowed                          // *read-eval* bound to :unknown
    | EofWhileReading
    | EofWhileReadingString
    | EofWhileReadingRegex
    | EofWhileReadingCharacter
    | InvalidUnicodeEscape
    | InvalidDigit(c: char)
    | InvalidCharacterLength(got: int, expected: int)
    | OctalOutOfRange
    | UnsupportedEscape(c: char)
    | SurrogateInString                          // see README: not representable as a Dafny char
    | InvalidUnicodeCharacter(token: string)
    | InvalidCharacterConstant
    | InvalidOctalLength(length: int)
    | UnsupportedCharacter(token: string)
    | InvalidNumber(number: string)              // matchNumber returned null
    | NumberFormat(number: string)               // BigInteger refused the radix or a digit
    | DivideByZero
    | InvalidToken(token: string)
    | UnmatchedDelimiter(delimiter: char)
    | UnreadableForm
    | NoDispatchMacro(dispatch: char)
    | DispatchIndexOutOfRange(dispatch: char)    // a dispatch character beyond the 256-entry table
    | BadMetadata                                // metadata not a symbol, keyword, string or map
    | MetadataTarget                             // metadata applied to a value that cannot carry it
    | NestedFnLiteral
    | SpliceNotInList
    | EvalNotAllowed
    | ConditionalNotAllowed
    | ReadCondBodyNotList
    | OddConditionalForms
    | ConditionNotKeyword
    | ReservedFeature(feature: Symbol)
    | SplicedNotList
    | MapOddForms
    | TagNotSymbol
    | NoReaderFunction(tag: Symbol)              // no data reader and no default reader for a tag
    | RecordNotAllowed                           // record syntax while *read-eval* is false
    | ClassNotFound(record: Symbol)
    | UnreadableConstructor(record: Symbol)      // record form neither a map nor a vector
    | RecordKeyNotKeyword                        // a record map with a key that is not a keyword
    | Collaborator(message: string)              // raised by a data reader or record constructor
}
