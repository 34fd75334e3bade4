/** Reasons the canonicalizer refuses an input. */
module JsonError {
  datatype JsonError =
    | Rejected(reason: string)
    | DuplicateKey(key: string)
    | NotANumber
    | InfiniteNumber
    | Overflow(lexeme: string)
}
