/** Three-way result of matching a date and time against an interval. */
module DateTimeMatches {

  datatype DateTimeMatch = Ok | TimeNotMatched | DateNotMatched

  /** `Into<bool>`: only a full match counts as a match. */
  predicate ToBool(m: DateTimeMatch) {
    m == Ok
  }
}
