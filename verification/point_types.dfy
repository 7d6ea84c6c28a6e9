/** The values the point ledger passes around: a user's balance row, one
    history entry, the two kinds of transaction and the two ways a charge or a
    use can be refused. */
module PointTypes {

  /** The kind of a history entry: a credit or a debit. */
  datatype TransactionType = Charge | Use

  /** One balance row: the user, the points held and the store's timestamp of
      the last write. The timestamp is an opaque value chosen by the store. */
  datatype UserPoint = UserPoint(id: int, point: int, updateMillis: int)

  /** One entry of the history log. A charge is logged with its amount, a use
      with the negated amount. */
  datatype PointHistory = PointHistory(userId: int, amount: int, kind: TransactionType, updateMillis: int)

  /** Refusals: a negative amount (the source's IllegalArgumentException) and a
      debit larger than the balance (its IllegalStateException). */
  datatype PointError = InvalidAmount | InsufficientBalance

  /** The outcome of a charge or a use, in place of a thrown exception. */
  datatype Result<+T> = Ok(value: T) | Err(error: PointError)

  /** A logged amount has the sign its kind promises. */
  predicate WellSigned(e: PointHistory)
  {
    match e.kind
    case Charge => e.amount >= 0
    case Use => e.amount <= 0
  }
}
