/** The transaction record the pipeline loads, validates, repairs and stores. */
module Transactions {
  import opened Guids
  import opened Decimals

  /** A DateTime as its tick count; `default(DateTime)` has zero ticks. */
  type Ticks = nat

  const DefaultDate: Ticks := 0

  /**
   * One row of the source file. `transactionId` is the identity the entity
   * base class supplies; the other six fields are the record's own properties.
   */
  datatype Transaction = Transaction(
    transactionId: Guid,
    userId: Guid,
    date: Ticks,
    amount: Decimal,
    category: string,
    description: string,
    merchant: string)
}
