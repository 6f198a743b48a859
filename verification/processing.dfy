/** The processing gate: reject an empty or invalid batch, bulk-insert a valid one. */
module Processing {
  import opened Wrappers
  import opened Transactions
  import opened Validation

  /** What processing can raise. */
  datatype Failure =
    | NoTransactions             // ValidationException("No transactions to process."), carrying no errors
    | InvalidBatch(errors: seq<Issue>)   // ValidationException carrying the validator's errors
    | SinkFailure                // the bulk insert raised

  const NoTransactionsMessage := "No transactions to process."

  /** Both rejections are validation exceptions; a sink failure is not. */
  predicate IsValidationException(f: Failure)
  {
    f.NoTransactions? || f.InvalidBatch?
  }

  /** The errors a validation exception carries. */
  function Errors(f: Failure): seq<Issue>
  {
    if f.InvalidBatch? then f.errors else []
  }

  /** One run of the gate: the batches handed to the bulk insert, and how the run ended. */
  datatype Processed = Processed(inserts: seq<seq<Transaction>>, outcome: Result<(), Failure>)

  /**
   * `ProcessTransactionsAsync`: an empty batch and an invalid batch are rejected before
   * the sink is touched; a valid batch is inserted once, whole. `insertFails` says
   * whether the sink raises.
   */
  function ProcessTransactions(ts: seq<Transaction>, now: Ticks, insertFails: bool): (r: Processed)
    ensures r.outcome.Success? <==> |ts| > 0 && ValidateBatch(ts, now) == [] && !insertFails
    ensures r.inserts == (if |ts| > 0 && ValidateBatch(ts, now) == [] then [ts] else [])
    ensures |ts| == 0 ==> r.outcome == Failure(NoTransactions)
    ensures |ts| > 0 && ValidateBatch(ts, now) != [] ==>
      r.outcome == Failure(InvalidBatch(ValidateBatch(ts, now)))
    ensures |ts| > 0 && ValidateBatch(ts, now) == [] && insertFails ==> r.outcome == Failure(SinkFailure)
  {
    if |ts| == 0 then Processed([], Failure(NoTransactions))
    else
      var issues := ValidateBatch(ts, now);
      if issues != [] then Processed([], Failure(InvalidBatch(issues)))
      else if insertFails then Processed([ts], Failure(SinkFailure))
      else Processed([ts], Success(()))
  }

  /** The gate lets a batch through exactly when it is non-empty, every record is well formed and the sink accepts it. */
  lemma ProcessAcceptsIff(ts: seq<Transaction>, now: Ticks, insertFails: bool)
    ensures ProcessTransactions(ts, now, insertFails).outcome.Success? <==>
      |ts| > 0 && (forall i :: 0 <= i < |ts| ==> WellFormed(ts[i], now)) && !insertFails
    ensures ProcessTransactions(ts, now, insertFails).inserts == [ts] <==>
      |ts| > 0 && forall i :: 0 <= i < |ts| ==> WellFormed(ts[i], now)
  {
    BatchValidIff(ts, now);
  }
}
