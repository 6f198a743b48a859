# Financial Analytics Processor — a Dafny model of its ingestion core

This project models the validate, repair and retry pipeline of the Financial Analytics
Processor. It also models the analysis over the stored records and the schedule
expression of the recurring job.

- **Transactions** (`transactions.dfy`): one record has an id, a user id, a date, an
  amount, a category, a description and a merchant. Dates are tick counts. Amounts are
  decimals, written as a mantissa and a scale (`decimals.dfy`). Guids are 32
  hexadecimal digits, printed in the "D" format and read back by `Guid.TryParse`
  (`guids.dfy`).
- **Validation** (`validation.dfy`): the record validator runs twelve checks over seven
  fields. `now` is the instant the validator was built. Every failing check is reported,
  once, in declaration order. Only the two description checks embed the record id, as
  `Transaction ID: |<id>|`. The batch validator concatenates the record issues in batch
  order.
- **Repair** (`repair.dfy`): the point repair of the source file is a pure rewrite of the
  record sequence. It fails when no row carries the id. Otherwise every row carrying the
  id becomes the first such row with the new description.
- **Processing** (`processing.dfy`): the gate rejects an empty batch and an invalid batch.
  It hands a valid batch to the bulk insert once, whole.
- **Retry** (`retry.dfy`): the retry policy allows three retries, waiting 2, 4 and 8
  seconds. Before each retry the callback scans the validation errors in order. It cuts
  the text between the first and the last bar of each tagged message and parses it as a
  Guid. Then it repairs that record and stops after the first repair that succeeds. A
  run is a bounded recursive state machine. It returns a trace: how it ended, the final
  file, the number of executions, the waits, the inserted batches and the repaired ids.
- **Analysis** (`analysis.dfy`) has three parts:
  - the per-user income and expense totals, in first-seen order;
  - the three most frequent categories, under a stable sort by descending count;
  - the user whose amounts sum lowest, the first-seen one on a tie.
- **Cron** (`cron.dfy`): the job's cron expression steps the minute field by the whole
  minutes of the configured interval. It falls back to every minute below one minute.

Several parts of the outside world are parameters rather than effects:

- the clock: `now`;
- whether the execution context carries the file path the callback looks up: `pathInContext`;
- the bulk insert raising: `insertFails` for each execution;
- the file system refusing the rewrite: `writeFails` for each retry.

The retry model assumes that each execution re-reads the source file, so it sees the
file as the last repair left it. `retry.dfy` gathers these into an `Env`.

Behaviour of the code worth noting:

- **Unrecognised failures are retried, not aborted.** The policy handles every exception
  type (`PollyPolicy.cs:14-16`). So when the callback finds the file path in its context,
  an empty batch, an invalid batch with nothing to repair, and a failed bulk insert are
  all retried until the retries run out.
  `Retry.RunNeverAborts`, `Retry.EmptyBatchExhausts` and `Retry.SinkFailureRetried`
  state this.
- **The callback needs the file path in its execution context.** Its first step reads
  `context["csvFilePath"]` (`PollyPolicy.cs:26`), and a missing key raises, which ends
  the run at its first failure. The program entry point registers the policy
  (`Program.cs:72-78`), but no execution in the program fills that key.
  `Retry.MissingPathAborts` states what a run does without it.
- **The repair does not swap files atomically.** It deletes the original file and then
  moves the temporary file into its place.
- **The highest spender is the user with the lowest net sum.** With one user at +100 and
  -40 and another at +10, the code picks the +10 user, because it orders users by
  ascending net sum (`Analysis.TwoUserSpender`).

## Model

| member | source | states |
|---|---|---|
| Strings.IndexOf | FinancialAnalyticsProcessor/FaultResiliencePolicies/PollyPolicy.cs:37 | the first bar of a message: absent exactly when the message has no bar, otherwise a bar with none before it |
| Strings.LastIndexOf | FinancialAnalyticsProcessor/FaultResiliencePolicies/PollyPolicy.cs:38 | the last bar of a message: absent exactly when the message has no bar, otherwise a bar with none after it |
| Strings.ParseNatToString | FinancialAnalyticsProcessor/Program.cs:108 | the printed minute step reads back as the same number |
| Guids.FormatGuid | FinancialAnalyticsProcessor.Domain/Validations/TransactionValidator.cs:30-32 | the id printed into a description message has 36 characters and no bar |
| Guids.ParseFormatGuid | FinancialAnalyticsProcessor/FaultResiliencePolicies/PollyPolicy.cs:41 | `Guid.TryParse` of a printed Guid returns that Guid |
| Guids.FormatGuidInjective | FinancialAnalyticsProcessor.Domain/Validations/TransactionValidator.cs:30-32 | distinct ids print differently |
| Decimals.ValueSign | FinancialAnalyticsProcessor.Application/Services/TransactionProcessor.cs:79-80 | an amount is positive, negative or zero exactly when its mantissa is |
| Decimals.PrecisionIgnoresTrailingZero | FinancialAnalyticsProcessor.Domain/Validations/TransactionValidator.cs:22 | a trailing zero never changes whether an amount passes the rule of at most 2 decimal places and 16 integer digits |
| Decimals.CentsAccepted | FinancialAnalyticsProcessor.Domain/Validations/TransactionValidator.cs:22 | every whole-cent amount below 10^18 cents passes the precision rule |
| Decimals.ThirdDecimalRejected | FinancialAnalyticsProcessor.Domain/Validations/TransactionValidator.cs:22 | a significant third decimal place fails the precision rule |
| Decimals.PrecisionScaleIff | FinancialAnalyticsProcessor.Domain/Validations/TransactionValidator.cs:22 | an amount passes the precision rule exactly when, trailing zeros dropped, it has at most 2 decimal places and its unscaled magnitude is below 10^(16 + scale) |
| Decimals.SeventeenDigitsRejected | FinancialAnalyticsProcessor.Domain/Validations/TransactionValidator.cs:22 | a whole amount of 17 digits or more fails the precision rule, which leaves 18 - 2 = 16 digits before the point |
| Validation.FailedRules | FinancialAnalyticsProcessor.Domain/Validations/TransactionValidator.cs:10-37 | the failed checks come in declaration order, each once, and each is violated by the record |
| Validation.FailedRulesIff | FinancialAnalyticsProcessor.Domain/Validations/TransactionValidator.cs:10-37 | a check is listed exactly when the record violates it: no check stops the others |
| Validation.ValidateRecord | FinancialAnalyticsProcessor.Domain/Validations/TransactionValidator.cs:10-37 | every issue of a record names that record |
| Validation.IssueReported | FinancialAnalyticsProcessor.Domain/Validations/TransactionValidator.cs:10-37 | an issue for a check appears, tagged with the record id, exactly when the check fails |
| Validation.MessageShape | FinancialAnalyticsProcessor.Domain/Validations/TransactionValidator.cs:10-37 | each check's message has a length fixed by the check alone, whatever record id it carries |
| Validation.MessageDeterminesRule | FinancialAnalyticsProcessor.Domain/Validations/TransactionValidator.cs:10-37 | two equal messages come from the same check, whatever the ids |
| Validation.MessageReported | FinancialAnalyticsProcessor.Domain/Validations/TransactionValidator.cs:10-37 | a record reports a check's message exactly when the check fails |
| Validation.RecordIssuesOrdered | FinancialAnalyticsProcessor.Domain/Validations/TransactionValidator.cs:10-37 | every reported check fails, and the reported checks are in strictly ascending declaration order |
| Validation.RecordValidIff | FinancialAnalyticsProcessor.Domain/Validations/TransactionValidator.cs:10-37 | a record has no issue exactly when it satisfies every field rule |
| Validation.FutureDateReported | FinancialAnalyticsProcessor.Domain/Validations/TransactionValidator.cs:16-18 | "Date cannot be in the future." is reported exactly when the date is after `now`, so not for `now` itself |
| Validation.ZeroAmountReported | FinancialAnalyticsProcessor.Domain/Validations/TransactionValidator.cs:20-21 | "Amount is required." is reported exactly when the amount is zero |
| Validation.BlankDescriptionReported | FinancialAnalyticsProcessor.Domain/Validations/TransactionValidator.cs:28-30 | the empty-description message with the id between bars is reported exactly when the description is blank |
| Validation.LongDescriptionReported | FinancialAnalyticsProcessor.Domain/Validations/TransactionValidator.cs:31-32 | the too-long message with the id between bars is reported exactly when the description exceeds 255 characters |
| Validation.NoBarOutsideDescription | FinancialAnalyticsProcessor.Domain/Validations/TransactionValidator.cs:10-37 | no message of a non-description check contains a bar |
| Validation.OnlyDescriptionCarriesId | FinancialAnalyticsProcessor.Domain/Validations/TransactionValidator.cs:28-32 | a message contains a bar, and the id tag, exactly when it comes from a description check |
| Validation.BatchSingle | FinancialAnalyticsProcessor.Domain/Validations/TransactionListValidator.cs:10-11 | a one-record batch has that record's issues |
| Validation.BatchValidIff | FinancialAnalyticsProcessor.Domain/Validations/TransactionListValidator.cs:10-11 | a batch has no issue exactly when every record is well formed; an empty batch has none |
| Validation.BatchConcat | FinancialAnalyticsProcessor.Domain/Validations/TransactionListValidator.cs:10-11 | validating two batches back to back lists the first batch's issues first |
| Validation.BatchOrder | FinancialAnalyticsProcessor.Domain/Validations/TransactionListValidator.cs:10-11 | the batch issues are those of the records before i, then record i's, then those after it |
| Validation.BatchIssueCount | FinancialAnalyticsProcessor.Domain/Validations/TransactionListValidator.cs:10-11 | the batch has as many issues as its records together |
| Validation.AppendWellFormed | FinancialAnalyticsProcessor.Domain/Validations/TransactionListValidator.cs:10-11 | appending a well-formed record leaves the batch issues unchanged |
| Validation.BatchIssueSource | FinancialAnalyticsProcessor.Domain/Validations/TransactionListValidator.cs:10-11 | every batch issue names a record of the batch that fails that check |
| Repair.FirstWithId | FinancialAnalyticsProcessor.Infrastructure/Services/CsvTransactionLoader.cs:44 | `FirstOrDefault` by id: none exactly when no row carries the id, otherwise the first such row |
| Repair.Rewrite | FinancialAnalyticsProcessor.Infrastructure/Services/CsvTransactionLoader.cs:67-78 | same length and order; rows carrying the id become the replacement, the others are written unchanged |
| Repair.Recreate | FinancialAnalyticsProcessor.Infrastructure/Services/CsvTransactionLoader.cs:43-78 | fails with "not found" exactly when no row carries the id; otherwise keeps length, other rows and order, and writes the first match with the new description over every match |
| Repair.RecreateIdempotent | FinancialAnalyticsProcessor.Infrastructure/Services/CsvTransactionLoader.cs:52-78 | repairing the same id twice with the same description equals repairing once |
| Repair.RepairFile | FinancialAnalyticsProcessor.Infrastructure/Services/CsvTransactionLoader.cs:43-83 | the repair succeeds exactly when the id is found and the write is not refused, and then gives the rewritten records; a write refused before the delete leaves the original file |
| Repair.RecreateRepairs | FinancialAnalyticsProcessor.Infrastructure/Services/CsvTransactionLoader.cs:52-78 | a repair keeps every row's id and leaves each row as it was or as the first row with its id under the new description |
| Repair.FirstWithIdStable | FinancialAnalyticsProcessor.Infrastructure/Services/CsvTransactionLoader.cs:44 | rows that keep their ids in place keep their first occurrences |
| Repair.RepairedFromTrans | FinancialAnalyticsProcessor.Infrastructure/Services/CsvTransactionLoader.cs:44-78 | a repair of a repaired file is a repair of the original |
| Repair.RecreateSingle | FinancialAnalyticsProcessor.Infrastructure/Services/CsvTransactionLoader.cs:52-61 | repairing the only row replaces its description and nothing else |
| Processing.ProcessTransactions | FinancialAnalyticsProcessor.Application/Services/TransactionProcessor.cs:33-64 | succeeds exactly when the batch is non-empty, valid and the sink accepts it; an empty batch fails with "No transactions"; a non-empty invalid one fails with a validation exception carrying all its issues; a valid batch the sink refuses fails with the sink's exception; only a valid batch is inserted, once, whole |
| Processing.ProcessAcceptsIff | FinancialAnalyticsProcessor.Application/Services/TransactionProcessor.cs:37-55 | the batch is inserted exactly when it is non-empty and every record is well formed |
| Retry.DelaySchedule | FinancialAnalyticsProcessor/FaultResiliencePolicies/PollyPolicy.cs:18-19 | the waits before retries 1, 2 and 3 are 2, 4 and 8 seconds |
| Retry.ExtractIdText | FinancialAnalyticsProcessor/FaultResiliencePolicies/PollyPolicy.cs:34-39 | untagged exactly when the message lacks "Transaction ID: \|"; otherwise the text strictly between the first and the last bar, or a throw when they coincide |
| Retry.ExtractDescriptionId | FinancialAnalyticsProcessor/FaultResiliencePolicies/PollyPolicy.cs:37-39 | the cut applied to a description message yields exactly the printed id |
| Retry.Classify | FinancialAnalyticsProcessor/FaultResiliencePolicies/PollyPolicy.cs:34-41 | an untagged message is skipped; the message throws exactly when the cut raises; a repair of the parsed id is attempted exactly when the cut text parses as a Guid |
| Retry.ClassifyMessage | FinancialAnalyticsProcessor/FaultResiliencePolicies/PollyPolicy.cs:34-41 | a validator message leads to a repair of its own record exactly when it is a description message |
| Retry.ScanActions | FinancialAnalyticsProcessor/FaultResiliencePolicies/PollyPolicy.cs:31-63 | errors are scanned in order; failed repairs are swallowed; the scan returns after the first repair that succeeds, with its file; it raises only on a throwing cut before any successful repair |
| Retry.ScanErrors | FinancialAnalyticsProcessor/FaultResiliencePolicies/PollyPolicy.cs:31-58 | returns without a repair only when no error names a record whose repair goes through, and then with the file unchanged; a repair is of the first such record, with the fixed description; it throws exactly when a throwing cut comes before any successful repair |
| Retry.OnRetry | FinancialAnalyticsProcessor/FaultResiliencePolicies/PollyPolicy.cs:20-66 | without the file path in the context the callback raises, whatever the failure; with it, only a validation exception's errors are scanned; other failures and the error-free "No transactions" leave the file alone; for a validation exception, no repair means no error's record could be repaired, and a repair is of the first error whose record could be, with the fixed description |
| Retry.Policy | FinancialAnalyticsProcessor/FaultResiliencePolicies/PollyPolicy.cs:13-19 | from retry number `retries` on: at least one and at most the remaining retries plus one executions, each retry preceded by its 2^n-second wait; exhaustion means every retry was used and the last execution's failure is rethrown; success means the last execution went through; at most one repair per retry |
| Retry.RunPolicy | FinancialAnalyticsProcessor/FaultResiliencePolicies/PollyPolicy.cs:13-19 | one to four executions; the waits taken are a prefix of 2, 4, 8; an exhausted run took all three |
| Retry.OnRetryRepairs | FinancialAnalyticsProcessor/FaultResiliencePolicies/PollyPolicy.cs:27-48 | the callback changes the file only by a repair writing "New Description added after failure" |
| Retry.PolicyRepairs | FinancialAnalyticsProcessor/FaultResiliencePolicies/PollyPolicy.cs:13-20 | under a callback that only repairs, the final file is the original one after repairs |
| Retry.RunRepairs | FinancialAnalyticsProcessor/FaultResiliencePolicies/PollyPolicy.cs:27-48 | a whole run leaves the source file as it was up to description repairs with the fixed text |
| Retry.PolicyInserts | FinancialAnalyticsProcessor/FaultResiliencePolicies/PollyPolicy.cs:13-19 | when every execution inserts only valid batches, so does the whole run |
| Retry.PolicyEndsWithFile | FinancialAnalyticsProcessor/FaultResiliencePolicies/PollyPolicy.cs:13-19 | when a successful execution inserts its own file, a successful run inserted its final file last |
| Retry.RunInserts | FinancialAnalyticsProcessor.Application/Services/TransactionProcessor.cs:48-55 | across all retries only non-empty valid batches reach the bulk insert, and a successful run inserted its final file last |
| Retry.OnRetryNeverThrows | FinancialAnalyticsProcessor/FaultResiliencePolicies/PollyPolicy.cs:26-39 | the callback raises exactly when the file path is missing from the context; validator errors never make it raise, since their messages carry two bars or none |
| Retry.DescriptionErrorRepaired | FinancialAnalyticsProcessor/FaultResiliencePolicies/PollyPolicy.cs:29-53 | a description error whose record can be repaired is never passed over: the callback returns after a repair |
| Retry.PolicyNeverAborts | FinancialAnalyticsProcessor/FaultResiliencePolicies/PollyPolicy.cs:13-20 | under a callback that never raises, no run is aborted |
| Retry.RunNeverAborts | FinancialAnalyticsProcessor/FaultResiliencePolicies/PollyPolicy.cs:14-26 | with the file path in the context, every failure is retried: a run ends in success or exhaustion; a run is aborted exactly when the path is missing and the first execution fails |
| Retry.MissingPathAborts | FinancialAnalyticsProcessor/FaultResiliencePolicies/PollyPolicy.cs:20-26 | without the file path in the context, a run has one execution and no wait: it succeeds when that execution does and is aborted otherwise, with the file untouched |
| Retry.PolicyStuck | FinancialAnalyticsProcessor/FaultResiliencePolicies/PollyPolicy.cs:13-19 | a failure the callback cannot act on repeats until the retries run out, and the file is untouched |
| Retry.EmptyBatchExhausts | FinancialAnalyticsProcessor.Application/Services/TransactionProcessor.cs:37-41 | an empty batch is rejected four times, 2, 4 and 8 seconds apart, and nothing is inserted |
| Retry.NothingToRepair | FinancialAnalyticsProcessor/FaultResiliencePolicies/PollyPolicy.cs:31-34 | errors with no description check among them are all passed over |
| Retry.UnrepairableExhausts | FinancialAnalyticsProcessor/FaultResiliencePolicies/PollyPolicy.cs:29-63 | a batch whose faults are all outside the descriptions is rejected four times with its issues, and is never repaired or inserted |
| Retry.FirstTrySucceeds | FinancialAnalyticsProcessor.Application/Services/TransactionProcessor.cs:48-55 | a valid batch with a working sink is inserted once, on the first execution |
| Retry.SinkFailureRetried | FinancialAnalyticsProcessor/FaultResiliencePolicies/PollyPolicy.cs:14-19 | a failed bulk insert is retried after two seconds on the unchanged file |
| Retry.OnlyDescriptionFails | FinancialAnalyticsProcessor.Domain/Validations/TransactionValidator.cs:28-32 | a check that a new description cures is a description check |
| Retry.RepairSingle | FinancialAnalyticsProcessor/FaultResiliencePolicies/PollyPolicy.cs:29-53 | for a one-record batch whose description alone is at fault, the callback repairs that record and returns |
| Retry.PolicyRepairedOnce | FinancialAnalyticsProcessor/FaultResiliencePolicies/PollyPolicy.cs:13-20 | a failure, a repair, and a passing second execution give a two-execution success with one wait |
| Retry.DescriptionRepaired | FinancialAnalyticsProcessor/FaultResiliencePolicies/PollyPolicy.cs:13-53 | a one-record batch with a bad description is repaired before the first retry and inserted on it, two seconds later |
| Analysis.DistinctKeys | FinancialAnalyticsProcessor.Application/Services/TransactionProcessor.cs:74-75 | the group keys: exactly the keys of the data, each once |
| Analysis.DistinctKeysOrdered | FinancialAnalyticsProcessor.Application/Services/TransactionProcessor.cs:74-75 | groups come in the order their keys are first seen |
| Analysis.IncomeOf | FinancialAnalyticsProcessor.Application/Services/TransactionProcessor.cs:79 | a user's income is never negative |
| Analysis.ExpenseOf | FinancialAnalyticsProcessor.Application/Services/TransactionProcessor.cs:80 | a user's expense is never positive |
| Analysis.IncomeExpenseNet | FinancialAnalyticsProcessor.Application/Services/TransactionProcessor.cs:79-80 | income plus expense is the user's net sum, the key spenders are ranked by |
| Analysis.AbsentUserTotals | FinancialAnalyticsProcessor.Application/Services/TransactionProcessor.cs:74-81 | a user without transactions has zero in every total |
| Analysis.UsersSummary | FinancialAnalyticsProcessor.Application/Services/TransactionProcessor.cs:74-81 | one row per distinct user, in first-seen order; each row's income is the sum of the user's positive amounts and its expense the sum of the negative ones, so income is at least 0, expense at most 0, and together they are the net sum |
| Analysis.Count | FinancialAnalyticsProcessor.Application/Services/TransactionProcessor.cs:84-85 | a category's count is zero exactly when it is absent |
| Analysis.InsertByCount | FinancialAnalyticsProcessor.Application/Services/TransactionProcessor.cs:85 | one insertion step keeps every key and adds the new one |
| Analysis.SortByCount | FinancialAnalyticsProcessor.Application/Services/TransactionProcessor.cs:85 | the sort keeps the number of keys and exactly the same keys |
| Analysis.InsertRanked | FinancialAnalyticsProcessor.Application/Services/TransactionProcessor.cs:85 | inserting a later-seen key keeps a list ranked by count, ties first-seen first |
| Analysis.SortRanked | FinancialAnalyticsProcessor.Application/Services/TransactionProcessor.cs:83-85 | the stable sort of first-seen keys ranks them by descending count, ties in first-seen order |
| Analysis.RankedCategories | FinancialAnalyticsProcessor.Application/Services/TransactionProcessor.cs:83-85 | every distinct category, ranked |
| Analysis.TakeRanked | FinancialAnalyticsProcessor.Application/Services/TransactionProcessor.cs:86-87 | taking a prefix of a ranked list keeps it ranked with true counts |
| Analysis.TakeLeavesBehind | FinancialAnalyticsProcessor.Application/Services/TransactionProcessor.cs:86 | a key beyond the prefix ranks behind every key in it |
| Analysis.TopCategories | FinancialAnalyticsProcessor.Application/Services/TransactionProcessor.cs:83-88 | min(3, distinct categories) rows, each with the category's true count, ordered by descending count with ties first-seen first |
| Analysis.TopCategoriesComplete | FinancialAnalyticsProcessor.Application/Services/TransactionProcessor.cs:83-88 | a category left out means three rows were taken, all ranked ahead of it |
| Analysis.LowestNet | FinancialAnalyticsProcessor.Application/Services/TransactionProcessor.cs:92-94 | the head of the stable ascending order: none only for no users, otherwise a user with the lowest net sum and no earlier user as low |
| Analysis.HighestSpender | FinancialAnalyticsProcessor.Application/Services/TransactionProcessor.cs:90-94 | null exactly when there are no transactions; otherwise a user of the data whose net sum is the minimum |
| Analysis.LowestNetTie | FinancialAnalyticsProcessor.Application/Services/TransactionProcessor.cs:92-94 | of two users with equal net sums the later one is not chosen |
| Analysis.SpenderTieFirstSeen | FinancialAnalyticsProcessor.Application/Services/TransactionProcessor.cs:90-94 | on a tie of net sums the first-seen user is chosen |
| Analysis.PerformAnalysis | FinancialAnalyticsProcessor.Application/Services/TransactionProcessor.cs:72-103 | one summary row per user, at most three category rows, and a spender exactly when there is data, who is one of the summarised users |
| Analysis.TwoUserTotals | FinancialAnalyticsProcessor.Application/Services/TransactionProcessor.cs:74-81 | in the two-user example the totals are 100/-40 and 10/0 |
| Analysis.TwoUserKeys | FinancialAnalyticsProcessor.Application/Services/TransactionProcessor.cs:75 | in the two-user example the groups are the two users in first-seen order |
| Analysis.TwoUserSummary | FinancialAnalyticsProcessor.Application/Services/TransactionProcessor.cs:74-81 | the summary of the two-user example, row by row |
| Analysis.TwoUserSpender | FinancialAnalyticsProcessor.Application/Services/TransactionProcessor.cs:90-94 | in the two-user example the user with net 10, not the one with net 60, is chosen |
| Cron.MinuteStep | FinancialAnalyticsProcessor/Program.cs:107-109 | the step is at least 1: the whole minutes of an interval of a minute or more, and 1 below that, negative intervals included |
| Cron.CronExpression | FinancialAnalyticsProcessor/Program.cs:107-109 | the expression starts with "*/" and ends with the four fields " * * * *" |
| Cron.ParseCronExpression | FinancialAnalyticsProcessor/Program.cs:108 | the step reads back from the expression |
| Cron.CronExpressionDistinguishes | FinancialAnalyticsProcessor/Program.cs:107-108 | different steps give different expressions |
| Cron.UnderTwoMinutesFallback | FinancialAnalyticsProcessor/Program.cs:107-109 | every interval under 120 seconds, 60 to 119 included, gives "*/1 * * * *" |
| Cron.TwoMinutesOrMoreNotFallback | FinancialAnalyticsProcessor/Program.cs:107-108 | an interval of 120 seconds or more does not give the fallback |
| Cron.MinuteStepMonotone | FinancialAnalyticsProcessor/Program.cs:107-108 | a longer interval never gives a shorter step |

## Left out

- Reading and writing CSV text (`LoadTransactionsAsync`, the CSV reader and writer, the header row). The file is modelled as the sequence of its records.
- Streams, the temporary file, and the delete-then-move that replaces the source file. The repair's outcome is a value, and `writeFails` stands in for a refused write.
- `SaveReportAsync`, logging, `async`/`await` and real sleeping. The waits are returned as a list of seconds.
- The bulk insert and the store. The insert is a sink whose failure is the `insertFails` parameter. The analysis reads the domain records directly, not the mapped store entities.
- Decimal overflow and rounding in sums. Totals are exact rationals (`real`).
- `DateTime.UtcNow`. It becomes the parameter `now`, read once when the validator is built.
- Nulls. Strings and batches are never null here, so "null" and "empty" coincide.
- The `Guid` "X" format, which `Guid.TryParse` also reads. Only the "N", "D", "B" and "P" formats are modelled.
- `char.IsWhiteSpace` is modelled on a fixed set of common white-space characters, not the full Unicode class.
- String lengths are counted in characters, not UTF-16 code units.
- The batch validator's `WithMessage("One or more transactions are invalid.")`. The model passes each record's own message through unchanged, which is what the retry callback relies on.
- The validation library's precision rule is modelled by what it checks, with trailing zeros ignored: at most 2 decimal places and at most 18 - 2 = 16 integer digits. The library's own code is not part of this model. Whole amounts of 17 or 18 digits fail, although the message speaks of "up to 18 digits".
- Cron.MinuteStep: a step above 59 minutes is produced as the code produces it. Whether the scheduler accepts such an expression is not modelled.
- The Hangfire registration, dependency wiring and web host of the program entry point, except the cron expression.
- The job wrapper, which as written calls the processor without the retry policy. The retry model describes the policy wrapped around processing that re-reads the source file on each execution.
- Retry.OnRetryNeverThrows: stated, past the context lookup, for validator errors and for the other failures the gate raises. A foreign exception message with a single bar, which would make the cut raise, cannot arise from the modelled failures. `Retry.ExtractIdText` and `Retry.ScanActions` still model that case.
- Retry.OnRetry: a path key whose value is not a string is not modelled apart. The lookup then gives a null path, the repair fails inside its `try`, and the error is passed over, as when `writeFails` holds.
- Repair.RepairFile: `writeFails` covers only a write refused before the original file is deleted. A move that fails after the delete, which leaves no source file, is not modelled.
- The search for the bar is an ordinal search for one character. The program calls the culture-sensitive string overload, which gives the same positions on the messages the validator produces.
- `Guid.TryParse` is modelled for plain hexadecimal groups. The "0x" and "+" prefixes it also accepts in some components are not modelled; a printed Guid never carries them.
