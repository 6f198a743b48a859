/**
 * The per-record validator (seven property rules, twelve checks) and the batch
 * validator that applies it to every record of a batch.
 */
module Validation {
  import opened Strings
  import opened Guids
  import opened Decimals
  import opened Transactions

  const MaxCategoryLength := 100
  const MaxDescriptionLength := 255
  const MaxMerchantLength := 100

  /** The text every description message carries just before the embedded id. */
  const IdTag := "Transaction ID: |"

  /** The twelve checks, in the order the validator declares them. */
  datatype Rule =
    | TransactionIdRequired
    | UserIdRequired
    | DateRequired
    | DateInFuture
    | AmountRequired
    | AmountPrecision
    | CategoryRequired
    | CategoryTooLong
    | DescriptionRequired
    | DescriptionTooLong
    | MerchantRequired
    | MerchantTooLong

  /** One validation failure: the check that failed on the record with id `recordId`. */
  datatype Issue = Issue(rule: Rule, recordId: Guid)

  predicate IsDescriptionRule(k: Rule)
  {
    k == DescriptionRequired || k == DescriptionTooLong
  }

  /** Position of a check in declaration order. */
  function RuleOrder(k: Rule): nat
  {
    match k
    case TransactionIdRequired => 0
    case UserIdRequired => 1
    case DateRequired => 2
    case DateInFuture => 3
    case AmountRequired => 4
    case AmountPrecision => 5
    case CategoryRequired => 6
    case CategoryTooLong => 7
    case DescriptionRequired => 8
    case DescriptionTooLong => 9
    case MerchantRequired => 10
    case MerchantTooLong => 11
  }

  /** The "{property} is required." message of a `NotEmpty()` check. */
  function Required(property: string): string
  {
    property + " is required."
  }

  /** The "{property} must not exceed {max} characters." message of a `MaximumLength(max)` check. */
  function TooLong(property: string, max: string): string
  {
    property + " must not exceed " + max + " characters."
  }

  /** The fixed sentence in front of the id tag in a description message. */
  function DescriptionSentence(k: Rule): string
  {
    if k == DescriptionRequired then "Description cannot be null or empty. "
    else "Description must not exceed 255 characters. "
  }

  /** The message a failed check reports; only the description checks embed the record id. */
  function Message(k: Rule, id: Guid): string
  {
    if IsDescriptionRule(k) then DescriptionSentence(k) + IdTag + FormatGuid(id) + "|"
    else FixedMessage(k)
  }

  /** The message of a check that does not embed the record id. */
  function FixedMessage(k: Rule): string
    requires !IsDescriptionRule(k)
  {
    match k
    case TransactionIdRequired => Required("TransactionId")
    case UserIdRequired => Required("UserId")
    case DateRequired => Required("Date")
    case DateInFuture => "Date cannot be in the future."
    case AmountRequired => Required("Amount")
    case AmountPrecision => "Amount must have up to 18 digits and 2 decimal places."
    case CategoryRequired => Required("Category")
    case CategoryTooLong => TooLong("Category", "100")
    case DescriptionRequired => assert false; ""
    case DescriptionTooLong => assert false; ""
    case MerchantRequired => Required("Merchant")
    case MerchantTooLong => TooLong("Merchant", "100")
  }

  /** When each check fails, with `now` the instant the validator was built. */
  predicate Violated(k: Rule, t: Transaction, now: Ticks)
  {
    match k
    case TransactionIdRequired => IsEmptyGuid(t.transactionId)
    case UserIdRequired => IsEmptyGuid(t.userId)
    case DateRequired => t.date == DefaultDate
    case DateInFuture => t.date > now
    case AmountRequired => IsZero(t.amount)
    case AmountPrecision => !PrecisionScaleOk(t.amount)
    case CategoryRequired => IsBlank(t.category)
    case CategoryTooLong => |t.category| > MaxCategoryLength
    case DescriptionRequired => IsBlank(t.description)
    case DescriptionTooLong => |t.description| > MaxDescriptionLength
    case MerchantRequired => IsBlank(t.merchant)
    case MerchantTooLong => |t.merchant| > MaxMerchantLength
  }

  /** A text field the validator accepts: not blank and at most `max` characters. */
  predicate GoodText(s: string, max: nat)
  {
    !IsBlank(s) && |s| <= max
  }

  /** A record every rule accepts, stated field by field. */
  predicate WellFormed(t: Transaction, now: Ticks)
  {
    && !IsEmptyGuid(t.transactionId)
    && !IsEmptyGuid(t.userId)
    && DefaultDate < t.date <= now
    && !IsZero(t.amount) && PrecisionScaleOk(t.amount)
    && GoodText(t.category, MaxCategoryLength)
    && GoodText(t.description, MaxDescriptionLength)
    && GoodText(t.merchant, MaxMerchantLength)
  }

  /** Every check, in declaration order. */
  const AllRules := [
    TransactionIdRequired, UserIdRequired, DateRequired, DateInFuture, AmountRequired, AmountPrecision,
    CategoryRequired, CategoryTooLong, DescriptionRequired, DescriptionTooLong, MerchantRequired, MerchantTooLong]

  predicate Ascending(ks: seq<Rule>)
  {
    forall i, j :: 0 <= i < j < |ks| ==> RuleOrder(ks[i]) < RuleOrder(ks[j])
  }

  /** Each check sits at its own position in `AllRules`. */
  lemma AllRulesAscending()
    ensures Ascending(AllRules)
  {
    forall i | 0 <= i < |AllRules| ensures RuleOrder(AllRules[i]) == i {
    }
  }

  lemma AllRulesListed(k: Rule)
    ensures k in AllRules
  {
  }

  /** The set of checks a record fails. */
  function Violations(t: Transaction, now: Ticks): set<Rule>
  {
    set k: Rule | k in AllRules && Violated(k, t, now)
  }

  /**
   * Runs the checks `ks` in order and keeps those in `failing`; no check stops the
   * others (the validator's default cascade mode continues after a failure).
   */
  function FailedAmong(ks: seq<Rule>, failing: set<Rule>): (r: seq<Rule>)
    requires Ascending(ks)
    ensures forall k :: k in r <==> k in ks && k in failing
    ensures Ascending(r)
  {
    if |ks| == 0 then []
    else
      var rest := FailedAmong(ks[1..], failing);
      assert forall i :: 0 <= i < |rest| ==> rest[i] in ks[1..];
      assert forall i :: 0 <= i < |rest| ==> RuleOrder(ks[0]) < RuleOrder(rest[i]);
      if ks[0] in failing then [ks[0]] + rest else rest
  }

  /** The checks a record fails, in declaration order. */
  function FailedRules(t: Transaction, now: Ticks): (ks: seq<Rule>)
    ensures Ascending(ks)
    ensures forall k :: k in ks ==> k in Violations(t, now)
  {
    AllRulesAscending();
    FailedAmong(AllRules, Violations(t, now))
  }

  /** A check is among the failed ones exactly when the record violates it. */
  lemma FailedRulesIff(t: Transaction, now: Ticks, k: Rule)
    ensures k in FailedRules(t, now) <==> Violated(k, t, now)
  {
    AllRulesListed(k);
  }

  function RulesOf(issues: seq<Issue>): (ks: seq<Rule>)
    ensures |ks| == |issues|
    ensures forall i :: 0 <= i < |issues| ==> ks[i] == issues[i].rule
  {
    if |issues| == 0 then [] else [issues[0].rule] + RulesOf(issues[1..])
  }

  /** The error message an issue reports. */
  function ErrorMessage(issue: Issue): string
  {
    Message(issue.rule, issue.recordId)
  }

  /** Tags each failed check with the record `id`. */
  function IssuesFor(ks: seq<Rule>, id: Guid): (r: seq<Issue>)
    ensures RulesOf(r) == ks
    ensures forall i :: 0 <= i < |r| ==> r[i].recordId == id
  {
    if |ks| == 0 then [] else [Issue(ks[0], id)] + IssuesFor(ks[1..], id)
  }

  /** Validates one record: every failing check, once each, in declaration order. */
  function ValidateRecord(t: Transaction, now: Ticks): (r: seq<Issue>)
    ensures forall i :: 0 <= i < |r| ==> r[i].recordId == t.transactionId
  {
    IssuesFor(FailedRules(t, now), t.transactionId)
  }

  /** A failed check appears in the record's issues, tagged with the record's id, and only then. */
  lemma IssueReported(t: Transaction, now: Ticks, k: Rule)
    ensures Issue(k, t.transactionId) in ValidateRecord(t, now) <==> Violated(k, t, now)
  {
    var r := ValidateRecord(t, now);
    var ks := RulesOf(r);
    FailedRulesIff(t, now, k);
    if Violated(k, t, now) {
      assert k in ks;
      var i :| 0 <= i < |ks| && ks[i] == k;
      assert r[i] == Issue(k, t.transactionId);
    }
    if Issue(k, t.transactionId) in r {
      var i :| 0 <= i < |r| && r[i] == Issue(k, t.transactionId);
      assert ks[i] == k;
    }
  }

  /** Length of each check's message (a printed Guid is 36 characters). */
  function MessageLength(k: Rule): nat
  {
    match k
    case TransactionIdRequired => 26
    case UserIdRequired => 19
    case DateRequired => 17
    case DateInFuture => 29
    case AmountRequired => 19
    case AmountPrecision => 54
    case CategoryRequired => 21
    case CategoryTooLong => 40
    case DescriptionRequired => 91
    case DescriptionTooLong => 98
    case MerchantRequired => 21
    case MerchantTooLong => 40
  }

  lemma MessageShape(k: Rule, id: Guid)
    ensures |Message(k, id)| == MessageLength(k)
  {
  }

  /** Different checks report different messages, whatever the ids. */
  lemma MessageDeterminesRule(k: Rule, id: Guid, k': Rule, id': Guid)
    requires Message(k, id) == Message(k', id')
    ensures k == k'
  {
    MessageShape(k, id);
    MessageShape(k', id');
    var m := Message(k, id);
    if MessageLength(k) == 19 {
      assert m[0] == (if k == UserIdRequired then 'U' else 'A');
      assert m[0] == (if k' == UserIdRequired then 'U' else 'A');
    } else if MessageLength(k) == 21 || MessageLength(k) == 40 {
      assert m[0] == (if k == CategoryRequired || k == CategoryTooLong then 'C' else 'M');
      assert m[0] == (if k' == CategoryRequired || k' == CategoryTooLong then 'C' else 'M');
    }
  }

  /** The record reports a message exactly when the check behind that message fails. */
  lemma MessageReported(t: Transaction, now: Ticks, k: Rule)
    ensures (exists i :: 0 <= i < |ValidateRecord(t, now)|
               && ErrorMessage(ValidateRecord(t, now)[i]) == Message(k, t.transactionId))
            <==> Violated(k, t, now)
  {
    var r := ValidateRecord(t, now);
    IssueReported(t, now, k);
    if Violated(k, t, now) {
      var i :| 0 <= i < |r| && r[i] == Issue(k, t.transactionId);
      assert ErrorMessage(r[i]) == Message(k, t.transactionId);
    }
    if exists i :: 0 <= i < |r| && ErrorMessage(r[i]) == Message(k, t.transactionId) {
      var i :| 0 <= i < |r| && ErrorMessage(r[i]) == Message(k, t.transactionId);
      MessageDeterminesRule(r[i].rule, r[i].recordId, k, t.transactionId);
      assert r[i] == Issue(k, t.transactionId);
    }
  }

  /** Every reported check failed, and the checks come in declaration order, each at most once. */
  lemma RecordIssuesOrdered(t: Transaction, now: Ticks)
    ensures forall i :: 0 <= i < |ValidateRecord(t, now)| ==> Violated(ValidateRecord(t, now)[i].rule, t, now)
    ensures Ascending(RulesOf(ValidateRecord(t, now)))
  {
    var r := ValidateRecord(t, now);
    forall i | 0 <= i < |r| ensures Violated(r[i].rule, t, now) {
      assert RulesOf(r)[i] in FailedRules(t, now);
      FailedRulesIff(t, now, r[i].rule);
    }
  }

  /** A record yields no issue exactly when it satisfies every field rule. */
  lemma RecordValidIff(t: Transaction, now: Ticks)
    ensures ValidateRecord(t, now) == [] <==> WellFormed(t, now)
  {
    var r := ValidateRecord(t, now);
    if r == [] {
      forall k: Rule ensures !Violated(k, t, now) {
        IssueReported(t, now, k);
      }
      assert !Violated(TransactionIdRequired, t, now) && !Violated(UserIdRequired, t, now);
      assert !Violated(DateRequired, t, now) && !Violated(DateInFuture, t, now);
      assert !Violated(AmountRequired, t, now) && !Violated(AmountPrecision, t, now);
      assert !Violated(CategoryRequired, t, now) && !Violated(CategoryTooLong, t, now);
      assert !Violated(DescriptionRequired, t, now) && !Violated(DescriptionTooLong, t, now);
      assert !Violated(MerchantRequired, t, now) && !Violated(MerchantTooLong, t, now);
    } else {
      RecordIssuesOrdered(t, now);
      assert Violated(r[0].rule, t, now);
    }
  }

  /** "Date cannot be in the future." is reported for a date after `now`, not for `now` itself. */
  lemma FutureDateReported(t: Transaction, now: Ticks)
    ensures (exists i :: 0 <= i < |ValidateRecord(t, now)|
               && ErrorMessage(ValidateRecord(t, now)[i]) == "Date cannot be in the future.")
            <==> t.date > now
  {
    MessageReported(t, now, DateInFuture);
  }

  /** "Amount is required." is reported for a zero amount, the default. */
  lemma ZeroAmountReported(t: Transaction, now: Ticks)
    ensures (exists i :: 0 <= i < |ValidateRecord(t, now)|
               && ErrorMessage(ValidateRecord(t, now)[i]) == "Amount is required.")
            <==> IsZero(t.amount)
  {
    assert Message(AmountRequired, t.transactionId) == "Amount is required.";
    MessageReported(t, now, AmountRequired);
  }

  /** A blank description is reported with the record id between bars. */
  lemma BlankDescriptionReported(t: Transaction, now: Ticks)
    ensures (exists i :: 0 <= i < |ValidateRecord(t, now)|
               && ErrorMessage(ValidateRecord(t, now)[i])
                  == "Description cannot be null or empty. " + "Transaction ID: |" + FormatGuid(t.transactionId) + "|")
            <==> IsBlank(t.description)
  {
    MessageReported(t, now, DescriptionRequired);
  }

  /** A description over 255 characters is reported with the record id between bars. */
  lemma LongDescriptionReported(t: Transaction, now: Ticks)
    ensures (exists i :: 0 <= i < |ValidateRecord(t, now)|
               && ErrorMessage(ValidateRecord(t, now)[i])
                  == "Description must not exceed 255 characters. " + "Transaction ID: |" + FormatGuid(t.transactionId) + "|")
            <==> |t.description| > 255
  {
    MessageReported(t, now, DescriptionTooLong);
  }

  predicate BarFree(s: string)
  {
    forall i :: 0 <= i < |s| ==> s[i] != '|'
  }

  lemma BarFreeConcat(a: string, b: string)
    requires BarFree(a) && BarFree(b)
    ensures BarFree(a + b)
  {
  }

  lemma RequiredBarFree(property: string)
    requires BarFree(property)
    ensures BarFree(Required(property))
  {
    assert BarFree(" is required.");
    BarFreeConcat(property, " is required.");
  }

  lemma TooLongBarFree(property: string)
    requires BarFree(property)
    ensures BarFree(TooLong(property, "100"))
  {
    assert BarFree(" must not exceed ");
    assert BarFree("100");
    assert BarFree(" characters.");
    BarFreeConcat(property, " must not exceed ");
    BarFreeConcat(property + " must not exceed ", "100");
    BarFreeConcat(property + " must not exceed " + "100", " characters.");
  }

  /** The messages of the checks on other properties carry no bar. */
  lemma NoBarOutsideDescription(k: Rule, id: Guid)
    requires !IsDescriptionRule(k)
    ensures '|' !in Message(k, id)
  {
    match k
    case TransactionIdRequired => assert BarFree("TransactionId"); RequiredBarFree("TransactionId");
    case UserIdRequired => assert BarFree("UserId"); RequiredBarFree("UserId");
    case DateRequired => assert BarFree("Date"); RequiredBarFree("Date");
    case DateInFuture => assert BarFree("Date cannot be in the future.");
    case AmountRequired => assert BarFree("Amount"); RequiredBarFree("Amount");
    case AmountPrecision =>
      assert BarFree("Amount must have up to 18 digits");
      assert BarFree(" and 2 decimal places.");
      BarFreeConcat("Amount must have up to 18 digits", " and 2 decimal places.");
    case CategoryRequired => assert BarFree("Category"); RequiredBarFree("Category");
    case CategoryTooLong => assert BarFree("Category"); TooLongBarFree("Category");
    case MerchantRequired => assert BarFree("Merchant"); RequiredBarFree("Merchant");
    case MerchantTooLong => assert BarFree("Merchant"); TooLongBarFree("Merchant");
  }

  /** Nothing before the tag's own bar in a description message is a bar. */
  lemma DescriptionLeadBarFree(k: Rule)
    requires IsDescriptionRule(k)
    ensures BarFree(DescriptionSentence(k) + IdTag[..|IdTag| - 1])
  {
    assert IdTag[..|IdTag| - 1] == "Transaction ID: ";
    assert BarFree("Transaction ID: ");
    if k == DescriptionRequired {
      assert BarFree("Description cannot be null or empty. ");
    } else {
      assert BarFree("Description must not exceed 255 characters. ");
    }
    BarFreeConcat(DescriptionSentence(k), IdTag[..|IdTag| - 1]);
  }

  /** Only the two description checks put the id tag, or any bar, into their message. */
  lemma OnlyDescriptionCarriesId(k: Rule, id: Guid)
    ensures '|' in Message(k, id) <==> IsDescriptionRule(k)
    ensures Contains(Message(k, id), IdTag) <==> IsDescriptionRule(k)
  {
    var m := Message(k, id);
    if IsDescriptionRule(k) {
      ContainsBetween(DescriptionSentence(k), IdTag, FormatGuid(id), "|");
      assert IdTag[16] == '|';
      ContainsChar(m, IdTag, '|');
    } else {
      NoBarOutsideDescription(k, id);
      assert '|' in IdTag;
      NotContainsWithout(m, IdTag, '|');
    }
  }

  /** Validates a batch: each record's issues, in batch order. */
  function ValidateBatch(ts: seq<Transaction>, now: Ticks): (r: seq<Issue>)
  {
    if |ts| == 0 then [] else ValidateRecord(ts[0], now) + ValidateBatch(ts[1..], now)
  }

  /** A batch of one record has that record's issues. */
  lemma BatchSingle(t: Transaction, now: Ticks)
    ensures ValidateBatch([t], now) == ValidateRecord(t, now)
  {
    assert [t][1..] == [];
    assert ValidateRecord(t, now) + [] == ValidateRecord(t, now);
  }

  /** A batch is valid exactly when every record in it is well formed. */
  lemma BatchValidIff(ts: seq<Transaction>, now: Ticks)
    ensures ValidateBatch(ts, now) == [] <==> forall i :: 0 <= i < |ts| ==> WellFormed(ts[i], now)
  {
    forall i | 0 <= i < |ts| {
      RecordValidIff(ts[i], now);
    }
  }

  /** Validating two batches one after the other lists the first batch's issues first. */
  lemma {:induction false} BatchConcat(a: seq<Transaction>, b: seq<Transaction>, now: Ticks)
    ensures ValidateBatch(a + b, now) == ValidateBatch(a, now) + ValidateBatch(b, now)
  {
    if |a| > 0 {
      var ab := a + b;
      var head, tail := ValidateRecord(a[0], now), ValidateBatch(a[1..], now);
      assert ab[0] == a[0] && ab[1..] == a[1..] + b;
      BatchConcat(a[1..], b, now);
      assert ValidateBatch(ab, now) == head + (tail + ValidateBatch(b, now));
      assert ValidateBatch(a, now) == head + tail;
    } else {
      assert a + b == b;
    }
  }

  /** Issues of record i come before those of record j when i < j: the batch splits around any record. */
  lemma BatchOrder(ts: seq<Transaction>, i: nat, now: Ticks)
    requires i < |ts|
    ensures ValidateBatch(ts, now)
         == ValidateBatch(ts[..i], now) + ValidateRecord(ts[i], now) + ValidateBatch(ts[i + 1..], now)
  {
    var front, back := ts[..i], ts[i + 1..];
    assert ts == front + ([ts[i]] + back);
    BatchConcat(front, [ts[i]] + back, now);
    BatchConcat([ts[i]], back, now);
    BatchSingle(ts[i], now);
  }

  /** Total of the per-record issue counts. */
  function IssueCount(ts: seq<Transaction>, now: Ticks): nat
  {
    if |ts| == 0 then 0 else |ValidateRecord(ts[|ts| - 1], now)| + IssueCount(ts[..|ts| - 1], now)
  }

  /** The batch reports as many issues as its records do together. */
  lemma {:induction false} BatchIssueCount(ts: seq<Transaction>, now: Ticks)
    ensures |ValidateBatch(ts, now)| == IssueCount(ts, now)
  {
    if |ts| > 0 {
      var init := ts[..|ts| - 1];
      assert ts == init + [ts[|ts| - 1]];
      BatchConcat(init, [ts[|ts| - 1]], now);
      BatchIssueCount(init, now);
    }
  }

  /** Appending a well-formed record leaves the batch's issues unchanged. */
  lemma AppendWellFormed(ts: seq<Transaction>, t: Transaction, now: Ticks)
    requires WellFormed(t, now)
    ensures ValidateBatch(ts + [t], now) == ValidateBatch(ts, now)
  {
    RecordValidIff(t, now);
    BatchConcat(ts, [t], now);
  }

  /** Every batch issue is an issue of some record of the batch, about a check that record fails. */
  lemma {:induction false} BatchIssueSource(ts: seq<Transaction>, now: Ticks, j: nat)
    requires j < |ValidateBatch(ts, now)|
    ensures exists i :: (0 <= i < |ts|
      && ValidateBatch(ts, now)[j].recordId == ts[i].transactionId
      && Violated(ValidateBatch(ts, now)[j].rule, ts[i], now))
  {
    var head := ValidateRecord(ts[0], now);
    if j < |head| {
      RecordIssuesOrdered(ts[0], now);
      assert ValidateBatch(ts, now)[j] == head[j];
    } else {
      BatchIssueSource(ts[1..], now, j - |head|);
      var i :| 0 <= i < |ts[1..]|
        && ValidateBatch(ts[1..], now)[j - |head|].recordId == ts[1..][i].transactionId
        && Violated(ValidateBatch(ts[1..], now)[j - |head|].rule, ts[1..][i], now);
      assert ts[1..][i] == ts[i + 1];
    }
  }
}
