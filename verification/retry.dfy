/**
 * The retry policy around one processing run: up to three retries with exponential
 * back-off, and before each retry a scan of the validation errors for a record id
 * whose description can be repaired in the source file.
 */
module Retry {
  import opened Wrappers
  import opened Strings
  import opened Guids
  import opened Transactions
  import opened Validation
  import opened Repair
  import opened Processing

  /** `retryCount: 3`: at most three retries, four executions in all. */
  const MaxRetries: nat := 3

  /** The fixed description every repair writes. */
  const RepairDescription := "New Description added after failure"

  function Pow2(n: nat): (r: nat)
    ensures r >= 1
  {
    if n == 0 then 1 else 2 * Pow2(n - 1)
  }

  /** `sleepDurationProvider`: the wait, in seconds, before retry `retry` (counted from 1). */
  function Delay(retry: nat): nat
  {
    Pow2(retry)
  }

  /** The three waits of a run that uses every retry: 2, 4 and 8 seconds. */
  lemma DelaySchedule()
    ensures [Delay(1), Delay(2), Delay(3)] == [2, 4, 8]
  {
  }

  /** What cutting the text between the first and the last bar out of a message gives. */
  datatype Extraction =
    | NotTagged               // the message does not contain the id tag
    | SubstringThrows         // a single bar: the cut has negative length and raises
    | Extracted(text: string) // the text strictly between the first and the last bar

  /** The id cut of the retry callback, for one error message. */
  function ExtractIdText(m: string): (r: Extraction)
    ensures r.NotTagged? <==> !Contains(m, IdTag)
    ensures r.SubstringThrows? ==>
      exists p :: 0 <= p < |m| && m[p] == '|' && '|' !in m[..p] && '|' !in m[p + 1..]
    ensures r.Extracted? ==>
      exists p, q :: (0 <= p < q < |m| && m[p] == '|' && m[q] == '|' && '|' !in m[..p] && '|' !in m[q + 1..]
                      && r.text == m[p + 1..q])
  {
    if !Contains(m, IdTag) then NotTagged
    else
      assert IdTag[16] == '|';
      ContainsChar(m, IdTag, '|');
      var first := IndexOf(m, '|').value;
      var last := LastIndexOf(m, '|').value;
      if last < first + 1 then SubstringThrows
      else Extracted(m[first + 1..last])
  }

  /** Where a bar-free prefix ends in a bar, that bar is the first one. */
  lemma IndexOfAfterBarFree(m: string, p: nat)
    requires p < |m| && m[p] == '|' && BarFree(m[..p])
    ensures IndexOf(m, '|') == Some(p)
  {
    assert m[..p + 1][p] == '|';
  }

  /** Round trip: the cut applied to a description message yields the printed id. */
  lemma ExtractDescriptionId(k: Rule, id: Guid)
    requires IsDescriptionRule(k)
    ensures ExtractIdText(Message(k, id)) == Extracted(FormatGuid(id))
  {
    var lead := DescriptionSentence(k) + IdTag[..|IdTag| - 1];
    DescriptionMessageBars(k, id);
    OnlyDescriptionCarriesId(k, id);
    DescriptionLeadBarFree(k);
    BarsAround(lead, FormatGuid(id));
  }

  /** A description message is its lead, then the printed id between two bars. */
  lemma DescriptionMessageBars(k: Rule, id: Guid)
    requires IsDescriptionRule(k)
    ensures Message(k, id) == DescriptionSentence(k) + IdTag[..|IdTag| - 1] + "|" + FormatGuid(id) + "|"
  {
    assert IdTag == IdTag[..|IdTag| - 1] + "|";
  }

  /** In a bar-free lead, a bar, a text and a closing bar, the bars are the first and the last. */
  lemma BarsAround(lead: string, text: string)
    requires BarFree(lead)
    ensures var m := lead + "|" + text + "|";
      && IndexOf(m, '|') == Some(|lead|) && LastIndexOf(m, '|') == Some(|m| - 1)
      && m[|lead| + 1..|m| - 1] == text
  {
    var m := lead + "|" + text + "|";
    assert m[..|lead|] == lead;
    IndexOfAfterBarFree(m, |lead|);
  }

  /** What the callback does with one error message. */
  datatype Action =
    | Skip            // no id tag, or the cut text is not a Guid: go on with the next error
    | Throw           // the cut raised: the exception leaves the callback
    | Attempt(id: Guid)  // call the repair for this id

  /**
   * The action for one message: an untagged message is skipped, a cut that raises
   * throws, and a cut text is a repair target exactly when it parses as a Guid.
   */
  function Classify(m: string): (a: Action)
    ensures !Contains(m, IdTag) ==> a == Skip
    ensures a == Throw <==> ExtractIdText(m).SubstringThrows?
    ensures a.Attempt? <==> ExtractIdText(m).Extracted? && ParseGuid(ExtractIdText(m).text).Some?
    ensures a.Attempt? ==> Contains(m, IdTag) && ParseGuid(ExtractIdText(m).text) == Some(a.id)
  {
    match ExtractIdText(m)
    case NotTagged => Skip
    case SubstringThrows => Throw
    case Extracted(text) =>
      match ParseGuid(text)
      case None => Skip
      case Some(id) => Attempt(id)
  }

  /** Classifying a validator message: description messages name their record, the rest are skipped. */
  lemma ClassifyMessage(k: Rule, id: Guid)
    ensures Classify(Message(k, id)) == (if IsDescriptionRule(k) then Attempt(id) else Skip)
  {
    OnlyDescriptionCarriesId(k, id);
    if IsDescriptionRule(k) {
      ExtractDescriptionId(k, id);
      ParseFormatGuid(id);
    }
  }

  /** How the retry callback ended. */
  datatype HookResult =
    | Continue(file: seq<Transaction>, repaired: Option<Guid>)  // returned, after at most one repair
    | HookThrew                                                // an exception escaped the callback

  /** The action names an id whose repair goes through. */
  predicate RepairsOn(a: Action, repair: Guid -> Result<seq<Transaction>, RepairError>)
  {
    a.Attempt? && repair(a.id).Success?
  }

  /**
   * The callback's loop over the classified errors, in order: skip, swallow a failed
   * repair and go on, return after the first repair that succeeds. `repair` is the
   * repair of the source file, by id.
   */
  function ScanActions(acts: seq<Action>, file: seq<Transaction>, repair: Guid -> Result<seq<Transaction>, RepairError>)
    : (r: HookResult)
    ensures r.Continue? && r.repaired.None? ==>
      r.file == file && forall j :: 0 <= j < |acts| ==> acts[j] != Throw && !RepairsOn(acts[j], repair)
    ensures r.Continue? && r.repaired.Some? ==> repair(r.repaired.value) == Success(r.file)
    ensures r.Continue? && r.repaired.Some? ==>
      exists i :: (0 <= i < |acts| && acts[i] == Attempt(r.repaired.value)
                   && forall j :: 0 <= j < i ==> acts[j] != Throw && !RepairsOn(acts[j], repair))
    ensures r.HookThrew? <==>
      exists i :: (0 <= i < |acts| && acts[i] == Throw
                   && forall j :: 0 <= j < i ==> !RepairsOn(acts[j], repair))
  {
    if |acts| == 0 then Continue(file, None)
    else
      var rest := ScanActions(acts[1..], file, repair);
      assert forall j :: 1 <= j < |acts| ==> acts[1..][j - 1] == acts[j];
      match acts[0]
      case Skip => rest
      case Throw => HookThrew
      case Attempt(id) =>
        match repair(id)
        case Success(repaired) => Continue(repaired, Some(id))
        case Failure(_) => rest
  }

  /** The action for each error message, in order. */
  function ActionsOf(errs: seq<Issue>): (acts: seq<Action>)
    ensures |acts| == |errs|
    ensures forall i :: 0 <= i < |errs| ==> acts[i] == Classify(ErrorMessage(errs[i]))
  {
    if |errs| == 0 then [] else [Classify(ErrorMessage(errs[0]))] + ActionsOf(errs[1..])
  }

  /** The repair the callback calls, by id: the fixed description, on the current file. */
  function RepairIn(file: seq<Transaction>, writeFails: bool): Guid -> Result<seq<Transaction>, RepairError>
  {
    (id: Guid) => RepairFile(file, id, RepairDescription, writeFails)
  }

  /** None of the actions is a repair that goes through. */
  predicate NoRepairAmong(acts: seq<Action>, repair: Guid -> Result<seq<Transaction>, RepairError>)
  {
    forall j :: 0 <= j < |acts| ==> !RepairsOn(acts[j], repair)
  }

  /** No error names a record whose repair goes through. */
  predicate NoRepairIn(errs: seq<Issue>, file: seq<Transaction>, writeFails: bool)
  {
    NoRepairAmong(ActionsOf(errs), RepairIn(file, writeFails))
  }

  /** Action `i` is `a`, and no action before it is a repair that goes through. */
  predicate FirstActingIn(acts: seq<Action>, repair: Guid -> Result<seq<Transaction>, RepairError>, i: nat, a: Action)
  {
    i < |acts| && acts[i] == a && NoRepairAmong(acts[..i], repair)
  }

  /**
   * Error `i` names `id` (or throws, when `id` is None), and no error before it names a
   * record whose repair goes through.
   */
  predicate FirstActing(errs: seq<Issue>, file: seq<Transaction>, writeFails: bool, i: nat, id: Option<Guid>)
  {
    FirstActingIn(ActionsOf(errs), RepairIn(file, writeFails), i, if id.Some? then Attempt(id.value) else Throw)
  }

  lemma NoRepairPrefix(acts: seq<Action>, repair: Guid -> Result<seq<Transaction>, RepairError>, n: nat)
    requires n <= |acts|
    ensures NoRepairAmong(acts[..n], repair) <==> forall j :: 0 <= j < n ==> !RepairsOn(acts[j], repair)
  {
    assert forall j :: 0 <= j < n ==> acts[..n][j] == acts[j];
  }

  /** A repair made by the scan is the first action whose repair goes through. */
  lemma ScanRepairFirst(acts: seq<Action>, file: seq<Transaction>, repair: Guid -> Result<seq<Transaction>, RepairError>)
    ensures var r := ScanActions(acts, file, repair);
      r.Continue? && r.repaired.Some? ==> exists i :: FirstActingIn(acts, repair, i, Attempt(r.repaired.value))
  {
    var r := ScanActions(acts, file, repair);
    if r.Continue? && r.repaired.Some? {
      var i :| 0 <= i < |acts| && acts[i] == Attempt(r.repaired.value)
               && forall j :: 0 <= j < i ==> acts[j] != Throw && !RepairsOn(acts[j], repair);
      NoRepairPrefix(acts, repair, i);
      assert FirstActingIn(acts, repair, i, Attempt(r.repaired.value));
    }
  }

  /** The scan throws exactly when a throwing action comes before any repair that goes through. */
  lemma ScanThrowFirst(acts: seq<Action>, file: seq<Transaction>, repair: Guid -> Result<seq<Transaction>, RepairError>)
    ensures ScanActions(acts, file, repair).HookThrew? <==> exists i :: FirstActingIn(acts, repair, i, Throw)
  {
    if ScanActions(acts, file, repair).HookThrew? {
      var i :| 0 <= i < |acts| && acts[i] == Throw && forall j :: 0 <= j < i ==> !RepairsOn(acts[j], repair);
      NoRepairPrefix(acts, repair, i);
      assert FirstActingIn(acts, repair, i, Throw);
    }
    if i :| FirstActingIn(acts, repair, i, Throw) {
      NoRepairPrefix(acts, repair, i);
    }
  }

  /** The two lemmas above, for the actions of a list of errors. */
  lemma ScanErrorsFirst(errs: seq<Issue>, file: seq<Transaction>, writeFails: bool)
    ensures var r := ScanActions(ActionsOf(errs), file, RepairIn(file, writeFails));
      && (r.Continue? && r.repaired.Some? ==> exists i :: FirstActing(errs, file, writeFails, i, r.repaired))
      && (r.HookThrew? <==> exists i :: FirstActing(errs, file, writeFails, i, None))
  {
    var acts := ActionsOf(errs);
    var repair := RepairIn(file, writeFails);
    var r := ScanActions(acts, file, repair);
    ScanRepairFirst(acts, file, repair);
    ScanThrowFirst(acts, file, repair);
    if r.Continue? && r.repaired.Some? {
      var i :| FirstActingIn(acts, repair, i, Attempt(r.repaired.value));
      assert FirstActing(errs, file, writeFails, i, r.repaired);
    }
    if r.HookThrew? {
      var i :| FirstActingIn(acts, repair, i, Throw);
      assert FirstActing(errs, file, writeFails, i, None);
    }
    if i :| FirstActing(errs, file, writeFails, i, None) {
      assert FirstActingIn(acts, repair, i, Throw);
    }
  }

  /**
   * The scan of a validation exception's errors: it returns without a repair exactly
   * when no error throws and no named repair goes through; otherwise the repaired record
   * is the first one whose repair goes through, and a throw escapes only before it.
   */
  function ScanErrors(errs: seq<Issue>, file: seq<Transaction>, writeFails: bool): (r: HookResult)
    ensures r.Continue? && r.repaired.None? ==> r.file == file
    ensures r.Continue? && r.repaired.None? ==> NoRepairIn(errs, file, writeFails)
    ensures r.Continue? && r.repaired.Some? ==>
      RepairFile(file, r.repaired.value, RepairDescription, writeFails) == Success(r.file)
    ensures r.Continue? && r.repaired.Some? ==>
      exists i :: FirstActing(errs, file, writeFails, i, r.repaired)
    ensures r.HookThrew? <==> exists i :: FirstActing(errs, file, writeFails, i, None)
  {
    ScanErrorsFirst(errs, file, writeFails);
    ScanActions(ActionsOf(errs), file, RepairIn(file, writeFails))
  }

  /**
   * `onRetryAsync`: the callback first looks the file path up in the execution context,
   * which raises when the key is absent; past that lookup, only a validation exception's
   * errors are scanned and any other exception is passed over.
   */
  function OnRetry(f: Failure, file: seq<Transaction>, pathInContext: bool, writeFails: bool): (r: HookResult)
    ensures !pathInContext ==> r == HookThrew
    ensures pathInContext && !IsValidationException(f) ==> r == Continue(file, None)
    ensures pathInContext && f.NoTransactions? ==> r == Continue(file, None)
    ensures r.Continue? && r.repaired.None? ==> r.file == file
    ensures r.Continue? && r.repaired.None? ==> NoRepairIn(Errors(f), file, writeFails)
    ensures r.Continue? && r.repaired.Some? ==>
      RepairFile(file, r.repaired.value, RepairDescription, writeFails) == Success(r.file)
    ensures r.Continue? && r.repaired.Some? ==>
      exists i :: FirstActing(Errors(f), file, writeFails, i, r.repaired)
    ensures r.HookThrew? <==> !pathInContext || exists i :: FirstActing(Errors(f), file, writeFails, i, None)
  {
    if !pathInContext then HookThrew
    else if IsValidationException(f) then ScanErrors(Errors(f), file, writeFails)
    else Continue(file, None)
  }

  /**
   * The outside world a run meets: `now` for the validator, whether the execution
   * context carries the file path the callback looks up, whether the bulk insert
   * raises on execution n (counted from 0), and whether the file system refuses the
   * rewrite during retry n (counted from 1).
   */
  datatype Env = Env(now: Ticks, pathInContext: bool, insertFails: nat -> bool, writeFails: nat -> bool)

  /** How a run of the policy ended. */
  datatype Status =
    | Succeeded              // an execution went through
    | Exhausted(last: Failure)  // the fourth execution failed too; its failure is rethrown
    | Aborted                // the callback itself raised; the policy stops at once

  /**
   * The trace of a run: how it ended, the source file at the end, the number of
   * executions, the waits taken, the batches handed to the bulk insert, the ids repaired.
   */
  datatype Run = Run(
    status: Status,
    file: seq<Transaction>,
    executions: nat,
    delays: seq<nat>,
    inserts: seq<seq<Transaction>>,
    repairs: seq<Guid>)

  /**
   * The policy from the execution after `retries` retries on: execute; on success stop;
   * on any failure with retries left, run the callback, wait, and execute again on the
   * file as the callback left it; with no retries left, rethrow. `attempt(file, n)` is
   * execution n (counted from 0) on `file`; `hook(f, file, n)` is the callback before
   * retry n (counted from 1) after failure `f`.
   */
  function Policy(file: seq<Transaction>, attempt: (seq<Transaction>, nat) -> Processed,
                  hook: (Failure, seq<Transaction>, nat) -> HookResult, retries: nat): (r: Run)
    requires retries <= MaxRetries
    ensures 1 <= r.executions <= MaxRetries - retries + 1
    ensures |r.delays| == r.executions - 1
    ensures forall i :: 0 <= i < |r.delays| ==> r.delays[i] == Delay(retries + 1 + i)
    ensures r.status.Exhausted? ==> r.executions == MaxRetries - retries + 1
    ensures r.status.Exhausted? ==> attempt(r.file, MaxRetries).outcome == Failure(r.status.last)
    ensures r.status.Succeeded? ==> attempt(r.file, retries + r.executions - 1).outcome.Success?
    ensures |r.repairs| <= |r.delays|
    decreases MaxRetries - retries
  {
    var p := attempt(file, retries);
    match p.outcome
    case Success(_) => Run(Succeeded, file, 1, [], p.inserts, [])
    case Failure(f) =>
      if retries == MaxRetries then Run(Exhausted(f), file, 1, [], p.inserts, [])
      else
        match hook(f, file, retries + 1)
        case HookThrew => Run(Aborted, file, 1, [], p.inserts, [])
        case Continue(next, repaired) =>
          var rest := Policy(next, attempt, hook, retries + 1);
          Run(rest.status, rest.file, rest.executions + 1, [Delay(retries + 1)] + rest.delays,
              p.inserts + rest.inserts, (if repaired.Some? then [repaired.value] else []) + rest.repairs)
  }

  /** Execution n of the processing run, in `env`. */
  function AttemptIn(env: Env): (seq<Transaction>, nat) -> Processed
  {
    (file: seq<Transaction>, n: nat) => ProcessTransactions(file, env.now, env.insertFails(n))
  }

  /** The retry callback before retry n, in `env`. */
  function HookIn(env: Env): (Failure, seq<Transaction>, nat) -> HookResult
  {
    (f: Failure, file: seq<Transaction>, n: nat) => OnRetry(f, file, env.pathInContext, env.writeFails(n))
  }

  /** A whole run of the policy: at most four executions, waiting 2, 4 and 8 seconds between them. */
  function RunPolicy(file: seq<Transaction>, env: Env): (r: Run)
    ensures 1 <= r.executions <= 4
    ensures r.delays == [2, 4, 8][..r.executions - 1]
    ensures r.status.Exhausted? ==> r.executions == 4 && r.delays == [2, 4, 8]
  {
    DelaySchedule();
    var r := Policy(file, AttemptIn(env), HookIn(env), 0);
    assert r.delays == [Delay(1), Delay(2), Delay(3)][..r.executions - 1];
    r
  }

  lemma RunPolicyUnfold(file: seq<Transaction>, env: Env)
    ensures RunPolicy(file, env) == Policy(file, AttemptIn(env), HookIn(env), 0)
  {
  }

  /** The callback changes the file only by repairs that write the fixed description. */
  lemma OnRetryRepairs(f: Failure, file: seq<Transaction>, pathInContext: bool, writeFails: bool)
    ensures OnRetry(f, file, pathInContext, writeFails).Continue? ==>
      RepairedFrom(file, OnRetry(f, file, pathInContext, writeFails).file, RepairDescription)
  {
    var r := OnRetry(f, file, pathInContext, writeFails);
    if r.Continue? {
      if r.repaired.Some? {
        RecreateRepairs(file, r.repaired.value, RepairDescription);
      } else {
        RepairedFromRefl(file, RepairDescription);
      }
    }
  }

  /** Under a callback that only repairs, the file a run leaves behind is the original one after repairs. */
  lemma {:induction false} PolicyRepairs(file: seq<Transaction>, attempt: (seq<Transaction>, nat) -> Processed,
                                         hook: (Failure, seq<Transaction>, nat) -> HookResult, retries: nat, desc: string)
    requires retries <= MaxRetries
    requires forall f, fl, n :: hook(f, fl, n).Continue? ==> RepairedFrom(fl, hook(f, fl, n).file, desc)
    ensures RepairedFrom(file, Policy(file, attempt, hook, retries).file, desc)
    decreases MaxRetries - retries
  {
    var p := attempt(file, retries);
    if p.outcome.Failure? && retries < MaxRetries {
      var h := hook(p.outcome.error, file, retries + 1);
      if h.Continue? {
        PolicyRepairs(h.file, attempt, hook, retries + 1, desc);
        RepairedFromTrans(file, h.file, Policy(h.file, attempt, hook, retries + 1).file, desc);
        return;
      }
    }
    RepairedFromRefl(file, desc);
  }

  /** A run of the policy leaves the source file as it was, up to description repairs. */
  lemma RunRepairs(file: seq<Transaction>, env: Env)
    ensures RepairedFrom(file, RunPolicy(file, env).file, RepairDescription)
  {
    forall f, fl, n | HookIn(env)(f, fl, n).Continue?
      ensures RepairedFrom(fl, HookIn(env)(f, fl, n).file, RepairDescription)
    {
      OnRetryRepairs(f, fl, env.pathInContext, env.writeFails(n));
    }
    PolicyRepairs(file, AttemptIn(env), HookIn(env), 0, RepairDescription);
  }

  /** Every batch is non-empty and passes the validator. */
  predicate ValidBatches(bs: seq<seq<Transaction>>, now: Ticks)
  {
    forall b :: b in bs ==> |b| > 0 && ValidateBatch(b, now) == []
  }

  /** Every execution inserts only valid batches. */
  ghost predicate InsertsValid(attempt: (seq<Transaction>, nat) -> Processed, now: Ticks)
  {
    forall fl, n :: ValidBatches(attempt(fl, n).inserts, now)
  }

  /** A successful execution inserted exactly its own file. */
  ghost predicate InsertsOwnFile(attempt: (seq<Transaction>, nat) -> Processed)
  {
    forall fl, n :: attempt(fl, n).outcome.Success? ==> attempt(fl, n).inserts == [fl]
  }

  lemma ValidBatchesAppend(a: seq<seq<Transaction>>, b: seq<seq<Transaction>>, now: Ticks)
    requires ValidBatches(a, now) && ValidBatches(b, now)
    ensures ValidBatches(a + b, now)
  {
  }

  lemma AttemptInserts(file: seq<Transaction>, now: Ticks, insertFails: bool)
    ensures ValidBatches(ProcessTransactions(file, now, insertFails).inserts, now)
    ensures ProcessTransactions(file, now, insertFails).outcome.Success? ==>
      ProcessTransactions(file, now, insertFails).inserts == [file]
  {
  }

  /** The run inserted its final file last. */
  predicate EndsWithFile(r: Run)
  {
    |r.inserts| > 0 && r.inserts[|r.inserts| - 1] == r.file
  }

  /** The outcome of a run whose first execution failed and whose callback let it go on. */
  lemma PolicyContinues(file: seq<Transaction>, attempt: (seq<Transaction>, nat) -> Processed,
                        hook: (Failure, seq<Transaction>, nat) -> HookResult, retries: nat)
    requires retries < MaxRetries
    requires attempt(file, retries).outcome.Failure?
    requires hook(attempt(file, retries).outcome.error, file, retries + 1).Continue?
    ensures var p := attempt(file, retries);
      var h := hook(p.outcome.error, file, retries + 1);
      var rest := Policy(h.file, attempt, hook, retries + 1);
      var r := Policy(file, attempt, hook, retries);
      r.inserts == p.inserts + rest.inserts && r.status == rest.status && r.file == rest.file
  {
  }

  /** The outcome of a run that ends with its first execution. */
  lemma PolicyStops(file: seq<Transaction>, attempt: (seq<Transaction>, nat) -> Processed,
                    hook: (Failure, seq<Transaction>, nat) -> HookResult, retries: nat)
    requires retries <= MaxRetries
    requires attempt(file, retries).outcome.Failure? && retries < MaxRetries ==>
      hook(attempt(file, retries).outcome.error, file, retries + 1).HookThrew?
    ensures var r := Policy(file, attempt, hook, retries);
      && r.file == file && r.inserts == attempt(file, retries).inserts
      && (r.status.Succeeded? <==> attempt(file, retries).outcome.Success?)
  {
  }

  /** When every execution inserts only valid batches, so does the whole run. */
  lemma {:induction false} PolicyInserts(file: seq<Transaction>, attempt: (seq<Transaction>, nat) -> Processed,
                                         hook: (Failure, seq<Transaction>, nat) -> HookResult, retries: nat, now: Ticks)
    requires retries <= MaxRetries
    requires InsertsValid(attempt, now)
    ensures ValidBatches(Policy(file, attempt, hook, retries).inserts, now)
    decreases MaxRetries - retries
  {
    var p := attempt(file, retries);
    assert ValidBatches(p.inserts, now);
    if p.outcome.Failure? && retries < MaxRetries && hook(p.outcome.error, file, retries + 1).Continue? {
      var h := hook(p.outcome.error, file, retries + 1);
      PolicyContinues(file, attempt, hook, retries);
      PolicyInserts(h.file, attempt, hook, retries + 1, now);
      ValidBatchesAppend(p.inserts, Policy(h.file, attempt, hook, retries + 1).inserts, now);
    }
  }

  /** When a successful execution inserted its own file, a successful run inserted its final file last. */
  lemma {:induction false} PolicyEndsWithFile(file: seq<Transaction>, attempt: (seq<Transaction>, nat) -> Processed,
                                              hook: (Failure, seq<Transaction>, nat) -> HookResult, retries: nat)
    requires retries <= MaxRetries
    requires InsertsOwnFile(attempt)
    ensures Policy(file, attempt, hook, retries).status.Succeeded? ==> EndsWithFile(Policy(file, attempt, hook, retries))
    decreases MaxRetries - retries
  {
    var p := attempt(file, retries);
    if p.outcome.Failure? && retries < MaxRetries && hook(p.outcome.error, file, retries + 1).Continue? {
      var h := hook(p.outcome.error, file, retries + 1);
      PolicyEndsWithFile(h.file, attempt, hook, retries + 1);
      ContinueEndsWithFile(file, attempt, hook, retries);
    } else {
      PolicyStops(file, attempt, hook, retries);
      if p.outcome.Success? {
        assert p.inserts == [file];
      }
    }
  }

  /** A run that goes on ends with its file when the rest of it does. */
  lemma ContinueEndsWithFile(file: seq<Transaction>, attempt: (seq<Transaction>, nat) -> Processed,
                             hook: (Failure, seq<Transaction>, nat) -> HookResult, retries: nat)
    requires retries < MaxRetries
    requires attempt(file, retries).outcome.Failure?
    requires hook(attempt(file, retries).outcome.error, file, retries + 1).Continue?
    requires var rest := Policy(hook(attempt(file, retries).outcome.error, file, retries + 1).file, attempt, hook, retries + 1);
      rest.status.Succeeded? ==> EndsWithFile(rest)
    ensures Policy(file, attempt, hook, retries).status.Succeeded? ==> EndsWithFile(Policy(file, attempt, hook, retries))
  {
    var p := attempt(file, retries);
    var rest := Policy(hook(p.outcome.error, file, retries + 1).file, attempt, hook, retries + 1);
    PolicyContinues(file, attempt, hook, retries);
    if rest.status.Succeeded? {
      LastOfAppend(p.inserts, rest.inserts);
    }
  }

  lemma LastOfAppend<T>(a: seq<T>, b: seq<T>)
    requires |b| > 0
    ensures |a + b| > 0 && (a + b)[|a + b| - 1] == b[|b| - 1]
  {
  }

  /**
   * Only whole, non-empty, valid batches reach the bulk insert, and a run that
   * succeeds inserted its final file last.
   */
  lemma RunInserts(file: seq<Transaction>, env: Env)
    ensures ValidBatches(RunPolicy(file, env).inserts, env.now)
    ensures RunPolicy(file, env).status.Succeeded? ==>
      var r := RunPolicy(file, env);
      |r.inserts| > 0 && r.inserts[|r.inserts| - 1] == r.file
  {
    RunPolicyUnfold(file, env);
    AttemptInInserts(env);
    PolicyInserts(file, AttemptIn(env), HookIn(env), 0, env.now);
    PolicyEndsWithFile(file, AttemptIn(env), HookIn(env), 0);
  }

  lemma AttemptInInserts(env: Env)
    ensures InsertsValid(AttemptIn(env), env.now)
    ensures InsertsOwnFile(AttemptIn(env))
  {
    forall fl, n
      ensures ValidBatches(AttemptIn(env)(fl, n).inserts, env.now)
      ensures AttemptIn(env)(fl, n).outcome.Success? ==> AttemptIn(env)(fl, n).inserts == [fl]
    {
      AttemptInserts(fl, env.now, env.insertFails(n));
    }
  }

  /**
   * The callback raises exactly when the file path is missing from the context: past the
   * lookup, a validator error never makes it raise, since its messages carry two bars or none.
   */
  lemma OnRetryNeverThrows(f: Failure, file: seq<Transaction>, pathInContext: bool, writeFails: bool)
    ensures OnRetry(f, file, pathInContext, writeFails) == HookThrew <==> !pathInContext
  {
    if f.InvalidBatch? {
      var errs := f.errors;
      var acts := ActionsOf(errs);
      forall i | 0 <= i < |acts|
        ensures acts[i] != Throw
      {
        ClassifyMessage(errs[i].rule, errs[i].recordId);
      }
    }
  }

  /**
   * A description error whose record can be repaired is never passed over: the callback
   * returns after a repair, of that record or of one named earlier.
   */
  lemma DescriptionErrorRepaired(errs: seq<Issue>, file: seq<Transaction>, writeFails: bool, i: nat)
    requires i < |errs| && IsDescriptionRule(errs[i].rule)
    requires RepairFile(file, errs[i].recordId, RepairDescription, writeFails).Success?
    ensures OnRetry(InvalidBatch(errs), file, true, writeFails).Continue?
    ensures OnRetry(InvalidBatch(errs), file, true, writeFails).repaired.Some?
  {
    OnRetryNeverThrows(InvalidBatch(errs), file, true, writeFails);
    ClassifyMessage(errs[i].rule, errs[i].recordId);
    assert RepairsOn(ActionsOf(errs)[i], RepairIn(file, writeFails));
  }

  /** Under a callback that never raises, no run is aborted. */
  lemma {:induction false} PolicyNeverAborts(file: seq<Transaction>, attempt: (seq<Transaction>, nat) -> Processed,
                                             hook: (Failure, seq<Transaction>, nat) -> HookResult, retries: nat)
    requires retries <= MaxRetries
    requires forall f, fl, n :: hook(f, fl, n) != HookThrew
    ensures !Policy(file, attempt, hook, retries).status.Aborted?
    decreases MaxRetries - retries
  {
    var p := attempt(file, retries);
    if p.outcome.Failure? && retries < MaxRetries {
      var h := hook(p.outcome.error, file, retries + 1);
      PolicyNeverAborts(h.file, attempt, hook, retries + 1);
    }
  }

  /**
   * With the file path in the context, the callback never aborts a run: every failure is
   * retried until success or exhaustion. Without it, the first failure aborts the run.
   */
  lemma RunNeverAborts(file: seq<Transaction>, env: Env)
    ensures env.pathInContext ==>
      RunPolicy(file, env).status.Succeeded? || RunPolicy(file, env).status.Exhausted?
    ensures RunPolicy(file, env).status.Aborted? <==>
      !env.pathInContext && ProcessTransactions(file, env.now, env.insertFails(0)).outcome.Failure?
  {
    if env.pathInContext {
      forall f, fl, n
        ensures HookIn(env)(f, fl, n) != HookThrew
      {
        OnRetryNeverThrows(f, fl, env.pathInContext, env.writeFails(n));
      }
      PolicyNeverAborts(file, AttemptIn(env), HookIn(env), 0);
    } else {
      MissingPathAborts(file, env);
    }
  }

  /**
   * Without the file path in the context, the first execution is the only one: its
   * success ends the run, and its failure makes the callback raise before any wait.
   */
  lemma MissingPathAborts(file: seq<Transaction>, env: Env)
    requires !env.pathInContext
    ensures var p := ProcessTransactions(file, env.now, env.insertFails(0));
      RunPolicy(file, env) == Run(if p.outcome.Success? then Succeeded else Aborted, file, 1, [], p.inserts, [])
  {
    var p := ProcessTransactions(file, env.now, env.insertFails(0));
    assert AttemptIn(env)(file, 0) == p;
    if p.outcome.Failure? {
      var f := p.outcome.error;
      assert HookIn(env)(f, file, 1) == OnRetry(f, file, env.pathInContext, env.writeFails(1));
    }
  }

  /** A run that keeps failing the same way on an unchanged file uses every retry and rethrows. */
  lemma {:induction false} PolicyStuck(file: seq<Transaction>, attempt: (seq<Transaction>, nat) -> Processed,
                                       hook: (Failure, seq<Transaction>, nat) -> HookResult, retries: nat, f: Failure)
    requires retries <= MaxRetries
    requires forall n :: retries <= n <= MaxRetries ==> attempt(file, n) == Processed([], Failure(f))
    requires forall n :: retries < n <= MaxRetries ==> hook(f, file, n) == Continue(file, None)
    ensures var r := Policy(file, attempt, hook, retries);
      r.status == Exhausted(f) && r.file == file && r.inserts == [] && r.repairs == []
    decreases MaxRetries - retries
  {
    if retries < MaxRetries {
      PolicyStuck(file, attempt, hook, retries + 1, f);
    }
  }

  /** An empty batch is rejected four times, 2, 4 and 8 seconds apart, and nothing is inserted. */
  lemma EmptyBatchExhausts(env: Env)
    requires env.pathInContext
    ensures RunPolicy([], env) == Run(Exhausted(NoTransactions), [], 4, [2, 4, 8], [], [])
  {
    forall n | 0 <= n <= MaxRetries
      ensures AttemptIn(env)([], n) == Processed([], Failure(NoTransactions))
    {
      assert AttemptIn(env)([], n) == ProcessTransactions([], env.now, env.insertFails(n));
    }
    forall n | 0 < n <= MaxRetries
      ensures HookIn(env)(NoTransactions, [], n) == Continue([], None)
    {
      assert HookIn(env)(NoTransactions, [], n) == OnRetry(NoTransactions, [], env.pathInContext, env.writeFails(n));
    }
    PolicyStuck([], AttemptIn(env), HookIn(env), 0, NoTransactions);
  }

  /** With no description error among them, the callback passes the errors over. */
  lemma NothingToRepair(errs: seq<Issue>, file: seq<Transaction>, writeFails: bool)
    requires forall i :: 0 <= i < |errs| ==> !IsDescriptionRule(errs[i].rule)
    ensures OnRetry(InvalidBatch(errs), file, true, writeFails) == Continue(file, None)
  {
    var acts := ActionsOf(errs);
    forall i | 0 <= i < |acts|
      ensures acts[i] == Skip
    {
      ClassifyMessage(errs[i].rule, errs[i].recordId);
    }
  }

  /**
   * A batch whose only faults are outside the descriptions is never repaired: it is
   * rejected four times and the file is left alone.
   */
  lemma UnrepairableExhausts(ts: seq<Transaction>, env: Env)
    requires ValidateBatch(ts, env.now) != []
    requires forall i :: 0 <= i < |ValidateBatch(ts, env.now)| ==> !IsDescriptionRule(ValidateBatch(ts, env.now)[i].rule)
    requires env.pathInContext
    ensures var r := RunPolicy(ts, env);
      && r.status == Exhausted(InvalidBatch(ValidateBatch(ts, env.now)))
      && r.file == ts && r.executions == 4 && r.inserts == [] && r.repairs == []
  {
    var errs := ValidateBatch(ts, env.now);
    assert |ts| > 0;
    forall n | 0 <= n <= MaxRetries
      ensures AttemptIn(env)(ts, n) == Processed([], Failure(InvalidBatch(errs)))
    {
      assert AttemptIn(env)(ts, n) == ProcessTransactions(ts, env.now, env.insertFails(n));
    }
    forall n | 0 < n <= MaxRetries
      ensures HookIn(env)(InvalidBatch(errs), ts, n) == Continue(ts, None)
    {
      NothingToRepair(errs, ts, env.writeFails(n));
      assert HookIn(env)(InvalidBatch(errs), ts, n) == OnRetry(InvalidBatch(errs), ts, env.pathInContext, env.writeFails(n));
    }
    PolicyStuck(ts, AttemptIn(env), HookIn(env), 0, InvalidBatch(errs));
  }

  /** A valid batch whose insert goes through is inserted once, on the first execution. */
  lemma FirstTrySucceeds(ts: seq<Transaction>, env: Env)
    requires |ts| > 0 && forall i :: 0 <= i < |ts| ==> WellFormed(ts[i], env.now)
    requires !env.insertFails(0)
    ensures RunPolicy(ts, env) == Run(Succeeded, ts, 1, [], [ts], [])
  {
    BatchValidIff(ts, env.now);
    assert AttemptIn(env)(ts, 0) == Processed([ts], Success(()));
  }

  /** A failed insert is retried after two seconds on the unchanged file, and the batch goes to the sink twice. */
  lemma SinkFailureRetried(ts: seq<Transaction>, env: Env)
    requires |ts| > 0 && forall i :: 0 <= i < |ts| ==> WellFormed(ts[i], env.now)
    requires env.insertFails(0) && !env.insertFails(1)
    requires env.pathInContext
    ensures RunPolicy(ts, env) == Run(Succeeded, ts, 2, [2], [ts, ts], [])
  {
    BatchValidIff(ts, env.now);
    assert AttemptIn(env)(ts, 0) == Processed([ts], Failure(SinkFailure));
    assert HookIn(env)(SinkFailure, ts, 1) == OnRetry(SinkFailure, ts, env.pathInContext, env.writeFails(1));
    assert AttemptIn(env)(ts, 1) == Processed([ts], Success(()));
  }

  /** A check that still fails once the description is replaced is a description check. */
  lemma OnlyDescriptionFails(t: Transaction, now: Ticks, k: Rule, desc: string)
    requires WellFormed(t.(description := desc), now) && Violated(k, t, now)
    ensures IsDescriptionRule(k)
  {
  }

  /** The callback after the rejection of a one-record batch whose description alone is at fault. */
  lemma RepairSingle(t: Transaction, now: Ticks)
    requires !WellFormed(t, now) && WellFormed(t.(description := RepairDescription), now)
    ensures ValidateBatch([t], now) != []
    ensures OnRetry(InvalidBatch(ValidateBatch([t], now)), [t], true, false)
         == Continue([t.(description := RepairDescription)], Some(t.transactionId))
  {
    var id := t.transactionId;
    var errs := ValidateBatch([t], now);
    BatchSingle(t, now);
    RecordValidIff(t, now);
    RecordIssuesOrdered(t, now);
    OnlyDescriptionFails(t, now, errs[0].rule, RepairDescription);
    ClassifyMessage(errs[0].rule, id);
    var acts := ActionsOf(errs);
    assert acts[0] == Attempt(id);
    RecreateSingle(t, RepairDescription);
    var repair := (id: Guid) => RepairFile([t], id, RepairDescription, false);
    assert repair(id) == Success([t.(description := RepairDescription)]);
    assert OnRetry(InvalidBatch(errs), [t], true, false) == ScanActions(acts, [t], repair);
  }

  /** A first execution that fails, a callback that repairs, and a second execution that goes through. */
  lemma PolicyRepairedOnce(file: seq<Transaction>, attempt: (seq<Transaction>, nat) -> Processed,
                           hook: (Failure, seq<Transaction>, nat) -> HookResult,
                           f: Failure, next: seq<Transaction>, id: Guid)
    requires attempt(file, 0) == Processed([], Failure(f))
    requires hook(f, file, 1) == Continue(next, Some(id))
    requires attempt(next, 1) == Processed([next], Success(()))
    ensures Policy(file, attempt, hook, 0) == Run(Succeeded, next, 2, [Delay(1)], [next], [id])
  {
    assert Policy(next, attempt, hook, 1) == Run(Succeeded, next, 1, [], [next], []);
  }

  /**
   * A one-record batch whose description alone is at fault is repaired before the first
   * retry and goes through on it, two seconds later.
   */
  lemma DescriptionRepaired(t: Transaction, env: Env)
    requires !WellFormed(t, env.now) && WellFormed(t.(description := RepairDescription), env.now)
    requires env.pathInContext && !env.writeFails(1) && !env.insertFails(1)
    ensures var fixed := t.(description := RepairDescription);
      RunPolicy([t], env) == Run(Succeeded, [fixed], 2, [2], [[fixed]], [t.transactionId])
  {
    var fixed := t.(description := RepairDescription);
    var errs := ValidateBatch([t], env.now);
    RepairSingle(t, env.now);
    assert AttemptIn(env)([t], 0) == ProcessTransactions([t], env.now, env.insertFails(0));
    assert AttemptIn(env)([t], 0) == Processed([], Failure(InvalidBatch(errs)));
    assert HookIn(env)(InvalidBatch(errs), [t], 1) == OnRetry(InvalidBatch(errs), [t], env.pathInContext, env.writeFails(1));
    BatchValidIff([fixed], env.now);
    assert AttemptIn(env)([fixed], 1) == ProcessTransactions([fixed], env.now, env.insertFails(1));
    PolicyRepairedOnce([t], AttemptIn(env), HookIn(env), InvalidBatch(errs), [fixed], t.transactionId);
    DelaySchedule();
  }
}
