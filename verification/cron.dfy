/**
 * The schedule of the recurring job: a five-field cron expression whose minute
 * field steps by whole minutes of the configured interval.
 */
module Cron {
  import opened Wrappers
  import opened Strings

  // The start of the minute field: a step over every minute.
  const StepPrefix := "*/"

  /** Every hour, day, month and weekday. */
  const OtherFields := " * * * *"

  // Every minute: the expression used when the interval is under a minute.
  const Fallback := "*/1 * * * *"

  /** The minute step: whole minutes of the interval, or 1 for an interval under a minute. */
  function MinuteStep(intervalInSeconds: int): (r: nat)
    ensures r >= 1
    ensures intervalInSeconds >= 60 ==> r * 60 <= intervalInSeconds < (r + 1) * 60
    ensures intervalInSeconds < 60 ==> r == 1
  {
    if intervalInSeconds >= 60 then intervalInSeconds / 60 else 1
  }

  /** The cron expression the job is registered with. */
  function CronExpression(intervalInSeconds: int): (r: string)
    ensures |r| > |StepPrefix| + |OtherFields|
    ensures r[..|StepPrefix|] == StepPrefix
    ensures r[|r| - |OtherFields|..] == OtherFields
  {
    StepPrefix + NatToString(MinuteStep(intervalInSeconds)) + OtherFields
  }

  // Reads back the step of an expression of the shape  */<digits> * * * *
  function ParseCron(s: string): (r: Option<nat>)
    ensures r.Some? ==> |s| > |StepPrefix| + |OtherFields|
    ensures r.Some? ==> s[..|StepPrefix|] == StepPrefix && s[|s| - |OtherFields|..] == OtherFields
  {
    if |s| <= |StepPrefix| + |OtherFields| then None
    else if s[..|StepPrefix|] != StepPrefix || s[|s| - |OtherFields|..] != OtherFields then None
    else ParseNat(s[|StepPrefix|..|s| - |OtherFields|])
  }

  /** Round trip: the step can be read back from the expression. */
  lemma ParseCronExpression(intervalInSeconds: int)
    ensures ParseCron(CronExpression(intervalInSeconds)) == Some(MinuteStep(intervalInSeconds))
  {
    var digits := NatToString(MinuteStep(intervalInSeconds));
    var s := CronExpression(intervalInSeconds);
    assert s[|StepPrefix|..|s| - |OtherFields|] == digits;
    ParseNatToString(MinuteStep(intervalInSeconds));
  }

  /** Different steps give different expressions. */
  lemma CronExpressionDistinguishes(a: int, b: int)
    requires MinuteStep(a) != MinuteStep(b)
    ensures CronExpression(a) != CronExpression(b)
  {
    ParseCronExpression(a);
    ParseCronExpression(b);
  }

  /** An interval under two minutes, negative ones included, runs every minute. */
  lemma UnderTwoMinutesFallback(intervalInSeconds: int)
    requires intervalInSeconds < 120
    ensures CronExpression(intervalInSeconds) == Fallback
  {
    assert NatToString(1) == "1";
  }

  /** From two minutes on, the expression is no longer the fallback. */
  lemma TwoMinutesOrMoreNotFallback(intervalInSeconds: int)
    requires intervalInSeconds >= 120
    ensures CronExpression(intervalInSeconds) != Fallback
  {
    UnderTwoMinutesFallback(0);
    CronExpressionDistinguishes(intervalInSeconds, 0);
  }

  /** A longer interval never gives a shorter step. */
  lemma MinuteStepMonotone(a: int, b: int)
    requires a <= b
    ensures MinuteStep(a) <= MinuteStep(b)
  {
    if a >= 60 {
      assert MinuteStep(a) * 60 <= b;
    }
  }
}
