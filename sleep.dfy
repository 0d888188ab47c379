/**
 * How long the daemon idles after a cycle: until the earliest freshly
 * rescheduled job is due, but never less than 3 seconds and never more than
 * the 60 seconds hard-coded as the cycle's default.
 */
module SleepPlanner {

  /** The default and ceiling: the literal 60 the cycle starts from (not the `--sleep` option). */
  const DefaultSleep: int := 60
  /** The floor that keeps the daemon from spinning. */
  const MinSleep: int := 3

  /** `min` of a non-empty list of times. */
  function MinOf(s: seq<int>): (m: int)
    requires |s| > 0
    ensures m in s
    ensures forall i :: 0 <= i < |s| ==> m <= s[i]
  {
    if |s| == 1 then s[0]
    else
      var r := MinOf(s[1..]);
      if s[0] <= r then s[0] else r
  }

  /**
   * The sleep after a cycle whose rescheduled due times are `nexts`, read
   * against the clock value `now`. This is the numeric clamp the cycle's
   * comments describe (3 if under 3, the remaining time if under 60, else
   * 60); the code as written compares a boolean instead, see LiteralSleep.
   *
   * The contract characterises the value completely: it lies in [3, 60]; it
   * is 60 when nothing ran; above the floor it does not overshoot any
   * rescheduled due time; strictly between floor and ceiling it wakes exactly
   * when one is due; the floor is used only when some job is due within 3
   * seconds, and the ceiling only when none is due within 60.
   */
  function PlanSleep(nexts: seq<int>, now: int): (sleep: int)
    ensures MinSleep <= sleep <= DefaultSleep
    ensures nexts == [] ==> sleep == DefaultSleep
    ensures sleep > MinSleep ==> forall i :: 0 <= i < |nexts| ==> now + sleep <= nexts[i]
    ensures MinSleep < sleep < DefaultSleep ==> exists i :: 0 <= i < |nexts| && nexts[i] == now + sleep
    ensures sleep == MinSleep ==> exists i :: 0 <= i < |nexts| && nexts[i] <= now + MinSleep
    ensures sleep == DefaultSleep ==> forall i :: 0 <= i < |nexts| ==> nexts[i] >= now + DefaultSleep
  {
    if nexts == [] then DefaultSleep
    else
      var remaining := MinOf(nexts) - now;
      if remaining < MinSleep then MinSleep
      else if remaining < DefaultSleep then remaining
      else DefaultSleep
  }

  /** The clamp in terms of the earliest due time. */
  lemma {:induction false} PlanSleepCases(nexts: seq<int>, now: int)
    requires nexts != []
    ensures var remaining := MinOf(nexts) - now;
      && (remaining < MinSleep ==> PlanSleep(nexts, now) == MinSleep)
      && (MinSleep <= remaining < DefaultSleep ==> PlanSleep(nexts, now) == remaining)
      && (remaining >= DefaultSleep ==> PlanSleep(nexts, now) == DefaultSleep)
  {
  }

  /** The three boundary cases: due in 1, 45 and 90 seconds. */
  lemma PlanSleepExamples(now: int)
    ensures PlanSleep([now + 1], now) == 3
    ensures PlanSleep([now + 45], now) == 45
    ensures PlanSleep([now + 90, now + 120], now) == 60
  {
  }

  /** PHP's `<` between a bool and an int: both sides become bools, and false < true. */
  predicate BoolLessThanInt(b: bool, n: int) { !b && n != 0 }

  /** An int slot assigned a bool: `true` is 1 and `false` is 0. */
  function BoolAsInt(b: bool): int { if b then 1 else 0 }

  /**
   * The sleep as the cycle literally computes it: `diff` is the boolean
   * `min - now < 60`, and the two branches then compare that boolean with 3
   * and with 60.
   */
  function LiteralSleep(nexts: seq<int>, now: int): (sleep: int)
    ensures sleep == MinSleep || sleep == DefaultSleep
  {
    if nexts == [] then DefaultSleep
    else
      var diff := MinOf(nexts) - now < DefaultSleep;
      if BoolLessThanInt(diff, MinSleep) then MinSleep
      else if BoolLessThanInt(diff, DefaultSleep) then BoolAsInt(diff)
      else DefaultSleep
  }

  /** As written the clamp is inverted: a job due soon gives 60, one due late gives 3. */
  lemma LiteralSleepInverted(nexts: seq<int>, now: int)
    requires nexts != []
    ensures LiteralSleep(nexts, now) == if MinOf(nexts) - now < DefaultSleep then DefaultSleep else MinSleep
  {
  }

  /** A job due in one second: the literal code sleeps 60, the intended clamp 3. */
  lemma LiteralSleepDiverges(now: int)
    ensures LiteralSleep([now + 1], now) == DefaultSleep
    ensures PlanSleep([now + 1], now) == MinSleep
  {
  }
}
