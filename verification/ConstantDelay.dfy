/** memos/lib/cron/constantdelay.go: a fixed delay, rounded to whole seconds. */
module ConstantDelay {
  const SECOND := 1_000_000_000

  /** `Every`: at least one second, fractions of a second dropped. */
  function Every(duration: int): int {
    var d := if duration < SECOND then SECOND else duration;
    d - d % SECOND
  }

  /** `Next`, on nanoseconds since a whole second. */
  function Next(delay: int, t: int): int {
    t + (delay - t % SECOND)
  }

  /** The delay keeps the schedule contract, lands on whole seconds, and repeats at its own period. */
  lemma NextKeepsContract(duration: int, t: int)
    ensures var delay := Every(duration);
            && t < Next(delay, t) <= t + delay
            && Next(delay, t) % SECOND == 0
            && Next(delay, Next(delay, t)) == Next(delay, t) + delay
    ensures Every(duration) >= SECOND && (duration >= SECOND ==> duration - SECOND < Every(duration) <= duration)
  {
  }
}
