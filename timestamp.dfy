/** The start-timestamp rule of src/index.ts: the seconds conversion of
    lines 24, 60 and 62, the cascade at startup (lines 28-30) and the cascade
    on a reload (lines 57-63). */
module Timestamp {
  import opened Wrappers
  import opened PresenceConfig

  const MillisPerSecond: int := 1000

  /** `Math.floor(ms / 1000)`. Dafny's division by a positive divisor rounds
      toward negative infinity, as `Math.floor` does. */
  function SecondsOf(ms: int): (s: int)
    ensures s * MillisPerSecond <= ms < (s + 1) * MillisPerSecond
    ensures 0 <= ms ==> 0 <= s
  {
    ms / MillisPerSecond
  }

  /** JavaScript truthiness of `manualDuration`: absent and `0` are falsy. */
  predicate DurationSet(c: Cfg) {
    c.manualDuration.Some? && c.manualDuration.value != 0
  }

  /** JavaScript truthiness of `refreshTime`: only `true` is truthy. */
  predicate RefreshSet(c: Cfg) {
    c.refreshTime == Some(true)
  }

  /** Lines 28-30: `manualTime ?? (manualDuration ? firstTime - manualDuration : firstTime)`. */
  function StartupTimestamp(c: Cfg, firstTime: int): int {
    match c.manualTime
    case Some(t) => t
    case None => if DurationSet(c) then firstTime - c.manualDuration.value else firstTime
  }

  /** Lines 57-63, where `nowSec` is `Math.floor(Date.now() / 1000)` at the
      reload and `firstTime` is still the startup second. */
  function ReloadTimestamp(c: Cfg, firstTime: int, nowSec: int): int {
    match c.manualTime
    case Some(t) => t
    case None =>
      if DurationSet(c) then nowSec - c.manualDuration.value
      else if RefreshSet(c) then nowSec
      else firstTime
  }

  /** `manualTime` is tested with `??`: when it is present, even as `0`, it is
      the timestamp at startup and on every reload, whatever the other fields
      and clocks are. */
  lemma ManualTimeWins(c: Cfg, firstTime: int, nowSec: int)
    requires c.manualTime.Some?
    ensures StartupTimestamp(c, firstTime) == c.manualTime.value
    ensures ReloadTimestamp(c, firstTime, nowSec) == c.manualTime.value
    ensures forall d: Cfg :: d.manualTime == c.manualTime ==>
              StartupTimestamp(d, firstTime) == StartupTimestamp(c, firstTime)
  {
  }

  /** `manualDuration` is tested for truthiness: a duration of `0` behaves
      exactly as an absent one, at startup and on a reload. */
  lemma ZeroDurationIsAbsent(c: Cfg, firstTime: int, nowSec: int)
    ensures StartupTimestamp(c.(manualDuration := Some(0)), firstTime)
         == StartupTimestamp(c.(manualDuration := None), firstTime)
    ensures ReloadTimestamp(c.(manualDuration := Some(0)), firstTime, nowSec)
         == ReloadTimestamp(c.(manualDuration := None), firstTime, nowSec)
  {
  }

  /** Without `manualTime`, a non-zero duration dates the activity that many
      seconds back: from the process start at startup, from the current
      second (not `firstTime`) on a reload. */
  lemma DurationCountsBack(c: Cfg, firstTime: int, nowSec: int)
    requires c.manualTime.None? && DurationSet(c)
    ensures StartupTimestamp(c, firstTime) + c.manualDuration.value == firstTime
    ensures ReloadTimestamp(c, firstTime, nowSec) + c.manualDuration.value == nowSec
  {
  }

  /** Without any manual field, startup uses the process-start second. */
  lemma StartupFallsBackToFirstTime(c: Cfg, firstTime: int)
    requires c.manualTime.None? && !DurationSet(c)
    ensures StartupTimestamp(c, firstTime) == firstTime
  {
  }

  /** Without any manual field, a reload uses the current second when
      `refreshTime` is truthy and otherwise exactly `firstTime`, whatever the
      current second is. */
  lemma ReloadFallback(c: Cfg, firstTime: int, nowSec: int)
    requires c.manualTime.None? && !DurationSet(c)
    ensures RefreshSet(c) ==> ReloadTimestamp(c, firstTime, nowSec) == nowSec
    ensures !RefreshSet(c) ==> ReloadTimestamp(c, firstTime, nowSec) == firstTime
  {
  }

  /** A later reload never yields an earlier timestamp, and when the
      timestamp follows the clock (a non-zero duration or a truthy
      `refreshTime`, no `manualTime`) it moves by exactly the elapsed seconds. */
  lemma ReloadFollowsClock(c: Cfg, firstTime: int, now1: int, now2: int)
    requires now1 <= now2
    ensures ReloadTimestamp(c, firstTime, now1) <= ReloadTimestamp(c, firstTime, now2)
    ensures c.manualTime.None? && (DurationSet(c) || RefreshSet(c)) ==>
              ReloadTimestamp(c, firstTime, now2) - ReloadTimestamp(c, firstTime, now1) == now2 - now1
  {
  }

  /** The two cascades agree when the reload happens in the process-start
      second: startup is the reload rule evaluated at `firstTime`. */
  lemma StartupIsReloadAtFirstSecond(c: Cfg, firstTime: int)
    ensures ReloadTimestamp(c, firstTime, firstTime) == StartupTimestamp(c, firstTime)
  {
  }
}
