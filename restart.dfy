/**
 * The restart and memory guard checked before each job. The restart marker
 * is a timestamp kept in the cache under `think:crontab:restart`; a missing
 * marker is PHP `null`, which the guard's arithmetic and loose comparison
 * treat as 0.
 */
module RestartMonitor {
  import opened Wrappers

  /** One hour: older markers are refreshed and force a restart. */
  const MaxMarkerAge: int := 3600

  /** The marker as an integer: `null` counts as 0 in `time() - null` and in `null != 0`. */
  function MarkerValue(marker: Option<int>): int { marker.GetOr(0) }

  /** The marker is more than an hour old at `clock`. */
  predicate Expired(marker: Option<int>, clock: int)
  {
    clock - MarkerValue(marker) > MaxMarkerAge
  }

  /** The marker differs, under PHP's loose `!=`, from the one seen at start-up. */
  predicate Signalled(marker: Option<int>, lastRestart: Option<int>)
  {
    MarkerValue(marker) != MarkerValue(lastRestart)
  }

  /** What `queueShouldRestart` answers. */
  predicate ShouldRestart(marker: Option<int>, lastRestart: Option<int>, clock: int)
  {
    Expired(marker, clock) || Signalled(marker, lastRestart)
  }

  /** The marker after `queueShouldRestart`: refreshed to the clock when it had expired. */
  function MarkerAfterCheck(marker: Option<int>, clock: int): (m: Option<int>)
    ensures Expired(marker, clock) ==> m == Some(clock)
    ensures !Expired(marker, clock) ==> m == marker
  {
    if Expired(marker, clock) then Some(clock) else marker
  }

  /** `memoryExceeded`: usage at or above the limit. */
  predicate MemoryExceeded(usage: int, limit: int) { usage >= limit }

  /** A refreshed marker does not expire again for an hour. */
  lemma RefreshOpensNewWindow(marker: Option<int>, clock: int, later: int)
    requires Expired(marker, clock)
    requires later <= clock + MaxMarkerAge
    ensures !Expired(MarkerAfterCheck(marker, clock), later)
  {
  }

  /** Without a signal, the guard stays quiet exactly until the marker is an hour old. */
  lemma QuietUntilAnHour(marker: Option<int>, clock: int)
    ensures !ShouldRestart(marker, marker, clock) <==> clock <= MarkerValue(marker) + MaxMarkerAge
  {
  }

  /** A missing marker and a marker holding 0 are indistinguishable to the guard. */
  lemma MissingMarkerIsZero(lastRestart: Option<int>, clock: int)
    ensures ShouldRestart(None, lastRestart, clock) == ShouldRestart(Some(0), lastRestart, clock)
    ensures ShouldRestart(lastRestart, None, clock) == ShouldRestart(lastRestart, Some(0), clock)
  {
  }
}
