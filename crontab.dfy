/**
 * The daemon: the job table and the restart marker it reads and writes, and
 * one scan-dispatch-reschedule cycle over them. The clock, the memory
 * footprint and what each invoked handler does are inputs of a cycle.
 */
module Crontab {
  import opened Wrappers
  import opened Jobs
  import opened Handlers
  import opened SleepPlanner
  import opened RestartMonitor

  /** The pause after a handler exception, and after a failure the cycle does not survive. */
  const FailurePause: int := 3

  /**
   * What an invoked handler does: return, throw an `Exception` (caught per
   * job), or throw another `Throwable` such as a PHP `Error` (not caught per
   * job; it ends the cycle).
   */
  datatype Outcome = Returned | ThrewException | ThrewError

  /**
   * What the environment shows at the job in position p of a cycle: the
   * memory usage, the clock and the restart marker the cache holds when the
   * guard runs (the cache is shared, so an operator may have written it since
   * the previous job), what the handler does if invoked, and the clock when
   * the row is updated.
   */
  datatype Probe = Probe(usage: int, clock: int, cached: Option<int>, outcome: Outcome, updateClock: int)

  /**
   * One dispatch attempt: the row, the invocation performed if any, the
   * payload text it passes to the invoked method, its outcome, and the pause
   * it caused.
   */
  datatype Attempt = Attempt(id: int, call: Option<Invocation>, payload: string, outcome: Outcome, pause: int)

  /**
   * How a cycle ends: the guard stopped the process (`die()`); it slept the
   * planned time; or a failure reached the cycle's own catch and it paused.
   */
  datatype CycleEnd = Stopped | Slept(seconds: int) | Recovered(seconds: int)

  /** The guard before a job: memory first, the restart check only if memory is fine. */
  predicate GuardFires(marker: Option<int>, lastRestart: Option<int>, memoryLimit: int, usage: int, clock: int)
  {
    MemoryExceeded(usage, memoryLimit) || ShouldRestart(marker, lastRestart, clock)
  }

  /**
   * How a cycle turns a handler string into the invocation it performs, if
   * any. The cycle is stated for any dispatcher; the daemon's own is
   * DispatchIn.
   */
  type Dispatcher = string -> Option<Invocation>

  /** The daemon's dispatcher: `resolveAndFire` in namespace `ns` against the loadable classes `registry`. */
  function DispatchIn(ns: string, registry: set<string>): Dispatcher
  {
    h => ResolveAndFire(ns, registry, h)
  }

  /** The attempt made for row `j`: nothing is invoked, so nothing can fail, when its class does not resolve. */
  function AttemptFor(j: Job, p: Probe, dispatch: Dispatcher): (a: Attempt)
    ensures a.id == j.id && a.call == dispatch(j.handler) && a.payload == j.payload
    ensures a.call.None? ==> a.outcome == Returned
    ensures a.call.Some? ==> a.outcome == p.outcome
    ensures a.pause == (if a.outcome == ThrewException then FailurePause else 0)
  {
    var call := dispatch(j.handler);
    var outcome := if call.None? then Returned else p.outcome;
    Attempt(j.id, call, j.payload, outcome, if outcome == ThrewException then FailurePause else 0)
  }

  /**
   * With the daemon's dispatcher, a row whose class does not resolve is passed
   * over: nothing is invoked, nothing is thrown and there is no pause.
   * Otherwise the parsed method is invoked on the expanded class and the
   * handler's behaviour decides the outcome.
   */
  lemma DaemonAttempt(j: Job, p: Probe, ns: string, registry: set<string>)
    ensures var a := AttemptFor(j, p, DispatchIn(ns, registry));
      var (cls, meth) := ParseJob(j.handler);
      && (a.call.None? <==> !ClassExists(registry, Expand(ns, cls)))
      && (a.call.None? ==> a.outcome == Returned && a.pause == 0)
      && (a.call.Some? ==> a.call.value == Invocation(Expand(ns, cls), meth) && a.outcome == p.outcome)
  {
  }

  /**
   * The table after the cycle rescheduled the rows at the first `k` of the
   * positions `d`, the one in position p with the clock `probes[p]` shows at
   * its update (what that means row by row is RescheduledRowsAt).
   */
  function RescheduledRows(t0: seq<Job>, d: seq<nat>, k: nat, now: int, probes: seq<Probe>): (t: seq<Job>)
    requires Positions(t0, d) && k <= |d| && |d| <= |probes|
    ensures |t| == |t0|
    decreases k
  {
    if k == 0 then t0
    else RescheduledRows(t0, d, k - 1, now, probes)[d[k - 1] := Rescheduled(t0[d[k - 1]], now, probes[k - 1].updateClock)]
  }

  /** Rows outside the first `k` positions are as they were. */
  lemma {:induction false} RescheduledRowsUntouched(t0: seq<Job>, d: seq<nat>, k: nat, now: int, probes: seq<Probe>, i: nat)
    requires Positions(t0, d) && k <= |d| && |d| <= |probes|
    requires i < |t0| && i !in d[..k]
    ensures RescheduledRows(t0, d, k, now, probes)[i] == t0[i]
    decreases k
  {
    if k > 0 {
      assert d[..k] == d[..k - 1] + [d[k - 1]];
      RescheduledRowsUntouched(t0, d, k - 1, now, probes, i);
    }
  }

  /** Rescheduling keeps every row's id, so ids stay unique. */
  lemma {:induction false} RescheduledRowsIds(t0: seq<Job>, d: seq<nat>, k: nat, now: int, probes: seq<Probe>)
    requires Positions(t0, d) && k <= |d| && |d| <= |probes|
    ensures forall i :: 0 <= i < |t0| ==> RescheduledRows(t0, d, k, now, probes)[i].id == t0[i].id
    ensures UniqueIds(t0) ==> UniqueIds(RescheduledRows(t0, d, k, now, probes))
    decreases k
  {
    if k > 0 {
      RescheduledRowsIds(t0, d, k - 1, now, probes);
    }
    UniqueIdsPairwise(t0);
    UniqueIdsPairwise(RescheduledRows(t0, d, k, now, probes));
  }

  /**
   * When no position repeats, the row at each of the first `k` positions is
   * rescheduled once, with the clock of its own update, and every other row is
   * as it was.
   */
  lemma {:induction false} RescheduledRowsAt(t0: seq<Job>, d: seq<nat>, k: nat, now: int, probes: seq<Probe>)
    requires Positions(t0, d) && k <= |d| && |d| <= |probes|
    requires forall q, r :: 0 <= q < r < |d| ==> d[q] != d[r]
    ensures forall p :: 0 <= p < k ==>
      RescheduledRows(t0, d, k, now, probes)[d[p]] == Rescheduled(t0[d[p]], now, probes[p].updateClock)
    ensures forall i :: 0 <= i < |t0| && i !in d[..k] ==> RescheduledRows(t0, d, k, now, probes)[i] == t0[i]
    decreases k
  {
    if k > 0 {
      RescheduledRowsAt(t0, d, k - 1, now, probes);
      assert d[..k] == d[..k - 1] + [d[k - 1]];
    }
    forall i | 0 <= i < |t0| && i !in d[..k]
      ensures RescheduledRows(t0, d, k, now, probes)[i] == t0[i]
    {
      RescheduledRowsUntouched(t0, d, k, now, probes, i);
    }
  }

  /**
   * A cycle at `now` that got through its first `k` selected rows rescheduled
   * each of them once and touched no other row; in particular every row that
   * is not active or not yet due is left as it was.
   */
  lemma CycleTouchesOnlyDueRows(t0: seq<Job>, now: int, k: nat, probes: seq<Probe>)
    requires k <= |Due(t0, now)| <= |probes|
    ensures var d := Due(t0, now);
      && (forall p :: 0 <= p < k ==>
            RescheduledRows(t0, d, k, now, probes)[d[p]] == Rescheduled(t0[d[p]], now, probes[p].updateClock))
      && (forall i :: 0 <= i < |t0| && !Selected(t0[i], now) ==> RescheduledRows(t0, d, k, now, probes)[i] == t0[i])
  {
    var d := Due(t0, now);
    DueIsSelection(t0, now);
    RescheduledRowsAt(t0, d, k, now, probes);
    forall i | 0 <= i < |t0| && !Selected(t0[i], now)
      ensures RescheduledRows(t0, d, k, now, probes)[i] == t0[i]
    {
      assert i !in d;
    }
  }

  /**
   * The cycle's update by the id of the row in position k, writing that row's
   * previous due time plus one interval, reschedules that row and no other:
   * with unique ids and a position not seen before, it extends the
   * rescheduled rows by one.
   */
  lemma RescheduleStep(t0: seq<Job>, d: seq<nat>, k: nat, now: int, probes: seq<Probe>)
    requires UniqueIds(t0) && Positions(t0, d) && k < |d| && |d| <= |probes|
    requires d[k] !in d[..k]
    ensures UpdateWhereId(RescheduledRows(t0, d, k, now, probes), t0[d[k]].id, now,
                          t0[d[k]].nextExecuteTime + t0[d[k]].intervalSec, probes[k].updateClock)
         == RescheduledRows(t0, d, k + 1, now, probes)
  {
    var t := RescheduledRows(t0, d, k, now, probes);
    RescheduledRowsIds(t0, d, k, now, probes);
    RescheduledRowsUntouched(t0, d, k, now, probes, d[k]);
    UpdateWhereIdOneRow(t, d[k], now, probes[k].updateClock);
  }

  /** The attempts made for the rows in the first `k` of the positions `d`, in order. */
  function AttemptsFor(t: seq<Job>, d: seq<nat>, k: nat, probes: seq<Probe>, dispatch: Dispatcher): (r: seq<Attempt>)
    requires Positions(t, d) && k <= |d| && |d| <= |probes|
    ensures |r| == k
    decreases k
  {
    if k == 0 then []
    else AttemptsFor(t, d, k - 1, probes, dispatch) + [AttemptFor(t[d[k - 1]], probes[k - 1], dispatch)]
  }

  /** The attempt in position p is the one for the row at position `d[p]`, with `probes[p]`. */
  lemma {:induction false} AttemptsForAt(t: seq<Job>, d: seq<nat>, k: nat, probes: seq<Probe>, dispatch: Dispatcher)
    requires Positions(t, d) && k <= |d| && |d| <= |probes|
    ensures forall p :: 0 <= p < k ==> AttemptsFor(t, d, k, probes, dispatch)[p] == AttemptFor(t[d[p]], probes[p], dispatch)
    decreases k
  {
    if k > 0 {
      AttemptsForAt(t, d, k - 1, probes, dispatch);
    }
  }

  /** The guard before the job with probe `p`, on the marker the cache then holds. */
  predicate GuardFiresAt(p: Probe, lastRestart: Option<int>, memoryLimit: int)
  {
    GuardFires(p.cached, lastRestart, memoryLimit, p.usage, p.clock)
  }

  /**
   * The jobs at the first `k` of the positions `d` all got past the guard,
   * each with the marker the cache held at its turn, and none of them threw a
   * non-`Exception`.
   */
  predicate Survived(t: seq<Job>, d: seq<nat>, k: nat, probes: seq<Probe>, dispatch: Dispatcher,
                     lastRestart: Option<int>, memoryLimit: int)
    requires Positions(t, d) && k <= |d| && |d| <= |probes|
    decreases k
  {
    k == 0 ||
    (Survived(t, d, k - 1, probes, dispatch, lastRestart, memoryLimit) &&
     !GuardFiresAt(probes[k - 1], lastRestart, memoryLimit) &&
     AttemptFor(t[d[k - 1]], probes[k - 1], dispatch).outcome != ThrewError)
  }

  /** Job by job: each of the first `k` passed the guard and did not throw a non-`Exception`. */
  lemma {:induction false} SurvivedAt(t: seq<Job>, d: seq<nat>, k: nat, probes: seq<Probe>, dispatch: Dispatcher,
                                      lastRestart: Option<int>, memoryLimit: int)
    requires Positions(t, d) && k <= |d| && |d| <= |probes|
    ensures Survived(t, d, k, probes, dispatch, lastRestart, memoryLimit) <==>
      forall p :: 0 <= p < k ==>
        !GuardFiresAt(probes[p], lastRestart, memoryLimit) &&
        AttemptFor(t[d[p]], probes[p], dispatch).outcome != ThrewError
    decreases k
  {
    if k > 0 {
      SurvivedAt(t, d, k - 1, probes, dispatch, lastRestart, memoryLimit);
    }
  }

  /**
   * A restart signal is honoured at the next job: when the marker the cache
   * holds at the guard of job `p` differs from the start-up one, no cycle gets
   * past job `p`, whatever the marker was when the cycle began.
   */
  lemma SignalHonouredAtNextJob(t: seq<Job>, d: seq<nat>, k: nat, probes: seq<Probe>, dispatch: Dispatcher,
                                lastRestart: Option<int>, memoryLimit: int, p: nat)
    requires Positions(t, d) && k <= |d| && |d| <= |probes|
    requires p < |probes| && Signalled(probes[p].cached, lastRestart)
    requires Survived(t, d, k, probes, dispatch, lastRestart, memoryLimit)
    ensures k <= p
  {
    SurvivedAt(t, d, k, probes, dispatch, lastRestart, memoryLimit);
  }

  class Daemon {
    /** The job table, in storage order. */
    var table: seq<Job>
    /**
     * The cache entry `think:crontab:restart` as it stood at the last guard,
     * after any refresh that guard made; other processes may write the cache
     * in between (Probe.cached).
     */
    var marker: Option<int>

    ghost predicate Valid()
      reads this
    {
      UniqueIds(table)
    }

    constructor (rows: seq<Job>, restartMarker: Option<int>)
      requires UniqueIds(rows)
      ensures Valid() && table == rows && marker == restartMarker
    {
      table := rows;
      marker := restartMarker;
    }

    /**
     * `queueShouldRestart`: an expired marker is refreshed to the clock and
     * forces a restart; otherwise a restart is due when the marker differs
     * from the one seen at start-up.
     */
    method QueueShouldRestart(lastRestart: Option<int>, clock: int) returns (restart: bool)
      modifies this`marker
      ensures restart == ShouldRestart(old(marker), lastRestart, clock)
      ensures marker == MarkerAfterCheck(old(marker), clock)
    {
      if clock - MarkerValue(marker) > MaxMarkerAge {
        marker := Some(clock);
        restart := true;
      } else {
        restart := MarkerValue(marker) != MarkerValue(lastRestart);
      }
    }

    /** The stop condition before each job; the restart check, and its refresh, run only when memory is fine. */
    method CheckGuard(lastRestart: Option<int>, memoryLimit: int, usage: int, clock: int) returns (stop: bool)
      modifies this`marker
      ensures stop == GuardFires(old(marker), lastRestart, memoryLimit, usage, clock)
      ensures marker == if MemoryExceeded(usage, memoryLimit) then old(marker) else MarkerAfterCheck(old(marker), clock)
    {
      stop := MemoryExceeded(usage, memoryLimit);
      if !stop {
        stop := QueueShouldRestart(lastRestart, clock);
      }
    }

    /**
     * `push`: insert a row due at the insertion clock; the store gives it a
     * fresh primary key and its status column default. It reports one row inserted.
     */
    method Push(id: int, name: string, handler: string, payload: string, clock: int,
                defaultStatus: int, intervalSec: int := 60) returns (inserted: int)
      requires Valid()
      requires forall i :: 0 <= i < |table| ==> table[i].id != id
      modifies this`table
      ensures Valid() && inserted == 1
      ensures table == old(table) + [NewRow(id, name, handler, payload, intervalSec, clock, defaultStatus)]
    {
      UniqueIdsPairwise(table);
      table := table + [NewRow(id, name, handler, payload, intervalSec, clock, defaultStatus)];
      UniqueIdsPairwise(table);
      inserted := 1;
    }

    /**
     * `runNextJobForDaemon`, one cycle at cycle time `now`. The rows selected
     * at `now` are walked in table order; before the job in position p the
     * guard runs on `probes[p]`, reading the restart marker the cache holds at
     * that moment (`probes[p].cached`, which `marker` then holds). A job that gets past the guard is dispatched
     * once and, unless its handler throws a non-`Exception`, rescheduled once
     * from its previous due time. `dispatch` resolves and fires a handler
     * string (the daemon's is DispatchIn). `now2` is the clock read for the
     * sleep.
     *
     * `done` is the number of rows rescheduled: the table is the old table
     * with the first `done` selected rows rescheduled and nothing else
     * changed (CycleTouchesOnlyDueRows). The cycle ends by sleeping only when
     * every selected row was processed, by stopping only at a guard that
     * fires, and by the failure pause only at a handler that threw a
     * non-`Exception`, whose row is then not rescheduled. Afterwards `marker`
     * is the marker the last guard read, refreshed only when that guard
     * stopped the cycle because the marker had expired.
     */
    method RunCycle(lastRestart: Option<int>, memoryLimit: int, now: int, now2: int,
                    probes: seq<Probe>, dispatch: Dispatcher)
      returns (end: CycleEnd, attempts: seq<Attempt>, done: nat)
      requires Valid()
      requires |Due(table, now)| <= |probes|
      modifies this
      ensures Valid()
      ensures var d := Due(old(table), now);
        && done <= |d|
        && (end.Recovered? ==> done < |d|)
        && |attempts| == (if end.Recovered? then done + 1 else done)
        && attempts == AttemptsFor(old(table), d, |attempts|, probes, dispatch)
        && Survived(old(table), d, done, probes, dispatch, lastRestart, memoryLimit)
        && (end.Slept? <==> done == |d|)
        && (end.Stopped? <==> done < |d| && GuardFiresAt(probes[done], lastRestart, memoryLimit))
        && (end.Recovered? ==>
              !GuardFiresAt(probes[done], lastRestart, memoryLimit) &&
              attempts[done].outcome == ThrewError && end.seconds == FailurePause)
        && (end.Slept? ==> end.seconds == PlanSleep(NextTimes(old(table), d, |d|), now2))
      ensures table == RescheduledRows(old(table), Due(old(table), now), done, now, probes)
      ensures marker == if end.Stopped? && !MemoryExceeded(probes[done].usage, memoryLimit)
                        then MarkerAfterCheck(probes[done].cached, probes[done].clock)
                        else if !end.Slept? then probes[done].cached
                        else if done == 0 then old(marker)
                        else probes[done - 1].cached
    {
      var rows := table;
      var tbl := rows;
      var due := Due(rows, now);
      ghost var m0 := marker;
      var nexts: seq<int> := [];
      attempts := [];
      end := Slept(DefaultSleep);
      var p := 0;
      while p < |due|
        modifies this`marker
        invariant 0 <= p <= |due|
        invariant marker == (if p == 0 then m0 else probes[p - 1].cached) && end == Slept(DefaultSleep)
        invariant UniqueIds(rows) && Positions(rows, due)
        invariant tbl == RescheduledRows(rows, due, p, now, probes)
        invariant nexts == NextTimes(rows, due, p)
        invariant attempts == AttemptsFor(rows, due, p, probes, dispatch)
        invariant Survived(rows, due, p, probes, dispatch, lastRestart, memoryLimit)
      {
        var val := rows[due[p]];
        marker := probes[p].cached;
        var stop := CheckGuard(lastRestart, memoryLimit, probes[p].usage, probes[p].clock);
        if stop {
          end := Stopped;
          break;
        }
        var next := val.nextExecuteTime + val.intervalSec;
        nexts := nexts + [next];
        var attempt := AttemptFor(val, probes[p], dispatch);
        attempts := attempts + [attempt];
        if attempt.outcome == ThrewError {
          end := Recovered(FailurePause);
          break;
        }
        DueFresh(rows, now, p);
        RescheduleStep(rows, due, p, now, probes);
        tbl := UpdateWhereId(tbl, val.id, now, next, probes[p].updateClock);
        p := p + 1;
      }
      done := p;
      if end == Slept(DefaultSleep) {
        end := Slept(PlanSleep(nexts, now2));
      }
      RescheduledRowsIds(rows, due, done, now, probes);
      table := tbl;
    }
  }
}
