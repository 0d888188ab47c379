/**
 * The job table: one row per recurring job, scanned in storage order. Times
 * are integer seconds (the table stores them as `Y-m-d H:i:s` strings that
 * the code converts both ways).
 */
module Jobs {
  import opened Wrappers

  /** `status` of a row the daemon polls. */
  const Active: int := 1

  /**
   * A row. `handler` is the `class` column (the handler string). The payload
   * is the stored JSON text, opaque here.
   */
  datatype Job = Job(
    id: int,
    name: string,
    handler: string,
    payload: string,
    intervalSec: int,
    status: int,
    nextExecuteTime: int,
    lastExecuteTime: Option<int>,
    createTime: int,
    updateTime: int)

  /** Some row among the first `n` of `t` has id `id`. */
  predicate IdAmong(t: seq<Job>, id: int, n: nat)
    requires n <= |t|
    decreases n
  {
    n > 0 && (t[n - 1].id == id || IdAmong(t, id, n - 1))
  }

  /** No row among the first `n` of `t` shares its id with an earlier one. */
  predicate UniqueIdsBelow(t: seq<Job>, n: nat)
    requires n <= |t|
    decreases n
  {
    n == 0 || (UniqueIdsBelow(t, n - 1) && !IdAmong(t, t[n - 1].id, n - 1))
  }

  /** Ids are the primary key (what that means row by row is UniqueIdsPairwise). */
  predicate UniqueIds(t: seq<Job>)
  {
    UniqueIdsBelow(t, |t|)
  }

  lemma {:induction false} IdAmongAt(t: seq<Job>, id: int, n: nat)
    requires n <= |t|
    ensures IdAmong(t, id, n) <==> exists i :: 0 <= i < n && t[i].id == id
    decreases n
  {
    if n > 0 {
      IdAmongAt(t, id, n - 1);
    }
  }

  lemma {:induction false} UniqueIdsBelowPairwise(t: seq<Job>, n: nat)
    requires n <= |t|
    ensures UniqueIdsBelow(t, n) <==> forall i, j :: 0 <= i < j < n ==> t[i].id != t[j].id
    decreases n
  {
    if n > 0 {
      UniqueIdsBelowPairwise(t, n - 1);
      IdAmongAt(t, t[n - 1].id, n - 1);
    }
  }

  /** Unique ids: no two rows have the same id. */
  lemma UniqueIdsPairwise(t: seq<Job>)
    ensures UniqueIds(t) <==> forall i, j :: 0 <= i < j < |t| ==> t[i].id != t[j].id
  {
    UniqueIdsBelowPairwise(t, |t|);
  }

  /** The query's filter: active and due at the cycle time `now`. */
  predicate Selected(j: Job, now: int)
  {
    j.status == Active && j.nextExecuteTime <= now
  }

  /** Positions into `t`. */
  predicate Positions(t: seq<Job>, d: seq<nat>)
  {
    forall q :: 0 <= q < |d| ==> d[q] < |t|
  }

  /** The positions from `from` on of the rows the query returns, in table order. */
  function DueFrom(t: seq<Job>, now: int, from: nat): (d: seq<nat>)
    requires from <= |t|
    ensures forall q :: 0 <= q < |d| ==> from <= d[q] < |t|
    decreases |t| - from
  {
    if from == |t| then []
    else if Selected(t[from], now) then [from] + DueFrom(t, now, from + 1)
    else DueFrom(t, now, from + 1)
  }

  /**
   * The positions of the rows `status = 1 AND next_execute_time <= now`
   * returns, in table order (what they are is DueIsSelection).
   */
  function Due(t: seq<Job>, now: int): (d: seq<nat>)
    ensures Positions(t, d)
  {
    DueFrom(t, now, 0)
  }

  lemma {:induction false} DueFromIsSelection(t: seq<Job>, now: int, from: nat)
    requires from <= |t|
    ensures forall k :: k in DueFrom(t, now, from) <==> from <= k < |t| && Selected(t[k], now)
    decreases |t| - from
  {
    if from < |t| {
      DueFromIsSelection(t, now, from + 1);
    }
  }

  lemma {:induction false} DueFromIncreasing(t: seq<Job>, now: int, from: nat)
    requires from <= |t|
    ensures forall q, r :: 0 <= q < r < |DueFrom(t, now, from)| ==> DueFrom(t, now, from)[q] < DueFrom(t, now, from)[r]
    decreases |t| - from
  {
    if from < |t| {
      DueFromIncreasing(t, now, from + 1);
      var rest := DueFrom(t, now, from + 1);
      if Selected(t[from], now) {
        var d := [from] + rest;
        assert DueFrom(t, now, from) == d;
        forall q, r | 0 <= q < r < |d|
          ensures d[q] < d[r]
        {
          assert d[r] == rest[r - 1] && rest[r - 1] >= from + 1;
          if q == 0 {
            assert d[q] == from;
          } else {
            assert d[q] == rest[q - 1];
          }
        }
      } else {
        assert DueFrom(t, now, from) == rest;
      }
    }
  }

  /**
   * The query selects exactly the active rows due at `now`: a position is
   * among the selected ones if and only if its row has status 1 and a due
   * time at or before `now`. The positions are in table order, so each
   * selected row appears once.
   */
  lemma DueIsSelection(t: seq<Job>, now: int)
    ensures forall k :: k in Due(t, now) <==> 0 <= k < |t| && Selected(t[k], now)
    ensures forall q, r :: 0 <= q < r < |Due(t, now)| ==> Due(t, now)[q] < Due(t, now)[r]
  {
    DueFromIsSelection(t, now, 0);
    DueFromIncreasing(t, now, 0);
    assert Due(t, now) == DueFrom(t, now, 0);
  }

  /** A selected position does not occur earlier in the selection. */
  lemma DueFresh(t: seq<Job>, now: int, k: nat)
    requires k < |Due(t, now)|
    ensures Due(t, now)[k] !in Due(t, now)[..k]
  {
    DueIsSelection(t, now);
  }

  /** The rescheduled due times of the rows at the first `k` of the positions `d`, in order. */
  function NextTimes(t: seq<Job>, d: seq<nat>, k: nat): (nexts: seq<int>)
    requires Positions(t, d) && k <= |d|
    ensures |nexts| == k
    decreases k
  {
    if k == 0 then []
    else NextTimes(t, d, k - 1) + [t[d[k - 1]].nextExecuteTime + t[d[k - 1]].intervalSec]
  }

  /** Entry p is the due time of the row at `d[p]` advanced by its interval. */
  lemma {:induction false} NextTimesAt(t: seq<Job>, d: seq<nat>, k: nat)
    requires Positions(t, d) && k <= |d|
    ensures forall p :: 0 <= p < k ==> NextTimes(t, d, k)[p] == t[d[p]].nextExecuteTime + t[d[p]].intervalSec
    decreases k
  {
    if k > 0 {
      NextTimesAt(t, d, k - 1);
    }
  }

  /**
   * A row after the cycle at time `now` processed it: its next due time
   * advanced by one interval from the previous due time, `now` as its last
   * run, `updated` as its update time, and every other column as it was.
   */
  function Rescheduled(j: Job, now: int, updated: int): (r: Job)
    ensures r.nextExecuteTime == j.nextExecuteTime + j.intervalSec
    ensures r.lastExecuteTime == Some(now) && r.updateTime == updated
    ensures r.(nextExecuteTime := j.nextExecuteTime, lastExecuteTime := j.lastExecuteTime, updateTime := j.updateTime) == j
  {
    j.(lastExecuteTime := Some(now),
       nextExecuteTime := j.nextExecuteTime + j.intervalSec,
       updateTime := updated)
  }

  /** A row with the three columns the cycle's update writes. */
  function Updated(j: Job, last: int, next: int, updated: int): Job
  {
    j.(lastExecuteTime := Some(last), nextExecuteTime := next, updateTime := updated)
  }

  /**
   * `UPDATE ... SET last_execute_time, next_execute_time, update_time WHERE id = id`
   * over the whole table: every row with that id gets the three values, every
   * other row stays.
   */
  function UpdateWhereId(t: seq<Job>, id: int, last: int, next: int, updated: int): (r: seq<Job>)
    ensures |r| == |t|
  {
    seq(|t|, i requires 0 <= i < |t| => if t[i].id == id then Updated(t[i], last, next, updated) else t[i])
  }

  /** Updating an id no row has changes nothing. */
  lemma UpdateWhereIdAbsent(t: seq<Job>, id: int, last: int, next: int, updated: int)
    requires forall i :: 0 <= i < |t| ==> t[i].id != id
    ensures UpdateWhereId(t, id, last, next, updated) == t
  {
  }

  /**
   * With unique ids, the cycle's update by the id of row `k`, writing its
   * previous due time plus one interval, reschedules row `k` and no other.
   */
  lemma UpdateWhereIdOneRow(t: seq<Job>, k: nat, now: int, updated: int)
    requires UniqueIds(t) && k < |t|
    ensures UpdateWhereId(t, t[k].id, now, t[k].nextExecuteTime + t[k].intervalSec, updated)
         == t[k := Rescheduled(t[k], now, updated)]
  {
    UniqueIdsPairwise(t);
  }

  /** One processing of a row: the cycle time and the clock at the update. */
  datatype Run = Run(cycleTime: int, updateClock: int)

  /** A row after a series of cycles processed it, oldest first. */
  function Replay(j: Job, runs: seq<Run>): Job
    decreases |runs|
  {
    if |runs| == 0 then j
    else Replay(Rescheduled(j, runs[0].cycleTime, runs[0].updateClock), runs[1..])
  }

  /**
   * The schedule never drifts: after any number of runs, at whatever cycle
   * times, the next due time is the original one plus that many intervals,
   * and the last run time is the latest cycle time.
   */
  lemma {:induction false} ScheduleStaysAnchored(j: Job, runs: seq<Run>)
    ensures Replay(j, runs).nextExecuteTime == j.nextExecuteTime + |runs| * j.intervalSec
    ensures |runs| > 0 ==> Replay(j, runs).lastExecuteTime == Some(runs[|runs| - 1].cycleTime)
    ensures |runs| == 0 ==> Replay(j, runs) == j
    ensures Replay(j, runs).(nextExecuteTime := j.nextExecuteTime,
                             lastExecuteTime := j.lastExecuteTime,
                             updateTime := j.updateTime) == j
    decreases |runs|
  {
    if |runs| > 0 {
      var j' := Rescheduled(j, runs[0].cycleTime, runs[0].updateClock);
      ScheduleStaysAnchored(j', runs[1..]);
      assert j'.nextExecuteTime + (|runs| - 1) * j.intervalSec == j.nextExecuteTime + |runs| * j.intervalSec;
      if |runs| > 1 {
        assert runs[1..][|runs| - 2] == runs[|runs| - 1];
      }
    }
  }

  /**
   * The row `push` inserts: `next_execute_time`, `create_time` and
   * `update_time` at the insertion clock, no last run, and the column default
   * as its status.
   */
  function NewRow(id: int, name: string, handler: string, payload: string,
                  intervalSec: int, clock: int, defaultStatus: int): Job
  {
    Job(id, name, handler, payload, intervalSec, defaultStatus, clock, None, clock, clock)
  }

  /** A pushed job is picked up by the first cycle at or after its insertion, if the default status is active. */
  lemma PushedJobIsDue(id: int, name: string, handler: string, payload: string,
                       intervalSec: int, clock: int, defaultStatus: int, now: int)
    ensures Selected(NewRow(id, name, handler, payload, intervalSec, clock, defaultStatus), now)
        <==> defaultStatus == Active && clock <= now
  {
  }
}
