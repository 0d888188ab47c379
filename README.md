# think-crontab: the scheduling core in Dafny

think-crontab is a ThinkPHP console command that runs as a polling daemon. On
each cycle it reads the active jobs whose `next_execute_time` has passed from a
`crontab` table. For each of them it first checks a stop guard (memory limit,
restart marker in the cache). It then resolves the job's handler string to a
class and method and invokes it. Finally it moves the job's next due time on by
its interval. After the cycle it sleeps: 60 seconds when no job ran, and
otherwise 3 or 60 seconds, decided by a boolean comparison that inverts the
clamp its comments describe (see Findings).

The model covers one cycle of `runNextJobForDaemon` together with the
functions it relies on (`queueShouldRestart`, `memoryExceeded`, `parseJob`,
`resolve`, `resolveAndFire`) and `push`. It is split into modules:

- `Wrappers` (wrappers.dfy): `Option`.
- `Text` (text.dfy): PHP's `explode`, single-character `strpos`, `explode`
  with limit 2, and ASCII `strtolower`, each with its laws. `implode` is not
  called by the code. It is there as the inverse that the round trips of
  `explode` are stated against.
- `Handlers` (handlers.dfy): `parseJob`, the name expansion in `resolve`,
  `class_exists` over a registry of class keys, and `resolveAndFire` as the
  invocation it performs.
- `SleepPlanner` (sleep.dfy): the sleep after a cycle. `PlanSleep` is the
  intended numeric clamp. `LiteralSleep` is the code as written (see
  Findings).
- `RestartMonitor` (restart.dfy): the restart marker, `queueShouldRestart`'s
  answer and refresh as functions, and `memoryExceeded`.
- `Jobs` (jobs.dfy): the job rows, primary-key uniqueness, the query's
  selection, the `UPDATE ... WHERE id`, rescheduling, and the row `push`
  inserts.
- `Crontab` (crontab.dfy): the `Daemon` class. Its fields are the job table
  and the cache marker. Its methods are `QueueShouldRestart`, the guard
  `CheckGuard`, `Push` and the cycle `RunCycle`. The module also holds the
  specification functions the cycle is proved against (`AttemptsFor`,
  `RescheduledRows`, `Survived`, `NextTimes`) and their lemmas.

Times are integer seconds. Everything a cycle reads from outside is an input:

- `now` is the `time()` of line 70;
- `now2` is the `time()` of line 101;
- for the job in position p of the cycle, `probes[p]` gives:
  - the memory usage and the clock the guard sees;
  - the restart marker the cache holds when the guard reads it at line 192.
    The cache is shared, so an operator may have written a new marker since
    the previous job, and the guard sees it at the next job;
  - what the handler does if invoked (return, throw an `Exception`, or throw
    another `Throwable`);
  - the clock of the row's `update_time`.

`RunCycle` takes the dispatcher as a parameter `dispatch`. The daemon's own
dispatcher is `DispatchIn(ns, registry)`, which is `resolveAndFire` with the
application namespace `ns` and the set `registry` of loadable class keys.

Where the system's documented behaviour and its code disagree, the model
follows the code in two places:

- The cycle's default sleep and ceiling is the literal 60 at line 77, not the
  `--sleep` option. That option is used only by `execute`'s catch at line 55.
- Only `\Exception` is caught around a handler (line 88). Another `Throwable`
  thrown by a handler, such as a PHP `Error` from an undefined method, reaches
  the cycle's outer catch at line 115. That ends the cycle after a 3-second
  pause, and that job's row and the selected rows after it are not
  rescheduled. So only an `Exception` is confined to its own job.

The sleep is the one place where the model follows the intent rather than
the code. The code computes the sleep from a boolean at line 101. The cycle's
`Slept` value is the numeric clamp the comments at lines 103 and 106 describe
(`PlanSleep`). The code as written is `LiteralSleep`, and the difference is
recorded under Findings.

## Model

| member | source | states |
|---|---|---|
| Text.Explode | src/Crontab.php:240 | `explode` without a limit always yields at least one segment. What the segments are is stated by ExplodeSegments and the round trips. |
| Text.FirstSegmentPrefix | src/Crontab.php:240-242 | The first segment of `explode` is a prefix of the string that ends at the string's end or at a separator. |
| Text.ExplodeSegments | src/Crontab.php:240 | `explode` always yields at least one segment. It yields more than one exactly when the separator occurs. No segment contains the separator. |
| Text.ImplodeExplode | src/Crontab.php:240 | Joining the segments of `explode` with the separator gives back the original string. |
| Text.ExplodeImplode | src/Crontab.php:240 | Segments free of the separator, imploded and then exploded again, come back unchanged. |
| Text.ExplodeAppend | src/Crontab.php:240 | Exploding `a + sep + b`, with `a` free of the separator, yields `a` followed by the segments of `b`. |
| Text.ExplodeFree | src/Crontab.php:240 | A string without the separator explodes into itself alone. |
| Text.FirstIndex | src/Crontab.php:252-254 | `strpos` for one character: an optional position, always inside the string. FirstIndexSpec says that it holds the character, that it is the first such position, and when there is none. |
| Text.FirstIndexSpec | src/Crontab.php:252-254 | `strpos` for one character finds nothing exactly when the character is absent. Otherwise it returns a position holding the character with no earlier occurrence. |
| Text.SplitFirst | src/Crontab.php:257 | `explode('/', $name, 2)` as an optional pair of head and tail. SplitFirstSpec and SplitFirstOf say where it splits. |
| Text.SplitFirstSpec | src/Crontab.php:257 | `explode(sep, s, 2)` splits exactly when `sep` occurs. The head is then free of `sep`, and head + `sep` + tail is `s`. |
| Text.SplitFirstOf | src/Crontab.php:257 | The split of `a + sep + b`, with `a` free of `sep`, is `(a, b)`: the split is at the first separator. |
| Text.Lower | src/Crontab.php:260 | `strtolower` keeps the length. LowerChars says what it does to each character. |
| Text.LowerChars | src/Crontab.php:260 | `strtolower` leaves no ASCII upper-case letter. It keeps every other character and moves `A`-`Z` up by 32. |
| Text.LowerIdempotent | src/Crontab.php:260 | Lowering twice is the same as lowering once. |
| Handlers.ParseJob | src/Crontab.php:238-243 | `parseJob`: the first two `@`-segments, or the only segment and `fire`. Its properties are ParseJobShape, ParseJobAtFirstAt and ParseJobOf. |
| Handlers.ParseJobShape | src/Crontab.php:238-243 | Neither the class part nor the method part contains `@`. A string without `@` gives `(job, "fire")`. With an `@`, the class is shorter than the string. |
| Handlers.ParseJobAtFirstAt | src/Crontab.php:240-242 | With an `@`, the string starts with `class@method`, followed by its end or by an `@`. So the class is the text before the first `@`, and the method is the text up to the second `@`. |
| Handlers.ParseJobAfterClass | src/Crontab.php:240-242 | After a class free of `@` and one `@`, the method is the first `@`-free segment of the rest. |
| Handlers.ParseJobOf | src/Crontab.php:238-243 | A class and a method free of `@`, joined by `@`, parse back into themselves. |
| Handlers.Expand | src/Crontab.php:252-261 | The name expansion in `resolve`, used by Resolve. Its properties are ExpandForms and ExpandShortForm. |
| Handlers.ClassExists | src/Crontab.php:262 | `class_exists` as membership of the class key (lowered, one leading backslash dropped) in the set of loadable classes. |
| Handlers.Truthy | src/Crontab.php:260 | The `$module ?` test: a string is false only when it is `""` or `"0"`. |
| Handlers.ExpandForms | src/Crontab.php:252-261 | A name containing a backslash passes through unchanged. A name with neither a backslash nor `/` becomes `ns\job\name`. |
| Handlers.ExpandShortForm | src/Crontab.php:254-260 | `module/rest` is split at the first `/` only. It becomes `ns`, then `\` plus the lowered module when the module is PHP-truthy (not `""` or `"0"`), then `\job\` and `rest`. |
| Handlers.Resolve | src/Crontab.php:250-265 | A class resolves exactly when `class_exists` holds for the expanded name, and the result is that expanded name. |
| Handlers.ResolveAndFire | src/Crontab.php:224-231 | Nothing is invoked exactly when the parsed class does not resolve. Otherwise the parsed method is invoked on the expanded class name. |
| Handlers.FireShortForm | src/Crontab.php:224-265 | End to end for `module/Class@method`: the method is invoked on `ns[\module]\job\Class` if that class exists, and nothing is invoked otherwise. |
| Handlers.FireBareName | src/Crontab.php:224-265 | A bare class name without `@` dispatches to `fire` on `ns\job\Class` if that class exists, and to nothing otherwise. |
| SleepPlanner.MinOf | src/Crontab.php:100 | `min` of a non-empty list is one of its elements and no larger than any of them. |
| SleepPlanner.PlanSleep | src/Crontab.php:99-110 | The intended sleep: always in [3, 60], and 60 when no job ran. Above the floor it does not overshoot any rescheduled due time. Strictly between 3 and 60 it wakes exactly at one. The floor is used only when a job is due within 3 seconds, and the ceiling only when none is due within 60. |
| SleepPlanner.PlanSleepCases | src/Crontab.php:100-108 | With `remaining` = earliest due time minus the clock, the sleep is 3 if `remaining` < 3, `remaining` if 3 <= `remaining` < 60, and 60 otherwise. |
| SleepPlanner.PlanSleepExamples | src/Crontab.php:102-108 | Due in 1, 45 and 90 seconds gives 3, 45 and 60. |
| SleepPlanner.BoolLessThanInt | src/Crontab.php:102-105 | PHP's `bool < int`: both sides are compared as booleans, so it holds exactly when the boolean is false and the integer is non-zero. |
| SleepPlanner.LiteralSleep | src/Crontab.php:101-108 | The code as written only ever sleeps 3 or 60. |
| SleepPlanner.LiteralSleepInverted | src/Crontab.php:101-108 | As written the clamp is inverted: 60 when the earliest job is due within 60 seconds, 3 otherwise. |
| SleepPlanner.LiteralSleepDiverges | src/Crontab.php:101-108 | For a job due in one second, the code as written sleeps 60 and the intended clamp sleeps 3. |
| RestartMonitor.MemoryExceeded | src/Crontab.php:210-213 | `memoryExceeded`: the usage is at or above the limit. The guard checks it first (CheckGuard). |
| RestartMonitor.Expired | src/Crontab.php:193 | The marker, with `null` as 0, is more than 3600 seconds older than the clock. |
| RestartMonitor.Signalled | src/Crontab.php:197 | The marker differs from the one seen at start-up under loose `!=`, with `null` equal to 0. |
| RestartMonitor.ShouldRestart | src/Crontab.php:192-197 | `queueShouldRestart`'s answer: expired, or signalled. QuietUntilAnHour and MissingMarkerIsZero state its behaviour. |
| RestartMonitor.MarkerAfterCheck | src/Crontab.php:193-196 | A marker more than an hour old is replaced by the clock. Any other marker is kept. |
| RestartMonitor.RefreshOpensNewWindow | src/Crontab.php:193-196 | After a refresh the marker does not expire again within the next hour. |
| RestartMonitor.QuietUntilAnHour | src/Crontab.php:190-198 | With the marker unchanged since start-up, the check stays quiet exactly until the marker is more than 3600 seconds old. |
| RestartMonitor.MissingMarkerIsZero | src/Crontab.php:192-197 | A missing marker (`null`) and a marker holding 0 give the same answer, on either side of the comparison. |
| Jobs.UniqueIdsPairwise | src/Crontab.php:93 | The primary-key invariant holds exactly when no two rows share an id. |
| Jobs.Selected | src/Crontab.php:71-74 | The query's filter: status 1 and a due time at or before the cycle time. |
| Jobs.Due | src/Crontab.php:70-75 | The query's result as positions into the table, each a valid index. Which rows they are is DueIsSelection. |
| Jobs.DueIsSelection | src/Crontab.php:70-75 | The query selects a row exactly when its status is 1 and its due time is at or before the cycle time. The rows come in table order, each once. |
| Jobs.DueFresh | src/Crontab.php:78 | The row visited at step k was not visited before. |
| Jobs.NextTimes | src/Crontab.php:76-83 | `$next_execute_time_arr` after k rows: one entry per processed row. NextTimesAt says what each entry is. |
| Jobs.NextTimesAt | src/Crontab.php:82-83 | Entry p of `$next_execute_time_arr` is the due time of the p-th selected row plus its interval. |
| Jobs.Rescheduled | src/Crontab.php:82-97 | A processed row's next due time is its previous due time plus its interval, not `now` plus the interval. Its last run is the cycle time, its update time is the update clock, and every other column is unchanged. |
| Jobs.UpdateWhereId | src/Crontab.php:93-97 | The `UPDATE ... WHERE id` keeps the table's length. Which rows it changes is UpdateWhereIdAbsent and UpdateWhereIdOneRow. |
| Jobs.UpdateWhereIdAbsent | src/Crontab.php:93-97 | An update by an id that no row has changes nothing. |
| Jobs.UpdateWhereIdOneRow | src/Crontab.php:93-97 | With unique ids, the update by row k's id, writing its previous due time plus one interval, reschedules row k and no other row. |
| Jobs.ScheduleStaysAnchored | src/Crontab.php:82-97 | After any number of runs, at any cycle times, the due time is the original one plus that many intervals, so the schedule does not drift. The last run is the latest cycle time, and the other columns stay as they were. |
| Jobs.NewRow | src/Crontab.php:124-132 | The row `push` inserts: due, created and updated at the insertion clock, no last run, the status default. PushedJobIsDue says when a cycle picks it up. |
| Jobs.PushedJobIsDue | src/Crontab.php:122-133 | A pushed row is picked up by a cycle exactly when the status default is active and the cycle time is at or after the insertion clock. |
| Crontab.GuardFires | src/Crontab.php:79 | The guard before a job: memory exceeded, or `queueShouldRestart` on the marker read. CheckGuard is proved to compute it. |
| Crontab.GuardFiresAt | src/Crontab.php:79 | The guard before the job with a given probe, on the marker the cache holds at that moment. |
| Crontab.DispatchIn | src/Crontab.php:86-87 | The daemon's dispatcher: `resolveAndFire` in the application namespace over the loadable classes. DaemonAttempt states what it does for a row. |
| Crontab.AttemptFor | src/Crontab.php:84-91 | One dispatch attempt per row, passing the row's payload text to the handler. When the class does not resolve, nothing is invoked, nothing fails and there is no pause. Otherwise the outcome is the handler's, and an `Exception` causes the 3-second pause. |
| Crontab.DaemonAttempt | src/Crontab.php:224-231 | With the daemon's dispatcher, a row is passed over exactly when its parsed class does not resolve. Otherwise the parsed method is invoked on the expanded class. |
| Crontab.AttemptsFor | src/Crontab.php:78-91 | The attempts made for the first k selected rows, one per row, in order. AttemptsForAt says which attempt belongs to which row. |
| Crontab.Survived | src/Crontab.php:78-91 | The first k selected jobs all got past the guard, each on the marker the cache held at its turn, and none threw a non-`Exception`. SurvivedAt states it job by job. |
| Crontab.AttemptsForAt | src/Crontab.php:78-91 | The p-th recorded attempt is the one for the p-th selected row with the p-th probe. |
| Crontab.SurvivedAt | src/Crontab.php:78-91 | `Survived` for k means each of the first k selected jobs got past the guard, on the marker the cache held at its turn, and did not throw a non-`Exception`. |
| Crontab.SignalHonouredAtNextJob | src/Crontab.php:79-81 | When the marker the cache holds at the guard of job p differs from the start-up one, no cycle gets past job p, whatever the marker was when the cycle began. |
| Crontab.RescheduledRows | src/Crontab.php:93-97 | The table after the first k selected rows were updated, keeping its length. RescheduledRowsAt and RescheduledRowsUntouched say which rows changed and how. |
| Crontab.RescheduledRowsUntouched | src/Crontab.php:93-97 | Rows outside the first k positions are unchanged by the first k updates. |
| Crontab.RescheduledRowsIds | src/Crontab.php:93-97 | The updates keep every row's id, so ids stay unique. |
| Crontab.RescheduledRowsAt | src/Crontab.php:93-97 | When no position repeats, each of the first k rows is rescheduled once, with its own update clock, and every other row is unchanged. |
| Crontab.CycleTouchesOnlyDueRows | src/Crontab.php:70-98 | After a cycle processed its first k selected rows, each of them is rescheduled once. Every row that is not active, or not yet due, is exactly as it was. |
| Crontab.RescheduleStep | src/Crontab.php:93-97 | The cycle's `UPDATE ... WHERE id` for the row at step k extends the rescheduled table by exactly that row. |
| Crontab.Daemon.QueueShouldRestart | src/Crontab.php:190-198 | A marker more than 3600 seconds old is set to the clock and forces a restart. Otherwise the answer is whether the marker differs from the start-up one, under loose `!=`, and the marker is unchanged. |
| Crontab.Daemon.CheckGuard | src/Crontab.php:79-81 | The guard stops exactly when memory is exceeded or a restart is due. The restart check, and its refresh of the marker, runs only when memory is within the limit. |
| Crontab.Daemon.Push | src/Crontab.php:122-133 | One row is appended: due at the insertion clock, with no last run, the status default and interval 60 unless given. Ids stay unique, and one row inserted is reported. |
| Crontab.Daemon.RunCycle | src/Crontab.php:67-120 | One cycle over the rows selected at `now`, in order. The table afterwards is the old one with exactly the first `done` selected rows rescheduled. There is one attempt per processed job, plus the failing one. The cycle sleeps the planned time only after all selected rows. It stops only at a guard that fires, and otherwise pauses 3 seconds only after a non-`Exception`, whose row is not rescheduled. Each guard reads the marker the cache then holds, so a marker written during the cycle stops it at the next job. Afterwards the marker is the one the last guard read, refreshed only when that guard stopped the cycle on an expired marker. |

## Left out

- The endless `while (true)` in `execute`, the real `sleep()` calls, `die()`, `ignore_user_abort`, `set_time_limit` and the command's `configure` are process plumbing. A cycle returns how it ended and how long it would sleep.
- The `Db` query builder and SQL are replaced by an in-memory table in storage order. `select()` has no `ORDER BY`.
- Database failures in the query or the update are not modelled. They would land in the catch at lines 111-114.
- `date` and `strtotime` are not modelled. Times are integer seconds, and the round trip through `Y-m-d H:i:s` is taken to be exact.
- `json_decode` and `json_encode` are not modelled; the payload is opaque text. So `Push` has no counterpart of `push`'s `$payload = []` default at line 122: the caller always passes the encoded text.
- Crontab.AttemptFor: a payload that does not decode to an array makes the call at line 87 throw a `TypeError`, even when the class does not resolve. The model treats every payload as decodable.
- `memory_get_usage()` and the float rounding at line 221 are not modelled. The usage is an integer input compared with the limit.
- `class_exists`, `new $name()` and the dynamic method call are runtime reflection. They appear as membership in `registry` and as the handler outcome given per job.
- Crontab.Daemon.RunCycle: the dispatcher is a parameter, tied to `resolveAndFire` by `DispatchIn` and `DaemonAttempt` rather than by a precondition. Unfolding the string functions for every row would make the cycle's proof too large.
- Crontab.Daemon.RunCycle: the rows are updated in a local copy that becomes the table at the end of the cycle. No other writer exists, so the final table is the same; concurrent writers are not modelled.
- Crontab.Daemon.QueueShouldRestart: the two `time()` calls at lines 193 and 195 are taken as one clock reading, and `Cache::set` is taken to succeed.
- Jobs.NewRow: the three `date()` calls at lines 129-131 are taken as one clock reading. The store's fresh auto-increment id and the status column default are inputs. `push` writes neither `status` nor `last_execute_time`; the model takes `last_execute_time` to default to NULL (no last run).
- `Env::get('app_namespace')` is the parameter `ns`. Line 16 imports `think\facade\Evn`, a misspelling, so within `namespace think` the `Env` at line 260 names `think\Env`, not the facade. What that call returns depends on the framework version, which is not part of this model; the model takes it to return the application namespace.
- Handlers.ClassExists: `class_exists` is case-insensitive for classes already declared. An autoloader on a case-sensitive file system may load only one spelling; the model does not capture that.
- `strtolower` is modelled for ASCII letters only, as PHP 8.2 and later define it.
- `getExceptionHandler`, `output`/`writeln` and exception reporting are not modelled; they have no effect on the table, the marker or the sleep.
- src/common.php is not part of this model. It holds console registration and a `push_crontab` wrapper.

## Findings

| source | as written | input that shows it | evidently intended | confidence | as-written member | corrected member |
|---|---|---|---|---|---|---|
| src/Crontab.php:101-108 | `$diff = $min - time() < $sleep` stores a boolean. `$diff < 3` and `$diff < $sleep` then compare a boolean with an integer, which PHP does as booleans. | A job rescheduled to one second after the clock reading: the cycle sleeps 60 instead of 3. A job due in two hours makes it sleep 3. | Sleep the remaining time until the earliest rescheduled job, clamped into [3, 60], as the comments at lines 103 and 106 say. | not executed | SleepPlanner.LiteralSleepDiverges | SleepPlanner.PlanSleep |
