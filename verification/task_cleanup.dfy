/**
 * The one-shot expiry sweep of hooks/useTaskCleanup.ts: on its first run in
 * the browser it deletes every task whose effective timestamp is more than
 * eight hours older than the single `now` read at the start of the pass.
 *
 * `new Date(timestamp).getTime()` is foreign code; it is a parameter
 * `parseDate` returning milliseconds since the epoch, `None` standing for the
 * `NaN` of an unparseable date.
 */
module TaskCleanup {
  import opened Wrappers
  import opened TaskSlice

  /** `EIGHT_HOURS_MS`: 8 * 60 * 60 * 1000 milliseconds. */
  const EightHoursMs: int := 8 * 60 * 60 * 1000

  /** `task.lastUpdatedAt ?? task.createdAt`: `??` only falls back on an absent value. */
  function EffectiveTimestamp(task: Task): (ts: Option<string>)
    ensures task.lastUpdatedAt.Some? ==> ts == task.lastUpdatedAt
    ensures task.lastUpdatedAt.None? ==> ts == task.createdAt
  {
    if task.lastUpdatedAt.Some? then task.lastUpdatedAt else task.createdAt
  }

  /**
   * `now - new Date(timestamp).getTime()`, or `None` when the task is skipped:
   * no timestamp, an empty one (`!timestamp`), or one that does not parse.
   */
  function Age(task: Task, now: int, parseDate: string -> Option<int>): (age: Option<int>)
    ensures age.Some? <==>
              EffectiveTimestamp(task).Some? && EffectiveTimestamp(task).value != "" &&
              parseDate(EffectiveTimestamp(task).value).Some?
    ensures age.Some? ==> age.value == now - parseDate(EffectiveTimestamp(task).value).value
  {
    match EffectiveTimestamp(task)
    case None => None
    case Some(ts) =>
      if ts == "" then None
      else
        match parseDate(ts)
        case None => None
        case Some(ms) => Some(now - ms)
  }

  /** The per-task test `age > EIGHT_HOURS_MS` (a skipped task is never expired). */
  predicate IsExpired(task: Task, now: int, parseDate: string -> Option<int>) {
    match Age(task, now, parseDate)
    case None => false
    case Some(age) => age > EightHoursMs
  }

  /**
   * The `forEach` over the snapshot `pending` read when the effect ran: each
   * expired task dispatches `deleteTask(task.id)` against the live `store`.
   */
  function DeleteExpired(pending: seq<Task>, store: seq<Task>, now: int,
                         parseDate: string -> Option<int>): (r: seq<Task>)
    ensures |r| <= |store|
    ensures forall t :: t in r ==> t in store
    decreases |pending|
  {
    if |pending| == 0 then store
    else
      var task := pending[0];
      var store' := if IsExpired(task, now, parseDate) then DeleteTask(store, task.id) else store;
      DeleteExpired(pending[1..], store', now, parseDate)
  }

  /** The hook's persistent part: the `didRunRef` flag and the task list. */
  datatype SweepState = SweepState(didRun: bool, tasks: seq<Task>)

  /**
   * One invocation of the effect. Off the client (`typeof window ===
   * 'undefined'`) nothing happens; once `didRun` is set nothing happens;
   * otherwise the flag is set and the snapshot of tasks is swept.
   */
  function RunCleanup(onClient: bool, state: SweepState, now: int,
                      parseDate: string -> Option<int>): (r: SweepState)
    ensures !onClient ==> r == state
    ensures onClient ==> r.didRun
    ensures state.didRun ==> r == state
    ensures |r.tasks| <= |state.tasks|
  {
    if !onClient then state
    else if state.didRun then state
    else SweepState(true, DeleteExpired(state.tasks, state.tasks, now, parseDate))
  }

  // ---------------------------------------------------------------------------
  // Reference definitions
  // ---------------------------------------------------------------------------

  /** The ids of the expired tasks in `tasks`. */
  function ExpiredIds(tasks: seq<Task>, now: int, parseDate: string -> Option<int>): (ids: set<string>)
    ensures forall i :: 0 <= i < |tasks| && IsExpired(tasks[i], now, parseDate) ==> tasks[i].id in ids
    ensures forall id :: id in ids ==>
              exists i :: 0 <= i < |tasks| && tasks[i].id == id && IsExpired(tasks[i], now, parseDate)
    decreases |tasks|
  {
    if |tasks| == 0 then {}
    else
      var rest := ExpiredIds(tasks[1..], now, parseDate);
      assert forall i :: 1 <= i < |tasks| ==> tasks[i] == tasks[1..][i - 1];
      if IsExpired(tasks[0], now, parseDate) then {tasks[0].id} + rest else rest
  }

  /** The tasks whose id is not in `ids`, in their original order. */
  function RemoveIds(tasks: seq<Task>, ids: set<string>): (r: seq<Task>)
    ensures forall t :: t in r <==> t in tasks && t.id !in ids
    decreases |tasks|
  {
    if |tasks| == 0 then []
    else if tasks[0].id in ids then RemoveIds(tasks[1..], ids)
    else [tasks[0]] + RemoveIds(tasks[1..], ids)
  }

  /** The tasks that are not expired, in their original order. */
  function Unexpired(tasks: seq<Task>, now: int, parseDate: string -> Option<int>): (r: seq<Task>)
    ensures forall t :: t in r <==> t in tasks && !IsExpired(t, now, parseDate)
    decreases |tasks|
  {
    if |tasks| == 0 then []
    else if IsExpired(tasks[0], now, parseDate) then Unexpired(tasks[1..], now, parseDate)
    else [tasks[0]] + Unexpired(tasks[1..], now, parseDate)
  }

  // ---------------------------------------------------------------------------
  // The survivors
  // ---------------------------------------------------------------------------

  /** Deleting one more id from a filtered list is filtering by the larger set. */
  lemma {:induction false} DeleteAfterRemove(tasks: seq<Task>, ids: set<string>, id: string)
    ensures DeleteTask(RemoveIds(tasks, ids), id) == RemoveIds(tasks, ids + {id})
    decreases |tasks|
  {
    if |tasks| > 0 {
      DeleteAfterRemove(tasks[1..], ids, id);
      if tasks[0].id !in ids {
        var rest := RemoveIds(tasks[1..], ids);
        assert ([tasks[0]] + rest)[1..] == rest;
      }
    }
  }

  /** Removing no id leaves the list alone. */
  lemma {:induction false} RemoveNothing(tasks: seq<Task>)
    ensures RemoveIds(tasks, {}) == tasks
    decreases |tasks|
  {
    if |tasks| > 0 {
      RemoveNothing(tasks[1..]);
    }
  }

  /**
   * Sweeping the snapshot removes from the store exactly the tasks whose id
   * belongs to some expired task of the snapshot.
   */
  lemma {:induction false} DeleteExpiredRemovesExpiredIds(pending: seq<Task>, store: seq<Task>, ids: set<string>,
                                                           now: int, parseDate: string -> Option<int>)
    ensures DeleteExpired(pending, RemoveIds(store, ids), now, parseDate) ==
            RemoveIds(store, ids + ExpiredIds(pending, now, parseDate))
    decreases |pending|
  {
    if |pending| == 0 {
      assert ids + {} == ids;
    } else {
      var task := pending[0];
      var rest := ExpiredIds(pending[1..], now, parseDate);
      if IsExpired(task, now, parseDate) {
        DeleteAfterRemove(store, ids, task.id);
        DeleteExpiredRemovesExpiredIds(pending[1..], store, ids + {task.id}, now, parseDate);
        assert ids + {task.id} + rest == ids + ExpiredIds(pending, now, parseDate);
      } else {
        DeleteExpiredRemovesExpiredIds(pending[1..], store, ids, now, parseDate);
      }
    }
  }

  /** When every task's id is a verdict on that task alone, filtering by id is filtering by verdict. */
  lemma {:induction false} RemoveIdsIsUnexpired(tasks: seq<Task>, ids: set<string>,
                                                now: int, parseDate: string -> Option<int>)
    requires forall i :: 0 <= i < |tasks| ==> (tasks[i].id in ids <==> IsExpired(tasks[i], now, parseDate))
    ensures RemoveIds(tasks, ids) == Unexpired(tasks, now, parseDate)
    decreases |tasks|
  {
    if |tasks| > 0 {
      assert forall i :: 1 <= i < |tasks| ==> tasks[1..][i - 1] == tasks[i];
      RemoveIdsIsUnexpired(tasks[1..], ids, now, parseDate);
    }
  }

  /**
   * With unique ids (the form draws them from `crypto.randomUUID`), the first
   * sweep leaves exactly the unexpired tasks, in their original order.
   */
  lemma SweepKeepsExactlyUnexpired(tasks: seq<Task>, now: int, parseDate: string -> Option<int>)
    requires UniqueIds(tasks)
    ensures RunCleanup(true, SweepState(false, tasks), now, parseDate) ==
            SweepState(true, Unexpired(tasks, now, parseDate))
  {
    var ids := ExpiredIds(tasks, now, parseDate);
    RemoveNothing(tasks);
    DeleteExpiredRemovesExpiredIds(tasks, tasks, {}, now, parseDate);
    assert {} + ids == ids;
    forall i | 0 <= i < |tasks|
      ensures tasks[i].id in ids <==> IsExpired(tasks[i], now, parseDate)
    {
      if tasks[i].id in ids {
        var j :| 0 <= j < |tasks| && tasks[j].id == tasks[i].id && IsExpired(tasks[j], now, parseDate);
        assert i == j;
      }
    }
    RemoveIdsIsUnexpired(tasks, ids, now, parseDate);
  }

  /**
   * Whatever the ids, the first sweep removes exactly the tasks that share an
   * id with an expired task: a fresh task whose id is duplicated by an expired
   * one goes as well.
   */
  lemma SweepRemovesExpiredIds(tasks: seq<Task>, now: int, parseDate: string -> Option<int>)
    ensures RunCleanup(true, SweepState(false, tasks), now, parseDate).tasks ==
            RemoveIds(tasks, ExpiredIds(tasks, now, parseDate))
  {
    RemoveNothing(tasks);
    DeleteExpiredRemovesExpiredIds(tasks, tasks, {}, now, parseDate);
    assert {} + ExpiredIds(tasks, now, parseDate) == ExpiredIds(tasks, now, parseDate);
  }

  /** A second invocation, or any after the flag is set, deletes nothing. */
  lemma SecondRunDeletesNothing(onClient: bool, tasks: seq<Task>, now: int, now': int,
                                parseDate: string -> Option<int>)
    ensures var first := RunCleanup(onClient, SweepState(false, tasks), now, parseDate);
            onClient ==> RunCleanup(onClient, first, now', parseDate) == first
  {
  }

  // ---------------------------------------------------------------------------
  // The per-task verdict
  // ---------------------------------------------------------------------------

  /** A task stamped more than eight hours before `now` is expired and does not survive. */
  lemma OldTaskDeleted(tasks: seq<Task>, i: nat, ts: string, ms: int, now: int,
                       parseDate: string -> Option<int>)
    requires i < |tasks| && EffectiveTimestamp(tasks[i]) == Some(ts) && ts != ""
    requires parseDate(ts) == Some(ms) && now - ms > EightHoursMs
    ensures IsExpired(tasks[i], now, parseDate)
    ensures tasks[i] !in RunCleanup(true, SweepState(false, tasks), now, parseDate).tasks
  {
    SweepRemovesExpiredIds(tasks, now, parseDate);
  }

  /** A task exactly eight hours old survives: the comparison is strict. */
  lemma ExactlyEightHoursSurvives(task: Task, ts: string, now: int, parseDate: string -> Option<int>)
    requires EffectiveTimestamp(task) == Some(ts)
    requires parseDate(ts) == Some(now - EightHoursMs)
    ensures !IsExpired(task, now, parseDate)
  {
  }

  /** A task with a future timestamp (negative age) survives. */
  lemma FutureTaskSurvives(task: Task, ts: string, ms: int, now: int, parseDate: string -> Option<int>)
    requires EffectiveTimestamp(task) == Some(ts)
    requires parseDate(ts) == Some(ms) && ms > now
    ensures !IsExpired(task, now, parseDate)
  {
  }

  /** Without a timestamp, with an empty one, or with one that does not parse, a task is kept. */
  lemma UnstampedTaskSurvives(task: Task, now: int, parseDate: string -> Option<int>)
    requires || EffectiveTimestamp(task).None?
             || EffectiveTimestamp(task) == Some("")
             || parseDate(EffectiveTimestamp(task).value).None?
    ensures !IsExpired(task, now, parseDate)
  {
  }

  /** An empty `lastUpdatedAt` shadows `createdAt`, however old: `??` does not skip `""`. */
  lemma EmptyLastUpdatedShadowsCreated(task: Task, now: int, parseDate: string -> Option<int>)
    requires task.lastUpdatedAt == Some("")
    ensures EffectiveTimestamp(task) == Some("")
    ensures !IsExpired(task, now, parseDate)
  {
  }

  /** Nine hours old goes, seven hours old stays, judged against the same `now`. */
  lemma NineAndSevenHours(a: Task, b: Task, ta: string, tb: string, now: int,
                          parseDate: string -> Option<int>)
    requires a.id != b.id
    requires EffectiveTimestamp(a) == Some(ta) && ta != "" && parseDate(ta) == Some(now - 9 * 3600000)
    requires EffectiveTimestamp(b) == Some(tb) && tb != "" && parseDate(tb) == Some(now - 7 * 3600000)
    ensures RunCleanup(true, SweepState(false, [a, b]), now, parseDate) == SweepState(true, [b])
  {
    SweepKeepsExactlyUnexpired([a, b], now, parseDate);
    assert [a, b][1..] == [b];
  }
}
