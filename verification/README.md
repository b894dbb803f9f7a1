# task-master board core in Dafny

A model of the logic inside the task-master board, a browser task board where tasks move
through the columns `todo`, `in-progress` and `done`. The model covers:

- `parseTimeToSeconds` and `checkTimeOverlap`, the wall-clock helpers in `lib/utils.ts`;
- the Redux task slice, with its `addTask` and `updateTaskStatus` reducers;
- the one-shot expiry sweep run by `useTaskCleanup`;
- the board's three status columns and its drag-end decision;
- the clamp that keeps the end time picker from falling below the start picker;
- the subtask checklist editor;
- the task the add form builds.

Every action is a pure function from state to state over immutable datatypes. The store is a
`seq<Task>`, strings are `seq<char>`, and JavaScript's `undefined`/`null`/`NaN` become `None`.

Modules, one per source file:

| module | file | contents |
|---|---|---|
| `Wrappers` | — | `Option` |
| `TimeUtils` | lib/utils.ts | `split(':')`, `Number` on digit strings, `parseTimeToSeconds`, `checkTimeOverlap` |
| `TaskSlice` | store/slices/taskSlice.ts | `Status`, `SubTask`, `Task`, `find`, `addTask`, `updateTaskStatus`, `deleteTask` |
| `TaskCleanup` | hooks/useTaskCleanup.ts | effective timestamp, age test, the sweep and its one-shot flag |
| `TaskBoard` | components/TaskBoard.tsx | status partitions, columns and counts, `handleDragEnd` |
| `StringOrder` | — | JavaScript `<` / `>=` on strings (used by TaskTime.tsx) |
| `TaskTime` | components/TaskTime.tsx | initial and mount state, the two change handlers, and how the string clamp relates to clock time |
| `SubTaskList` | components/SubTaskList.tsx | `addSubtask` and the two empty stubs |
| `TaskForm` | components/TaskForm.tsx | the task `handleAddTask` builds and dispatches |

Parameters stand in for the foreign calls:

- `new Date(ts).getTime()` is `parseDate: string -> Option<int>`, in milliseconds, with `None` for `NaN`.
- `Date.now()` is the integer `now`.
- `crypto.randomUUID()` is a caller-supplied id.
- The `toLocaleTimeString` result in the mount effect is the string `now`.
- `typeof window !== 'undefined'` is the boolean `onClient`.

The code does less than a task board might be expected to do:

- `addTask` takes any payload. It runs no overlap check and does not stamp `createdAt` or `lastUpdatedAt`.
- The slice has no update, delete or reset reducer.
- `checkTimeOverlap` is called from nowhere.
- The board sorts nothing. Each column lists its tasks in store order, and there is no chronological view by start time.

`deleteTask` is imported by the sweep hook but is not defined in the slice file. It is an
assumption of this model: `TaskSlice.DeleteTask` removes every task with the given id and
keeps the rest in order, as a Redux `filter` reducer would.

## Model

| member | source | states |
|---|---|---|
| TimeUtils.Split | lib/utils.ts:13 | `time.split(':')` always yields at least one piece |
| TimeUtils.JoinSplit | lib/utils.ts:13 | joining the pieces with `:` gives back the original string |
| TimeUtils.SplitJoin | lib/utils.ts:13 | splitting a `:`-join of colon-free pieces gives back exactly those pieces |
| TimeUtils.SplitAppend | lib/utils.ts:13 | splitting `a:b` gives the pieces of `a` followed by the pieces of `b` |
| TimeUtils.JsNumber | lib/utils.ts:13 | `Number` of a component is a number exactly when it is a digit string; `""` gives 0 |
| TimeUtils.DigitsRoundTrip | lib/utils.ts:13 | `Number` reads back the decimal spelling of every natural number |
| TimeUtils.Component | lib/utils.ts:13 | a missing piece defaults to 0; a present piece is a number exactly when it is a digit string |
| TimeUtils.ParseTimeToSeconds | lib/utils.ts:8-20 | absent or empty input gives `null`; otherwise the result is a number exactly when each of the first three pieces present is numeric, and it is never negative |
| TimeUtils.ParseJoinedDigits | lib/utils.ts:13-19 | `h[:m[:s[:…]]]` with digit pieces parses to `h*3600 + m*60 + s`; empty and missing pieces count 0, so `":30"` gives 1800; further pieces are ignored |
| TimeUtils.ParseIgnoresExtra | lib/utils.ts:13 | once three pieces are present, anything after a further `:` does not change the result, numeric or not |
| TimeUtils.HourOnly | lib/utils.ts:13-19 | `"09"` parses to 32400 |
| TimeUtils.ParseClock | lib/utils.ts:13-19 | `h:m:s` with digit pieces, zero-padded or not, parses to `h*3600 + m*60 + s` |
| TimeUtils.CheckTimeOverlap | lib/utils.ts:22-40 | if any of the four bounds fails to parse, the windows do not overlap |
| TimeUtils.OverlapIffSharedSecond | lib/utils.ts:42 | for non-empty windows whose bounds parse: the test is true iff some second lies in both half-open windows |
| TimeUtils.OverlapSymmetric | lib/utils.ts:42 | swapping window A and window B gives the same verdict |
| TimeUtils.TouchingWindows | lib/utils.ts:42 | `09:00:00–10:00:00` and `10:00:00–11:00:00` do not overlap; `09:00:00–10:30:00` and `10:00:00–11:00:00` do |
| TimeUtils.EmptyWindowOverlaps | lib/utils.ts:42 | a zero-length window `10:00:00–10:00:00` counts as overlapping `09:00:00–11:00:00`, though the two share no second |
| TaskSlice.FindIndex | store/slices/taskSlice.ts:35 | `find` returns the first position holding the id, and nothing exactly when no task has it |
| TaskSlice.AddTask | store/slices/taskSlice.ts:31-33 | the store grows by one, earlier tasks are unchanged, and the payload is last |
| TaskSlice.UpdateTaskStatus | store/slices/taskSlice.ts:34-39 | the length is unchanged; an unknown id changes nothing; the first task with the id gets the new status with all its other fields kept; every other task is kept, including later tasks with the same id |
| TaskSlice.UpdateSetsStatus | store/slices/taskSlice.ts:35-38 | the task found carries the new status and differs from before only in its status |
| TaskSlice.AnyTransitionAllowed | store/slices/taskSlice.ts:34-38 | the task's current status plays no part: from any status, the update gives the same store, with the task in the new status |
| TaskSlice.UpdateIdempotent | store/slices/taskSlice.ts:34-39 | applying the same status update twice equals applying it once |
| TaskSlice.DeleteTask | hooks/useTaskCleanup.ts:2 | (assumed reducer) the survivors are the tasks with another id; an unknown id changes nothing |
| TaskCleanup.EffectiveTimestamp | hooks/useTaskCleanup.ts:26 | `lastUpdatedAt` when it is present, even if empty; `createdAt` otherwise |
| TaskCleanup.Age | hooks/useTaskCleanup.ts:27-34 | the age exists exactly when the timestamp is present, non-empty and parses; it is then `now` minus the parsed instant |
| TaskCleanup.DeleteExpired | hooks/useTaskCleanup.ts:25-38 | the pass over the snapshot only removes tasks from the store |
| TaskCleanup.DeleteExpiredRemovesExpiredIds | hooks/useTaskCleanup.ts:25-38 | the pass over a snapshot removes from the store exactly the ids of the snapshot's expired tasks, whatever was removed before |
| TaskCleanup.RunCleanup | hooks/useTaskCleanup.ts:14-22 | off the client nothing changes; on the client the flag ends up set; with the flag already set nothing changes |
| TaskCleanup.SweepKeepsExactlyUnexpired | hooks/useTaskCleanup.ts:25-38 | with unique ids, the first sweep leaves exactly the unexpired tasks in their original order |
| TaskCleanup.SweepRemovesExpiredIds | hooks/useTaskCleanup.ts:25-38 | for any ids, the first sweep removes exactly the tasks that share an id with an expired task |
| TaskCleanup.SecondRunDeletesNothing | hooks/useTaskCleanup.ts:18-22 | after the first run has set the flag, a later run changes nothing, whatever its `now` |
| TaskCleanup.OldTaskDeleted | hooks/useTaskCleanup.ts:5 | a task stamped more than 28,800,000 ms before `now` is expired and not among the survivors |
| TaskCleanup.ExactlyEightHoursSurvives | hooks/useTaskCleanup.ts:36 | a task exactly eight hours old is not expired |
| TaskCleanup.FutureTaskSurvives | hooks/useTaskCleanup.ts:23-36 | a task stamped after `now` is not expired |
| TaskCleanup.UnstampedTaskSurvives | hooks/useTaskCleanup.ts:27-34 | a task with no timestamp, an empty one, or one that does not parse is not expired |
| TaskCleanup.EmptyLastUpdatedShadowsCreated | hooks/useTaskCleanup.ts:26-29 | an empty `lastUpdatedAt` hides `createdAt`, so the task is kept however old it is |
| TaskCleanup.NineAndSevenHours | hooks/useTaskCleanup.ts:23-38 | against one `now`, a nine-hour-old task is removed and a seven-hour-old one stays |
| TaskBoard.Partition | components/TaskBoard.tsx:13-26 | a column holds exactly the store's tasks of its status |
| TaskBoard.PartitionAppend | components/TaskBoard.tsx:13-26 | appending a task extends only the column of its own status |
| TaskBoard.PartitionIsSubsequence | components/TaskBoard.tsx:13-26 | each column keeps the store's order: it is a subsequence of the store |
| TaskBoard.PartitionsCoverStore | components/TaskBoard.tsx:13-26 | the three columns add up to the store as multisets, and their lengths add up to its length |
| TaskBoard.ExactlyOneColumn | components/TaskBoard.tsx:13-26 | a task of the store lies in the column of its status and in no other |
| TaskBoard.Columns | components/TaskBoard.tsx:46-57 | the three columns are Todo, In Progress and Done; each `count` is its list's length, and each list is its status's partition |
| TaskBoard.InitialColumnsEmpty | store/slices/taskSlice.ts:23-25 | the store starts with no tasks, so all three columns start empty with count 0 |
| TaskBoard.CountsSumToStore | components/TaskBoard.tsx:46-57 | the three counts add up to the number of tasks |
| TaskBoard.HandleDragEnd | components/TaskBoard.tsx:28-40 | no target or an unknown id dispatches nothing; otherwise a status update is dispatched exactly when the task found is not already in the target column, and it carries that id and status |
| TaskBoard.ApplyDrop | components/TaskBoard.tsx:36-38 | a drop never changes the number of tasks |
| TaskBoard.DropIsStatusUpdate | components/TaskBoard.tsx:36-38 | skipping the dispatch for a drop onto the task's own column changes nothing: every drop onto a column acts as the status update |
| TaskBoard.DroppedTaskInTargetColumn | components/TaskBoard.tsx:37-38 | after a drop onto a column, the dragged task, with its new status, is listed in that column |
| TaskBoard.IgnoredDrops | components/TaskBoard.tsx:31-37 | a drop with no target, or with an unknown id, leaves the store unchanged |
| StringOrder.LessIffWitness | components/TaskTime.tsx:29 | string `<` holds exactly when `a` is a proper prefix of `b`, or at the first difference `a` has the smaller character |
| StringOrder.LessIrreflexive | components/TaskTime.tsx:29 | no string is below itself |
| StringOrder.LessAsymmetric | components/TaskTime.tsx:37 | no two strings are each below the other |
| StringOrder.LessTransitive | components/TaskTime.tsx:29 | string `<` is transitive |
| StringOrder.LessTotal | components/TaskTime.tsx:37 | any two strings are equal or ordered one way |
| StringOrder.AtLeastIffEqualOrGreater | components/TaskTime.tsx:37 | `a >= b` holds exactly when `a == b` or `b < a` |
| StringOrder.EmptyIsLeast | components/TaskTime.tsx:37 | every string is `>= ""`, and `""` is below every non-empty string |
| TaskTime.Mount | components/TaskTime.tsx:11-23 | after mounting, start and end are the same current time, so the pair is ordered |
| TaskTime.HandleStartChange | components/TaskTime.tsx:25-32 | start takes the new value; an empty end stays empty; end changes exactly when it is set and below the new start, and then becomes the new start; the result is ordered |
| TaskTime.HandleEndChange | components/TaskTime.tsx:34-42 | start is untouched; end takes the new value exactly when it is `>= start`, and start otherwise; afterwards `end >= start` |
| TaskTime.RunKeepsOrdered | components/TaskTime.tsx:25-42 | any sequence of edits from an ordered state keeps "end unset or `end >= start`" |
| TaskTime.EditsFromInitialAreOrdered | components/TaskTime.tsx:7-8 | the initial state is `"", ""`, and every sequence of edits from it stays ordered |
| TaskTime.EndCannotBeCleared | components/TaskTime.tsx:37-41 | once start is set, clearing end puts start there instead |
| TaskTime.Pad2 | components/TaskTime.tsx:49-53 | a two-digit field of the time input is read back by `Number` as the number it writes |
| TaskTime.ParseFormatClock | lib/utils.ts:8-20 | an `HH:MM:SS` value of the time input parses to its seconds since midnight |
| TaskTime.LessConcat | components/TaskTime.tsx:29 | string `<` on two strings with heads of equal length is decided by the heads, or by the tails when the heads agree |
| TaskTime.ClockLess | components/TaskTime.tsx:29 | string `<` on `h:m:s` values with equal-width fields compares hours, then minutes, then seconds |
| TaskTime.Pad2Less | components/TaskTime.tsx:29 | on two-digit fields, string `<` is numeric `<`, and equal strings mean equal numbers |
| TaskTime.SecondsOrder | lib/utils.ts:19 | with minutes and seconds below 60, `h*3600 + m*60 + s` orders clocks by hours, then minutes, then seconds |
| TaskTime.ClockOrder | components/TaskTime.tsx:29-37 | on `HH:MM:SS` values, string `<` is exactly the order in time |
| TaskTime.ClampAgreesWithClock | components/TaskTime.tsx:37-41 | on `HH:MM:SS` values, the `>=` the clamp tests holds exactly when `parseTimeToSeconds` puts the end no earlier than the start |
| SubTaskList.AddSubtask | components/SubTaskList.tsx:19-24 | one item is appended; earlier items are unchanged; the new item has the fresh id, empty text, and is unchecked |
| SubTaskList.RemoveSubtask | components/SubTaskList.tsx:26 | the stub leaves the list unchanged |
| SubTaskList.UpdateSubtask | components/SubTaskList.tsx:27 | the stub leaves the list unchanged |
| SubTaskList.EditsOnlyAppendBlanks | components/SubTaskList.tsx:17-27 | starting from any list, edits add one item per add click and change no earlier item; every added item stays blank and unchecked |
| SubTaskList.AddedIds | components/SubTaskList.tsx:19-24 | one fresh id per add click, so as many ids as additions |
| SubTaskList.EditsAppendFreshIds | components/SubTaskList.tsx:19-27 | the items past the original list carry the add clicks' ids, in click order |
| SubTaskList.EditsFromInitial | components/SubTaskList.tsx:17-27 | from the empty initial list, the list holds one blank, unchecked item per add click, each with its click's id |
| TaskForm.NewTask | components/TaskForm.tsx:42-50 | the built task copies id, title, description and times from the form; its status is `todo`; its subtasks are empty; it has no timestamps |
| TaskForm.HandleAddTask | components/TaskForm.tsx:39-51 | submitting keeps the existing tasks and appends exactly the task built from the form: its id, a `todo` status, no subtasks |
| TaskForm.SubmittedTaskEndsTodoColumn | components/TaskForm.tsx:47 | a submitted task appears last in the Todo column, and the other columns are unchanged |
| TaskForm.FormTaskNeverExpires | components/TaskForm.tsx:42-51 | a task with a fresh id created through the form is never expired and survives the sweep at every `now` |
| TaskForm.NewStampedTask | components/TaskForm.tsx:42-50 | the corrected task is the form's task with `createdAt` and `lastUpdatedAt` set to the submission stamp |
| TaskForm.HandleAddStampedTask | components/TaskForm.tsx:39-51 | the corrected submit appends a `todo` task stamped in both timestamp fields |
| TaskForm.StampedTaskExpiresAfterEightHours | hooks/useTaskCleanup.ts:25-38 | a stamped task with a fresh id is expired, and removed by the first sweep, exactly when more than eight hours have passed since its stamp |

## Findings

| source | as written | input that shows it | evidently intended | confidence | as-written member | corrected member |
|---|---|---|---|---|---|---|
| components/TaskForm.tsx:42-50 | the task the form dispatches carries no `createdAt` or `lastUpdatedAt`, and the slice's `Task` type declares neither, so the sweep skips every task the form creates | any submitted task, swept at any `now`, e.g. one day later | tasks expire as the sweep intends; the form text says tasks "live for 12 hours", while the sweep's constant is 8 hours | not executed; high | TaskForm.FormTaskNeverExpires | TaskForm.StampedTaskExpiresAfterEightHours |

## Left out

- Rendering: all JSX; components/HeroPage.tsx, components/TaskCard.tsx, components/TaskColumn.tsx, app/icon.tsx and app/page.tsx.
- components/TaskContent.tsx: its three filters are the ones in components/TaskBoard.tsx, and the `Partition` lemmas cover them; the rest is rendering.
- Redux wiring and persistence: components/providers/ReduxProvider.tsx, store/hooks.ts, redux-persist. The store setup module (`@/store`) is not part of this model, so there is no save/load round trip to state.
- The drag-and-drop library: only `active.id` and `over` (as an optional column status) are modelled. components/TaskCard.tsx does not register cards as draggable.
- React mechanics: `useEffect` dependencies, `useRef`, `useMemo` and re-renders. The sweep's one-shot flag is explicit state in `SweepState`.
- Form plumbing: `FormData`, the sheet's open state, the imperative `openForm` handle, and `crypto.randomUUID`.
- TimeUtils.JsNumber: models `Number` only on digit strings and `""`. Signs, surrounding whitespace, decimals, exponents, hexadecimal and `Infinity` are left out. They give values or `NaN` that the model treats as `NaN`.
- TimeUtils.ParseTimeToSeconds: results are unbounded naturals. JavaScript's double-precision arithmetic on very long digit strings is not modelled.
- StringOrder.Less: compares Dafny characters, which are Unicode scalar values. JavaScript compares UTF-16 code units. The two orders differ only for characters outside the Basic Multilingual Plane against characters U+E000–U+FFFF.
- TaskTime.ClampAgreesWithClock: covers only the `HH:MM:SS` values the `step="1"` inputs produce. The mount effect's `HH:MM` string and hand-typed values of other shapes are not covered.
- TimeUtils.OverlapIffSharedSecond: holds only for non-empty windows. `TimeUtils.EmptyWindowOverlaps` shows a zero-length window that the code reports as overlapping.
- TaskTime.Mount: the `toLocaleTimeString("en-GB", …)` formatting of the current time is not modelled; the formatted string is a parameter.
- An overlap check on add, and update, delete and reset operations with timestamp refresh, are not modelled. store/slices/taskSlice.ts defines none of them.
- TaskSlice.DeleteTask: its body is an assumption, because the reducer is not defined in store/slices/taskSlice.ts.
