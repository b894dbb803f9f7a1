/**
 * The submit handler of components/TaskForm.tsx: it builds a task from the
 * form's fields and dispatches `addTask`.
 */
module TaskForm {
  import opened Wrappers
  import opened TaskSlice
  import TaskBoard
  import TaskCleanup

  /** What the form reads from its `FormData`; `id` stands for the `crypto.randomUUID()` drawn. */
  datatype FormFields = FormFields(
    id: string,
    title: string,
    description: string,
    startTime: Option<string>,
    endTime: Option<string>)

  /**
   * The form's own `subtasks` state. `SubTaskList` takes no props, so the
   * `value`/`onChange` the form hands it are ignored and this never leaves `[]`.
   */
  const FormSubtasks: seq<SubTask> := []

  /**
   * The task `handleAddTask` builds, as written: status `'todo'`, the form's
   * (always empty) subtasks, and neither `createdAt` nor `lastUpdatedAt`.
   */
  function NewTask(f: FormFields): (t: Task)
    ensures t.id == f.id && t.title == f.title && t.description == f.description
    ensures t.startTime == f.startTime && t.endTime == f.endTime
    ensures t.status == Todo
    ensures t.subtasks == []
    ensures t.createdAt.None? && t.lastUpdatedAt.None?
  {
    Task(f.id, f.title, f.description, FormSubtasks, Todo, f.startTime, f.endTime, None, None)
  }

  /** `handleAddTask`: dispatch `addTask(newTask)`; the new task lands last, with status `'todo'`. */
  function HandleAddTask(tasks: seq<Task>, f: FormFields): (r: seq<Task>)
    ensures |r| == |tasks| + 1 && r[..|tasks|] == tasks
    ensures r[|tasks|].id == f.id && r[|tasks|].status == Todo && r[|tasks|].subtasks == []
    ensures r[|tasks|] == NewTask(f)
  {
    AddTask(tasks, NewTask(f))
  }

  /** A submitted task appears at the end of the Todo column; the other columns are unchanged. */
  lemma SubmittedTaskEndsTodoColumn(tasks: seq<Task>, f: FormFields)
    ensures TaskBoard.Partition(HandleAddTask(tasks, f), Todo) == TaskBoard.Partition(tasks, Todo) + [NewTask(f)]
    ensures TaskBoard.Partition(HandleAddTask(tasks, f), InProgress) == TaskBoard.Partition(tasks, InProgress)
    ensures TaskBoard.Partition(HandleAddTask(tasks, f), Done) == TaskBoard.Partition(tasks, Done)
  {
    TaskBoard.PartitionAppend(tasks, NewTask(f), Todo);
    TaskBoard.PartitionAppend(tasks, NewTask(f), InProgress);
    TaskBoard.PartitionAppend(tasks, NewTask(f), Done);
  }

  /**
   * As written, a task created through the form carries no timestamp, so the
   * expiry sweep skips it at every `now`: it never expires. (Its id is fresh,
   * as a `crypto.randomUUID()` is, so no expired namesake takes it along.)
   */
  lemma FormTaskNeverExpires(tasks: seq<Task>, f: FormFields, now: int, parseDate: string -> Option<int>)
    requires !HasId(tasks, f.id)
    ensures !TaskCleanup.IsExpired(NewTask(f), now, parseDate)
    ensures NewTask(f) in
              TaskCleanup.RunCleanup(true, TaskCleanup.SweepState(false, HandleAddTask(tasks, f)), now, parseDate).tasks
  {
    var store := HandleAddTask(tasks, f);
    var ids := TaskCleanup.ExpiredIds(store, now, parseDate);
    TaskCleanup.SweepRemovesExpiredIds(store, now, parseDate);
    assert store[|tasks|] == NewTask(f);
    assert forall j :: 0 <= j < |tasks| ==> store[j] == tasks[j];
    assert forall j :: 0 <= j < |store| && store[j].id == f.id ==> store[j] == NewTask(f);
    assert f.id !in ids;
  }

  /**
   * The evidently intended task: stamped with the submission time `stamp`
   * (an ISO-8601 string) in both `createdAt` and `lastUpdatedAt`.
   */
  function NewStampedTask(f: FormFields, stamp: string): (t: Task)
    ensures t == NewTask(f).(createdAt := Some(stamp), lastUpdatedAt := Some(stamp))
  {
    Task(f.id, f.title, f.description, FormSubtasks, Todo, f.startTime, f.endTime, Some(stamp), Some(stamp))
  }

  /** The corrected submit handler: dispatch `addTask` with the stamped task. */
  function HandleAddStampedTask(tasks: seq<Task>, f: FormFields, stamp: string): (r: seq<Task>)
    ensures |r| == |tasks| + 1 && r[..|tasks|] == tasks
    ensures r[|tasks|].id == f.id && r[|tasks|].status == Todo
    ensures r[|tasks|].createdAt == r[|tasks|].lastUpdatedAt == Some(stamp)
  {
    AddTask(tasks, NewStampedTask(f, stamp))
  }

  /**
   * A stamped task submitted with a fresh id is swept away exactly when more
   * than eight hours have passed since `stamp`.
   */
  lemma StampedTaskExpiresAfterEightHours(tasks: seq<Task>, f: FormFields, stamp: string, ms: int, now: int,
                                          parseDate: string -> Option<int>)
    requires !HasId(tasks, f.id)
    requires stamp != "" && parseDate(stamp) == Some(ms)
    ensures TaskCleanup.IsExpired(NewStampedTask(f, stamp), now, parseDate) <==> now - ms > TaskCleanup.EightHoursMs
    ensures NewStampedTask(f, stamp) !in
              TaskCleanup.RunCleanup(true, TaskCleanup.SweepState(false, HandleAddStampedTask(tasks, f, stamp)), now, parseDate).tasks
            <==> now - ms > TaskCleanup.EightHoursMs
  {
    var t := NewStampedTask(f, stamp);
    var store := HandleAddStampedTask(tasks, f, stamp);
    var ids := TaskCleanup.ExpiredIds(store, now, parseDate);
    TaskCleanup.SweepRemovesExpiredIds(store, now, parseDate);
    assert store[|tasks|] == t;
    assert forall j :: 0 <= j < |tasks| ==> store[j] == tasks[j];
    assert forall j :: 0 <= j < |store| && store[j].id == f.id ==> store[j] == t;
    assert f.id in ids <==> TaskCleanup.IsExpired(t, now, parseDate);
  }
}
