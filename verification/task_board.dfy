/**
 * The board of components/TaskBoard.tsx: the three per-status columns it
 * derives from the store, and the decision `handleDragEnd` takes when a card
 * is dropped.
 */
module TaskBoard {
  import opened Wrappers
  import opened TaskSlice

  /** `tasks.filter(task => task.status === status)`. */
  function Partition(tasks: seq<Task>, status: Status): (r: seq<Task>)
    ensures forall t :: t in r <==> t in tasks && t.status == status
    ensures |r| <= |tasks|
    decreases |tasks|
  {
    if |tasks| == 0 then []
    else if tasks[0].status == status then [tasks[0]] + Partition(tasks[1..], status)
    else Partition(tasks[1..], status)
  }

  /** Appending a task extends exactly its own status's column. */
  lemma {:induction false} PartitionAppend(tasks: seq<Task>, t: Task, status: Status)
    ensures Partition(tasks + [t], status) ==
            if t.status == status then Partition(tasks, status) + [t] else Partition(tasks, status)
    decreases |tasks|
  {
    if |tasks| == 0 {
      assert tasks + [t] == [t];
      assert [t][1..] == [];
    } else {
      assert (tasks + [t])[1..] == tasks[1..] + [t];
      PartitionAppend(tasks[1..], t, status);
    }
  }

  /** `a` can be obtained from `b` by deleting elements: order is kept. */
  predicate IsSubsequence(a: seq<Task>, b: seq<Task>)
    decreases |b|
  {
    if |a| == 0 then true
    else if |b| == 0 then false
    else if a[0] == b[0] then IsSubsequence(a[1..], b[1..])
    else IsSubsequence(a, b[1..])
  }

  /** Each column lists the store's tasks of its status in store order. */
  lemma {:induction false} PartitionIsSubsequence(tasks: seq<Task>, status: Status)
    ensures IsSubsequence(Partition(tasks, status), tasks)
    decreases |tasks|
  {
    if |tasks| > 0 {
      PartitionIsSubsequence(tasks[1..], status);
      if tasks[0].status == status {
        var rest := Partition(tasks[1..], status);
        assert ([tasks[0]] + rest)[1..] == rest;
      }
    }
  }

  /** The three columns hold every task exactly once: as multisets they add up to the store. */
  lemma {:induction false} PartitionsCoverStore(tasks: seq<Task>)
    ensures multiset(Partition(tasks, Todo)) + multiset(Partition(tasks, InProgress)) +
            multiset(Partition(tasks, Done)) == multiset(tasks)
    ensures |Partition(tasks, Todo)| + |Partition(tasks, InProgress)| + |Partition(tasks, Done)| == |tasks|
    decreases |tasks|
  {
    if |tasks| > 0 {
      PartitionsCoverStore(tasks[1..]);
      assert tasks == [tasks[0]] + tasks[1..];
    }
  }

  /** A task of the store lies in its own status's column and in no other. */
  lemma ExactlyOneColumn(tasks: seq<Task>, t: Task, s: Status)
    requires t in tasks
    ensures t in Partition(tasks, s) <==> s == t.status
  {
  }

  /** A column as `TaskColumn` receives it: title, status, tasks and `count`. */
  datatype Column = Column(title: string, status: Status, tasks: seq<Task>, count: nat)

  /** The three columns the board renders, left to right. */
  function Columns(tasks: seq<Task>): (cols: seq<Column>)
    ensures |cols| == 3
    ensures cols[0].status == Todo && cols[1].status == InProgress && cols[2].status == Done
    ensures forall i :: 0 <= i < 3 ==> cols[i].count == |cols[i].tasks|
    ensures forall i :: 0 <= i < 3 ==> cols[i].tasks == Partition(tasks, cols[i].status)
  {
    var todo := Partition(tasks, Todo);
    var inProgress := Partition(tasks, InProgress);
    var done := Partition(tasks, Done);
    [Column("Todo", Todo, todo, |todo|),
     Column("In Progress", InProgress, inProgress, |inProgress|),
     Column("Done", Done, done, |done|)]
  }

  /** The store starts empty, so the board starts with three empty columns. */
  lemma InitialColumnsEmpty()
    ensures forall i :: 0 <= i < 3 ==> Columns(InitialTasks)[i].tasks == [] && Columns(InitialTasks)[i].count == 0
    ensures UniqueIds(InitialTasks)
  {
  }

  /** The column counts add up to the number of tasks in the store. */
  lemma CountsSumToStore(tasks: seq<Task>)
    ensures Columns(tasks)[0].count + Columns(tasks)[1].count + Columns(tasks)[2].count == |tasks|
  {
    PartitionsCoverStore(tasks);
  }

  /** The reducer action `handleDragEnd` may dispatch. */
  datatype Action = UpdateStatus(id: string, status: Status)

  /**
   * `handleDragEnd`: `over` is the status of the column dropped on (absent
   * when the card was released outside every column), `activeId` the dragged
   * task. A status change is dispatched only when the task exists and is not
   * already in that column.
   */
  function HandleDragEnd(tasks: seq<Task>, activeId: string, over: Option<Status>): (r: Option<Action>)
    ensures over.None? ==> r.None?
    ensures !HasId(tasks, activeId) ==> r.None?
    ensures r.Some? <==>
              over.Some? && HasId(tasks, activeId) &&
              tasks[FindIndex(tasks, activeId).value].status != over.value
    ensures r.Some? ==> r.value == UpdateStatus(activeId, over.value)
  {
    match over
    case None => None
    case Some(newStatus) =>
      match FindIndex(tasks, activeId)
      case None => None
      case Some(i) =>
        if tasks[i].status != newStatus then Some(UpdateStatus(activeId, newStatus)) else None
  }

  /** The store after the drop: the dispatched action, if any, run through the reducer. */
  function ApplyDrop(tasks: seq<Task>, activeId: string, over: Option<Status>): (r: seq<Task>)
    ensures |r| == |tasks|
  {
    match HandleDragEnd(tasks, activeId, over)
    case None => tasks
    case Some(a) => UpdateTaskStatus(tasks, a.id, a.status)
  }

  /**
   * Dropping a task on a column leaves the store as if the status update had
   * been dispatched unconditionally: the skipped cases are exactly the no-ops.
   */
  lemma DropIsStatusUpdate(tasks: seq<Task>, activeId: string, target: Status)
    ensures ApplyDrop(tasks, activeId, Some(target)) == UpdateTaskStatus(tasks, activeId, target)
  {
    if HasId(tasks, activeId) && HandleDragEnd(tasks, activeId, Some(target)).None? {
      var i := FindIndex(tasks, activeId).value;
      assert tasks[i].(status := target) == tasks[i];
    }
  }

  /** After a drop on a column the dragged task is listed in that column with nothing else changed. */
  lemma DroppedTaskInTargetColumn(tasks: seq<Task>, activeId: string, target: Status)
    requires HasId(tasks, activeId)
    ensures var i := FindIndex(tasks, activeId).value;
            tasks[i].(status := target) in Partition(ApplyDrop(tasks, activeId, Some(target)), target)
  {
    DropIsStatusUpdate(tasks, activeId, target);
    var i := FindIndex(tasks, activeId).value;
    assert UpdateTaskStatus(tasks, activeId, target)[i] == tasks[i].(status := target);
  }

  /** Releasing a card outside every column, or a card with an unknown id, leaves the store alone. */
  lemma IgnoredDrops(tasks: seq<Task>, activeId: string, over: Option<Status>)
    requires over.None? || !HasId(tasks, activeId)
    ensures ApplyDrop(tasks, activeId, over) == tasks
  {
  }
}
