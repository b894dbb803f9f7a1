/**
 * The Redux task slice (store/slices/taskSlice.ts): the `Task` and `SubTask`
 * records and the two reducers `addTask` and `updateTaskStatus`, each an
 * action applied to the list of tasks as a pure function from state to state.
 */
module TaskSlice {
  import opened Wrappers

  /** The three board columns `'todo' | 'in-progress' | 'done'`. */
  datatype Status = Todo | InProgress | Done

  /** A checklist line of a task. */
  datatype SubTask = SubTask(id: string, text: string, completed: bool)

  /**
   * A task. `createdAt` and `lastUpdatedAt` are not declared by the slice's
   * interface, but the expiry sweep reads them, so they are carried here as
   * optional ISO-8601 strings.
   */
  datatype Task = Task(
    id: string,
    title: string,
    description: string,
    subtasks: seq<SubTask>,
    status: Status,
    startTime: Option<string>,
    endTime: Option<string>,
    createdAt: Option<string>,
    lastUpdatedAt: Option<string>)

  /** The slice's initial state: no tasks. */
  const InitialTasks: seq<Task> := []

  /** Every id in the list occurs once. */
  predicate UniqueIds(tasks: seq<Task>) {
    forall i, j :: 0 <= i < j < |tasks| ==> tasks[i].id != tasks[j].id
  }

  /** Some task in the list has this id. */
  predicate HasId(tasks: seq<Task>, id: string) {
    exists i :: 0 <= i < |tasks| && tasks[i].id == id
  }

  /** Position `i` holds the first task with this id (what `Array.prototype.find` returns). */
  predicate IsFirstWithId(tasks: seq<Task>, id: string, i: int) {
    0 <= i < |tasks| && tasks[i].id == id && forall k :: 0 <= k < i ==> tasks[k].id != id
  }

  /** `tasks.find(t => t.id === id)`, as the position of the task found. */
  function FindIndex(tasks: seq<Task>, id: string): (r: Option<nat>)
    ensures r.Some? ==> IsFirstWithId(tasks, id, r.value)
    ensures r.None? <==> !HasId(tasks, id)
  {
    if |tasks| == 0 then None
    else if tasks[0].id == id then Some(0)
    else
      match FindIndex(tasks[1..], id)
      case None => None
      case Some(i) => Some(i + 1)
  }

  /** `addTask`: the payload, whatever it holds, is pushed at the end of the list. */
  function AddTask(tasks: seq<Task>, payload: Task): (r: seq<Task>)
    ensures |r| == |tasks| + 1
    ensures r[..|tasks|] == tasks
    ensures r[|tasks|] == payload
  {
    tasks + [payload]
  }

  /**
   * `updateTaskStatus({id, status})`: the first task with that id gets the new
   * status; when there is none the list is left as it is.
   */
  function UpdateTaskStatus(tasks: seq<Task>, id: string, status: Status): (r: seq<Task>)
    ensures |r| == |tasks|
    ensures !HasId(tasks, id) ==> r == tasks
    ensures forall j :: 0 <= j < |r| ==>
              r[j] == if IsFirstWithId(tasks, id, j) then tasks[j].(status := status) else tasks[j]
  {
    match FindIndex(tasks, id)
    case None => tasks
    case Some(i) => tasks[i := tasks[i].(status := status)]
  }

  /**
   * `deleteTask(id)`, which the expiry sweep dispatches but the slice shown
   * does not define: every task with that id is removed, the others keep
   * their order.
   */
  function DeleteTask(tasks: seq<Task>, id: string): (r: seq<Task>)
    ensures forall t :: t in r <==> t in tasks && t.id != id
    ensures |r| <= |tasks|
    ensures !HasId(tasks, id) ==> r == tasks
    decreases |tasks|
  {
    if |tasks| == 0 then []
    else if tasks[0].id == id then DeleteTask(tasks[1..], id)
    else [tasks[0]] + DeleteTask(tasks[1..], id)
  }

  /** After a status update the task found carries the new status, and only its status changed. */
  lemma UpdateSetsStatus(tasks: seq<Task>, id: string, status: Status, i: nat)
    requires IsFirstWithId(tasks, id, i)
    ensures UpdateTaskStatus(tasks, id, status)[i].status == status
    ensures UpdateTaskStatus(tasks, id, status)[i] == tasks[i].(status := status)
  {
  }

  /**
   * Any status can move to any status: whatever status `from` the task found
   * holds beforehand, the update gives the same store, with the task in `to`.
   */
  lemma AnyTransitionAllowed(tasks: seq<Task>, id: string, i: nat, from: Status, to: Status)
    requires IsFirstWithId(tasks, id, i)
    ensures UpdateTaskStatus(tasks[i := tasks[i].(status := from)], id, to) == UpdateTaskStatus(tasks, id, to)
    ensures UpdateTaskStatus(tasks[i := tasks[i].(status := from)], id, to)[i].status == to
  {
  }

  /** Repeating a status update changes nothing more. */
  lemma {:induction false} UpdateIdempotent(tasks: seq<Task>, id: string, status: Status)
    ensures UpdateTaskStatus(UpdateTaskStatus(tasks, id, status), id, status) ==
            UpdateTaskStatus(tasks, id, status)
  {
    var once := UpdateTaskStatus(tasks, id, status);
    var twice := UpdateTaskStatus(once, id, status);
    forall j | 0 <= j < |tasks|
      ensures twice[j] == once[j]
    {
      assert IsFirstWithId(once, id, j) <==> IsFirstWithId(tasks, id, j);
    }
  }
}
