/**
 * The checklist editor of components/SubTaskList.tsx: a local list of
 * sub-items where only adding is implemented; removing and updating are
 * empty stubs.
 */
module SubTaskList {
  import opened Wrappers
  import opened TaskSlice

  /** The component's `subtasks` state starts empty. */
  const InitialSubtasks: seq<SubTask> := []

  /**
   * `addSubtask`: appends a blank, unchecked item. `freshId` stands for the
   * `crypto.randomUUID()` drawn for it.
   */
  function AddSubtask(subtasks: seq<SubTask>, freshId: string): (r: seq<SubTask>)
    ensures |r| == |subtasks| + 1
    ensures r[..|subtasks|] == subtasks
    ensures r[|subtasks|].id == freshId
    ensures r[|subtasks|].text == "" && !r[|subtasks|].completed
  {
    subtasks + [SubTask(freshId, "", false)]
  }

  /** `removeSubtask(id)`: the handler's body is empty, so nothing is removed. */
  function RemoveSubtask(subtasks: seq<SubTask>, id: string): (r: seq<SubTask>)
    ensures r == subtasks
  {
    subtasks
  }

  /** The `Partial<SubTask>` an edit carries: a new text, a new check mark, or both. */
  datatype SubTaskPatch = SubTaskPatch(text: Option<string>, completed: Option<bool>)

  /** `updateSubtask(id, patch)`: the handler's body is empty, so the edit is dropped. */
  function UpdateSubtask(subtasks: seq<SubTask>, id: string, patch: SubTaskPatch): (r: seq<SubTask>)
    ensures r == subtasks
  {
    subtasks
  }

  /** A user action on the list. */
  datatype Edit = Add(freshId: string) | Remove(id: string) | Update(id: string, patch: SubTaskPatch)

  function Apply(subtasks: seq<SubTask>, e: Edit): seq<SubTask> {
    match e
    case Add(freshId) => AddSubtask(subtasks, freshId)
    case Remove(id) => RemoveSubtask(subtasks, id)
    case Update(id, patch) => UpdateSubtask(subtasks, id, patch)
  }

  /** Applies edits in order. */
  function ApplyAll(subtasks: seq<SubTask>, edits: seq<Edit>): seq<SubTask>
    decreases |edits|
  {
    if |edits| == 0 then subtasks else ApplyAll(Apply(subtasks, edits[0]), edits[1..])
  }

  /** How many of the edits are additions. */
  function AddCount(edits: seq<Edit>): nat
    decreases |edits|
  {
    if |edits| == 0 then 0 else (if edits[0].Add? then 1 else 0) + AddCount(edits[1..])
  }

  /**
   * However the user clicks, the list only grows by the additions, earlier
   * items never change, and every item ever added is blank and unchecked.
   */
  lemma {:induction false} EditsOnlyAppendBlanks(subtasks: seq<SubTask>, edits: seq<Edit>)
    ensures |ApplyAll(subtasks, edits)| == |subtasks| + AddCount(edits)
    ensures ApplyAll(subtasks, edits)[..|subtasks|] == subtasks
    ensures forall i :: |subtasks| <= i < |ApplyAll(subtasks, edits)| ==>
              ApplyAll(subtasks, edits)[i].text == "" && !ApplyAll(subtasks, edits)[i].completed
    decreases |edits|
  {
    if |edits| > 0 {
      var next := Apply(subtasks, edits[0]);
      EditsOnlyAppendBlanks(next, edits[1..]);
      var r := ApplyAll(subtasks, edits);
      assert r[..|next|] == next;
      assert r[..|subtasks|] == r[..|next|][..|subtasks|];
      forall i | |subtasks| <= i < |r|
        ensures r[i].text == "" && !r[i].completed
      {
        if i < |next| {
          assert r[i] == next[i];
        }
      }
    }
  }

  /** The fresh ids the additions among the edits drew, in order. */
  function AddedIds(edits: seq<Edit>): (ids: seq<string>)
    ensures |ids| == AddCount(edits)
    decreases |edits|
  {
    if |edits| == 0 then []
    else (if edits[0].Add? then [edits[0].freshId] else []) + AddedIds(edits[1..])
  }

  /** The items past the original list carry the additions' ids, in the order they were clicked. */
  lemma {:induction false} EditsAppendFreshIds(subtasks: seq<SubTask>, edits: seq<Edit>)
    ensures |ApplyAll(subtasks, edits)| == |subtasks| + |AddedIds(edits)|
    ensures forall i :: 0 <= i < |AddedIds(edits)| ==>
              ApplyAll(subtasks, edits)[|subtasks| + i].id == AddedIds(edits)[i]
    decreases |edits|
  {
    EditsOnlyAppendBlanks(subtasks, edits);
    if |edits| > 0 {
      var next := Apply(subtasks, edits[0]);
      EditsAppendFreshIds(next, edits[1..]);
      EditsOnlyAppendBlanks(next, edits[1..]);
      var r := ApplyAll(subtasks, edits);
      var ids := AddedIds(edits);
      forall i | 0 <= i < |ids|
        ensures r[|subtasks| + i].id == ids[i]
      {
        if edits[0].Add? {
          if i == 0 {
            assert r[|subtasks|] == r[..|next|][|subtasks|] == next[|subtasks|];
          } else {
            assert r[|subtasks| + i] == r[|next| + (i - 1)];
          }
        }
      }
    }
  }

  /** From the empty initial list, the component shows one blank item per click on "add", with that click's id. */
  lemma EditsFromInitial(edits: seq<Edit>)
    ensures |ApplyAll(InitialSubtasks, edits)| == AddCount(edits)
    ensures forall i :: 0 <= i < |ApplyAll(InitialSubtasks, edits)| ==>
              && ApplyAll(InitialSubtasks, edits)[i].id == AddedIds(edits)[i]
              && ApplyAll(InitialSubtasks, edits)[i].text == ""
              && !ApplyAll(InitialSubtasks, edits)[i].completed
  {
    EditsOnlyAppendBlanks(InitialSubtasks, edits);
    EditsAppendFreshIds(InitialSubtasks, edits);
  }
}
