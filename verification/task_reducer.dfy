/**
 The task list reducer of the Task Tracker front end: a pure transition
 function from the current ordered list of tasks and one dispatched action
 to the next list. Nothing here enforces unique ids: a list may hold several
 tasks with the same id, and toggling or deleting acts on every one of them.
 */
module TaskReducer {

  /** A server-assigned identifier, compared only for (strict) equality. */
  type TaskId(==)

  /** One task record as the server returns it. */
  datatype Task = Task(id: TaskId, title: string, completed: bool)

  /** The type string of an action that is none of the four the reducer handles. */
  type OtherKind = k: string
    | k != "ADD_TASK" && k != "TOGGLE_TASK" && k != "DELETE_TASK" && k != "SET_TASKS"
    witness ""

  /**
   A dispatched action. `Unknown` carries the type string of any action that
   the reducer does not handle.
   */
  datatype Action =
    | AddTask(task: Task)
    | ToggleTask(id: TaskId)
    | DeleteTask(id: TaskId)
    | SetTasks(tasks: seq<Task>)
    | Unknown(kind: OtherKind)

  /** Some task in `s` carries `id`. */
  predicate Contains(s: seq<Task>, id: TaskId)
  {
    exists k :: 0 <= k < |s| && s[k].id == id
  }

  /** How many tasks in `s` carry `id`. */
  function Count(s: seq<Task>, id: TaskId): (c: nat)
    ensures c <= |s|
    ensures c == 0 <==> !Contains(s, id)
  {
    if s == [] then 0
    else
      assert forall k :: 0 < k < |s| ==> s[k] == s[1..][k - 1];
      (if s[0].id == id then 1 else 0) + Count(s[1..], id)
  }

  /** No two tasks of `s` share an id. */
  predicate UniqueIds(s: seq<Task>)
  {
    forall i, j :: 0 <= i < j < |s| ==> s[i].id != s[j].id
  }

  /** `r` is obtained from `s` by dropping some of its elements, keeping the order of the rest. */
  predicate IsSubsequence(r: seq<Task>, s: seq<Task>)
    decreases |s|
  {
    || r == []
    || (s != [] && ((r[0] == s[0] && IsSubsequence(r[1..], s[1..])) || IsSubsequence(r, s[1..])))
  }

  /** One task after a toggle of `id`: its completed flag is negated when its id matches. */
  function Flip(t: Task, id: TaskId): Task
  {
    if t.id == id then t.(completed := !t.completed) else t
  }

  /** The list after toggling every task that carries `id` (the `map` of the source). */
  function ToggleMatching(s: seq<Task>, id: TaskId): (r: seq<Task>)
    ensures |r| == |s|
    ensures forall k :: 0 <= k < |s| ==>
      && r[k].id == s[k].id
      && r[k].title == s[k].title
      && r[k].completed == (if s[k].id == id then !s[k].completed else s[k].completed)
    ensures forall k :: 0 <= k < |s| && s[k].id != id ==> r[k] == s[k]
  {
    if s == [] then [] else [Flip(s[0], id)] + ToggleMatching(s[1..], id)
  }

  /** The list after removing every task that carries `id` (the `filter` of the source). */
  function DeleteMatching(s: seq<Task>, id: TaskId): (r: seq<Task>)
    ensures forall k :: 0 <= k < |r| ==> r[k].id != id
    ensures IsSubsequence(r, s)
    ensures |r| == |s| - Count(s, id)
  {
    if s == [] then []
    else if s[0].id == id then DeleteMatching(s[1..], id)
    else [s[0]] + DeleteMatching(s[1..], id)
  }

  /** The reducer: the next task list after dispatching `a` on `state`. */
  function Reduce(state: seq<Task>, a: Action): (r: seq<Task>)
    ensures a.AddTask? ==> |r| == |state| + 1
    ensures a.ToggleTask? ==> |r| == |state|
    ensures a.DeleteTask? ==> |r| == |state| - Count(state, a.id)
    ensures a.DeleteTask? ==> (|r| < |state| <==> Contains(state, a.id))
    ensures a.SetTasks? ==> |r| == |a.tasks|
    ensures a.Unknown? ==> |r| == |state|
  {
    match a
    case AddTask(t) => state + [t]
    case ToggleTask(id) => ToggleMatching(state, id)
    case DeleteTask(id) => DeleteMatching(state, id)
    case SetTasks(tasks) => tasks
    case Unknown(_) => state
  }
}
