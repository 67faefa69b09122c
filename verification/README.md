# Task Tracker reducer

The Task Tracker front end keeps an ordered list of task records
`{id, title, completed}` and changes it only through one pure reducer,
`taskReducer`. The reducer takes the current list and a dispatched action and
returns the next list. It has four named transitions:

- `ADD_TASK` appends the payload task.
- `TOGGLE_TASK` negates `completed` on every task whose id equals the payload.
- `DELETE_TASK` removes every task whose id equals the payload.
- `SET_TASKS` replaces the whole list.

Any other action type leaves the list as it was.

This project models that reducer in Dafny and proves what each transition does.

- `task_reducer.dfy` (module `TaskReducer`) holds the data model and the reducer.
  `Task` is a datatype. `TaskId` is an opaque type that only supports equality,
  as the reducer only ever compares ids with `===`. `Action` has one constructor
  per action type, plus `Unknown` for every other type string.
  `ToggleMatching` and `DeleteMatching` are the `map` and `filter` of the source.
  `Reduce` is the reducer itself.
- `task_reducer_properties.dfy` (module `TaskReducerProperties`) holds the lemmas
  about `Reduce`.

The reducer does not keep ids unique. `ADD_TASK` may append a task whose id is
already present, and toggle and delete act on every matching task. The model
allows duplicate ids everywhere. Uniqueness is a separate predicate,
`UniqueIds`, and the lemmas say which transitions preserve it.

`DELETE_TASK` is specified independently of its definition. Its result avoids
the id, is a subsequence of the old list (`IsSubsequence`), and has the old
length minus the number of matches (`Count`). `DeleteIsExactFilter` proves
that these three facts pin the result down completely.

Nothing in the code checks that ids are unique or that titles are non-empty:
the form handler at taskmanager/src/App.jsx:7-11 passes any string through. So
the model has no title check and does not assume unique ids.

## Model

| member | source | states |
|---|---|---|
| TaskReducer.ToggleMatching | taskmanager/src/App.jsx:49-51 | keeps the length; at every index keeps `id` and `title`; negates `completed` exactly where the id matches; leaves every non-matching task unchanged |
| TaskReducer.DeleteMatching | taskmanager/src/App.jsx:53 | no task in the result has the id; the result is a subsequence of the input, so relative order is kept; its length is the input length minus the number of matches |
| TaskReducer.Reduce | taskmanager/src/App.jsx:44-59 | the length of the next list for each action: one more on add, the same on toggle and on an unknown action, minus the number of matches on delete (so it shrinks exactly when the id is present), and the payload's length on set |
| TaskReducerProperties.AddAppends | taskmanager/src/App.jsx:46-47 | `ADD_TASK` gives a list one longer whose prefix is the old list and whose last element is the payload |
| TaskReducerProperties.ToggleFlipsMatches | taskmanager/src/App.jsx:48-51 | after `TOGGLE_TASK`, at every index, `id` and `title` are kept, `completed` changes if and only if the id matches, and a task with a different id is unchanged |
| TaskReducerProperties.ToggleInvolution | taskmanager/src/App.jsx:49-51 | toggling the same id twice returns the original list, even with duplicate ids |
| TaskReducerProperties.ToggleAbsent | taskmanager/src/App.jsx:49-51 | toggling an id that no task carries leaves the list unchanged |
| TaskReducerProperties.DeleteRemovesMatches | taskmanager/src/App.jsx:52-53 | after `DELETE_TASK` no task carries the id; the survivors keep their relative order; the length drops by the number of matches |
| TaskReducerProperties.DeleteIsExactFilter | taskmanager/src/App.jsx:53 | any subsequence of the list that avoids the id and has as many tasks as there are non-matching ones equals the result of `DELETE_TASK`, so the result is exactly the tasks whose id differs |
| TaskReducerProperties.DeleteAbsent | taskmanager/src/App.jsx:53 | deleting an id that no task carries leaves the list unchanged |
| TaskReducerProperties.DeleteIdempotent | taskmanager/src/App.jsx:53 | deleting the same id twice is the same as deleting it once |
| TaskReducerProperties.DeleteRemovesEveryMatch | taskmanager/src/App.jsx:53 | when at least two tasks share the id, one `DELETE_TASK` removes all of them, so the list shrinks by at least two |
| TaskReducerProperties.DeleteKeepsOthers | taskmanager/src/App.jsx:53 | every task whose id differs from the deleted one is still in the list after `DELETE_TASK` |
| TaskReducerProperties.SetReplaces | taskmanager/src/App.jsx:54-55 | `SET_TASKS` returns the payload whatever the current list is |
| TaskReducerProperties.UnknownIsIdentity | taskmanager/src/App.jsx:56-57 | an action of any other type returns the list unchanged |
| TaskReducerProperties.AddUniqueIff | taskmanager/src/App.jsx:46-47 | after `ADD_TASK` ids are unique if and only if they were unique before and the payload's id was not already present |
| TaskReducerProperties.ToggleKeepsUnique | taskmanager/src/App.jsx:48-51 | `TOGGLE_TASK` keeps unique ids unique |
| TaskReducerProperties.DeleteKeepsUnique | taskmanager/src/App.jsx:52-53 | `DELETE_TASK` keeps unique ids unique |

## Left out

- The `TaskForm` and `TaskList` components (taskmanager/src/App.jsx:4-42) are JSX rendering and `useState` form binding. They hold no state logic.
- The initial fetch and the `addTask`, `toggleTask` and `deleteTask` handlers (taskmanager/src/App.jsx:64-107) are left out. They are axios HTTP calls to a fixed local URL, awaited asynchronously, with errors written to the console. Their effect on the list is always one dispatch of the matching action on success, which `Reduce` models, and no dispatch on failure.
- The toggle handler's request body (taskmanager/src/App.jsx:92) reads `completed` from the list captured at render time. It throws when no task has the id. That depends on React render timing and is not reducer logic.
- Object identity is not modelled. The reducer returns the very same array for an unknown action; the model states equality of values.
- The model does not capture malformed actions: a known type with a payload of the wrong shape, such as `ADD_TASK` with no payload. Each `Action` constructor carries a payload of the right type.
- `completed` is modelled as a boolean. In JavaScript, `!task.completed` at taskmanager/src/App.jsx:50 converts any value to a boolean. So a record whose `completed` is missing or not a boolean comes back as a boolean after two toggles, not as its original value; `ToggleInvolution` holds only for boolean flags.
- Extra fields that the server may attach to a task record are not modelled. The spread in the toggle branch would copy them unchanged, just as the model keeps `id` and `title`.
