# Task manager client state, in Dafny

This project models the client side of a small task-management application. A
React component (`App`) keeps an in-memory list of tasks, two form drafts
(`title`, `description`), a field-error map and the task currently being
edited. It keeps them consistent with the answers of a REST API (`/tasks`). The
handlers form a two-state machine:

- Idle: a submission creates a task.
- Editing: a submission updates the edited task.
- Edit-click enters Editing; cancel and a successful update leave it.

Modules:

- `TaskModel` (`task_model.dfy`): the serialized Task record and the completion
  test on its `status` label. It also holds the outcome of an API call, the
  requests the client sends, and `Reflects`. `Reflects` is the assumption that a
  server honoured a request; it is used only as a premise of lemmas and of
  the unique-id postconditions of two handlers.
- `TaskList` (`task_list.dfy`): the pure list updates. These are replace-by-id
  (`tasks.map`), prepend (array spread) and remove-by-id (`tasks.filter`). The
  module also has lemmas about order, counts, idempotence and how the updates
  combine. It also proves that each update keeps ids unique when the server's
  replies allow it.
- `Frontend` (`frontend.dfy`): class `App`, with the five state fields and one
  method per handler. Each awaited call is a parameter: `Ok(value)`,
  `Validation(fieldErrors)` for a 422 response, or `OtherError`. The delete
  handler also takes the user's answer to the confirm dialog. Each method
  returns the request it sends and states the whole new state.

## Model

| member | source | states |
|---|---|---|
| TaskList.Prepend | frontend/src/App.jsx:55 | the created record is at index 0 and the old list follows it unchanged; the result holds exactly the created record and the old entries |
| Frontend.SubmitRequest | frontend/src/App.jsx:31-52 | Idle mode posts the two drafts (49-52). Editing mode puts the drafts to the edited task's id, with `is_completed` equal to whether its status is exactly "Completed", a case-sensitive comparison (33-37) |
| Frontend.ToggleRequest | frontend/src/App.jsx:75-81 | a toggle puts to the task's own id, with its own title and description, and `is_completed` the negation of the exact, case-sensitive test `status == "Completed"` |
| TaskList.ReplaceById | frontend/src/App.jsx:40-42 | the list keeps its length; entries with another id keep their position and value; every entry with the id becomes the server's record (the same map is used at 83-85) |
| TaskList.RemoveById | frontend/src/App.jsx:98 | a record is in the result exactly when it is in the list and has another id; the result is no longer than the list |
| TaskList.RemoveByIdAppend | frontend/src/App.jsx:98 | removal distributes over concatenation, so the kept entries stay in their original order |
| TaskList.RemoveByIdCount | frontend/src/App.jsx:98 | every record with another id keeps its number of occurrences; no record with the id remains |
| TaskList.RemoveAbsentId | frontend/src/App.jsx:98 | removing an id that is not in the list leaves the list unchanged |
| TaskList.RemoveByIdIdempotent | frontend/src/App.jsx:93-101 | deleting the same id a second time changes nothing |
| TaskList.ReplaceAbsentId | frontend/src/App.jsx:83-85 | a reply for an id that is not in the list leaves the list unchanged |
| TaskList.ReplaceByIdTwice | frontend/src/App.jsx:83-85 | of two successive replies for the same id, the later one wins, when the first reply keeps the id |
| TaskList.RemoveAfterReplace | frontend/src/App.jsx:93-101 | deleting an updated task gives the same list as deleting it without the update, when the reply kept the id |
| TaskList.DeleteUndoesCreate | frontend/src/App.jsx:55 | deleting a created task whose id is fresh restores the list it was prepended to |
| TaskList.PrependKeepsUnique | frontend/src/App.jsx:55 | prepending a record with a fresh id keeps ids unique |
| TaskList.ReplaceKeepsUnique | frontend/src/App.jsx:40-42 | replacing by id with a reply that keeps the id keeps ids unique |
| TaskList.RemoveKeepsUnique | frontend/src/App.jsx:98 | removing by id keeps ids unique |
| Frontend.SubmitPreservesCompletion | frontend/src/App.jsx:31-37 | in Editing mode, a server that honours the update returns the edited task's id, the drafts and the edited task's completion, so the submission keeps completion |
| Frontend.ToggleFlipsCompletion | frontend/src/App.jsx:75-81 | a server that honours a toggle returns the task's id with the completion flipped; toggling that reply asks for the original completion back |
| Frontend.ToggleThenEditUndoes | frontend/src/App.jsx:31-42 | after edit-click on a task, a toggle of it and the edit submission, with replies that honour both requests, every entry of that task has its completion from before the toggle: the update carries the snapshot's `is_completed` (36) and replaces the toggled entries (40-42) |
| Frontend.App.constructor | frontend/src/App.jsx:6-10 | the initial state: no tasks, empty drafts, no errors, Idle mode |
| Frontend.App.FetchTasks | frontend/src/App.jsx:13-22 | a fetched list replaces `tasks`; on failure `tasks` keeps its value (empty after mount); nothing else changes |
| Frontend.App.HandleSubmit | frontend/src/App.jsx:26-70 | Errors are cleared first. On success: an update replaces the edited task's entries and ends Editing, a create puts the record at index 0 in front of the old list, and both clear the drafts. A 422 installs the server's field map and keeps tasks, drafts and edit mode. Any other failure keeps everything, with errors empty. Unique ids are kept when the reply honours the request and, for a create, the new id is not already in the list |
| Frontend.App.HandleToggleStatus | frontend/src/App.jsx:73-90 | sends the toggle request; on success replaces the task's entries by the reply; on failure nothing changes; drafts, errors and edit mode are never touched |
| Frontend.App.HandleDelete | frontend/src/App.jsx:93-102 | no request unless confirmed. A successful delete removes every entry with the id. A refusal or a failed call keeps the list. Drafts, errors and edit mode are never touched, and unique ids are kept |
| Frontend.App.HandleEditClick | frontend/src/App.jsx:106-114 | enters Editing with the task, copies its title and description into the drafts, empties errors, keeps the list |
| Frontend.App.HandleTitleChange | frontend/src/App.jsx:138 | typing into the title input sets the title draft to the input's value; nothing else changes |
| Frontend.App.HandleDescriptionChange | frontend/src/App.jsx:148 | typing into the description textarea sets the description draft to its value; nothing else changes |
| Frontend.App.HandleCancelEdit | frontend/src/App.jsx:117-122 | returns to Idle, empties both drafts and errors, keeps the list |

## Sequential behaviours the model keeps

- Edit-click takes a snapshot of the task (frontend/src/App.jsx:107). If the same task is then toggled and the form submitted, the update carries the snapshot's completion (line 36). A reply that honours it undoes the toggle in `tasks` (proved as `ToggleThenEditUndoes`).
- Deleting the task being edited leaves `editingTask` set (frontend/src/App.jsx:93-101 never clears it). The next submission then sends an update to the deleted id.

## Left out

- Rendering and styling (frontend/src/App.jsx:124-257) are not modelled, except the two `onChange` setters of the form (lines 138 and 148), which are the methods `HandleTitleChange` and `HandleDescriptionChange`. This includes showing the first title error. `window.scrollTo`, `alert`, `console.error` and `preventDefault` are not modelled either; they change no state.
- The asynchronous calls through axios are not modelled. Each handler takes the call's outcome as a parameter, and the confirm dialog is a boolean. The methods require nothing of the outcome. `Reflects` appears only as a premise: in the `Frontend` lemmas and in the unique-id postconditions of `HandleSubmit` and `HandleToggleStatus`.
- Overlapping in-flight calls and stale closures are not modelled. The update and toggle branches map over, and the delete filters, the `tasks` captured when the handler started, while create uses a functional updater. Each handler is modelled as running alone, so all of them read the current list.
- The initial fetch runs once after mount. The model has it as a method that a caller invokes after the constructor.
- A `null` description from the server is modelled as a string. After an edit-click it becomes the description draft. The model does not tell `null` apart from any string.
- The body of a 422 response is taken to hold a field-error map. A 422 without one is not modelled.
- The backend (backend-api/app/Http/Controllers/TaskController.php, backend-api/app/Models/Task.php) is not modelled. Its actions delegate to the ORM and to request and resource classes that are not part of this model (validation rules, the `status` label). What the client may rely on from it is stated only as the `Reflects` premise.
- frontend/src/api/axios.js only configures the base URL and headers and is not modelled.
