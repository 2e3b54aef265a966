# Task table: a verified model

This project models the task table of a small task-tracking web application. The
table is a React component (`TasksTable` in `todo-frontend/src/components/TaskList.js`).
It holds the task list fetched from the task store and a case-insensitive search
filter over that list. It also holds the page that is shown, the row whose action menu
is open, and the create, edit and delete dialogs with the task each one targets.

The model has five modules:

- `Wrappers` (`wrappers.dfy`): `Option`, for JavaScript's `null` and `undefined`.
- `Text` (`text.dfy`): `toLowerCase`, restricted to ASCII, and `String.prototype.includes`.
  `includes` is proved equal to "occurs at some position".
- `Tasks` (`tasks.dfy`): the task record and the filter predicate. It also has the
  three list updates the table makes after a store request: append, replace by `_id`
  (`map`) and remove by `_id` (`filter`).
- `Paging` (`paging.dfy`): JavaScript's `Array.prototype.slice` with negative
  arguments, the page slice and `Math.ceil` page count, and the First, Previous, Next
  and Last handlers.
- `TaskTable` (`task_table.dfy`): a class whose fields are the component's state hooks.
  Each method is one event handler followed by the re-render and the effect that
  handler triggers. When the task list or the search term changes, the effect
  recomputes the filtered list and sets the page back to 1. The class invariant
  `Valid()` says two things. The page size is one of the selector's options (5, 10
  or 20). The filtered list equals `Filter(tasks, searchTerm)`.

Behaviour of the code that the model keeps:

- Fields that are absent never match, because the code uses optional chaining. So the
  empty query keeps only tasks with a present field or a non-empty comment list
  (`Tasks.FilterEmptyQuery`). It does not keep every task.
- The page count is `ceil(length / size)`. It is 0 for an empty filtered list, with
  no floor of 1. On an empty list, Next and Last move from page 1 to page 0.
- Changing the page size keeps the current page, which may then lie past the last
  page. That page shows nothing.
- A resolved delete request removes the task even when the HTTP status is an error
  status, because `fetch` resolves on those.
- If no task is targeted when delete is confirmed, reading its `_id` throws inside
  the `try`. The list is then unchanged, and the dialog still closes.
- Setting the search term to its current value does not re-run the effect, so the
  page is kept.
- The disabled states of the four navigation buttons are exactly the states in which
  their handlers change nothing (`Paging.DisabledControlsAreNoOps`). The methods still
  model the guard.

## Model

| member | source | states |
|---|---|---|
| `Text.LowerLength` | todo-frontend/src/components/TaskList.js:46-50 | lower-casing, which folds each character on its own, keeps the length |
| `Text.LowerIsLowerCase` | todo-frontend/src/components/TaskList.js:46-50 | a lower-cased string has no upper-case letter left |
| `Text.LowerIdempotent` | todo-frontend/src/components/TaskList.js:46-50 | lower-casing twice equals lower-casing once |
| `Text.LowerSlice` | todo-frontend/src/components/TaskList.js:46-50 | lower-casing commutes with slicing |
| `Text.IncludesIffOccurs` | todo-frontend/src/components/TaskList.js:46-50 | `includes` holds iff the needle occurs at some position of the string (both directions) |
| `Text.IncludesEmpty` | todo-frontend/src/components/TaskList.js:46-50 | the empty query is included in every string |
| `Text.IncludesImpliesContainsIgnoreCase` | todo-frontend/src/components/TaskList.js:46-50 | a literal occurrence is also a case-insensitive match |
| `Text.ContainsIgnoreCaseOfLowerQuery` | todo-frontend/src/components/TaskList.js:46-50 | the case of the query does not change whether a field matches |
| `Tasks.EmptyQueryMatches` | todo-frontend/src/components/TaskList.js:44-52 | the empty query matches a task iff it has a present assignee, status or priority, or a non-empty comment list |
| `Tasks.MatchesIgnoresQueryCase` | todo-frontend/src/components/TaskList.js:44-52 | a task matches a query iff it matches the lower-cased query |
| `Tasks.Filter` | todo-frontend/src/components/TaskList.js:44-52 | the filtered list is no longer than the list, and every task in it matches the query |
| `Tasks.FilterIsSubsequence` | todo-frontend/src/components/TaskList.js:44-52 | the filtered list is an order-preserving subsequence of the list |
| `Tasks.FilterMembership` | todo-frontend/src/components/TaskList.js:44-52 | a task is in the filtered list iff it is in the list and matches |
| `Tasks.FilterConcat` | todo-frontend/src/components/TaskList.js:44-52 | filtering distributes over concatenation |
| `Tasks.FilterKeepsAllIff` | todo-frontend/src/components/TaskList.js:44-52 | the filter returns the whole list iff every task matches |
| `Tasks.FilterIdempotent` | todo-frontend/src/components/TaskList.js:44-52 | filtering the filtered list again changes nothing |
| `Tasks.FilterEmptyQuery` | todo-frontend/src/components/TaskList.js:44-52 | the empty query returns the whole list iff every task has a searchable field |
| `Tasks.Append` | todo-frontend/src/components/TaskList.js:83-85 | the list grows by one, the new task is last, and the earlier tasks are unchanged and in order |
| `Tasks.FilterAppend` | todo-frontend/src/components/TaskList.js:83-85 | after an append the filtered list gains the new task at its end iff the task matches |
| `Tasks.AppendKeepsIdsUnique` | todo-frontend/src/components/TaskList.js:83-85 | appending a task whose id is new keeps ids unique |
| `Tasks.ReplaceById` | todo-frontend/src/components/TaskList.js:87-91 | the length is unchanged; every task with the updated id becomes the updated task; every other task is unchanged at its index |
| `Tasks.ReplaceAbsentIsNoOp` | todo-frontend/src/components/TaskList.js:87-91 | replacing an id that is not in the list leaves the list unchanged |
| `Tasks.ReplaceThenFind` | todo-frontend/src/components/TaskList.js:87-91 | after a replace, looking the id up gives the updated task iff the id was in the list |
| `Tasks.ReplaceKeepsIdsUnique` | todo-frontend/src/components/TaskList.js:87-91 | replace keeps ids unique |
| `Tasks.ReplaceIdempotent` | todo-frontend/src/components/TaskList.js:87-91 | replacing twice with the same task equals replacing once |
| `Tasks.RemoveById` | todo-frontend/src/components/TaskList.js:104 | the result is no longer than the list, and no task left carries the id |
| `Tasks.RemoveIsSubsequence` | todo-frontend/src/components/TaskList.js:104 | removal keeps the remaining tasks in their relative order |
| `Tasks.RemoveMembership` | todo-frontend/src/components/TaskList.js:104 | a task survives iff it was in the list and has another id |
| `Tasks.RemoveLength` | todo-frontend/src/components/TaskList.js:104 | the length drops by the number of tasks carrying the id |
| `Tasks.RemoveLengthUnique` | todo-frontend/src/components/TaskList.js:104 | with unique ids the length drops by exactly 1 if the id is present, and by 0 otherwise |
| `Tasks.RemoveAbsentIsNoOp` | todo-frontend/src/components/TaskList.js:104 | removing an id that is not in the list leaves the list unchanged |
| `Tasks.RemoveUndoesAppend` | todo-frontend/src/components/TaskList.js:83-104 | deleting a just-added task with a fresh id gives back the list from before the add |
| `Tasks.RemoveKeepsIdsUnique` | todo-frontend/src/components/TaskList.js:104 | removal keeps ids unique |
| `Paging.SliceIndex` | todo-frontend/src/components/TaskList.js:124 | a `slice` argument is clamped into [0, length], and a negative argument counts from the end |
| `Paging.JsSlice` | todo-frontend/src/components/TaskList.js:124 | with negative bounds counted from the end and both bounds clamped to the list, the slice holds exactly the elements from the resolved start up to the resolved end, and is empty when the end is not past the start |
| `Paging.TotalPages` | todo-frontend/src/components/TaskList.js:126 | the page count t is the ceiling of length/size: length <= t*size and, when t >= 1, (t-1)*size < length; t is 0 iff the list is empty |
| `Paging.TotalPagesIsCeiling` | todo-frontend/src/components/TaskList.js:126 | (t-1)*size < length <= t*size in ordinary multiplication, so t = ceil(length/size) with no floor of 1 |
| `Paging.MulIsProduct` | todo-frontend/src/components/TaskList.js:122 | the page offset computed by repeated addition equals the product `currentPage * itemsPerPage` |
| `Paging.PageWindow` | todo-frontend/src/components/TaskList.js:122-124 | page p >= 1 is the list from (p-1)*size to (p-1)*size+size, cut to the list's bounds |
| `Paging.PageLength` | todo-frontend/src/components/TaskList.js:122-124 | a page holds at most `size` tasks |
| `Paging.PageOutOfRange` | todo-frontend/src/components/TaskList.js:122-126 | page 0 and every page past the last are empty |
| `Paging.PageFull` | todo-frontend/src/components/TaskList.js:122-126 | every page before the last holds exactly `size` tasks |
| `Paging.PageLast` | todo-frontend/src/components/TaskList.js:122-126 | on a non-empty list the last page is non-empty and holds the leftover length - (t-1)*size tasks |
| `Paging.PageAt` | todo-frontend/src/components/TaskList.js:122-124 | the i-th task of page p is the task at position (p-1)*size+i of the list |
| `Paging.PageFacts` | todo-frontend/src/components/TaskList.js:122-126 | the page bounds above, together with the fact that every shown task is in the filtered list |
| `Paging.PagesPrefix` | todo-frontend/src/components/TaskList.js:122-124 | pages 1..k concatenated are the first min(k*size, length) tasks |
| `Paging.PagesCoverList` | todo-frontend/src/components/TaskList.js:122-126 | pages 1..totalPages concatenated give back the whole filtered list |
| `Paging.TwelveTasksTenPerPage` | todo-frontend/src/components/TaskList.js:122-126 | 12 tasks at 10 per page make 2 pages: the first ten, then, after Next, the last two |
| `Paging.Previous` | todo-frontend/src/components/TaskList.js:306 | Previous never goes below page 1; from page 2 or more it goes back one |
| `Paging.Next` | todo-frontend/src/components/TaskList.js:322 | Next never goes past the page count; below it, Next goes forward one |
| `Paging.NavigationStaysInRange` | todo-frontend/src/components/TaskList.js:306-322 | Previous and Next keep a page in [1, totalPages] inside that range |
| `Paging.EmptyListNavigatesToPageZero` | todo-frontend/src/components/TaskList.js:322-332 | on an empty list, Next from page 1 and Last both give page 0 |
| `Paging.PreviousUndoesNext` | todo-frontend/src/components/TaskList.js:306-322 | away from the last page, Previous undoes Next |
| `Paging.PreviousTimesClamps` | todo-frontend/src/components/TaskList.js:306 | k presses of Previous from page p >= 1 give max(p-k, 1) |
| `Paging.NextTimesClamps` | todo-frontend/src/components/TaskList.js:322 | k presses of Next from page p <= totalPages give min(p+k, totalPages) |
| `Paging.FirstAndLastSettle` | todo-frontend/src/components/TaskList.js:297-332 | First and Last settle: Previous after First, and Next after Last, change nothing |
| `Paging.DisabledControlsAreNoOps` | todo-frontend/src/components/TaskList.js:295-332 | each button is disabled exactly in a state its handler would leave unchanged |
| `TaskTable.Toggle` | todo-frontend/src/components/TaskList.js:118-120 | the row's menu is open after a toggle iff it was not open before, and no other row's menu is open |
| `TaskTable.ToggleTwice` | todo-frontend/src/components/TaskList.js:118-120 | toggling one row twice gives back the open row if that row was open, and otherwise closes every menu |
| `TaskTable.TaskTable.constructor` | todo-frontend/src/components/TaskList.js:9-21 | initial state: no tasks, empty term, page 1, 10 per page, no dialog, no target, no open menu |
| `TaskTable.TaskTable.TotalPages` | todo-frontend/src/components/TaskList.js:126 | the table's page count is the ceiling of filtered length over page size, and 0 iff nothing matches |
| `TaskTable.TaskTable.CurrentTasks` | todo-frontend/src/components/TaskList.js:122-124 | the shown tasks number at most a page size, fill a whole page before the last, are none on a page out of range, and all match the term |
| `TaskTable.TaskTable.FilterEffect` | todo-frontend/src/components/TaskList.js:43-56 | the effect sets the filtered list to the filter of the list by the term, sets page 1, and changes nothing else |
| `TaskTable.TaskTable.TasksLoaded` | todo-frontend/src/components/TaskList.js:30-31 | the fetched list replaces the list; the effect then refilters it and sets page 1 |
| `TaskTable.TaskTable.SetSearchTerm` | todo-frontend/src/components/TaskList.js:135 | a new term is stored, the list is refiltered and page 1 is set; the same term changes nothing |
| `TaskTable.TaskTable.SetItemsPerPage` | todo-frontend/src/components/TaskList.js:144 | only the page size changes; the current page is kept |
| `TaskTable.TaskTable.OpenForm` | todo-frontend/src/components/TaskList.js:58-61 | opens the create dialog with no selected task |
| `TaskTable.TaskTable.OpenEditForm` | todo-frontend/src/components/TaskList.js:67-71 | selects the task, opens the edit dialog and closes the action menu |
| `TaskTable.TaskTable.CloseForm` | todo-frontend/src/components/TaskList.js:73-76 | closes the create dialog and clears the selection |
| `TaskTable.TaskTable.CloseEditForm` | todo-frontend/src/components/TaskList.js:78-81 | closes the edit dialog and clears the selection |
| `TaskTable.TaskTable.AddTask` | todo-frontend/src/components/TaskList.js:83-85 | appends the task, refilters and sets page 1; the filtered list gains the task at its end iff it matches the term |
| `TaskTable.TaskTable.UpdateTask` | todo-frontend/src/components/TaskList.js:87-91 | replaces by id in place, refilters and sets page 1 |
| `TaskTable.TaskTable.HandleDeleteClick` | todo-frontend/src/components/TaskList.js:93-97 | targets the task, opens the delete dialog and closes the action menu |
| `TaskTable.TaskTable.ConfirmDelete` | todo-frontend/src/components/TaskList.js:99-111 | a resolved request with a target removes the target's id, refilters and sets page 1; otherwise the list is kept; either way the dialog closes and the target is cleared |
| `TaskTable.TaskTable.CancelDelete` | todo-frontend/src/components/TaskList.js:113-116 | closes the delete dialog and clears the target, leaving the list alone |
| `TaskTable.TaskTable.ToggleDropdown` | todo-frontend/src/components/TaskList.js:118-120 | only the open menu changes, as `Toggle` says |
| `TaskTable.TaskTable.GoFirst` | todo-frontend/src/components/TaskList.js:295-297 | the page becomes 1 |
| `TaskTable.TaskTable.GoPrevious` | todo-frontend/src/components/TaskList.js:304-306 | the page becomes max(page-1, 1), so it is at least 1 |
| `TaskTable.TaskTable.GoNext` | todo-frontend/src/components/TaskList.js:319-322 | the page becomes min(page+1, totalPages), so it is at most totalPages |
| `TaskTable.TaskTable.GoLast` | todo-frontend/src/components/TaskList.js:330-332 | the page becomes totalPages |

## Left out

- Text.Lower: folds ASCII letters only. JavaScript's `toLowerCase` also folds the rest of Unicode, which this model does not cover.
- The `fetch` calls and `response.json()`. A loaded list is the parameter of `TasksLoaded`, and a settled delete request is the `requestResolved` parameter of `ConfirmDelete`.
- The `loading` and `error` flags, which only track whether the initial fetch is still running or failed.
- The Refresh button, which calls `window.location.reload` and so restarts the whole application.
- Due-date formatting with `toLocaleDateString`, which depends on the locale. `dueDate` is carried as an opaque optional string.
- The markup, the styling and the dialog components (`TaskFormModal`, `EditTaskForm`, `DeleteConfirmationModal`). Those components are not part of this model. Their callbacks appear as the `AddTask`, `UpdateTask`, `CloseForm`, `CloseEditForm`, `ConfirmDelete` and `CancelDelete` methods.
- Interleaving: a handler, its re-render and its effect run as one step. Events that arrive while the delete request is pending are not modelled, so neither is the stale `tasks` value the callback captured.
- Task ids are strings that every task carries, since the store assigns them. Tasks without an `_id` are not modelled, and neither are fields that hold non-string values.
- The backend (`todo-Backend/index.js`, `todo-Backend/database/dbConnection.js`): Express wiring and the database connection.
