# Task list page of task-manager-frontend, modelled in Dafny

The task-manager front end is a React client for a remote task API. Most of it
is HTTP calls and markup. This project models the parts of it that are pure,
sequential logic:

- **The task view pipeline** (`filteredTasks` in `src/Home.js`). The fetched
  page is filtered by completion status: 'completed', 'incomplete', or any
  other value, which keeps every task. The result is then sorted stably, as
  `Array.prototype.sort` requires (section 23.1.3.30 of ECMA-262, 2023
  edition). There are three sorts: by priority rank descending (high 3,
  medium 2, low 1), by due date ascending with undated tasks last, or none.
  The model is a stable insertion sort over a sequence of `Task` values. The
  fetched sequence is a value that is only read, so it is never modified.
- **The pagination controller.** The page count is `ceil(count / 5)`. The
  page-number buttons run from 1 to the page count. Previous and Next have
  fixed disabled conditions. There are three kinds of click: Previous, Next
  and a page number (`src/Pagination.js`).
- **The add/edit form** (`startEditing`, `addTask` and `toggleTaskCompletion`
  in `src/Home.js`). The form is a record. Each handler is a function from one
  record to the next. The server's answer is an input, `Succeeded` or
  `Failed`, so the model needs no I/O. Each function also returns the request
  it would send.

Files:

| file | module | contents |
|---|---|---|
| wrappers.dfy | `Wrappers` | `Option`, used for null, undefined and empty values |
| tasks.dfy | `Tasks` | `Task`, `Priority`, the rank table, the toggle payload |
| text.dfy | `Text` | `String.prototype.trim`, used by the blank-title check |
| task_view.dfy | `TaskView` | filter, comparator, stable sort, `VisibleTasks` |
| pagination.dfy | `Pagination` | page count, page buttons, clicks |
| home_form.dfy | `HomeForm` | form record, `StartEditing`, `Submit`, `ToggleCompletion` |

Modelling choices:

- A due date is an integer, because the page only ever subtracts one date from
  another. A missing due date is `None`.
- The comparator keeps only the sign that sort reads. Subtracting `Infinity`
  from a date gives -Infinity, so a dated task goes before an undated one.
  Two undated tasks give `Infinity - Infinity`, which is NaN and is read as
  +0. This is well defined, so the code has no ordering ambiguity there and
  the model reproduces it exactly.
- A task's title, priority and due date are optional. `startEditing` reads
  each of them with a `|| default` fallback.
- A task without a priority makes the priority comparator return NaN, which
  is read as 0. The comparator can then be inconsistent: this happens as soon as
  the sorted tasks also carry two different priorities. ECMA-262 then leaves the
  sort order implementation-defined. The model still returns a permutation.
  Sortedness and stability are proved only when every task has a priority
  (`Comparable`), and only over the tasks that are actually sorted, i.e. those
  that pass the filter. One might expect an unknown priority to rank 0; the
  code instead gets NaN, which the sort reads as 0 against every task, and the
  model follows the code.
- A successful submit does not clear `editTaskId`. Only `isEditing` is reset.
  The model keeps this.
- `Submit` keeps the rule that exactly one of the success message and the
  error is shown (`SubmitReportsExactlyOne`); a failed toggle does not. It
  sets the error and leaves any earlier success message in place
  (`ToggleCompletion`).

## Model

| member | source | states |
|---|---|---|
| `Tasks.Rank` | src/Home.js:162 | every priority has a rank between 1 and 3 |
| `Tasks.RankOrdersPriorities` | src/Home.js:162 | the rank table is one-to-one and orders low < medium < high |
| `Tasks.Toggled` | src/Home.js:135 | the toggle payload has `completed` negated and every other field equal to the task's |
| `Tasks.ToggledInvolution` | src/Home.js:135 | toggling twice restores the task, and a toggle always changes it |
| `Text.TrimStart` | src/Home.js:59 | the result is the suffix of the input after its leading white space, and starts with a non-white-space character |
| `Text.TrimEnd` | src/Home.js:59 | the result is the prefix of the input before its trailing white space, and ends with a non-white-space character |
| `Text.Trim` | src/Home.js:59 | the trimmed title is no longer than the title, has no white space at either end, and is empty exactly when the title is all white space |
| `Text.IsBlank` | src/Home.js:59 | `title.trim() === ''` holds exactly when every character of the title is white space |
| `Text.TrimIdempotent` | src/Home.js:59 | a trimmed title trims to itself |
| `TaskView.ParseFilter` | src/Home.js:155-158 | 'completed' and 'incomplete' select those filters, and every other value selects the keep-all filter |
| `TaskView.ParseSortBy` | src/Home.js:160-169 | 'priority' and 'due_date' select those sorts, and every other value, '' included, selects no sort |
| `TaskView.Keep` | src/Home.js:155-158 | the keep-all filter passes every task; 'completed' passes exactly the completed tasks and 'incomplete' exactly the others |
| `TaskView.FilterTasks` | src/Home.js:154-159 | every kept task passes the filter, and each passing task is kept exactly as often as it occurs |
| `TaskView.FilterKeepsPassing` | src/Home.js:154-159 | filtering a sequence whose tasks all pass returns it unchanged |
| `TaskView.Compare` | src/Home.js:160-169 | by priority, a negative result means a higher rank and 0 an equal priority, and a missing priority gives 0; by due date, a negative result means an earlier date, a dated task goes before an undated one and two undated tasks compare equal; with no sort the result is 0 |
| `TaskView.CompareAntisymmetric` | src/Home.js:160-168 | swapping the two tasks flips the sign of the comparator |
| `TaskView.CompareTransitive` | src/Home.js:160-168 | on tasks with known keys, "may precede" is transitive and "compares equal" is an equivalence |
| `TaskView.Insert` | src/Home.js:160-170 | inserting adds exactly the one task to the multiset |
| `TaskView.InsertionSort` | src/Home.js:160-170 | the sorted sequence is a permutation of its input |
| `TaskView.ComparablePermutation` | src/Home.js:160-170 | a permutation of a sequence of known-key tasks has only known-key tasks |
| `TaskView.SortedCons` | src/Home.js:160-170 | a task that may precede every task of a sorted sequence can head it |
| `TaskView.ComparableTail` | src/Home.js:160-170 | the head and the tail of a sequence of known-key tasks are known-key |
| `TaskView.InsertSorted` | src/Home.js:160-170 | inserting into a sorted sequence keeps it sorted |
| `TaskView.SortSorted` | src/Home.js:160-168 | the sort output is ordered by the comparator whenever it is consistent |
| `TaskView.SameKey` | src/Home.js:160-170 | the extracted tasks all compare equal to the given task |
| `TaskView.SameKeyCons` | src/Home.js:160-170 | extracting equal-key tasks from a sequence with one task added in front handles that task first |
| `TaskView.InsertSameKey` | src/Home.js:160-170 | an inserted task goes ahead of every task that compares equal to it |
| `TaskView.SortStable` | src/Home.js:160-170 | tasks that compare equal keep their input order (stability) |
| `TaskView.SortKeepsSorted` | src/Home.js:160-170 | an already sorted sequence is returned unchanged |
| `TaskView.UnsortedKeepsOrder` | src/Home.js:169 | with no sort selected the comparator returns 0 and the order is kept |
| `TaskView.VisibleTasks` | src/Home.js:154-170 | the shown tasks are exactly the passing fetched tasks, each as often as fetched |
| `TaskView.VisibleCompleted` | src/Home.js:156 | with 'completed' every shown task is completed, and every completed task is shown |
| `TaskView.VisibleIncomplete` | src/Home.js:157 | with 'incomplete' every shown task is incomplete, and every incomplete task is shown |
| `TaskView.VisibleAll` | src/Home.js:158 | any other filter shows every fetched task exactly as often as fetched |
| `TaskView.VisibleByPriority` | src/Home.js:161-163 | sorted by priority with every passing task's priority known, the shown ranks do not increase |
| `TaskView.VisibleByDueDate` | src/Home.js:164-167 | sorted by due date, dated tasks come in non-decreasing date order, and every undated task comes after every dated one |
| `TaskView.VisibleUnsorted` | src/Home.js:169 | with no sort, the passing tasks are shown in server order, and with no filter either the page is shown as fetched |
| `TaskView.VisibleStable` | src/Home.js:160-170 | when the comparator is consistent on the passing tasks, tasks with equal sort keys are shown in server order |
| `TaskView.VisibleIdempotent` | src/Home.js:154-170 | when the comparator is consistent on the passing tasks, running the pipeline on its own output changes nothing |
| `Pagination.PageCount` | src/Home.js:47 | the page count holds all the items, and one page fewer would not |
| `Pagination.PageCountIsLeast` | src/Home.js:47 | no smaller number of pages holds all the items, so the count is the ceiling of count/5 |
| `Pagination.PageCountTwelve` | src/Home.js:47 | 12 items give 3 pages, so page 3 has a button and page 4 has none |
| `Pagination.PageNumbers` | src/Pagination.js:5 | there is one button per page, and button i is numbered i + 1 |
| `Pagination.PageNumbersAreOneToTotal` | src/Pagination.js:5 | the buttons are exactly 1..totalPages in increasing order, and there are none when totalPages is 0 |
| `Pagination.CountActive` | src/Pagination.js:18 | at most one mark per button, and no button is active exactly when the current page has no button |
| `Pagination.CountActiveIncreasing` | src/Pagination.js:18 | in an increasing list of numbers at most one equals the current page, and one does exactly when the page is in the list |
| `Pagination.ExactlyOneActive` | src/Pagination.js:18 | exactly one button is active when 1 <= currentPage <= totalPages, and none otherwise |
| `Pagination.ClickAsWritten` | src/Pagination.js:9-27 | Previous is disabled iff currentPage = 1 and otherwise selects currentPage - 1; Next is disabled iff currentPage = totalPages and otherwise selects currentPage + 1; a number button exists for 1..totalPages and selects its number |
| `Pagination.ClickAsWrittenKeepsRange` | src/Pagination.js:5-27 | with 1 <= currentPage <= totalPages, every enabled click selects a page in [1, totalPages] |
| `Pagination.NextEnabledPastLastPage` | src/Pagination.js:26-27 | with no items, Next is enabled on page 1 and moves to page 2, and from any page k + 1 it keeps moving to k + 2 |
| `Pagination.Click` | src/Pagination.js:9-27 | (corrected Next) Previous goes back one page unless on page 1, Next goes forward one page unless there is no later page, and a number selects itself |
| `Pagination.ClickAgreesInRange` | src/Pagination.js:9-27 | while the current page is a real page, the corrected and the as-written buttons behave the same |
| `Pagination.ClickKeepsPageInRange` | src/Pagination.js:5-27 | (corrected Next) every enabled click keeps 1 <= currentPage <= max(totalPages, 1) |
| `Pagination.Run` | src/Pagination.js:9-27 | (corrected Next) with no clicks the page stays, and a series whose last click is an existing number button ends on that page |
| `Pagination.RunKeepsPageInRange` | src/Pagination.js:5-27 | (corrected Next) after any series of clicks, 1 <= currentPage <= max(totalPages, 1) still holds |
| `Pagination.RunAsWritten` | src/Pagination.js:9-27 | (as written) with no clicks the page stays, and a series whose last click is an existing number button ends on that page |
| `Pagination.RunAsWrittenKeepsRange` | src/Pagination.js:5-27 | (as written) with 1 <= currentPage <= totalPages, after any series of clicks the page is still in [1, totalPages] |
| `Pagination.RunAsWrittenLeavesPages` | src/Pagination.js:26-27 | (as written) with no items, one click on Next leads to page 2, outside [1, max(totalPages, 1)], where the corrected controller stays on page 1 |
| `HomeForm.InitialForm` | src/Home.js:9-22 | the page starts with a blank title, empty description, medium priority, no due date, no edit mode, page 1 and no error |
| `HomeForm.RequestFor` | src/Home.js:61-92 | in edit mode a PATCH of the edited task's id, otherwise a POST, both carrying title, description, priority and the due date (empty sent as null) |
| `HomeForm.StartEditing` | src/Home.js:28-35 | edit mode is on and records the task id; title, due date and priority default to '', empty and 'medium'; page, message and error are unchanged |
| `HomeForm.Submit` | src/Home.js:57-108 | a blank title changes nothing and sends nothing; otherwise the form fields are sent as a PATCH of the edited task or as a POST; success returns the form to its initial state with a success message, while keeping editTaskId; failure sets the error, nulls the message and keeps every field |
| `HomeForm.SubmitInitialIsNoOp` | src/Home.js:9-59 | submitting the page's starting form sends nothing and changes nothing |
| `HomeForm.SubmitReportsExactlyOne` | src/Home.js:91-104 | after a submit that sent a request, exactly one of error and success message is shown |
| `HomeForm.EditTargetPreserved` | src/Home.js:28-35 | the form transitions keep "edit mode implies a task id", so a PATCH always names a task |
| `HomeForm.EditThenSaveSendsTask` | src/Home.js:28-66 | editing a titled task and saving at once sends that task's own fields as a PATCH of that task |
| `HomeForm.EditUntitledIsNoOp` | src/Home.js:28-59 | editing an untitled task and saving at once does nothing |
| `HomeForm.ToggleCompletion` | src/Home.js:134-151 | the sent task differs from the original only in `completed`; page and message are never changed; failure sets only the error |

## Left out

- HTTP calls are not modelled: axios, CSRF cookie reading, `withCredentials`, deleteTask and logout/`navigate` (`src/Home.js` lines 26, 37-55, 110-132 and 172-186). The server's answer enters the model only as an `Outcome` input.
- Applying a fetched page is not modelled (setting `tasks`, clearing the error). Only the page-count formula is. A fetch does not clamp `currentPage` when the page count shrinks, so the page invariant `1 <= currentPage <= max(totalPages, 1)` is shown only for the clicks. It is proved for the corrected clicks (`Click`, `Run`). The component as written keeps `[1, totalPages]` only when `totalPages >= 1` (`ClickAsWrittenKeepsRange`, `RunAsWrittenKeepsRange`), and leaves the pages when there are none (see ## Findings).
- The `useEffect` re-fetch and out-of-order responses are not modelled. They depend on React's async scheduling. `Submit` and `ToggleCompletion` only report, through `refetch`, that they start a fetch.
- The `loading` flag is not modelled. One quirk: `addTask` sets it before checking the title, and the blank-title early return skips the `finally`, so it stays true.
- JavaScript `Date` parsing is not modelled. Due dates are already integers, so an unparseable date string, which would give NaN, is not represented.
- TaskView.VisibleByPriority: proved only when every task that passes the filter has one of the three priorities. A missing priority among them can make the comparator inconsistent (as soon as the sorted tasks also carry two different priorities), and ECMA-262 then leaves the order implementation-defined.
- TaskView.VisibleStable: proved only when the comparator is consistent on the tasks that pass the filter (for the priority sort, every one of them has a priority), for the reason above.
- TaskView.VisibleIdempotent: proved only when the comparator is consistent on the tasks that pass the filter, for the reason above.
- JSX markup is not modelled beyond the click handlers and disabled conditions.
- `src/App.js` is not modelled. It is routing configuration only.

## Findings

| source | as written | input that shows it | evidently intended | confidence | as-written member | corrected member |
|---|---|---|---|---|---|---|
| src/Pagination.js:27 | Next is disabled only when `currentPage === totalPages` | the server reports count 0, so totalPages is 0 and currentPage is 1; Next is enabled and moves to page 2, which does not exist | Next is disabled when there is no later page, i.e. `currentPage >= totalPages` | medium, not executed | `Pagination.NextEnabledPastLastPage` | `Pagination.ClickKeepsPageInRange` |
