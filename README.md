# Robot To-Do: a verified model of the page logic

The page keeps a to-do list in memory: the global array `todoArray` and the
id counter `todoCounter` (`javascript/app.js`). Five handlers change them:
`todoList` adds a task, `toggleTodo` flips a task's completed flag,
`deleteTodo` removes a task, `clearCompleted` removes every completed task and
`completeAll` marks every task completed. `displayTodos` renders a sorted copy
of the array and a dashboard of four counters. On the login form,
`checkuser` and `checkpass` classify the two fields by their length.

This project models that logic in Dafny and proves the following:

- adding trims the input and refuses empty or over-long text, leaving the
  state unchanged;
- ids are strictly increasing in array order and are never reused;
- toggle and delete act on exactly one array index;
- the two bulk operations report the counts the page shows;
- the display order is a stable sort with pending tasks first, newest first
  within each group;
- each listed row's buttons act on the task that row shows;
- the dashboard counters agree with each other.

Modules, one per part of `app.js`:

- `TodoItem` (`todo_item.dfy`): the task record, `String.prototype.trim`, and
  the text checks `todoList` makes.
- `TodoList` (`todo_list.dfy`): each operation as a function on the sequence
  of tasks. Also the list invariant `WellFormed`: ids strictly increasing,
  between 1 and the counter, every text trimmed and 1 to 100 characters long.
  Lemmas show that each operation keeps the invariant.
- `TodoStore` (`todo_store.dfy`): class `Store`, which holds `todoArray` and
  `todoCounter` as fields. Its five methods update them in place. The ghost
  field `issued` records every id handed out so far.
- `TodoView` (`todo_view.dfy`): the sort comparator, the display order, the
  `findIndex` mapping from a listed row back to the array, the dashboard
  counters and the "all missions completed" banner.
- `Login` (`login.dfy`): `checkuser` and `checkpass`.

The answer to a `confirm(...)` dialog is a boolean parameter. `Date.now()` is
the parameter `createdAt`.

Notes on the code's behaviour:

- toggle and delete take an array index, not an id. An index outside the
  array is a silent no-op, not a "not found" error.
- `completeAll` asks for confirmation.
- The sort breaks ties by array order. This relies on `Array.prototype.sort`
  being stable, as ECMAScript has required since the 2019 edition.

## Model

| member | source | states |
|---|---|---|
| `TodoItem.TrimBounds` | javascript/app.js:88 | the cut points of `trim`: only whitespace lies before the start and from the end on, and a non-empty kept part begins and ends with a character that is not whitespace |
| `TodoItem.Trim` | javascript/app.js:88 | the result is no longer than the input and has no whitespace at either end; it is empty exactly when the input is all whitespace |
| `TodoItem.TrimUnique` | javascript/app.js:88 | any slice of the input with only whitespace outside it and none at either end is the result of trimming, so trimming removes exactly the leading and trailing whitespace |
| `TodoItem.TrimIdempotent` | javascript/app.js:88 | trimming twice gives the same text as trimming once |
| `TodoItem.TrimOfTrimmed` | javascript/app.js:88 | text with no whitespace at either end is left as it is by trimming |
| `TodoItem.CheckText` | javascript/app.js:86-99 | refused as empty exactly when the input is all whitespace (so "" and " "); refused as too long exactly when the trimmed text exceeds 100 characters; otherwise accepted as the trimmed text, 1 to 100 characters long |
| `TodoItem.AcceptableTextIsFixed` | javascript/app.js:88-99 | text already stored passes the checks again unchanged |
| `TodoList.NewTodo` | javascript/app.js:102-110 | the new entry's id is the counter plus one; it is not completed and carries the trimmed text and the given time |
| `TodoList.ToggleAt` | javascript/app.js:366-368 | only the indexed entry changes, and only in its completed flag, which is negated |
| `TodoList.ToggleTwiceRestores` | javascript/app.js:366-368 | toggling the same index twice restores the original list |
| `TodoList.RemoveAt` | javascript/app.js:382 | exactly the indexed entry is removed; the entries before it keep their places and the entries after it shift down by one |
| `TodoList.NewIdAboveList` | javascript/app.js:103 | the pre-incremented counter is above every id in a well-formed list, so the new entry keeps ids increasing |
| `TodoList.Pending` | javascript/app.js:466 | the pending filter is no longer than the list and holds no completed entry; its membership, size and order are stated by `PendingMembers`, `PartitionSizes` and `PendingKeepsOrder` |
| `TodoList.Done` | javascript/app.js:273 | the completed filter is no longer than the list and holds only completed entries; its membership and size are stated by `DoneMembers` and `PartitionSizes` |
| `TodoList.PendingMembers` | javascript/app.js:466 | the pending filter holds exactly the entries of the list that are not completed |
| `TodoList.DoneMembers` | javascript/app.js:458 | the completed filter holds exactly the entries of the list that are completed |
| `TodoList.MarkAllCompleted` | javascript/app.js:485 | every entry ends up completed with its id, text and time unchanged, in the same order |
| `TodoList.PartitionSizes` | javascript/app.js:272-274 | the pending and the completed entries together make up the list, so their counts add up to its length |
| `TodoList.PendingKeepsOrder` | javascript/app.js:466 | the entries kept by the filter stay in array order (ids still strictly increasing) |
| `TodoList.PendingHasNoneDone` | javascript/app.js:457-466 | after clearing, no completed entry is left, and a second clear finds nothing to remove |
| `TodoList.NoneDoneMeansAllPending` | javascript/app.js:458-463 | with no completed entry the filter keeps the whole list |
| `TodoList.MarkAllLeavesNonePending` | javascript/app.js:477-485 | after marking all completed no entry is pending and every entry counts as completed |
| `TodoList.NonePendingMeansMarkAllIsIdentity` | javascript/app.js:477-482 | with nothing pending, marking all completed changes nothing |
| `TodoList.AppendKeepsWellFormed` | javascript/app.js:102-112 | appending an entry with the next id and an acceptable text keeps ids increasing and bounded by the new counter |
| `TodoList.ToggleKeepsWellFormed` | javascript/app.js:366-368 | toggling keeps the list invariant |
| `TodoList.RemoveKeepsWellFormed` | javascript/app.js:382 | removing one entry keeps the list invariant |
| `TodoList.ClearKeepsWellFormed` | javascript/app.js:466 | keeping only the pending entries keeps the list invariant |
| `TodoList.MarkAllKeepsWellFormed` | javascript/app.js:485 | marking all completed keeps the list invariant |
| `TodoStore.Store.constructor` | javascript/app.js:11-12 | the store starts with an empty array, a counter at zero and no ids issued |
| `TodoStore.Store.Add` | javascript/app.js:86-112 | a refused input leaves array, counter and issued ids untouched and returns the error; otherwise exactly one entry is appended, with id = old counter + 1 (never issued before), the trimmed text and completed = false, and the counter goes up by one |
| `TodoStore.Store.Toggle` | javascript/app.js:366-372 | an index inside the array flips that entry's flag and nothing else; any other index changes nothing; the counter is untouched |
| `TodoStore.Store.Delete` | javascript/app.js:377-388 | an in-range index with a confirmed dialog removes and returns exactly that entry, keeping the rest in order; otherwise nothing changes; the counter is untouched, so the id is never handed out again |
| `TodoStore.Store.ClearCompleted` | javascript/app.js:457-471 | with no completed entry it reports nothing to do and changes nothing; declined, it changes nothing; confirmed, the array becomes exactly its pending entries in order, and the reported count equals the old length minus the new length |
| `TodoStore.Store.CompleteAll` | javascript/app.js:476-490 | with no pending entry it reports nothing to do and changes nothing; confirmed, the loop leaves every entry completed with ids, texts, times and order unchanged, and the reported count is the number pending before |
| `TodoView.Compare` | javascript/app.js:152-155 | non-positive exactly when the first task may be shown above the second: pending before completed, and within a group the later `createdAt` first |
| `TodoView.CompareIsConsistent` | javascript/app.js:152-155 | the comparator is antisymmetric and its "not after" relation is transitive, so the sort is well defined |
| `TodoView.InsertPermutes` | javascript/app.js:152 | inserting one entry into the sorted copy adds exactly that entry |
| `TodoView.InsertMembers` | javascript/app.js:152 | the sorted copy with one more entry inserted holds that entry and every entry it held before, and nothing else |
| `TodoView.InsertSorted` | javascript/app.js:152-155 | inserting into a list sorted by the comparator keeps it sorted |
| `TodoView.InsertKeepsTies` | javascript/app.js:152-155 | an entry inserted in front of its ties keeps ties in array order |
| `TodoView.DisplayOrder` | javascript/app.js:151-155 | the shown list is a permutation of the array; every pending task comes before every completed one; within each group `createdAt` does not increase; the array itself is a value and is not changed |
| `TodoView.DisplayOrderIsStable` | javascript/app.js:152-155 | tasks the comparator ties keep their array order |
| `TodoView.DisplayOrderExample` | javascript/app.js:151-155 | pending A (t=1), completed B (t=2), pending C (t=3) are shown as C, A, B |
| `TodoView.FindIndex` | javascript/app.js:160 | returns the first index holding the id, or -1 when no entry has it |
| `TodoView.FindIndexOfMember` | javascript/app.js:160 | with distinct ids, the index found for a task in the array is that task's own index |
| `TodoView.Rows` | javascript/app.js:159-160 | one row per task, in display order |
| `TodoView.RowsPointBack` | javascript/app.js:159-160 | with distinct ids, every row's toggle and delete buttons receive the array index of the task the row shows |
| `TodoView.CompletionRate` | javascript/app.js:275 | 0 for an empty list; otherwise the percentage rounded to the nearest integer, halves up; it lies in 0..100, is 0 when nothing is completed and 100 when everything is |
| `TodoView.RateBounds` | javascript/app.js:275 | the integer bounds of the rounded percentage |
| `TodoView.Summary` | javascript/app.js:272-275 | total is the array length; completed is the number of completed tasks and at most the total; active = total - completed, which is the number of pending tasks; the rate is `CompletionRate` of completed and total, so it lies in 0..100; an empty list gives all zeros; all tasks completed gives 100 |
| `TodoView.BannerAsWrittenShowsWithPendingEntry` | javascript/app.js:345 | with 200 of 201 tasks completed the banner condition as written holds although one task is still pending |
| `TodoView.AllMissionsCompleteIffNonePending` | javascript/app.js:345 | the corrected banner condition holds exactly when the list is non-empty and nothing is pending, and then the rate is 100 |
| `TodoView.BannerAsWrittenIff` | javascript/app.js:345 | the banner condition as written (`BannerAsWritten`: rounded rate 100 on a non-empty list) holds exactly when the list is non-empty and at most one task in 200 is pending |
| `TodoView.Display` | javascript/app.js:132-361 | an empty array shows the empty panel and only then; otherwise the rows follow the display order, the dashboard is the summary, the banner shows exactly when at most one task in 200 is pending (always when none is), and with distinct ids every row's index leads back to its own task |
| `TodoView.DisplayCorrected` | javascript/app.js:345 | the same panel, rows and dashboard as the display, with the banner shown exactly when no task is pending |
| `Login.CheckUser` | javascript/app.js:44-58 | an empty name gives the prompt, a length of 1 to 6 the error, a length of 7 or more "valid", and each happens only in its case |
| `Login.CheckPass` | javascript/app.js:63-77 | an empty password gives the prompt, a length of 1 to 5 the error, a length of 6 or more "strong", and each happens only in its case |

## Findings

| source | as written | input that shows it | evidently intended | confidence | as-written member | corrected member |
|---|---|---|---|---|---|---|
| javascript/app.js:345 | the "ALL MISSIONS COMPLETED" banner is shown when the rounded rate is 100 and the list is non-empty | 201 tasks, 200 completed: 99.502…% lies strictly above the half, so it is rounded up to 100 (the exact-half caveat of `TodoView.CompletionRate` does not apply), so the banner shows with one task still active | show the banner only when every task is completed | high; not executed | `TodoView.BannerAsWrittenShowsWithPendingEntry` | `TodoView.AllMissionsCompleteIffNonePending` |

`TodoView.Display` keeps the condition as written; `TodoView.DisplayCorrected` is the display with the corrected condition.

## Left out

- Markup and notifications are not modelled. This covers the HTML template strings in `displayTodos`, `showRobotNotification` with its timed dismissal, the `alert` and `console.log` calls, and the input field's scale animation. They are presentation only.
- Other page code is not modelled: `printdata`, the keyboard handlers in `setupKeyboardControls`, `addRobotAnimations`, `updateSystemTime` and all of `script.js`. They are DOM and timer code with no state the to-do list depends on.
- `confirm(...)` is a boolean parameter, and `Date.now()` is the parameter `createdAt`.
- The `timestamp` string from `toLocaleString()` and the constant `priority` ('normal') and `category` ('general') fields are not part of the record. They are only displayed and never change.
- `TodoView.CompletionRate`: computed as `(200 * completed + total) / (2 * total)` in exact integer arithmetic, not as `Math.round` on floating-point numbers. The two can differ when the exact percentage ends in .5. In that case the floating-point quotient may fall just below the half and round down.
- `TodoItem.CheckText`, `Login.CheckUser`, `Login.CheckPass`: lengths count Unicode scalar values. JavaScript's `length` counts UTF-16 code units, so a character outside the Basic Multilingual Plane counts once here but twice in the page.
- `TodoItem.Trim`: the whitespace set is fixed to the ECMAScript WhiteSpace and LineTerminator code points, including the Unicode space separators of current Unicode versions. The model does not follow a Unicode database.
- The page stores tasks as objects that `toggleTodo` and `completeAll` update in place. The sorted copy shares those objects. Here a task is a value inside the store's sequence, so that sharing is not modelled. The copy is rebuilt after every change, so nothing observable depends on it.
- `TodoStore.Store.Toggle`, `TodoStore.Store.Delete`: the index is an integer. JavaScript would also accept a numeric string or a fractional number as an index. A fractional index finds no entry, so it is a no-op there too.
