# To-Do App data core in Dafny

A model of the part of `main.py` in the PyQt to-do app that is independent of
the widgets:

- **Task store:** the `TaskDatabase` class over its single SQLite table
  `tasks`.
- **Filter:** the search and filter step of `MainWindow.refresh_tasks`.
- **CSV:** export and import, over rows already split into fields.
- **Main window commands:** add, edit, delete, toggle completed, clear
  completed and mark all completed.

The model has six modules, one file each:

| file | module | what it holds |
|---|---|---|
| `tasks.dfy` | `Tasks` | The `Task` record (`id` is `None` until the task is saved) and `Option`. |
| `text.dfy` | `Text` | Python's `str.strip()` over Python's whitespace set, `str.lower()` on ASCII letters, and substring `in`, each with its properties. |
| `store.dfy` | `Store` | The table and `TaskDatabase` (details below). |
| `filter.dfy` | `Filter` | The three passes of `refresh_tasks` (keyword, priority, status) and the proof that together they are one selection by a stated condition. |
| `csv.dfy` | `Csv` | The rows export writes, the per-row logic of import (including the words `IsCompletedWord` accepts as completed), and the export-then-import round trip. |
| `app.dfy` | `App` | `MainWindow` as a class (details below). |

**The store.** The table is kept as its rows in rowid order, together with
the AUTOINCREMENT counter `nextId`. `Find` gives the table's view as a map
from id to row. The class invariant `WellFormed` says:

- ids are positive, below `nextId`, and strictly increasing in row order,
  so no id occurs twice;
- the INTEGER `completed` column holds 0 or 1.

Every store method keeps this invariant and states its new table exactly.

**The window.** The `MainWindow` class holds the store, the tasks on display
and the filter criteria. Its invariant is that the display is always the
store filtered by the criteria. Every command ends with `refresh_tasks` or
leaves the store untouched. The user's answers are parameters:

- whether a dialog or confirmation box was accepted;
- the dialog's fields;
- the id in the selected table row;
- the already-split rows of a CSV file.

A command that ends with a message box returns an `Outcome` naming which box
it shows.

The dialogs and CSV import validate titles differently, following the code.
`add_task` and `edit_task` refuse only the empty title, because
`if not data["title"]` lets a title of spaces through. Import refuses a
title that is blank after stripping.

## Model

| member | source | states |
|---|---|---|
| Store.AsRow | main.py:47-49 | The row written for a task under an id carries that id and stores completed as 0 or 1; read back, it is the task with that id. |
| Store.AsTask | main.py:75-76 | A row read back is a task with the row's id, completed exactly when the column is nonzero (`bool(completed)`). |
| Store.AsTasks | main.py:69-78 | Reading the table gives one task per row, in row order, the i-th with the i-th row's id and completed flag. |
| Store.Replace | main.py:55-62 | An update keeps the number of rows and every id; rows with another id are unchanged, and the row with the id reads back as the task under that id. |
| Store.Without | main.py:64-67 | Deleting never adds rows: every remaining row was stored and has an id not deleted. |
| Store.Numbered | main.py:486-496 | Consecutive inserts write one row per task, the j-th under id start + j. |
| Store.Flip | main.py:411-419 | Toggling keeps the number of rows and every column but completed; the completed column changes exactly in the row with that id. |
| Store.MarkAll | main.py:438-445 | Marking all completed keeps the number of rows; every row ends up with completed 1 and its other columns unchanged. |
| Store.Incomplete | main.py:422-436 | What remains after clearing has no completed row and is no longer than the table. |
| Store.TaskDatabase.constructor | main.py:26-43 | A fresh table is empty; AUTOINCREMENT starts at id 1 and the invariant holds. |
| Store.TaskDatabase.AddTask | main.py:45-53 | The task's six fields are appended as one row under the next id, with completed stored as 1/0. The id is returned and the counter moves past it, so ids are never reused. The new id is larger than every stored id, and in the map view only that id changes. |
| Store.TaskDatabase.UpdateTask | main.py:55-62 | The row with the task's id gets the task's six fields and no other row changes. A task without an id, or with an id no row has, changes nothing. The counter is unchanged. |
| Store.TaskDatabase.DeleteTask | main.py:64-67 | The row with that id disappears, the other rows keep their order, and deleting an absent id is not an error. In the map view only that id changes, and the counter is unchanged. |
| Store.TaskDatabase.GetAllTasks | main.py:69-78 | One task per row in row order, carrying the row's id, its fields as stored, and `completed` as `bool(completed)`. |
| Store.FindSound | main.py:64-67 | `Find` returns a stored row with the id asked for, and finds nothing exactly when no row has that id. |
| Store.FindAt | main.py:34 | In a well-formed table, `Find` of a row's id returns that row, since ids are unique. |
| Store.FindAfterAppend | main.py:45-53 | After an insert, only the new id maps to something new. |
| Store.FindAfterReplace | main.py:55-62 | After an update, the updated id maps to the new fields if it was present; every other id is unchanged. |
| Store.ReplaceAbsent | main.py:55-62 | An update with an id no row has leaves the table unchanged. |
| Store.FindAfterDelete | main.py:64-67 | After deleting a set of ids, those ids map to nothing and every other id is unchanged. |
| Store.WithoutTwice | main.py:64-67 | Deleting one batch of ids after another equals deleting both at once; a second delete of an id changes nothing. |
| Store.WithoutNothing | main.py:64-67 | Deleting no id leaves the table as it is. |
| Store.WithoutAbsent | main.py:64-67 | Deleting an id no row has leaves the table as it is. |
| Store.WithoutRows | main.py:64-67 | After deletion, a row remains exactly when it was stored and its id was not deleted. |
| Store.WithoutIsSubsequence | main.py:64-67 | Deletion keeps the remaining rows in their order. |
| Store.ConsWellFormed | main.py:30-43 | A row with a smaller id than every row of a well-formed table can be put in front of it and the invariant still holds. |
| Store.WithoutWellFormed | main.py:30-43 | Deleting rows keeps the table invariant. |
| Store.WithoutCompleted | main.py:422-436 | Deleting exactly the ids of the completed rows leaves exactly the incomplete rows, unchanged and in order. |
| Store.AsRowAsTask | main.py:45-78 | Reading a row back as a task and writing it under the same id gives the row back; the 0/1 column survives as `bool`. |
| Store.ReplaceFlipped | main.py:411-419 | Updating a stored task with its flag inverted changes only that row's completed column. |
| Store.FlipTwice | main.py:411-419 | Toggling the same task twice restores the table. |
| Store.FlipWellFormed | main.py:411-419 | Toggling keeps the table invariant and the set of stored ids. |
| Store.IncompleteMembers | main.py:422-436 | Clearing keeps exactly the stored rows whose completed column is 0. |
| Store.IncompleteOfMarkAll | main.py:422-446 | After mark all completed, clearing the completed tasks empties the table. |
| Store.MarkStep | main.py:441-445 | One turn of the mark-all loop: updating row i with its task marked completed marks the rows up to i, and an already completed row needs no update. |
| Store.IncompleteBeforeStep | main.py:440-445 | `tasks_updated` after row i is its value before row i, or row i being incomplete. |
| Store.MarkAllIdempotent | main.py:438-450 | Marking all completed keeps the invariant, and a second time changes nothing. |
| Store.NumberedAppend | main.py:486-496 | Inserting one list of tasks and then another numbers the second on from where the first stopped. |
| Store.NumberedOne | main.py:493-495 | A single insert stores its task under the id it starts from. |
| Store.NumberedAt | main.py:486-496 | The j-th accepted row is stored under id start + j. |
| Text.IsSpace | main.py:490-495 | No character `strip()` removes is an upper-case letter, so lower-casing leaves whitespace alone. |
| Text.TrimStart | main.py:490-495 | Leading whitespace removal gives a result no longer than its input that starts with a non-whitespace character or is empty. |
| Text.TrimEnd | main.py:490-495 | Trailing whitespace removal gives a result no longer than its input that ends with a non-whitespace character or is empty. |
| Text.TrimStartSuffix | main.py:490-495 | Trimming the start removes a prefix. |
| Text.TrimEndPrefix | main.py:490-495 | Trimming the end removes a suffix. |
| Text.TrimStartDropsSpace | main.py:490-495 | The removed prefix is all whitespace. |
| Text.TrimEndDropsSpace | main.py:490-495 | The removed suffix is all whitespace. |
| Text.AllSpaceSnoc | main.py:491 | Appending a whitespace character to an all-whitespace string keeps it all whitespace. |
| Text.AllSpaceAt | main.py:491 | A string is all whitespace exactly when each of its characters is. |
| Text.Strip | main.py:490-495 | `strip()` never lengthens a string. |
| Text.StripTrimmed | main.py:490-495 | `strip()` yields a string with no whitespace at either end. |
| Text.StripSlice | main.py:490-495 | `strip()` yields a contiguous slice of its input, and everything cut off on either side is whitespace. |
| Text.StripFixedPoint | main.py:490-495 | `strip()` leaves a string unchanged exactly when it has no whitespace at either end. |
| Text.StripIdempotent | main.py:490-495 | Stripping twice is stripping once. |
| Text.StripEmpty | main.py:491 | `title.strip()` is empty exactly when the title is all whitespace. |
| Text.LowerChar | main.py:320 | A lower-cased character is not an upper-case letter. |
| Text.Lower | main.py:320 | `lower()` keeps the length. |
| Text.LowerAt | main.py:320-323 | `lower()` maps each character on its own. |
| Text.LowerIdempotent | main.py:320-323 | Lower-casing twice is lower-casing once. |
| Text.Contains | main.py:323 | `sub in s` needs `sub` to be no longer than `s`, and the empty string is in every string. |
| Text.ContainsAt | main.py:323 | `keyword in s` holds exactly when the keyword occurs in `s` at some position. |
| Filter.Select | main.py:322-335 | A list comprehension is no longer than its input, and what it keeps comes from the input and passes the test. |
| Filter.KeywordPass | main.py:319-323 | The keyword pass keeps only stored tasks that pass the keyword test. |
| Filter.PriorityPass | main.py:325-328 | The priority pass keeps only tasks that pass the priority test. |
| Filter.StatusPass | main.py:330-335 | The status pass keeps only tasks that pass the status test. |
| Filter.Refresh | main.py:315-337 | The display never shows a task that is not stored or that fails the criteria. |
| Filter.SelectMembers | main.py:322-335 | A list comprehension keeps exactly the elements that pass its test. |
| Filter.SelectAgree | main.py:322-335 | Two tests that agree on every element select the same list. |
| Filter.SelectEverything | main.py:322-335 | A test every element passes keeps the whole list. |
| Filter.SelectThenSelect | main.py:315-337 | Filtering by `p` and then by `q` equals filtering once by `p and q`. |
| Filter.SelectIsSubsequence | main.py:322-335 | A comprehension keeps the selected elements in their order. |
| Filter.KeywordPassSelects | main.py:319-323 | The keyword pass, skipped for an empty keyword, selects exactly the tasks whose lower-cased title or description contains the lower-cased search text. |
| Filter.PriorityPassSelects | main.py:325-328 | The priority pass, skipped for "All Priorities", selects exactly the tasks with that priority. |
| Filter.StatusPassSelects | main.py:330-335 | The status pass selects the completed tasks for "Completed", the incomplete ones for "Incomplete", and all of them otherwise. |
| Filter.RefreshSelectsMatches | main.py:315-337 | The three passes together are one selection by the conjunction of the three conditions. |
| Filter.RefreshMembers | main.py:315-337 | Soundness and completeness: a task is shown exactly when it is stored and meets all three conditions. |
| Filter.RefreshIsSubsequence | main.py:315-337 | The shown tasks are the stored ones with some left out, in store order. |
| Filter.RefreshIdentity | main.py:234-245 | With the widgets' initial state (empty search, "All Priorities", "All") every stored task is shown, in order. |
| Filter.RefreshIdempotent | main.py:315-337 | Filtering the shown tasks again with the same criteria changes nothing. |
| Filter.KeywordIgnoresCase | main.py:320-323 | Case in the search text and in the task's title and description makes no difference to the keyword test. |
| Filter.RefreshByPriorityExample | main.py:325-328 | Of a "Low" and a "High" task, filtering on "High" shows the "High" one alone. |
| Csv.CompletedText | main.py:468 | Export writes the completed flag as "Yes" or "No" and nothing else. |
| Csv.ExportRow | main.py:463-470 | Each exported task row has as many fields as the header. |
| Csv.ExportRows | main.py:461-470 | Export writes the header first, then task i as row i + 1, one row per task. |
| Csv.Body | main.py:484-486 | Import looks at every row but the first, in file order, and at nothing for an empty file. |
| Csv.ParseCompleted | main.py:490 | A field read as completed is not blank once stripped. |
| Csv.ParseRow | main.py:486-495 | A row yields a task exactly when it has at least six fields and a non-blank title. The task has no id and completed as parsed from the fifth field. |
| Csv.ParseRowClean | main.py:489-494 | A task parsed from a row has a non-empty title and no surrounding whitespace in any field. |
| Csv.Added | main.py:486-496 | A row adds at most one task, and one exactly when it parses. |
| Csv.ParseRows | main.py:484-496 | Import adds at most one task per row. |
| Csv.Accepted | main.py:485-496 | The count is at most the number of rows read. |
| Csv.ParseRowsClean | main.py:484-496 | Every task import adds is unsaved, has a non-empty title, and has no surrounding whitespace in any field. |
| Csv.AcceptedCountsAdded | main.py:496-497 | The count import reports equals the number of tasks it adds. |
| Csv.ParseRowsSnoc | main.py:486-496 | Import handles rows one at a time: a further row adds what that row alone adds. |
| Csv.ParseRowsStep | main.py:486-496 | The same, for the first i + 1 rows of a file. |
| Csv.RejectedRowsAddNothing | main.py:487-492 | A row with fewer than six fields, or whose title is all whitespace, adds nothing. |
| Csv.ParseCompletedYesNo | main.py:490 | "Yes" parses as completed and "No" does not. |
| Csv.ParseCompletedUpperCase | main.py:490 | Case is ignored: "TRUE" parses as completed. |
| Csv.ParseCompletedPadded | main.py:490 | Surrounding whitespace is ignored: " True " parses as completed. |
| Csv.ParseCompletedDigits | main.py:490 | "1" parses as completed; "0" and the empty field do not. |
| Csv.TrimmedRowParses | main.py:486-494 | A row of six or more fields with a non-empty title and no surrounding whitespace is imported exactly as written. |
| Csv.ImportOneRowExample | main.py:484-496 | A file of a header and one valid row imports exactly that task. |
| Csv.Reimported | main.py:490-494 | What import makes of an exported task has no id and keeps its completed flag. |
| Csv.Survivors | main.py:486-496 | The tasks that survive an export-then-import are no more than were exported, and none has an id. |
| Csv.CompletedRoundTrip | main.py:468-490 | Export's "Yes"/"No" reads back as the flag it was written for. |
| Csv.ImportOfExport | main.py:461-496 | Importing an export adds the exported tasks with non-blank titles, in order, with stripped fields, the completed flag kept and no id. The header row is the one dropped, and no exported row is short. |
| Csv.ReimportedClean | main.py:490-495 | Stripping leaves a task without surrounding whitespace unchanged but for its id. |
| Csv.RoundTrip | main.py:461-496 | Exporting tasks with non-blank titles and no surrounding whitespace, then importing, gives back every task in order with equal fields and no id. |
| Csv.SurvivorsOfClean | main.py:461-496 | Such tasks all survive the export-then-import unchanged but for their ids. |
| Csv.SurvivorsOfCleanAt | main.py:461-496 | The same, element by element. |
| Csv.RoundTripStable | main.py:461-496 | Exporting what an import produced and importing it again gives the same tasks. |
| App.FromDialog | main.py:360-361 | The task built from the dialog carries the given id and exactly the dialog's six fields. |
| App.ShownIsStored | main.py:365-373 | A task on display is the stored row with its id, read back. |
| App.IdsOfMembers | main.py:434-435 | An id is among those of a task list exactly when some task in the list carries it. |
| App.DeleteStep | main.py:434-435 | One turn of the delete loop: deleting one more task's id after the earlier ones deletes the ids of the tasks so far. |
| App.CompletedRowListed | main.py:424 | A completed row's id is among the ids of the completed tasks. |
| App.ListedRowCompleted | main.py:424 | Only a completed row has its id among the ids of the completed tasks, since ids are unique. |
| App.CompletedTasksOf | main.py:424-435 | The completed tasks read from the store all have ids, and those ids are exactly the ids of the completed rows. |
| App.NoCompletedTasks | main.py:424-427 | The list of completed tasks is empty exactly when no row is completed. |
| App.StoreRoundTrip | main.py:452-500 | Exporting a store whose tasks have non-blank titles and no surrounding whitespace, then importing the file, writes the same rows, in order, renumbered from the store's next id. |
| App.ImportStep | main.py:486-496 | One turn of the import loop: the tasks added so far grow by what the row adds, and those rows follow the earlier ones under the next ids. |
| App.MainWindow.constructor | main.py:159-313 | The window opens on a well-formed store with empty search text and the first item of each drop-down, and shows every stored task in order. |
| App.MainWindow.RefreshTasks | main.py:315-337 | The display becomes the stored tasks filtered by the current criteria. |
| App.MainWindow.ChangeCriteria | main.py:234-245 | Editing the search bar or choosing a drop-down item applies the new criteria to the display. |
| App.MainWindow.GetSelectedTask | main.py:365-373 | The first displayed task with the selected id is returned. None is returned exactly when no row is selected or no displayed task has that id. |
| App.MainWindow.AddTask | main.py:352-363 | Accepted with a non-empty title, one row is appended under the next id with the dialog's fields. Cancelled or with an empty title, the store is untouched. |
| App.MainWindow.EditTask | main.py:375-394 | With a shown task selected and the dialog accepted with a non-empty title, that task's row gets the dialog's fields and keeps its id. Otherwise nothing changes. The outcome names each case. |
| App.MainWindow.DeleteTask | main.py:396-409 | Once confirmed, the selected shown task is deleted. With no selection or no confirmation, nothing changes. |
| App.MainWindow.ToggleCompleted | main.py:411-419 | The selected shown task's completed flag is inverted and nothing else in the store changes. With no selection, nothing changes. |
| App.MainWindow.FlipStored | main.py:414-416 | Writing back a shown task with its flag inverted toggles exactly that row. |
| App.MainWindow.ClearCompletedTasks | main.py:422-436 | With no completed task there is nothing to clear. Once confirmed, the table becomes exactly its incomplete rows, in order. Without confirmation, nothing changes. |
| App.MainWindow.ClearCompletedRows | main.py:424-435 | The store side of the same command, with the same three outcomes. |
| App.MainWindow.DeleteEach | main.py:434-435 | Deleting the tasks of a list one after another removes exactly their ids from the table. |
| App.MainWindow.DeleteNext | main.py:434-435 | One turn of that loop deletes one more task's id. |
| App.MainWindow.MarkAllCompleted | main.py:438-450 | Every row ends up completed with its other fields unchanged. The result is true exactly when some task was incomplete. |
| App.MainWindow.MarkEach | main.py:440-445 | The loop over the stored tasks marks every row completed and reports whether any was incomplete. |
| App.MainWindow.ExportTasksCsv | main.py:452-473 | The writer gets the header, then one row per stored task in store order, whatever the display filters. |
| App.MainWindow.ImportTasksCsv | main.py:475-500 | The first row is dropped. Each later row that parses is appended as a new row under the next id, in file order. The count is the number of such rows and the counter advances by it. |
| App.MainWindow.ImportRows | main.py:486-496 | The loop over the rows after the first: each row that parses is stored under the next id, and the count is the number of such rows. |
| App.MainWindow.ImportNext | main.py:486-496 | One turn of that loop stores what one more row adds under the next ids. |
| App.MainWindow.ImportRow | main.py:487-496 | One row adds its parsed task, if any, under the next id, and the count grows by the number of tasks added. |

## Left out

- The widgets, the table's column layout and its sorting on header click
  (main.py:253-262, 339-350): they change what the user sees, not the
  store or `self.tasks`.
- `toggle_theme` and the style sheets (main.py:502-510, 513-546): no data.
- Message boxes and dialogs: their answers are parameters. A command that
  ends in a message box returns the `Outcome` naming it.
- The file dialogs, `open`, the `csv` module's tokenising and quoting, and
  the `except` branches for I/O errors. Export returns the rows it would
  write; import takes the rows the reader would yield.
- The text of the selected table cell and `int(...)` on it in
  `get_selected_task`: the selection is an optional id.
- `QDate` and the dialog's pre-filling (main.py:85-150): the dialog's result
  is a value of `DialogData`.
- The SQLite engine. The model does not open an existing database file: the
  window is constructed over any well-formed store.
- `NULL` columns. Every task the app writes has string fields.
- The 64-bit limit on SQLite rowids. Ids are unbounded integers.
- The order of `SELECT ... FROM tasks` (main.py:71): the query has no
  `ORDER BY`, so SQL does not promise an order. The model assumes rowid
  order, which is what SQLite does for this table.
- In-place mutation of `Task` objects: tasks are values. In `edit_task` and
  `toggle_completed` the model writes the changed copy to the store. The
  Python object in `self.tasks` is then replaced by `refresh_tasks`, so
  nothing observable differs.
- Text.Lower: lower-cases ASCII letters only. Python's `str.lower()` also
  folds non-ASCII letters.
- Text.Strip: uses Python's whitespace set as listed in `text.dfy`.
- The priority a task may carry: the code does not check it, and neither
  does the model.
