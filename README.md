# Task tracker task store, modelled in Dafny

This project models the task store of a small command-line task tracker
(`task_cli.py`). The tracker keeps an ordered collection of tasks in a JSON
file. Each task has an `id`, a `description`, a `status`, a `createdAt` and an
`updatedAt` timestamp. Every command loads the whole collection, applies at
most one change, and writes the whole collection back only when a task was
added, found for editing, or removed. An update or mark that finds its task
rewrites the file even when the new values equal the old ones.

Files:

- `tasks.dfy`, module `TaskModel`: the `Task` record and the pure operations
  on `seq<Task>`. These are id allocation (`MaxId`, `NextId`), `Add`, the edit
  behind update and mark (`Apply`, `EditFirst`), `Delete` and `List` (both built
  on `Filter`). The file also holds the lemmas about them: the first match is
  edited and nothing else changes, an absent id leaves the collection as it was,
  delete keeps exactly the other tasks in order, the not-found test "length
  unchanged" is exact, and ids stay unique.
- `export.dfy`, module `TaskExport`: the export line
  `[<id>] <description> - <status> (Created: <createdAt>)\n`, the sequence of
  lines, and the "nothing to export" case. Its partner is a parser that reads
  the id back out of a line; `ExportLineId` proves that it does so.
- `store.dfy`, module `TaskStore`: class `Store`. Its field `file` stands for
  `tasks.json` (`None` while the file does not exist). Its methods are the
  commands, written in Python's load / loop-and-mutate / save shape. Each method
  states the new file content as a function of the old one, and says that a
  not-found outcome writes nothing. `Walkthrough` runs a fresh store through
  add, mark in progress, list by status, delete, export and another add, and
  asserts each result.

The clock is a parameter. `add` takes two timestamps because the source calls
`now()` twice. Update and mark take one. Timestamps are opaque text.

Points where the code behaves differently from what one might expect:

- Ids are allocated from the ids present now (`max(..., default=0) + 1`).
  Deleting the task with the highest id therefore lets the next add reuse that
  id. One might expect deleted ids never to be reused; the code reuses them.
  `AddThenDeleteReusesId` proves this, and `Walkthrough` shows id 1 handed out
  again after its task was deleted.
- The status passed to mark is any string, and list filters on any string. No
  order of states is enforced.
- The description of an added task is not checked for being non-empty.
- Target ids are integers as parsed from the command line. A negative or
  unknown id is simply not found.

## Model

| member | source | states |
|---|---|---|
| TaskModel.MaxId | task_cli.py:39 | the result is at least every id present, it is one of the ids when the collection is non-empty, and it is 0 for an empty collection |
| TaskModel.NextId | task_cli.py:39 | the new id is 1 or more and strictly greater than every id present; it is 1 for an empty collection, otherwise one more than an id present (so max + 1) |
| TaskModel.Add | task_cli.py:37-47 | exactly one task is appended at the end and every earlier task is unchanged; the new task has the next id, status "todo" and the two clock readings; unique ids stay unique |
| TaskModel.AddKeepsNumbering | task_cli.py:39-47 | on a collection numbered 1..n the next id is n + 1 and the result is numbered 1..n+1, so adds on an empty store number tasks 1, 2, ... in creation order |
| TaskModel.AddThenDeleteReusesId | task_cli.py:37-70 | deleting the task just added restores the old collection, and the next add hands out the same id again |
| TaskModel.Apply | task_cli.py:52-83 | an update replaces the description and a mark replaces the status with any given value; both set updatedAt to the clock reading and keep id, createdAt and the other text field |
| TaskModel.EditFirst | task_cli.py:54-60 | editing keeps the length and every task's id and createdAt, so unique ids stay unique |
| TaskModel.EditFirstAt | task_cli.py:54-60 | when index i holds the first task with the id, the result is the input with only position i replaced by its edited version |
| TaskModel.EditFirstAbsent | task_cli.py:54-61 | when no task has the id, the collection is identical to before |
| TaskModel.FirstMatchExists | task_cli.py:54-55 | a present id has a first matching position |
| TaskModel.EditFirstPresent | task_cli.py:74-82 | on a present id, some first match receives the edit and nothing else changes; with unique ids, that is the one task carrying the id |
| TaskModel.Filter | task_cli.py:66 | the result is no longer than the input, and every task in it satisfies the predicate and comes from the input |
| TaskModel.FilterIsSubsequence | task_cli.py:66 | the filtered tasks form an order-preserving subsequence of the input |
| TaskModel.FilterCount | task_cli.py:89 | a kept task occurs as often as in the input; any other task does not occur |
| TaskModel.FilterKeepsAll | task_cli.py:66-67 | the length stays the same exactly when every task is kept, and then the result is the input itself |
| TaskModel.FilterKeepsUnique | task_cli.py:66 | filtering a collection with unique ids leaves unique ids |
| TaskModel.FilterAppend | task_cli.py:66 | filtering distributes over concatenation |
| TaskModel.Delete | task_cli.py:66 | no remaining task has the target id, and every remaining task comes from the input |
| TaskModel.DeleteIsSelection | task_cli.py:66 | the result is the order-preserving subsequence of exactly the tasks whose id differs from the target |
| TaskModel.DeleteNotFound | task_cli.py:66-68 | the length is unchanged exactly when no task has the id, and then the collection is unchanged |
| TaskModel.DeleteKeepsUnique | task_cli.py:66 | delete keeps ids unique |
| TaskModel.DeleteRemovesOne | task_cli.py:66-67 | with unique ids, deleting a present id removes exactly one task |
| TaskModel.List | task_cli.py:86-89 | with no filter or an empty one, all tasks are returned; every returned task comes from the collection |
| TaskModel.ListByStatus | task_cli.py:88-89 | with a non-empty filter, the result is the order-preserving subsequence of exactly the tasks with that status |
| TaskExport.DigitChar | task_cli.py:104 | the character is the decimal digit for its value |
| TaskExport.DecimalString | task_cli.py:104 | the id text is one or more decimal digits, with no leading zero |
| TaskExport.DecimalRoundTrip | task_cli.py:104 | the decimal text of an id denotes that id |
| TaskExport.ExportLine | task_cli.py:104 | a line starts with '[' and ends with a newline |
| TaskExport.ExportLines | task_cli.py:103-105 | there is one line per task, in collection order |
| TaskExport.Export | task_cli.py:97-105 | an empty collection gives "nothing to export"; otherwise the lines of all tasks, in order |
| TaskExport.LeadingDigits | task_cli.py:104 | the count of leading digits: all those characters are digits, and the next one is not |
| TaskExport.ExportLineId | task_cli.py:104 | the id read back from a task's export line is the task's id |
| TaskStore.Store.Load | task_cli.py:21-25 | an absent file reads as the empty collection, a present one as exactly the collection it holds |
| TaskStore.Store.constructor | task_cli.py:21-23 | a store without a file loads as the empty collection |
| TaskStore.Store.Save | task_cli.py:28-30 | the file afterwards holds exactly the given collection |
| TaskStore.Store.AddTask | task_cli.py:37-49 | the file holds Add of the loaded collection, the reported id is NextId of it, and unique ids stay unique |
| TaskStore.Store.EditFirstMatch | task_cli.py:54-61 | the loop finds a match exactly when the id is present; it then saves EditFirst of the loaded collection, otherwise it writes nothing |
| TaskStore.Store.UpdateTask | task_cli.py:52-61 | on a present id: Updated, and the file holds the collection with the first match's description and updatedAt replaced; on an absent id: NotFound, and the file is untouched; unique ids stay unique |
| TaskStore.Store.MarkTask | task_cli.py:74-83 | on a present id: Marked, and the first match's status and updatedAt are replaced; on an absent id: NotFound, and the file is untouched; unique ids stay unique |
| TaskStore.Store.DeleteTask | task_cli.py:64-71 | on a present id: Deleted, and the file holds Delete of the loaded collection; on an absent id: NotFound, and the file is untouched; unique ids stay unique |
| TaskStore.Store.ListTasks | task_cli.py:86-89 | returns List of the loaded collection under the filter, and writes nothing |
| TaskStore.Store.ExportTasks | task_cli.py:97-105 | returns Export of the loaded collection |

## Left out

- JSON reading and writing of `tasks.json`: the file is the field `Store.file`. Only "an absent file reads as empty" is kept from loading.
- A store file that is not valid JSON or holds badly typed records: the source does not handle it, so every stored record is taken to be a well-typed `Task` with a non-negative integer id.
- The clock: `now()` and its ISO formatting become timestamp parameters. Because timestamps are opaque, `createdAt <= updatedAt` is not stated; it depends on the clock, not on the store.
- Coloured terminal messages: each command's message is the `Outcome` value or the returned list or report. The `[<id>] <description> - <status>` lines that list prints are not modelled.
- Writing `tasks_export.txt`: only the line contents and the empty-collection case are modelled.
- Argument dispatch in `main`, with its argument-count checks and `int()` parsing.
- Several processes using one store file at once: the source does nothing against lost updates.
