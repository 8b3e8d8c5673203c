# Task tracker — a Dafny model

The task tracker is a command-line to-do list. Its whole datastore is one
file, `tasks.json`, holding an ordered list of task records (`id`,
`description`, `status`, `createdAt`, `updatedAt`). Each command loads the
whole list, changes or filters it in memory and, when it changed something,
writes the whole list back:

- `add` appends a `todo` task whose id is the current number of tasks plus one;
- `update` and `mark` scan for the first task with the id, change its
  description (resp. status) and `updatedAt` in place, save and stop; if no
  task has the id they report "not found" and do not save;
- `delete` keeps every task whose id differs and always saves;
- `list` shows all tasks, or those with one status, and never saves.

The model has three modules:

- `Tasks` (`tasks.dfy`): the record, the three statuses, and the pure list
  operations with their properties. `Added` is the list after `add`.
  `FirstMatch`/`EditFirst` are the search and the in-place edit behind
  `update`/`mark`. `Filter` is the order-preserving comprehension behind
  `delete` (`Deleted`) and `list` (`Listed`).
- `TaskStore` (`task_store.dfy`): the class `TaskFile`. It models the file:
  whether it exists, the records it holds, and a count of full rewrites.
  Its methods are the commands. `update`/`mark` share one in-place loop
  (`EditFirstMatch`), whose contract ties the new file contents to `EditFirst`.
- `Scenarios` (`scenarios.dfy`): command sequences on a fresh file. Each one
  proves a concrete outcome from the commands' contracts alone.

The id rule is modelled as written: ids come from the count, not from the
ids present, so after a `delete` an `add` can hand out an id that a
remaining task still carries (`Tasks.DeleteThenAddDuplicatesId`,
`Scenarios.AddAddDeleteAdd`). Only deleting the last task of a list built
by `add` alone lets its id be reused without a collision
(`Tasks.DeleteLastThenAddReusesId`). Nothing in the code (Task.py:26) keeps
ids unique.

`add` reads the clock twice (Task.py:31-32), so the `createdAt` and
`updatedAt` of a new task may differ; `Add` takes two independent timestamps.

## Model

| member | source | states |
|---|---|---|
| `Tasks.Added` | Task.py:25-34 | the list after add is one longer, the old tasks are an unchanged prefix, and the new last task has id count + 1, the given description, status todo and the two given timestamps |
| `Tasks.AddedCollidesIff` | Task.py:26 | on a list with unique ids, add keeps them unique exactly when no task already carries id count + 1; the id ignores the ids present |
| `Tasks.AddKeepsIdsArePositions` | Task.py:24-35 | a list built by add alone has task k at id k + 1, keeps that shape under add, and so has unique ids |
| `Tasks.DeleteFromPositions` | Task.py:52-53 | on a list built by add alone, deleting id j removes exactly position j - 1 |
| `Tasks.DeleteThenAddDuplicatesId` | Task.py:25-55 | on a list built by add alone, deleting any task but the last and then adding gives the new task the id of the last task, which is still in the list, so ids are no longer unique |
| `Tasks.DeleteLastThenAddReusesId` | Task.py:25-55 | deleting the last task of a list built by add alone and adding again reuses its id and keeps ids unique |
| `Tasks.Apply` | Task.py:42-44 | the edited task keeps its id and createdAt and gets the new updatedAt; update changes only the description, mark only the status, to any of the three values from any other |
| `Tasks.FirstMatch` | Task.py:41-42 | returns the position of the first task with the id (every earlier task has another id), or None exactly when no task has the id |
| `Tasks.EditFirst` | Task.py:40-48 | None exactly when no task has the id; otherwise the list has the same length and order, the first matching task is edited and every other position is unchanged |
| `Tasks.EditFirstOnEmpty` | Task.py:13-14 | on the empty list (no file) an update or mark never finds its task |
| `Tasks.Filter` | Task.py:53 | the result is no longer than the input and holds exactly the input tasks the criterion keeps |
| `Tasks.FilterIsSubsequence` | Task.py:53 | the filtered list is an order-preserving subsequence of the input |
| `Tasks.FilterCounts` | Task.py:53 | each kept task occurs as often as in the input, each dropped task not at all |
| `Tasks.FilterIdempotent` | Task.py:53 | filtering twice by the same criterion equals filtering once |
| `Tasks.Deleted` | Task.py:52-53 | after delete the list is no longer than before and holds exactly the tasks whose id differs from the target |
| `Tasks.DeletedIsExact` | Task.py:53 | the list after delete keeps the original order and multiplicity of every surviving task |
| `Tasks.DeleteIdempotent` | Task.py:51-55 | deleting an id twice equals deleting it once |
| `Tasks.DeleteAbsentIsNoOp` | Task.py:53 | deleting an id no task has leaves the list unchanged |
| `Tasks.Listed` | Task.py:70-73 | with no status the listing is the whole list; with a status it holds exactly the tasks with that status |
| `Tasks.ListedIsExact` | Task.py:72-73 | the listing is an order-preserving subsequence of the file with every shown task as often as in the file |
| `TaskStore.TaskFile.Missing` | Task.py:13-14 | the first-run state: no file, nothing written |
| `TaskStore.TaskFile.Holding` | Task.py:15-16 | a file that already holds a given list |
| `TaskStore.TaskFile.Load` | Task.py:12-16 | a missing file loads as the empty list, an existing one as its records |
| `TaskStore.TaskFile.Save` | Task.py:19-21 | the file exists afterwards, holds exactly the given list (loading returns it) and one more full rewrite has happened |
| `TaskStore.TaskFile.Add` | Task.py:24-36 | returns id = previous count + 1 and leaves the file holding `Added` of the previous list, after one rewrite |
| `TaskStore.TaskFile.EditFirstMatch` | Task.py:40-48 | reports NotFound exactly when no task has the id, and then changes nothing (no write, file existence unchanged); otherwise the file holds `EditFirst` of the previous list, after one rewrite |
| `TaskStore.TaskFile.Update` | Task.py:39-48 | update: as `EditFirstMatch` with a new description |
| `TaskStore.TaskFile.Mark` | Task.py:58-67 | mark: as `EditFirstMatch` with a new status, any status accepted whatever the current one |
| `TaskStore.TaskFile.Delete` | Task.py:51-55 | the file holds `Deleted` of the previous list and is rewritten even when nothing was removed |
| `TaskStore.TaskFile.List` | Task.py:70-73 | returns the whole list, or exactly the tasks with the given status as an order-preserving subsequence, each as often as it occurs in the file; changes nothing |
| `Scenarios.AddAddDeleteAdd` | Task.py:24-55 | add, add, delete 1, add hands out ids 1, 2, 2 and leaves two tasks with id 2 in the file |
| `Scenarios.UpdateWithoutFile` | Task.py:39-48 | update with no file reports not found, writes nothing and creates no file; list then shows nothing |
| `Scenarios.MarkDoneThenList` | Task.py:58-73 | after add and mark-done, listing done shows exactly that task with its new status and timestamp, and listing todo shows nothing |
| `Scenarios.DeleteTwice` | Task.py:51-55 | add then deleting id 1 twice leaves an empty file, with each delete a rewrite |

## Left out

- JSON encoding and file I/O (Task.py:15-16, 20-21). The file is a list
  that is read and replaced, so a malformed file, a read or write error
  and the on-disk format are not modelled. Records are assumed to have the
  five fields with the types above. Python would accept any JSON.
- The clock (`datetime.now().isoformat()`). Timestamps are opaque strings
  passed in by the caller, and nothing orders them.
- Printed messages (Task.py:36, 46, 48, 55, 65, 67, 76, 80). Add returns
  the id, update/mark return `Edited`/`NotFound`, and list returns the list.
  The "No tasks found." message for an empty listing is not modelled.
- `main` and argument parsing (Task.py:83-131). The command line passes
  only `in-progress` or `done` to mark and only one of the three statuses
  to list. `TaskStore.TaskFile.Mark` accepts any status, because
  `mark_task` itself does not check it. The status is a closed datatype,
  so the truthiness test `if status:` (Task.py:72) becomes
  "a status was given".
- Concurrent invocations racing on the file: the code does nothing about
  them, and each command is modelled as running alone.
