# Task store model

A Dafny model of the in-memory task store behind a small task-tracking HTTP
service. The store is an ordered sequence of task records. Four routes act on it:

- **list** returns the whole sequence;
- **create** appends a task whose id, when the body leaves it out, defaults to the store size plus one;
- **update** overwrites title, description and completion of the first task carrying the path id;
- **delete** removes the first task carrying the path id.

Update and delete answer "Task not found" when no task carries the id.

Modules:

- `Wrappers` (`wrappers.dfy`): `Option` and `Result`.
- `TaskStore` (`task_store.dfy`): the `Task` record, request bodies, first-match lookup and the four operations as pure functions from the old store to the new store and response body.
- `TaskScan` (`task_scan.dfy`): update and delete as forward-scan loops, the way the handlers run. Each is proved equal to its functional definition.
- `TaskProperties` (`task_properties.dfy`): lemmas that relate several operations. They cover the default-id numbering, id uniqueness, repeated deletes and repeated updates.
- `TaskService` (`task_service.dfy`): one request handler over the four routes, with 200/201/404 as response variants. It also runs request sequences and includes two concrete scenarios.

A task's id is `Option<int>` because the record declares it optional. A null id never equals a path id, so it is never matched. A create body's id is `Omitted` (the default applies) or `Given`, possibly as null.

## Model

| member | source | states |
|---|---|---|
| TaskStore.BuildTask | main.py:14-18 | an omitted id becomes the store size plus one; a given id (even null) is kept; title, description and completion come from the body |
| TaskStore.FindFirst | main.py:35-36 | the result is the position of a task carrying the id with no earlier such task; the result is none exactly when no task carries the id |
| TaskStore.List | main.py:24-26 | the response is the whole store in its current order, and the store is not changed |
| TaskStore.Create | main.py:28-31 | the store grows by exactly one; every earlier task is unchanged; the new last task is the echoed one, with the default or given id and the body's other fields |
| TaskStore.Update | main.py:33-44 | fails with "Task not found" exactly when no task carries the id; otherwise the length is kept, only the first match changes, its id is kept and its other fields are the body's |
| TaskStore.RemoveFirst | main.py:50 | for a value that occurs, the result is the sequence with the first element equal to it taken out and the order of the rest kept; the length drops by one |
| TaskStore.RemoveFirstMultiset | main.py:50 | removing by value takes away exactly one occurrence and keeps every other element |
| TaskStore.RemoveFirstMatchIsRemoveAt | main.py:48-50 | removing by value the first task carrying the id removes exactly that position, because no earlier task can equal it |
| TaskStore.Delete | main.py:46-55 | fails with "Task not found" exactly when no task carries the id; otherwise it confirms deletion, the length drops by one, and the tasks before and after the first match keep their relative order |
| TaskScan.UpdateScan | main.py:35-44 | the forward scan that stops at the first match returns exactly what the functional update returns, including the not-found case |
| TaskScan.DeleteScan | main.py:48-55 | the forward scan that removes the matched task by value returns exactly what the functional delete returns, including the not-found case |
| TaskProperties.CreateAll | main.py:29-30 | a run of creates grows the store by the number of bodies and keeps the original tasks as a prefix |
| TaskProperties.DefaultIdsArePositions | main.py:15 | if every task's id is its 1-based position, default-id creates keep it that way |
| TaskProperties.FreshStoreDefaultIds | main.py:15 | from the empty store, default-id creates with no deletes give the i-th task id i, so ids are unique |
| TaskProperties.CreateUniqueIff | main.py:29-31 | create keeps ids unique exactly when they were unique and the new id is null or not already held; create does no uniqueness check |
| TaskProperties.DefaultIdCollides | main.py:15 | in a store with unique ids, a default-id create makes a duplicate exactly when some task already holds the store size plus one |
| TaskProperties.UpdateKeepsIds | main.py:37-39 | update keeps every task's id at its position, so it keeps unique ids unique |
| TaskProperties.DeleteKeepsUnique | main.py:48-51 | delete keeps unique ids unique |
| TaskProperties.DeleteRemovesOneTask | main.py:48-51 | the store after delete is the old store minus one copy of the first matching task |
| TaskProperties.DeleteDecrementsCount | main.py:48-51 | delete lowers the number of tasks carrying the id by exactly one |
| TaskProperties.CountZeroIffAbsent | main.py:48-49 | no task carries the id exactly when the count of tasks carrying it is zero |
| TaskProperties.DeleteTwice | main.py:46-55 | a second delete of the same id fails exactly when exactly one task carried that id before the first delete |
| TaskProperties.SameIdsSameFirstMatch | main.py:35-36 | stores whose ids agree at every position have the same first match |
| TaskProperties.UpdateIdempotent | main.py:35-40 | applying the same update again leaves the store as the first application left it and answers with the same task |
| TaskService.Handle | main.py:24-55 | 404 exactly for update or delete of an absent id, with the store unchanged; list returns the store unchanged; create answers 201 with the created task appended and echoed; a found update answers with the updated task and the store `Update` gives; a found delete answers the confirmation message with the store `Delete` gives |
| TaskService.Run | main.py:12 | a run answers every request, and the first answer is the one the first request gets from the store the run starts with |
| TaskService.ListRunKeepsStore | main.py:24-26 | a run of list requests leaves the shared store unchanged and answers each with the whole store |
| TaskService.RunConcat | main.py:12 | two runs in a row equal one run of both batches: the second batch starts from the store the first one left |
| TaskService.RunOne | main.py:12 | a run of one request answers and leaves the store exactly as handling that request on the starting store does |
| TaskService.RunSnoc | main.py:12 | a request appended to a run is handled against the store the earlier requests left, and its answer follows theirs |
| TaskService.CreateThenList | main.py:24-31 | creating "A" in the empty store answers with id 1, and a following list returns that single task with no description, not completed |
| TaskService.DuplicateIdAfterDelete | main.py:15-51 | create, create, delete id 1, then create with the default id leaves two tasks that both carry id 2 |

## Left out

- HTTP routing, decorators and numeric status codes (main.py:1-7, 20-28, 33, 46). The 200/201/404 outcomes appear only as `Response` variants.
- Serving the static index page and mounting the static directory (main.py:10, 20-22). This is file-system I/O.
- Request-body validation and JSON serialisation. The model takes bodies that are already validated. The defaults for description and completion are applied by `NewPayload`.
- The id the default factory computes for an update body (main.py:34). Update never reads it, so `Update` ignores the body's id.
- Concurrency. The handlers share one list without locking, and interleavings are not part of any contract.
- Object aliasing: update mutates the stored object in place (main.py:37-39). The model replaces the element at the matched position in a value sequence, which is what any later list observes.
- TaskStore.RemoveFirst: the `ValueError` that a list's `remove` raises for an absent value is not modelled. The value must occur, and every caller passes an element of the store.
- TaskStore.List: its contract is only that the store is returned and kept as it is. That is all `get_tasks` does.
