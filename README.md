# TimeTrackerTool task backend — Dafny model

A model of the in-memory task collection of the TimeTrackerTool backend
(`Backend/main.go`): the `Tasks` store (an ordered sequence of `Task` records
with `Append`, `GetAll` and `Delete`) and the task operations built on it
(`CreateTask`, `DeleteTask`, `UpdateTask`, `CompleteTask`, `TimeOfCreation`).

Layout:

- `outcome.dfy` (module `Outcome`): Go's nil-or-error results (`Option`, `Error`).
- `task.dfy` (module `TaskRecord`): the `Task` value, the opaque `Timer`, and `TaskCell`,
  the variable a `*Task` points at. `UpdateTask` and `CompleteTask` write through it.
  Their effects are specified by the pure functions `Edited` and `Completed`.
- `store.dfy` (module `TaskStore`): the class `Tasks`, whose `tasks: seq<Task>` field
  its methods reassign. `Delete` is the same range-loop-and-early-return search as
  the source. It is proved against `RemoveFirst`, which cuts out the first match.
- `operations.dfy` (module `TaskOperations`): `CreateTask`, which numbers the new task
  `len + 1`, and `DeleteTask`, which builds a fresh store with a loop of `Append` calls.
  `DeleteTask` is proved against the filter `Without`.

No invariant says that identifiers are unique, because the code does not keep one.
`CreateTask` numbers a task `len + 1`, so a delete followed by a create can reuse an
identifier (`IdReusedAfterDelete`). `DeleteTask` signals an absent identifier by returning
an empty store with the error "the task does not exist". It detects this by comparing
lengths, and `WithoutSameLength` shows that the test means no task has that identifier.

The in-place `Delete` removes the first match only, while the filter behind `DeleteTask`
removes every match. `RemoveFirstIsWithoutIffUnique` shows that the two removals give the
same sequence exactly when at most one task carries the identifier. The stores the two
methods leave behind can still differ, because `DeleteTask` returns an empty store for an
absent identifier. `DeleteAndDeleteTaskAgreeIff` shows that they are equal exactly when one
task carries the identifier or the store is empty.

`time.Now()` is the parameter `now`. `time.Time` is an integer instant. `time.Duration`
is a signed 64-bit newtype.

## Model

| member | source | states |
|---|---|---|
| TaskRecord.NewTask | Backend/main.go:71-79 | the record CreateTask builds carries the given id, title, content, creation time and timer, zero elapsed time, and is neither complete nor running |
| TaskRecord.TimeOfCreation | Backend/main.go:113-115 | the getter returns the task's creation time |
| TaskRecord.Edited | Backend/main.go:94-98 | an edit sets title, content and creation time to the given values and leaves id, elapsed time, completion, running flag and timer as they were |
| TaskRecord.UpdateTask | Backend/main.go:94-98 | writing through the task pointer replaces the pointed-to task by its edited form |
| TaskRecord.Completed | Backend/main.go:117-119 | completion sets the completion flag and changes no other field |
| TaskRecord.CompleteTask | Backend/main.go:117-119 | writing through the task pointer replaces the pointed-to task by its completed form |
| TaskRecord.CompleteIdempotent | Backend/main.go:117-119 | completing twice equals completing once |
| TaskRecord.EditOverridesEdit | Backend/main.go:94-98 | a second update fully overrides the first |
| TaskRecord.EditCompleteCommute | Backend/main.go:94-98 | update and complete commute, since they touch disjoint fields |
| TaskRecord.TimeOfCreationAfterChanges | Backend/main.go:113-115 | after an update the creation time reads back as the update's clock; completing leaves it unchanged |
| TaskStore.FirstIndex | Backend/main.go:44-45 | the scan finds no index iff no task has the id, and otherwise finds the first position holding it |
| TaskStore.RemoveFirst | Backend/main.go:41-50 | removing the first match shortens the sequence by one iff the id is present, and leaves it identical when absent |
| TaskStore.RemoveFirstAt | Backend/main.go:44-47 | when i is the first position with the id, the result is s[..i] + s[i+1..], so every other record keeps its relative order |
| TaskStore.RemoveFirstCount | Backend/main.go:44-47 | only one record goes: the count of the deleted id drops by exactly one and the count of every other id is kept |
| TaskStore.HasIdCount | Backend/main.go:44-45 | an id is present iff at least one task carries it |
| TaskStore.Tasks.constructor | Backend/main.go:24-27 | the zero-value store is empty |
| TaskStore.Tasks.Append | Backend/main.go:29-33 | the new sequence is the old one with the task added last, so it grows by one and earlier elements are unchanged |
| TaskStore.Tasks.GetAll | Backend/main.go:35-39 | returns the current sequence, reading the store without changing it |
| TaskStore.Tasks.Delete | Backend/main.go:41-51 | present id: no error, and the store becomes RemoveFirst of the old one; absent id: the "task not found" error and an identical store |
| TaskOperations.Created | Backend/main.go:70-81 | one creation keeps the old sequence as a prefix and appends a task numbered previous length + 1 |
| TaskOperations.CreateTask | Backend/main.go:70-81 | the store grows by one task numbered previous length + 1 with the given title, content and clock, a freshly allocated timer, not complete and not running |
| TaskOperations.CreateAllSpec | Backend/main.go:72 | sequential creations keep the existing tasks and append one task per request, the j-th numbered previous length + j + 1 with that request's fields |
| TaskOperations.SequentialIds | Backend/main.go:72 | from an empty store, N sequential creations yield identifiers 1..N in order |
| TaskOperations.Without | Backend/main.go:102-106 | the filter never grows the sequence and keeps no task carrying the id |
| TaskOperations.WithoutAppend | Backend/main.go:102-106 | the filter distributes over concatenation, so survivors keep their original order |
| TaskOperations.WithoutMembers | Backend/main.go:103-104 | a task survives iff it was in the store and its id differs |
| TaskOperations.WithoutLength | Backend/main.go:102-106 | every match is removed: the filter is shorter by the number of tasks carrying the id |
| TaskOperations.WithoutAbsent | Backend/main.go:102-106 | filtering an id no task carries returns the sequence unchanged |
| TaskOperations.WithoutSameLength | Backend/main.go:107 | the length comparison DeleteTask makes holds iff the id is absent |
| TaskOperations.DeleteTask | Backend/main.go:100-111 | present id: a fresh store holding exactly the tasks with other ids in original order, and no error; absent id: a fresh empty store and the "the task does not exist" error; the input store is not changed |
| TaskOperations.WithoutUniqueMatch | Backend/main.go:102-106 | when exactly one task carries the id, the filter cuts out just that position |
| TaskOperations.RemoveFirstIsWithoutIffUnique | Backend/main.go:44-47 | removing the first match (Delete's cut) and filtering out every match (DeleteTask's loop) give the same sequence iff at most one task carries the id |
| TaskOperations.DeleteAndDeleteTaskAgreeIff | Backend/main.go:100-111 | the store left by Delete and the store returned by DeleteTask are equal iff exactly one task carries the id or the store is empty; for an absent id in a non-empty store they differ |
| TaskOperations.IdReusedAfterDelete | Backend/main.go:72 | create two tasks, delete id 1, create again: the new task is numbered 2 beside the surviving task 2, so identifiers are not unique |
| TaskOperations.DeleteFirstOfTwo | Backend/main.go:41-50 | after creating two tasks, deleting id 1 either way leaves the second task as the sole entry |

## Left out

- The `sync.RWMutex` locking of `Tasks`, including the unlocked read of `len(tasks.tasks)` in
  `CreateTask`: the store is modelled sequentially, one operation at a time.
- The aliasing of the slice returned by `GetAll`: the model returns a value.
- `UpdateTask`, `CompleteTask`: the `*Task` is modelled as a `TaskCell` of its own. When a
  caller takes the pointer into the store's backing array, updating it changes the store;
  that aliasing is not captured.
- `Backend/Timer.go` as a whole (ticker goroutine, channels, `Start`/`Pause`/`Resume`/`Cancel`,
  `StartTimer`, `StopTimer`, `GetElapsedTime`): it is concurrency and wall-clock code.
  `Timer` is an opaque class, and `NewTimer` only allocates one.
- `ListTasks`: it is a goroutine feeding an unbuffered channel. What it yields is `GetAll` in order.
- `GetTime`: it is `time.Duration` string formatting from the Go standard library.
- `SaveTask`, `LoadTask`, `SetDataFile`: these are file I/O, JSON encoding and home-directory lookup.
- `frontend/main.go`: it is the Fyne user interface, which calls the backend.
- `CreateTask`: the identifier `len + 1` is an unbounded integer. Go's `int` is 64 bits wide,
  but a slice cannot reach that length, so the bound is not modelled.
- `time.Time` is an integer instant, so its wall/monotonic clock structure and location are not modelled.
