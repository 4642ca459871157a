/** The task record of the time tracker and the operations that rewrite one task
    through a pointer (UpdateTask, CompleteTask) or read it (TimeOfCreation). */
module TaskRecord {

  /** An instant as returned by `time.Now()`; the clock itself is a parameter. */
  type Time = int

  /** Go's `time.Duration`: a signed 64-bit count of nanoseconds. */
  newtype Duration = x: int | -0x8000_0000_0000_0000 <= x < 0x8000_0000_0000_0000

  /** The per-task stopwatch. Its state and goroutines are not part of this model:
      a task only holds a reference to one, which `NewTimer` allocates. */
  class Timer {
    constructor ()
    {
    }
  }

  /** One task. `timer` is a Go `*Timer`, so it may be nil. */
  datatype Task = Task(
    id: int,
    title: string,
    content: string,
    createdAt: Time,
    elapsedTime: Duration,
    isComplete: bool,
    running: bool,
    timer: Timer?)

  /** The composite literal CreateTask builds: every field not named in it keeps
      Go's zero value. */
  function NewTask(id: int, title: string, content: string, now: Time, timer: Timer?): (t: Task)
    ensures t.id == id && t.title == title && t.content == content && t.createdAt == now
    ensures t.elapsedTime == 0 && !t.isComplete && !t.running && t.timer == timer
  {
    Task(id, title, content, now, 0, false, false, timer)
  }

  /** A variable holding a task: the target of the `*Task` that UpdateTask and
      CompleteTask write through. */
  class TaskCell {
    var value: Task

    constructor (task: Task)
      ensures value == task
    {
      value := task;
    }
  }

  /** Plain getter for the creation time. */
  function TimeOfCreation(task: Task): (t: Time)
    ensures t == task.createdAt
  {
    task.createdAt
  }

  /** The task after an edit: new title and content, creation time refreshed to
      `now`, every other field (identity, elapsed time, flags, timer) kept. */
  function Edited(task: Task, title: string, content: string, now: Time): (r: Task)
    ensures r.title == title && r.content == content && r.createdAt == now
    ensures r.(title := task.title, content := task.content, createdAt := task.createdAt) == task
  {
    task.(title := title, content := content, createdAt := now)
  }

  /** The task after it is marked complete: only the completion flag differs. */
  function Completed(task: Task): (r: Task)
    ensures r.isComplete
    ensures r.(isComplete := task.isComplete) == task
  {
    task.(isComplete := true)
  }

  method UpdateTask(task: TaskCell, title: string, content: string, now: Time)
    modifies task
    ensures task.value == Edited(old(task.value), title, content, now)
  {
    task.value := task.value.(title := title, content := content, createdAt := now);
  }

  method CompleteTask(task: TaskCell)
    modifies task
    ensures task.value == Completed(old(task.value))
  {
    task.value := task.value.(isComplete := true);
  }

  /** Completing a task twice is the same as completing it once. */
  lemma CompleteIdempotent(task: Task)
    ensures Completed(Completed(task)) == Completed(task)
  {
  }

  /** A later edit overrides an earlier one entirely. */
  lemma EditOverridesEdit(task: Task, t1: string, c1: string, n1: Time, t2: string, c2: string, n2: Time)
    ensures Edited(Edited(task, t1, c1, n1), t2, c2, n2) == Edited(task, t2, c2, n2)
  {
  }

  /** Editing and completing touch disjoint fields, so their order does not matter. */
  lemma EditCompleteCommute(task: Task, title: string, content: string, now: Time)
    ensures Completed(Edited(task, title, content, now)) == Edited(Completed(task), title, content, now)
  {
  }

  /** An update is what moves the time of creation: it reads back as the update's
      clock, while completing leaves it alone. */
  lemma TimeOfCreationAfterChanges(task: Task, title: string, content: string, now: Time)
    ensures TimeOfCreation(Edited(task, title, content, now)) == now
    ensures TimeOfCreation(Completed(task)) == TimeOfCreation(task)
  {
  }
}
