/** The in-memory task collection: an ordered sequence of tasks that is appended
    to, read whole, and shrunk by identifier. Nothing here assumes identifiers are
    unique; several tasks may share one. */
module TaskStore {
  import opened Outcome
  import opened TaskRecord

  /** Some task in `s` carries identifier `id`. */
  predicate HasId(s: seq<Task>, id: int)
  {
    exists k :: 0 <= k < |s| && s[k].id == id
  }

  /** How many tasks in `s` carry identifier `id`. */
  function Count(s: seq<Task>, id: int): nat
  {
    if s == [] then 0
    else Count(s[..|s| - 1], id) + (if s[|s| - 1].id == id then 1 else 0)
  }

  /** `i` is the position of the first task of `s` whose identifier is `id`. */
  predicate IsFirstMatch(s: seq<Task>, id: int, i: nat)
  {
    i < |s| && s[i].id == id && forall k :: 0 <= k < i ==> s[k].id != id
  }

  /** The position a front-to-back scan for `id` stops at, if any. */
  function FirstIndex(s: seq<Task>, id: int): (r: Option<nat>)
    ensures r.None? <==> !HasId(s, id)
    ensures r.Some? ==> IsFirstMatch(s, id, r.value)
  {
    if s == [] then None
    else if s[0].id == id then Some(0)
    else match FirstIndex(s[1..], id)
      case None =>
        assert forall k :: 0 < k < |s| ==> s[k] == s[1..][k - 1];
        None
      case Some(j) =>
        assert forall k :: 0 < k <= j ==> s[k] == s[1..][k - 1];
        Some(j + 1)
  }

  /** The sequence left after removing the first task whose identifier is `id`;
      unchanged when there is none. */
  function RemoveFirst(s: seq<Task>, id: int): (r: seq<Task>)
    ensures |r| == if HasId(s, id) then |s| - 1 else |s|
    ensures !HasId(s, id) ==> r == s
  {
    match FirstIndex(s, id)
    case None => s
    case Some(i) => s[..i] + s[i + 1..]
  }

  lemma {:induction false} CountAppend(a: seq<Task>, b: seq<Task>, id: int)
    ensures Count(a + b, id) == Count(a, id) + Count(b, id)
  {
    if b != [] {
      var b' := b[..|b| - 1];
      assert (a + b)[..|a + b| - 1] == a + b';
      CountAppend(a, b', id);
    } else {
      assert a + b == a;
    }
  }

  /** The count over a sequence cut around one task. */
  lemma CountSplit(before: seq<Task>, x: Task, after: seq<Task>, id: int)
    ensures Count(before + [x] + after, id)
         == Count(before, id) + (if x.id == id then 1 else 0) + Count(after, id)
  {
    CountAppend(before + [x], after, id);
    CountAppend(before, [x], id);
    assert [x][..0] == [];
  }

  /** A task with `id` is present exactly when at least one is counted. */
  lemma {:induction false} HasIdCount(s: seq<Task>, id: int)
    ensures HasId(s, id) <==> Count(s, id) > 0
  {
    if s != [] {
      var s' := s[..|s| - 1];
      HasIdCount(s', id);
      if HasId(s', id) {
        var k :| 0 <= k < |s'| && s'[k].id == id;
        assert s[k].id == id;
      }
      if HasId(s, id) && s[|s| - 1].id != id {
        var k :| 0 <= k < |s| && s[k].id == id;
        assert s'[k].id == id;
      }
    }
  }

  /** Removing the first match is cutting out exactly the first matching position:
      the tasks before and after it keep their relative order. */
  lemma RemoveFirstAt(s: seq<Task>, id: int, i: nat)
    requires IsFirstMatch(s, id, i)
    ensures RemoveFirst(s, id) == s[..i] + s[i + 1..]
  {
    var j := FirstIndex(s, id).value;
    assert !(j < i) && !(i < j);
  }

  /** Only one task goes: the count of the removed identifier drops by one and the
      count of every other identifier is kept. */
  lemma RemoveFirstCount(s: seq<Task>, id: int, other: int)
    ensures Count(RemoveFirst(s, id), other)
         == Count(s, other) - (if other == id && HasId(s, id) then 1 else 0)
  {
    if HasId(s, id) {
      var i := FirstIndex(s, id).value;
      assert s == s[..i] + [s[i]] + s[i + 1..];
      CountSplit(s[..i], s[i], s[i + 1..], other);
      CountAppend(s[..i], s[i + 1..], other);
    }
  }

  /** The task collection; Go guards it with a reader/writer mutex, which a
      sequential model does not need. */
  class Tasks {
    var tasks: seq<Task>

    /** The zero value `&Tasks{}`: an empty collection. */
    constructor ()
      ensures tasks == []
    {
      tasks := [];
    }

    method Append(task: Task)
      modifies this
      ensures tasks == old(tasks) + [task]
    {
      tasks := tasks + [task];
    }

    /** The current contents, in order. */
    function GetAll(): (all: seq<Task>)
      reads this
      ensures all == tasks
    {
      tasks
    }

    /** Removes the first task whose identifier is `id`, or reports that there is none
        and changes nothing. */
    method Delete(id: int) returns (err: Option<Error>)
      modifies this
      ensures err == if HasId(old(tasks), id) then None else Some(Error("task not found"))
      ensures tasks == RemoveFirst(old(tasks), id)
    {
      var i := 0;
      while i < |tasks|
        invariant i <= |tasks|
        invariant tasks == old(tasks)
        invariant forall k :: 0 <= k < i ==> tasks[k].id != id
      {
        if tasks[i].id == id {
          RemoveFirstAt(tasks, id, i);
          tasks := tasks[..i] + tasks[i + 1..];
          return None;
        }
        i := i + 1;
      }
      return Some(Error("task not found"));
    }
  }
}
