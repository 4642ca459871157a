/** The task operations built on the store: creation with an identifier taken from
    the current length, and deletion by filtering into a fresh store. */
module TaskOperations {
  import opened Outcome
  import opened TaskRecord
  import opened TaskStore

  /** The inputs of one CreateTask call, with the clock reading and the timer it
      allocates made explicit. */
  datatype Request = Request(title: string, content: string, now: Time, timer: Timer?)

  /** The collection after one CreateTask: a new last task numbered one past the
      current length, everything before it untouched. */
  function Created(s: seq<Task>, req: Request): (r: seq<Task>)
    ensures |r| == |s| + 1 && r[..|s|] == s
    ensures r[|s|].id == |s| + 1
  {
    s + [NewTask(|s| + 1, req.title, req.content, req.now, req.timer)]
  }

  /** The collection after one CreateTask per request, in order. */
  function CreateAll(s: seq<Task>, reqs: seq<Request>): seq<Task>
    decreases |reqs|
  {
    if reqs == [] then s else CreateAll(Created(s, reqs[0]), reqs[1..])
  }

  method CreateTask(tasks: Tasks, title: string, content: string, now: Time)
    modifies tasks
    ensures |tasks.tasks| == |old(tasks.tasks)| + 1
    ensures var timer := tasks.tasks[|old(tasks.tasks)|].timer;
      timer != null && fresh(timer) &&
      tasks.tasks == Created(old(tasks.tasks), Request(title, content, now, timer))
  {
    var timer := new Timer();
    var task := NewTask(|tasks.tasks| + 1, title, content, now, timer);
    tasks.Append(task);
  }

  /** Sequential creation keeps what was there and appends one task per request,
      the j-th numbered |s| + j + 1 and carrying that request's fields. */
  lemma {:induction false} CreateAllSpec(s: seq<Task>, reqs: seq<Request>)
    ensures var r := CreateAll(s, reqs);
      |r| == |s| + |reqs| && r[..|s|] == s &&
      forall j :: 0 <= j < |reqs| ==>
        r[|s| + j] == NewTask(|s| + j + 1, reqs[j].title, reqs[j].content, reqs[j].now, reqs[j].timer)
    decreases |reqs|
  {
    if reqs != [] {
      var s1 := Created(s, reqs[0]);
      CreateAllSpec(s1, reqs[1..]);
      var r := CreateAll(s, reqs);
      assert r == CreateAll(s1, reqs[1..]);
      assert r[..|s|] == s1[..|s1|][..|s|];
      forall j | 0 <= j < |reqs|
        ensures r[|s| + j] == NewTask(|s| + j + 1, reqs[j].title, reqs[j].content, reqs[j].now, reqs[j].timer)
      {
        if j == 0 {
          assert r[|s|] == r[..|s1|][|s|];
        } else {
          assert reqs[1..][j - 1] == reqs[j];
          assert r[|s1| + (j - 1)] == r[|s| + j];
        }
      }
    }
  }

  /** Starting from an empty store, N creations yield identifiers 1..N in order. */
  lemma SequentialIds(reqs: seq<Request>)
    ensures var r := CreateAll([], reqs);
      |r| == |reqs| && forall i :: 0 <= i < |r| ==> r[i].id == i + 1
  {
    CreateAllSpec([], reqs);
    var r := CreateAll([], reqs);
    forall i | 0 <= i < |r| ensures r[i].id == i + 1 {
      var e: seq<Task> := [];
      assert r[|e| + i] == NewTask(|e| + i + 1, reqs[i].title, reqs[i].content, reqs[i].now, reqs[i].timer);
    }
  }

  /** `s` with every task whose identifier is `id` dropped, the rest in order. */
  function Without(s: seq<Task>, id: int): (r: seq<Task>)
    ensures |r| <= |s|
    ensures forall k :: 0 <= k < |r| ==> r[k].id != id
  {
    if s == [] then []
    else Without(s[..|s| - 1], id) + (if s[|s| - 1].id == id then [] else [s[|s| - 1]])
  }

  /** Filtering distributes over concatenation, so it keeps relative order. */
  lemma {:induction false} WithoutAppend(a: seq<Task>, b: seq<Task>, id: int)
    ensures Without(a + b, id) == Without(a, id) + Without(b, id)
  {
    if b != [] {
      var b' := b[..|b| - 1];
      assert (a + b)[..|a + b| - 1] == a + b';
      WithoutAppend(a, b', id);
    } else {
      assert a + b == a;
    }
  }

  /** A task survives the filter exactly when it was there and has another identifier. */
  lemma {:induction false} WithoutMembers(s: seq<Task>, id: int, t: Task)
    ensures t in Without(s, id) <==> t in s && t.id != id
  {
    if s != [] {
      var s' := s[..|s| - 1];
      WithoutMembers(s', id, t);
      assert s == s' + [s[|s| - 1]];
    }
  }

  /** Every match goes: the filter is shorter by the number of tasks with `id`. */
  lemma {:induction false} WithoutLength(s: seq<Task>, id: int)
    ensures |Without(s, id)| == |s| - Count(s, id)
  {
    if s != [] {
      WithoutLength(s[..|s| - 1], id);
    }
  }

  /** A store without `id` passes through the filter unchanged. */
  lemma {:induction false} WithoutAbsent(s: seq<Task>, id: int)
    requires !HasId(s, id)
    ensures Without(s, id) == s
  {
    if s != [] {
      var s' := s[..|s| - 1];
      assert forall k :: 0 <= k < |s'| ==> s'[k] == s[k];
      WithoutAbsent(s', id);
    }
  }

  /** The length test DeleteTask makes is the same as asking whether `id` is absent. */
  lemma WithoutSameLength(s: seq<Task>, id: int)
    ensures |Without(s, id)| == |s| <==> !HasId(s, id)
  {
    WithoutLength(s, id);
    HasIdCount(s, id);
  }

  /** Builds a new store holding the tasks whose identifier is not `taskID`; if that
      removed nothing, returns an empty store with an error. The input is not changed. */
  method DeleteTask(tasks: Tasks, taskID: int) returns (result: Tasks, err: Option<Error>)
    ensures fresh(result)
    ensures err == if HasId(tasks.tasks, taskID) then None else Some(Error("the task does not exist"))
    ensures result.tasks == if HasId(tasks.tasks, taskID) then Without(tasks.tasks, taskID) else []
  {
    var newTasks := new Tasks();
    var all := tasks.GetAll();
    var k := 0;
    while k < |all|
      invariant k <= |all|
      invariant newTasks.tasks == Without(all[..k], taskID)
    {
      if all[k].id != taskID {
        newTasks.Append(all[k]);
      }
      assert all[..k + 1][..k] == all[..k];
      k := k + 1;
    }
    assert all[..k] == all;
    WithoutSameLength(all, taskID);
    if |newTasks.GetAll()| == |tasks.GetAll()| {
      result := new Tasks();
      err := Some(Error("the task does not exist"));
      return;
    }
    result := newTasks;
    err := None;
  }

  /** Filtering out the identifier of a single matching task cuts out just that task. */
  lemma WithoutSingle(before: seq<Task>, x: Task, after: seq<Task>, id: int)
    requires !HasId(before, id) && x.id == id && !HasId(after, id)
    ensures Without(before + [x] + after, id) == before + after
  {
    WithoutAbsent(before, id);
    WithoutAbsent(after, id);
    WithoutAppend(before + [x], after, id);
    WithoutAppend(before, [x], id);
    assert Without([x], id) == [] by { assert [x][..0] == []; }
  }

  /** When the first match is the only match, the filter cuts out just that position. */
  lemma WithoutUniqueMatch(s: seq<Task>, id: int, i: nat)
    requires IsFirstMatch(s, id, i) && Count(s, id) == 1
    ensures Without(s, id) == s[..i] + s[i + 1..]
  {
    var before, after := s[..i], s[i + 1..];
    assert s == before + [s[i]] + after;
    CountSplit(before, s[i], after, id);
    assert forall k :: 0 <= k < |before| ==> before[k] == s[k];
    HasIdCount(before, id);
    HasIdCount(after, id);
    WithoutSingle(before, s[i], after, id);
  }

  /** The first-match removal and the filter give the same sequence exactly when at most
      one task carries the identifier; with a duplicate, the first-match removal keeps the
      later copies. */
  lemma RemoveFirstIsWithoutIffUnique(s: seq<Task>, id: int)
    ensures RemoveFirst(s, id) == Without(s, id) <==> Count(s, id) <= 1
  {
    WithoutLength(s, id);
    HasIdCount(s, id);
    if !HasId(s, id) {
      WithoutAbsent(s, id);
    } else if Count(s, id) == 1 {
      var i := FirstIndex(s, id).value;
      WithoutUniqueMatch(s, id, i);
      RemoveFirstAt(s, id, i);
    }
  }

  /** What the two deletions leave behind: the store after the in-place Delete and the
      store DeleteTask returns are equal exactly when the identifier is carried by one
      task, or the store is empty. An absent identifier in a non-empty store makes them
      differ, since DeleteTask then returns an empty store. */
  lemma DeleteAndDeleteTaskAgreeIff(s: seq<Task>, id: int)
    ensures (if HasId(s, id) then Without(s, id) else []) == RemoveFirst(s, id)
        <==> Count(s, id) == 1 || s == []
  {
    RemoveFirstIsWithoutIffUnique(s, id);
    HasIdCount(s, id);
  }

  /** Identifiers are reused: after two creations and the deletion of task 1, the
      next creation numbers its task 2 again, beside the surviving task 2. */
  lemma IdReusedAfterDelete(a: Request, b: Request, c: Request)
    ensures var r := Created(RemoveFirst(CreateAll([], [a, b]), 1), c);
      |r| == 2 && r[0].id == 2 && r[1].id == 2
  {
    CreateAllSpec([], [a, b]);
    var s := CreateAll([], [a, b]);
    assert s[0 + 0].id == 1;
    RemoveFirstAt(s, 1, 0);
  }

  /** Deleting the first of two freshly created tasks leaves the second as the only one. */
  lemma DeleteFirstOfTwo(a: Request, b: Request)
    ensures var s := CreateAll([], [a, b]);
      |s| == 2 && RemoveFirst(s, 1) == [s[1]] && Without(s, 1) == [s[1]]
  {
    CreateAllSpec([], [a, b]);
    var s := CreateAll([], [a, b]);
    assert s[0 + 0].id == 1 && s[0 + 1].id == 2;
    RemoveFirstAt(s, 1, 0);
    assert Without(s, 1) == Without(s[..1], 1) + [s[1]];
    assert s[..1][..0] == [];
  }
}
