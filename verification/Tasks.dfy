/**
 The task ledger: task records with their status transitions, and the in-memory vector of the
 JSONL task store. Whether a save reaches the disk is an input; the vector has been changed by
 then either way.
 */
module Tasks {
  import opened Wrappers

  datatype TaskStatus = Pending | Running | Completed | Failed | Timeout

  datatype Task = Task(
    id: string,
    status: TaskStatus,
    createdAt: int,
    startedAt: Option<int>,
    endedAt: Option<int>,
    runId: Option<string>,
    error: Option<string>,
    dependsOn: seq<string>)
  {
    function MarkRunning(now: int): Task {
      this.(status := Running, startedAt := Some(now))
    }

    function MarkCompleted(now: int): Task {
      this.(status := Completed, endedAt := Some(now))
    }

    function MarkFailed(now: int, why: string): Task {
      this.(status := Failed, endedAt := Some(now), error := Some(why))
    }
  }

  datatype StoreResult = Stored | NotFound(id: string) | IoError

  function Ids(tasks: seq<Task>): set<string> {
    set t | t in tasks :: t.id
  }

  function CompletedIds(tasks: seq<Task>): set<string> {
    set t | t in tasks && t.status == Completed :: t.id
  }

  ghost predicate UniqueIds(tasks: seq<Task>) {
    forall i, j :: 0 <= i < j < |tasks| ==> tasks[i].id != tasks[j].id
  }

  ghost predicate SortedByCreation(tasks: seq<Task>) {
    forall i, j :: 0 <= i < j < |tasks| ==> tasks[i].createdAt <= tasks[j].createdAt
  }

  /** Insert after every task that is not younger, as a stable sort would. */
  function Insert(sorted: seq<Task>, t: Task): seq<Task> {
    if sorted == [] || t.createdAt < sorted[0].createdAt then [t] + sorted
    else [sorted[0]] + Insert(sorted[1..], t)
  }

  lemma {:induction false} InsertElements(sorted: seq<Task>, t: Task)
    ensures forall x :: x in Insert(sorted, t) <==> x == t || x in sorted
  {
    if sorted != [] && t.createdAt >= sorted[0].createdAt {
      InsertElements(sorted[1..], t);
      assert forall x :: x in sorted <==> x == sorted[0] || x in sorted[1..];
    }
  }

  lemma {:induction false} InsertSorts(sorted: seq<Task>, t: Task)
    requires SortedByCreation(sorted)
    ensures SortedByCreation(Insert(sorted, t))
  {
    if sorted != [] && t.createdAt >= sorted[0].createdAt {
      InsertSorts(sorted[1..], t);
      InsertElements(sorted[1..], t);
      forall x | x in Insert(sorted[1..], t) ensures sorted[0].createdAt <= x.createdAt {
      }
    }
  }

  lemma {:induction false} InsertKeepsUnique(sorted: seq<Task>, t: Task)
    requires UniqueIds(sorted) && t.id !in Ids(sorted)
    ensures UniqueIds(Insert(sorted, t))
  {
    if sorted != [] && t.createdAt >= sorted[0].createdAt {
      assert forall x :: x in sorted[1..] ==> x in sorted;
      InsertKeepsUnique(sorted[1..], t);
      InsertElements(sorted[1..], t);
      forall x | x in Insert(sorted[1..], t) ensures sorted[0].id != x.id {
      }
    } else {
      forall k | 0 <= k < |sorted| ensures sorted[k].id != t.id {
        assert sorted[k].id in Ids(sorted);
      }
    }
  }

  function PendingOf(tasks: seq<Task>): seq<Task> {
    if tasks == [] then []
    else
      var t := tasks[|tasks| - 1];
      PendingOf(tasks[..|tasks| - 1]) + if t.status == Pending then [t] else []
  }

  /** The pending tasks, oldest first; tasks of the same age in the order of the ledger. */
  function PendingInOrder(tasks: seq<Task>): seq<Task> {
    if tasks == [] then []
    else
      var t, before := tasks[|tasks| - 1], PendingInOrder(tasks[..|tasks| - 1]);
      if t.status == Pending then Insert(before, t) else before
  }

  /** The tasks created at that time, in order. */
  function CreatedAt(tasks: seq<Task>, time: int): seq<Task> {
    if tasks == [] then []
    else (if tasks[0].createdAt == time then [tasks[0]] else []) + CreatedAt(tasks[1..], time)
  }

  lemma {:induction false} CreatedAtPush(tasks: seq<Task>, t: Task, time: int)
    ensures CreatedAt(tasks + [t], time) == CreatedAt(tasks, time) + if t.createdAt == time then [t] else []
  {
    if tasks == [] {
      assert tasks + [t] == [t];
    } else {
      assert (tasks + [t])[1..] == tasks[1..] + [t];
      CreatedAtPush(tasks[1..], t, time);
    }
  }

  lemma {:induction false} NoneCreatedAt(tasks: seq<Task>, time: int)
    requires forall k :: 0 <= k < |tasks| ==> tasks[k].createdAt > time
    ensures CreatedAt(tasks, time) == []
  {
    if tasks != [] {
      NoneCreatedAt(tasks[1..], time);
    }
  }

  /** A task is inserted after all tasks of its age. */
  lemma {:induction false} InsertIsStable(sorted: seq<Task>, t: Task, time: int)
    requires SortedByCreation(sorted)
    ensures CreatedAt(Insert(sorted, t), time) == CreatedAt(sorted, time) + if t.createdAt == time then [t] else []
  {
    if sorted == [] || t.createdAt < sorted[0].createdAt {
      assert ([t] + sorted)[1..] == sorted;
      if t.createdAt == time {
        NoneCreatedAt(sorted, time);
      }
    } else {
      InsertIsStable(sorted[1..], t, time);
      assert ([sorted[0]] + Insert(sorted[1..], t))[1..] == Insert(sorted[1..], t);
    }
  }

  /** `sorted` is the stable sort of `tasks` by creation: ordered, and for every time the same tasks, as
      often and in the same order. */
  ghost predicate StablySorts(sorted: seq<Task>, tasks: seq<Task>) {
    SortedByCreation(sorted) && forall time :: CreatedAt(sorted, time) == CreatedAt(tasks, time)
  }

  lemma {:induction false} PendingIsSorted(tasks: seq<Task>)
    ensures StablySorts(PendingInOrder(tasks), PendingOf(tasks))
    ensures forall t :: t in PendingInOrder(tasks) <==> t in tasks && t.status == Pending
    ensures UniqueIds(tasks) ==> UniqueIds(PendingInOrder(tasks))
  {
    if tasks != [] {
      var init, t := tasks[..|tasks| - 1], tasks[|tasks| - 1];
      assert tasks == init + [t];
      PendingIsSorted(init);
      if t.status == Pending {
        PushPending(init, t);
      } else {
        assert PendingOf(init) + [] == PendingOf(init);
      }
    }
  }

  lemma PushPending(init: seq<Task>, t: Task)
    requires StablySorts(PendingInOrder(init), PendingOf(init))
    requires forall x :: x in PendingInOrder(init) <==> x in init && x.status == Pending
    ensures StablySorts(Insert(PendingInOrder(init), t), PendingOf(init) + [t])
    ensures forall x :: x in Insert(PendingInOrder(init), t) <==> x == t || (x in init && x.status == Pending)
    ensures UniqueIds(init + [t]) && UniqueIds(PendingInOrder(init)) ==> UniqueIds(Insert(PendingInOrder(init), t))
  {
    var before := PendingInOrder(init);
    InsertSorts(before, t);
    InsertElements(before, t);
    forall time ensures CreatedAt(Insert(before, t), time) == CreatedAt(PendingOf(init) + [t], time) {
      InsertIsStable(before, t, time);
      CreatedAtPush(PendingOf(init), t, time);
    }
    if UniqueIds(init + [t]) && UniqueIds(before) {
      forall x | x in init ensures x.id != t.id {
        var k :| 0 <= k < |init| && init[k] == x;
        assert (init + [t])[k] == x && (init + [t])[|init|] == t;
      }
      InsertKeepsUnique(before, t);
    }
  }

  class JsonlTaskStore {
    var tasks: seq<Task>

    constructor (loaded: seq<Task>)
      ensures tasks == loaded
    {
      tasks := loaded;
    }

    /** Append a record. Ids are generated, so the store does not look for an existing one. */
    method Create(task: Task, saved: bool) returns (r: StoreResult)
      modifies this
      ensures tasks == old(tasks) + [task]
      ensures r == if saved then Stored else IoError
    {
      tasks := tasks + [task];
      r := if saved then Stored else IoError;
    }

    /** Overwrite the first record with the task's id; every other record stays. */
    method Update(task: Task, saved: bool) returns (r: StoreResult)
      modifies this
      ensures |tasks| == |old(tasks)|
      ensures r == if task.id !in Ids(old(tasks)) then NotFound(task.id) else if saved then Stored else IoError
      ensures task.id !in Ids(old(tasks)) ==> tasks == old(tasks)
      ensures task.id in Ids(old(tasks)) ==>
                exists p :: && 0 <= p < |tasks| && old(tasks)[p].id == task.id
                            && (forall k :: 0 <= k < p ==> old(tasks)[k].id != task.id)
                            && tasks == old(tasks)[p := task]
    {
      var p := 0;
      while p < |tasks| && tasks[p].id != task.id
        invariant 0 <= p <= |tasks| && tasks == old(tasks)
        invariant forall k :: 0 <= k < p ==> tasks[k].id != task.id
      {
        p := p + 1;
      }
      if p == |tasks| {
        return NotFound(task.id);
      }
      assert tasks[p].id in Ids(tasks);
      tasks := tasks[p := task];
      r := if saved then Stored else IoError;
    }

    /** The pending tasks, oldest first: a stable sort, with every record as often as it is there. */
    method ListPending() returns (pending: seq<Task>)
      ensures pending == PendingInOrder(tasks) && StablySorts(pending, PendingOf(tasks))
      ensures forall t :: t in pending <==> t in tasks && t.status == Pending
      ensures UniqueIds(tasks) ==> UniqueIds(pending)
    {
      pending := [];
      assert tasks[..0] == [];
      for i := 0 to |tasks|
        invariant pending == PendingInOrder(tasks[..i])
      {
        assert tasks[..i + 1][..i] == tasks[..i];
        if tasks[i].status == Pending {
          pending := Insert(pending, tasks[i]);
        }
      }
      assert tasks[..|tasks|] == tasks;
      PendingIsSorted(tasks);
    }
  }
}
