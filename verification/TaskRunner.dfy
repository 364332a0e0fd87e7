/**
 The background task runner: one `process_pending` pass over the ledger, and what any number of
 passes does to it when nobody else writes.
 */
module TaskRunner {
  import opened Harness
  import opened Tasks
  import opened Wrappers

  /** What happens to a task if it is executed: whether its two saves reach the disk, whether the
      runtime refuses the run, how the run ends, and the clock readings. */
  datatype Fate = Fate(
    startSaved: bool,
    refused: bool,
    result: StepResult,
    endSaved: bool,
    startedAt: int,
    endedAt: int)

  type Fates = string -> Fate

  datatype PassResult =
    | Done(task: Task)
    | StoreFailed(cause: StoreResult)
    | RuntimeFailed(error: string)
    | MissingDependencies(id: string)
    | DependenciesNotMet(id: string)

  /** The record left in memory by executing a task. If the save after marking it running fails, the
      run is never begun and the record stays `Running`. */
  function Executed(t: Task, f: Fate): Task {
    var running := t.MarkRunning(f.startedAt);
    if !f.startSaved then running
    else if f.result.Err? then
      var failed := running.MarkFailed(f.endedAt, f.result.error);
      if f.refused then failed else failed.(runId := Some(t.id))
    else running.MarkCompleted(f.endedAt).(runId := Some(t.id))
  }

  predicate DependenciesExist(tasks: seq<Task>, t: Task) {
    forall d :: d in t.dependsOn ==> d in Ids(tasks)
  }

  predicate DependenciesCompleted(tasks: seq<Task>, t: Task) {
    forall d :: d in t.dependsOn ==> d in CompletedIds(tasks)
  }

  /** A pass that starts from `tasks` executes `t`. */
  predicate Executes(tasks: seq<Task>, t: Task) {
    t.status == Pending && DependenciesExist(tasks, t) && DependenciesCompleted(tasks, t)
  }

  /** What one pass that starts from `tasks` makes of the record `t`. */
  function Advance(tasks: seq<Task>, t: Task, fates: Fates): Task {
    if t.status != Pending then t
    else if !DependenciesExist(tasks, t) then t.MarkFailed(fates(t.id).endedAt, "dependency task does not exist")
    else if DependenciesCompleted(tasks, t) then Executed(t, fates(t.id))
    else t
  }

  function Pass(tasks: seq<Task>, fates: Fates): (after: seq<Task>)
    ensures |after| == |tasks|
  {
    seq(|tasks|, i requires 0 <= i < |tasks| => Advance(tasks, tasks[i], fates))
  }

  /** `update`: the first record with the id is overwritten. */
  function Written(tasks: seq<Task>, t: Task): (r: seq<Task>)
    ensures |r| == |tasks|
  {
    if tasks == [] then []
    else if tasks[0].id == t.id then [t] + tasks[1..]
    else [tasks[0]] + Written(tasks[1..], t)
  }

  /** Deal with one pending task of the ledger `before`, when the pass has made `now` of it so far. */
  function DealWith(before: seq<Task>, now: seq<Task>, t: Task, fates: Fates): (r: seq<Task>)
    ensures |r| == |now|
  {
    var after := Advance(before, t, fates);
    if after.status == Pending then now else Written(now, after)
  }

  function Dealt(before: seq<Task>, seen: seq<Task>, fates: Fates): (r: seq<Task>)
    ensures |r| == |before|
  {
    if seen == [] then before
    else DealWith(before, Dealt(before, seen[..|seen| - 1], fates), seen[|seen| - 1], fates)
  }

  /** What one pass makes of any ledger, also one in which records share an id. */
  function LedgerPass(tasks: seq<Task>, fates: Fates): (r: seq<Task>)
    ensures |r| == |tasks|
  {
    Dealt(tasks, PendingInOrder(tasks), fates)
  }

  /** The streams drive to the results the fates say. */
  ghost predicate Gives(streams: string -> Run, fates: Fates) {
    forall id {:trigger streams(id)} ::
      fates(id).result == LedgerResultOf(streams(id)) && fates(id).refused == streams(id).Refused?
  }

  function ExecuteResult(t: Task, f: Fate): PassResult {
    if !f.startSaved || !f.endSaved then StoreFailed(IoError)
    else if f.refused && f.result.Err? then RuntimeFailed(f.result.error)
    else Done(Executed(t, f))
  }

  function ResultOf(tasks: seq<Task>, t: Task, f: Fate): PassResult {
    if !DependenciesExist(tasks, t) then
      if f.endSaved then MissingDependencies(t.id) else StoreFailed(IoError)
    else if !DependenciesCompleted(tasks, t) then DependenciesNotMet(t.id)
    else ExecuteResult(t, f)
  }

  /** `after` is what executing `t` leaves behind, by the saves and the events of the run: a first save that
      fails leaves it running; otherwise it has failed exactly when the run was refused or its first error
      event carries a message, with that text, and completed if not. */
  ghost predicate LeftBy(after: Task, t: Task, run: Run, f: Fate) {
    && after.id == t.id && after.createdAt == t.createdAt && after.dependsOn == t.dependsOn
    && after.startedAt == Some(f.startedAt)
    && (!f.startSaved ==> after.status == Running && after.error == t.error && after.endedAt == t.endedAt && after.runId == t.runId)
    && (f.startSaved ==>
          && after.endedAt == Some(f.endedAt)
          && after.runId == (if run.Stream? then Some(t.id) else t.runId)
          && (run.Refused? ==> after.status == Failed && after.error == Some(run.error))
          && (forall i: nat :: run.Stream? && FirstErrorAt(run.events, i) && run.events[i].error.Some? ==>
                after.status == Failed && after.error == run.events[i].error)
          && (run.Stream? && (forall i: nat :: FirstErrorAt(run.events, i) ==> run.events[i].error.None?) ==>
                after.status == Completed && after.error == t.error))
  }

  /** `r` reports the execution that left `after` behind: a save failed, the run was refused, or the record. */
  ghost predicate Reported(r: PassResult, after: Task, run: Run, f: Fate) {
    r == if !f.startSaved || !f.endSaved then StoreFailed(IoError)
         else if run.Refused? then RuntimeFailed(run.error)
         else Done(after)
  }

  lemma ExecutedIs(t: Task, run: Run, f: Fate)
    requires f.result == LedgerResultOf(run) && f.refused == run.Refused?
    ensures LeftBy(Executed(t, f), t, run, f) && Reported(ExecuteResult(t, f), Executed(t, f), run, f)
  {
    LedgerResultIs(run);
  }

  ghost predicate FirstWithId(tasks: seq<Task>, p: nat, id: string) {
    p < |tasks| && tasks[p].id == id && forall k :: 0 <= k < p ==> tasks[k].id != id
  }

  method Execute(store: JsonlTaskStore, t: Task, streams: string -> Run, fates: Fates, ghost p: nat)
    returns (r: PassResult)
    requires Gives(streams, fates) && FirstWithId(store.tasks, p, t.id)
    modifies store
    ensures store.tasks == old(store.tasks)[p := Executed(t, fates(t.id))]
    ensures r == ExecuteResult(t, fates(t.id))
    ensures LeftBy(store.tasks[p], t, streams(t.id), fates(t.id)) && Reported(r, store.tasks[p], streams(t.id), fates(t.id))
  {
    ExecutedIs(t, streams(t.id), fates(t.id));
    assert store.tasks[p].id in Ids(store.tasks);
    var f := fates(t.id);
    var task := t.MarkRunning(f.startedAt);
    var stored := store.Update(task, f.startSaved);
    if stored != Stored {
      return StoreFailed(stored);
    }
    assert store.tasks[p].id in Ids(store.tasks);
    var run := streams(t.id);
    var result := DriveLedgerRun(run);
    if run.Refused? {
      task := task.MarkFailed(f.endedAt, run.error);
      stored := store.Update(task, f.endSaved);
      return if stored != Stored then StoreFailed(stored) else RuntimeFailed(run.error);
    }
    task := if result.Err? then task.MarkFailed(f.endedAt, result.error) else task.MarkCompleted(f.endedAt);
    task := task.(runId := Some(task.id));
    stored := store.Update(task, f.endSaved);
    return if stored != Stored then StoreFailed(stored) else Done(task);
  }

  ghost predicate SameIds(a: seq<Task>, b: seq<Task>) {
    |a| == |b| && forall k :: 0 <= k < |a| ==> a[k].id == b[k].id
  }

  lemma {:induction false} WrittenAt(tasks: seq<Task>, t: Task, p: nat)
    requires FirstWithId(tasks, p, t.id)
    ensures Written(tasks, t) == tasks[p := t]
  {
    if p > 0 {
      assert tasks[0].id != t.id;
      WrittenAt(tasks[1..], t, p - 1);
    }
  }

  /** The position of a task among records that still carry the ids of `before`. */
  lemma Locate(before: seq<Task>, now: seq<Task>, t: Task) returns (p: nat)
    requires t in before && SameIds(now, before)
    ensures FirstWithId(now, p, t.id) && FirstWithId(before, p, t.id)
    ensures UniqueIds(before) ==> before[p] == t
  {
    var q :| 0 <= q < |before| && before[q] == t;
    p := 0;
    while now[p].id != t.id
      invariant p <= q
      invariant forall k :: 0 <= k < p ==> now[k].id != t.id
      decreases q - p
    {
      p := p + 1;
    }
  }

  lemma {:induction false} DealtKeepsIds(before: seq<Task>, seen: seq<Task>, fates: Fates)
    requires forall t :: t in seen ==> t in before
    ensures SameIds(Dealt(before, seen, fates), before)
  {
    if seen != [] {
      var init, t := seen[..|seen| - 1], seen[|seen| - 1];
      DealtKeepsIds(before, init, fates);
      var p := Locate(before, Dealt(before, init, fates), t);
      WrittenAt(Dealt(before, init, fates), Advance(before, t, fates), p);
    }
  }

  /** Deal with one pending task of the snapshot `before`. */
  method ProcessOne(store: JsonlTaskStore, task: Task, allIds: set<string>, completedIds: set<string>,
                    streams: string -> Run, fates: Fates, ghost before: seq<Task>, ghost p: nat)
    returns (r: PassResult)
    requires Gives(streams, fates) && FirstWithId(store.tasks, p, task.id) && task.status == Pending
    requires allIds == Ids(before) && completedIds == CompletedIds(before)
    modifies store
    ensures store.tasks == DealWith(before, old(store.tasks), task, fates)
    ensures r == ResultOf(before, task, fates(task.id))
  {
    assert store.tasks[p].id in Ids(store.tasks);
    WrittenAt(store.tasks, Advance(before, task, fates), p);
    if exists d :: d in task.dependsOn && d !in allIds {
      var failed := task.MarkFailed(fates(task.id).endedAt, "dependency task does not exist");
      var stored := store.Update(failed, fates(task.id).endSaved);
      r := if stored != Stored then StoreFailed(stored) else MissingDependencies(task.id);
    } else if exists d :: d in task.dependsOn && d !in completedIds {
      r := DependenciesNotMet(task.id);
    } else {
      r := Execute(store, task, streams, fates, p);
    }
  }

  /** The results of a pass: one for every pending task, oldest task first; `AfterPass` says what they are. */
  ghost predicate Reports(before: seq<Task>, fates: Fates, pending: seq<Task>, results: seq<PassResult>) {
    && |results| == |pending|
    && forall i :: 0 <= i < |results| ==> results[i] == ResultOf(before, pending[i], fates(pending[i].id))
  }

  /** One pass over any ledger: the pending tasks are dealt with in order of age, each by the ids and
      completions at the start of the pass. */
  method ProcessPending(store: JsonlTaskStore, streams: string -> Run, fates: Fates)
    returns (results: seq<PassResult>)
    requires Gives(streams, fates)
    modifies store
    ensures store.tasks == LedgerPass(old(store.tasks), fates)
    ensures Reports(old(store.tasks), fates, PendingInOrder(old(store.tasks)), results)
  {
    ghost var before := store.tasks;
    var tasks := store.ListPending();
    var allIds := Ids(store.tasks);
    var completedIds := CompletedIds(store.tasks);
    results := [];
    for i := 0 to |tasks|
      invariant InPass(before, tasks, i, fates, store.tasks, results)
    {
      ghost var now, resultsSoFar := store.tasks, results;
      ghost var p := NextTask(before, tasks, i, fates);
      var r := ProcessOne(store, tasks[i], allIds, completedIds, streams, fates, before, p);
      results := results + [r];
      NextInPass(before, tasks, i, fates, now, resultsSoFar);
    }
    assert tasks[..|tasks|] == tasks;
  }

  /** The pass has dealt with the first `i` pending tasks. */
  ghost predicate InPass(before: seq<Task>, pending: seq<Task>, i: nat, fates: Fates, now: seq<Task>, results: seq<PassResult>) {
    i <= |pending| && now == Dealt(before, pending[..i], fates) && Reports(before, fates, pending[..i], results)
  }

  lemma NextTask(before: seq<Task>, pending: seq<Task>, i: nat, fates: Fates) returns (p: nat)
    requires i < |pending| && pending == PendingInOrder(before)
    ensures FirstWithId(Dealt(before, pending[..i], fates), p, pending[i].id) && pending[i].status == Pending
  {
    PendingIsSorted(before);
    DealtKeepsIds(before, pending[..i], fates);
    assert pending[i] in pending;
    p := Locate(before, Dealt(before, pending[..i], fates), pending[i]);
  }

  lemma NextInPass(before: seq<Task>, pending: seq<Task>, i: nat, fates: Fates, now: seq<Task>, results: seq<PassResult>)
    requires i < |pending| && InPass(before, pending, i, fates, now, results)
    ensures var r := ResultOf(before, pending[i], fates(pending[i].id));
            InPass(before, pending, i + 1, fates, DealWith(before, now, pending[i], fates), results + [r])
  {
    assert pending[..i + 1][..i] == pending[..i];
  }

  // ----- unique ids -----

  /** The records after the pass has dealt with the tasks in `seen`. */
  ghost predicate PassedThrough(before: seq<Task>, seen: seq<Task>, fates: Fates, now: seq<Task>) {
    && |now| == |before|
    && forall k :: 0 <= k < |now| ==>
         now[k] == if before[k] in seen then Advance(before, before[k], fates) else before[k]
  }

  lemma {:induction false} DealtIsPassedThrough(before: seq<Task>, seen: seq<Task>, fates: Fates)
    requires UniqueIds(before) && forall t :: t in seen ==> t in before && t.status == Pending
    ensures PassedThrough(before, seen, fates, Dealt(before, seen, fates))
  {
    if seen != [] {
      var init, t := seen[..|seen| - 1], seen[|seen| - 1];
      DealtIsPassedThrough(before, init, fates);
      DealtKeepsIds(before, init, fates);
      OneMoreDealt(before, init, t, fates, Dealt(before, init, fates));
      assert seen == init + [t];
    }
  }

  lemma OneMoreDealt(before: seq<Task>, init: seq<Task>, t: Task, fates: Fates, now: seq<Task>)
    requires UniqueIds(before) && t in before && t.status == Pending
    requires PassedThrough(before, init, fates, now) && SameIds(now, before)
    ensures PassedThrough(before, init + [t], fates, DealWith(before, now, t, fates))
  {
    var p := Locate(before, now, t);
    WrittenAt(now, Advance(before, t, fates), p);
    OneMoreSeen(before, init, t, fates, now, p);
  }

  lemma OneMoreSeen(before: seq<Task>, init: seq<Task>, t: Task, fates: Fates, now: seq<Task>, p: nat)
    requires UniqueIds(before) && p < |before| && before[p] == t && t.status == Pending
    requires PassedThrough(before, init, fates, now)
    ensures PassedThrough(before, init + [t], fates, now[p := Advance(before, t, fates)])
    ensures Advance(before, t, fates).status == Pending ==> PassedThrough(before, init + [t], fates, now)
  {
    forall k | 0 <= k < |before| && k != p ensures before[k] != t {
      assert before[k].id != before[p].id;
    }
  }

  lemma PassKeepsUnique(tasks: seq<Task>, fates: Fates)
    requires UniqueIds(tasks)
    ensures UniqueIds(Pass(tasks, fates))
  {
    assert forall k :: 0 <= k < |tasks| ==> Advance(tasks, tasks[k], fates).id == tasks[k].id;
  }

  lemma AllSeen(tasks: seq<Task>, seen: seq<Task>, fates: Fates, now: seq<Task>)
    requires PassedThrough(tasks, seen, fates, now) && forall t :: t in tasks && t.status == Pending ==> t in seen
    ensures now == Pass(tasks, fates)
  {
    forall k | 0 <= k < |tasks| ensures now[k] == Advance(tasks, tasks[k], fates) {
      assert tasks[k] in tasks;
    }
  }

  /** With unique ids every record becomes what `Advance` says, whatever order the pending tasks come in. */
  lemma UniqueLedgerPass(tasks: seq<Task>, fates: Fates)
    requires UniqueIds(tasks)
    ensures LedgerPass(tasks, fates) == Pass(tasks, fates) && UniqueIds(Pass(tasks, fates))
  {
    PendingIsSorted(tasks);
    DealtIsPassedThrough(tasks, PendingInOrder(tasks), fates);
    AllSeen(tasks, PendingInOrder(tasks), fates, LedgerPass(tasks, fates));
    PassKeepsUnique(tasks, fates);
  }

  ghost predicate HasRecord(tasks: seq<Task>, id: string) {
    exists j :: 0 <= j < |tasks| && tasks[j].id == id
  }

  ghost predicate HasCompletedRecord(tasks: seq<Task>, id: string) {
    exists j :: 0 <= j < |tasks| && tasks[j].id == id && tasks[j].status == Completed
  }

  /** What a pass makes of the record `t` of the ledger, and what it reports of it. */
  ghost predicate PassedOver(tasks: seq<Task>, t: Task, run: Run, f: Fate, after: Task, r: PassResult) {
    if exists d :: d in t.dependsOn && !HasRecord(tasks, d) then
      && after == t.(status := Failed, endedAt := Some(f.endedAt), error := Some("dependency task does not exist"))
      && r == (if f.endSaved then MissingDependencies(t.id) else StoreFailed(IoError))
    else if exists d :: d in t.dependsOn && !HasCompletedRecord(tasks, d) then
      after == t && r == DependenciesNotMet(t.id)
    else
      LeftBy(after, t, run, f) && Reported(r, after, run, f)
  }

  lemma RecordsFound(tasks: seq<Task>, d: string)
    ensures d in Ids(tasks) <==> HasRecord(tasks, d)
    ensures d in CompletedIds(tasks) <==> HasCompletedRecord(tasks, d)
  {
  }

  lemma AdvanceIs(tasks: seq<Task>, t: Task, streams: string -> Run, fates: Fates)
    requires Gives(streams, fates) && t.status == Pending
    ensures PassedOver(tasks, t, streams(t.id), fates(t.id), Advance(tasks, t, fates), ResultOf(tasks, t, fates(t.id)))
  {
    forall d
      ensures d in Ids(tasks) <==> HasRecord(tasks, d)
      ensures d in CompletedIds(tasks) <==> HasCompletedRecord(tasks, d)
    {
      RecordsFound(tasks, d);
    }
    ExecutedIs(t, streams(t.id), fates(t.id));
  }

  /** One pass, record by record: of a ledger with unique ids every pending record is failed for a missing
      dependency, left waiting for one that has not completed, or executed; no other record changes. */
  lemma AfterPass(tasks: seq<Task>, streams: string -> Run, fates: Fates, k: nat)
    requires Gives(streams, fates) && UniqueIds(tasks) && k < |tasks|
    ensures var t, after := tasks[k], LedgerPass(tasks, fates)[k];
            && (t.status != Pending ==> after == t)
            && (t.status == Pending ==>
                  PassedOver(tasks, t, streams(t.id), fates(t.id), after, ResultOf(tasks, t, fates(t.id))))
  {
    UniqueLedgerPass(tasks, fates);
    if tasks[k].status == Pending {
      AdvanceIs(tasks, tasks[k], streams, fates);
    }
  }
}
