/**
 One tick of the scheduler as it runs when nothing else interferes, on the scheduler's own state, and
 proved to be a run of the protocol.
 */
module CronTick {
  import opened CronJobs
  import opened CronProtocol
  import opened CronStore
  import Harness
  import opened TaskRunner
  import Tasks
  import opened Wrappers

  /** What the surroundings answer, by job: the temporary file and how saving goes, the agent's event
      stream, the generated task id, and how the task's saves and the clock turn out. */
  datatype Env = Env(
    tmp: string,
    ios: string -> Io,
    streams: string -> Harness.Run,
    fates: Fates,
    taskIds: string -> string)

  function NewTask(env: Env, job: CronJob): Tasks.Task {
    Tasks.Task(env.taskIds(job.id), Tasks.Pending, env.fates(job.id).startedAt, None, None, None, None, [])
  }

  /** The result of executing the job: its task record, or why there is none. */
  function ResultFor(env: Env, job: CronJob): PassResult {
    ExecuteResult(NewTask(env, job), env.fates(job.id))
  }

  /** `fired` observes the executions begun; the source only logs them. */
  class CronScheduler {
    const store: JsonlCronJobStore
    const ledger: Tasks.JsonlTaskStore
    var inFlight: set<string>
    var fired: seq<Fired>

    constructor (store: JsonlCronJobStore, ledger: Tasks.JsonlTaskStore)
      ensures this.store == store && this.ledger == ledger && inFlight == {} && fired == []
    {
      this.store, this.ledger := store, ledger;
      inFlight, fired := {}, [];
    }

    /** Insert into the set; true if the job was not in it. */
    method AcquireJob(id: string) returns (acquired: bool)
      modifies `inFlight
      ensures acquired <==> id !in old(inFlight)
      ensures inFlight == old(inFlight) + {id}
    {
      acquired := id !in inFlight;
      inFlight := inFlight + {id};
    }

    method ReleaseJob(id: string)
      modifies `inFlight
      ensures inFlight == old(inFlight) - {id}
    {
      inFlight := inFlight - {id};
    }

    /** Run the job and keep a task record of it: what is left behind and returned is what executing a
        background task leaves and returns. */
    method Execute(job: CronJob, env: Env) returns (r: PassResult)
      requires Gives(env.streams, env.fates)
      modifies ledger
      ensures r == ResultFor(env, job) && |ledger.tasks| == |old(ledger.tasks)| + 1
      ensures env.taskIds(job.id) !in Tasks.Ids(old(ledger.tasks)) ==>
                ledger.tasks == old(ledger.tasks) + [Executed(NewTask(env, job), env.fates(job.id))]
      ensures env.taskIds(job.id) !in Tasks.Ids(old(ledger.tasks)) ==>
                var f, after := env.fates(job.id), ledger.tasks[|old(ledger.tasks)|];
                var blank := Tasks.Task(env.taskIds(job.id), Tasks.Pending, f.startedAt, None, None, None, None, []);
                LeftBy(after, blank, env.streams(job.id), f) && Reported(r, after, env.streams(job.id), f)
    {
      ExecutedIs(NewTask(env, job), env.streams(job.id), env.fates(job.id));
      var f := env.fates(job.id);
      ghost var was := ledger.tasks;
      var task := NewTask(env, job).MarkRunning(f.startedAt);
      var stored := ledger.Create(task, f.startSaved);
      if stored != Tasks.Stored {
        return StoreFailed(stored);
      }
      assert ledger.tasks[|was|].id in Tasks.Ids(ledger.tasks);
      assert task.id !in Tasks.Ids(was) ==> forall k :: 0 <= k < |was| ==> was[k].id != task.id;
      var run := env.streams(job.id);
      var result := Harness.DriveLedgerRun(run);
      if run.Refused? {
        task := task.MarkFailed(f.endedAt, run.error);
        stored := ledger.Update(task, f.endSaved);
        return if stored != Tasks.Stored then StoreFailed(stored) else RuntimeFailed(run.error);
      }
      task := if result.Err? then task.MarkFailed(f.endedAt, result.error) else task.MarkCompleted(f.endedAt);
      task := task.(runId := Some(task.id));
      stored := ledger.Update(task, f.endSaved);
      return if stored != Tasks.Stored then StoreFailed(stored) else Done(task);
    }

    /** Execute an acquired job of the snapshot, release it and write it back. The job is removed from
        memory, or its record replaced, even if the save fails. */
    method RunDue(next: Schedules, job: CronJob, now: int, clock: int, env: Env) returns (r: PassResult)
      requires store.Valid() && env.tmp != store.path && Gives(env.streams, env.fates) && Due(job, now)
      modifies this, store, ledger
      ensures store.Valid() && r == ResultFor(env, job)
      ensures inFlight == old(inFlight) - {job.id} && fired == old(fired) + [Fired(job.id, job.nextRun.value)]
      ensures store.jobs == WrittenBack(next, old(store.jobs), job, now, clock)
    {
      fired := fired + [Fired(job.id, job.nextRun.value)];
      r := Execute(job, env);
      ReleaseJob(job.id);
      var saved;
      ghost var ops;
      if IsOneShot(job) {
        saved, ops := store.Remove(job.id, env.tmp, env.ios(job.id));
      } else {
        var refreshed := job.(lastRun := Some(now), nextRun := NextRun(next, job, clock));
        saved, ops := store.Update(refreshed, env.tmp, env.ios(job.id));
      }
    }

    /** A manual run: an unknown job is not found, one that is running already is refused, any other is
        executed. The map and the in-flight set are as before, and it is a run of the protocol by the
        idle actor `a` in which that job is executing at some point. */
    method RunNow(next: Schedules, id: string, env: Env, ghost start: Sys, ghost a: nat)
      returns (r: ManualResult, ghost acts: seq<Action>)
      requires store.Valid() && Gives(env.streams, env.fates)
      requires ShowsIn(start, store.jobs, inFlight, fired) && ActorAt(start, a).Idle?
      modifies this, ledger
      ensures inFlight == old(inFlight) && fired == old(fired)
      ensures r == if id !in store.jobs then JobNotFound(id)
                   else if id in old(inFlight) then AlreadyRunning(id)
                   else Ran(ResultFor(env, store.jobs[id]))
      ensures r.Ran? ==> |ledger.tasks| == |old(ledger.tasks)| + 1
      ensures !r.Ran? ==> ledger.tasks == old(ledger.tasks)
      ensures IsRunFrom(next, start, acts) && OthersKept(start, RunFrom(next, start, acts), a)
      ensures ShowsIn(RunFrom(next, start, acts), store.jobs, inFlight, fired) && ActorAt(RunFrom(next, start, acts), a).Idle?
      ensures r.Ran? ==> exists k :: 0 <= k < |acts| && Executing(RunFrom(next, start, acts[..k]), a, id)
    {
      acts := MirrorManual(next, start, a, id);
      if id !in store.jobs {
        return JobNotFound(id), acts;
      }
      var job := store.jobs[id];
      var acquired := AcquireJob(job.id);
      if !acquired {
        return AlreadyRunning(job.id), acts;
      }
      var result := Execute(job, env);
      ReleaseJob(id);
      r := Ran(result);
    }

    /** Deal with one job of the snapshot; there is a result if it is executed. */
    method VisitJob(next: Schedules, job: CronJob, now: int, env: Env) returns (r: Option<PassResult>, ghost clock: int)
      requires store.Valid() && env.tmp != store.path && Gives(env.streams, env.fates)
      modifies this, store, ledger
      ensures store.Valid() && inFlight == old(inFlight) && clock >= now
      ensures r == if job.enabled && job.nextRun.Some? && job.nextRun.value <= now && job.id !in old(inFlight)
                   then Some(ResultFor(env, job)) else None
      ensures r.Some? ==> store.jobs == WrittenBack(next, old(store.jobs), job, now, clock)
                          && fired == old(fired) + [Fired(job.id, job.nextRun.value)]
      ensures r.None? ==> store.jobs == old(store.jobs) && fired == old(fired)
    {
      var reading: int :| reading >= now;
      clock := reading;
      r := None;
      if Due(job, now) {
        var acquired := AcquireJob(job.id);
        if acquired {
          var result := RunDue(next, job, now, reading, env);
          r := Some(result);
        }
      }
    }

    /** The loop of a tick over its snapshot. */
    method VisitAll(next: Schedules, order: seq<CronJob>, now: int, env: Env, ghost c: Context, ghost start: Sys, ghost a: nat,
                    ghost begun: seq<Action>)
      returns (results: seq<PassResult>, ghost due: seq<CronJob>, ghost acts: seq<Action>)
      requires store.Valid() && env.tmp != store.path && Gives(env.streams, env.fates)
      requires c == Context(next, env, order, now, inFlight, store.jobs, fired)
      requires Progress(c, 0, store.jobs, fired, [], []) && Mirrors(c, start, begun, a, 0, store.jobs, fired)
      modifies this, store, ledger
      ensures store.Valid() && inFlight == c.running && Progress(c, |order|, store.jobs, fired, results, due)
      ensures Mirrors(c, start, acts, a, |order|, store.jobs, fired)
    {
      due, results, acts := [], [], begun;
      for i := 0 to |order|
        invariant store.Valid() && inFlight == c.running && Progress(c, i, store.jobs, fired, results, due)
        invariant Mirrors(c, start, acts, a, i, store.jobs, fired)
      {
        ghost var jobsBefore, firedBefore, resultsBefore := store.jobs, fired, results;
        var r;
        ghost var clock;
        r, clock := VisitJob(next, order[i], now, env);
        if r.Some? {
          results := results + [r.value];
          ProgressRuns(c, i, jobsBefore, firedBefore, resultsBefore, due, clock);
          acts := MirrorRuns(c, start, acts, a, i, jobsBefore, firedBefore, clock);
          due := due + [order[i]];
        } else {
          ProgressSkips(c, i, store.jobs, fired, results, due);
          acts := MirrorSkips(c, start, acts, a, i, store.jobs, fired);
        }
      }
    }

    /** A tick over its snapshot. */
    method TickOver(next: Schedules, order: seq<CronJob>, now: int, env: Env, ghost c: Context, ghost start: Sys, ghost a: nat)
      returns (results: seq<PassResult>, ghost due: seq<CronJob>, ghost acts: seq<Action>)
      requires store.Valid() && env.tmp != store.path && Gives(env.streams, env.fates)
      requires c == Context(next, env, order, now, inFlight, store.jobs, fired)
      requires Enumerates(order, store.jobs) && DistinctIds(order)
      requires ShowsIn(start, store.jobs, inFlight, fired) && ActorAt(start, a).Idle?
      modifies this, store, ledger
      ensures store.Valid() && inFlight == c.running && TickDone(c, store.jobs, fired, results, due)
      ensures MirrorDone(c, start, acts, a, store.jobs, fired)
    {
      acts := MirrorStarts(c, start, a);
      ProgressStarts(c);
      results, due, acts := VisitAll(next, order, now, env, c, start, a, acts);
      ProgressEnds(c, store.jobs, fired, results, due);
      acts := MirrorEnds(c, start, acts, a, store.jobs, fired);
    }

    /** A tick at `now`: exactly the due jobs that are not already running are executed, each once, and
        then removed or given a next run computed at or after `now`, whether or not saving succeeds; all
        others stay as they are; there is one result for each executed job. Seen from any state of the
        protocol with this map, in-flight set and history, it is a run of the idle actor `a` alone. */
    method Tick(next: Schedules, now: int, env: Env, ghost start: Sys, ghost a: nat)
      returns (results: seq<PassResult>, ghost due: seq<CronJob>, ghost acts: seq<Action>)
      requires store.Valid() && env.tmp != store.path && Gives(env.streams, env.fates)
      requires ShowsIn(start, store.jobs, inFlight, fired) && ActorAt(start, a).Idle?
      modifies this, store, ledger
      ensures store.Valid() && inFlight == old(inFlight) && store.jobs.Keys <= old(store.jobs).Keys
      ensures forall id :: id in old(store.jobs) ==> Outcome(next, old(store.jobs)[id], now, old(inFlight), store.jobs)
      ensures FiresExactly(old(store.jobs), old(inFlight), now, due)
      ensures |fired| == |old(fired)| + |due| && old(fired) <= fired
      ensures forall i :: 0 <= i < |due| ==> fired[|old(fired)| + i] == Fired(due[i].id, due[i].nextRun.GetOr(0))
      ensures results == ResultsFor(env, due)
      ensures IsRunFrom(next, start, acts) && OthersKept(start, RunFrom(next, start, acts), a)
      ensures ShowsIn(RunFrom(next, start, acts), store.jobs, inFlight, fired)
      ensures ActorAt(RunFrom(next, start, acts), a).Idle?
    {
      var order := Values(store.jobs);
      ghost var before, running, firedBefore := store.jobs, inFlight, fired;
      ghost var c := Context(next, env, order, now, running, before, firedBefore);
      results, due, acts := TickOver(next, order, now, env, c, start, a);
      TickSays(c, next, env, now, running, before, firedBefore, store.jobs, fired, results, due);
    }
  }

  datatype ManualResult = JobNotFound(id: string) | AlreadyRunning(id: string) | Ran(result: PassResult)

  /** The protocol steps of a manual run: fetch, and acquire and release if there is a job. */
  lemma MirrorManual(next: Schedules, start: Sys, a: nat, id: string) returns (acts: seq<Action>)
    requires ActorAt(start, a).Idle? && KeyedById(start.jobs)
    ensures IsRunFrom(next, start, acts) && OthersKept(start, RunFrom(next, start, acts), a)
    ensures ShowsIn(RunFrom(next, start, acts), start.jobs, start.inFlight, start.fired)
    ensures ActorAt(RunFrom(next, start, acts), a).Idle?
    ensures id in start.jobs && id !in start.inFlight ==>
              exists k :: 0 <= k < |acts| && Executing(RunFrom(next, start, acts[..k]), a, id)
  {
    var t := start.clock;
    OneMoreAct(next, start, [], start, Fetch(a, t, id));
    acts := [] + [Fetch(a, t, id)];
    if id in start.jobs {
      var fetched := Next(next, start, Fetch(a, t, id));
      OneMoreAct(next, start, acts, fetched, Acquire(a, t));
      acts := acts + [Acquire(a, t)];
      if id !in start.inFlight {
        var running := Next(next, fetched, Acquire(a, t));
        OneMoreAct(next, start, acts, running, Release(a, t));
        assert (acts + [Release(a, t)])[..|acts|] == acts && Executing(running, a, id);
        acts := acts + [Release(a, t)];
      }
    }
  }

  /** What a tick works from. */
  datatype Context = Context(
    next: Schedules,
    env: Env,
    order: seq<CronJob>,
    now: int,
    running: set<string>,
    before: JobMap,
    firedBefore: seq<Fired>)

  function ResultsFor(env: Env, due: seq<CronJob>): seq<PassResult> {
    seq(|due|, i requires 0 <= i < |due| => ResultFor(env, due[i]))
  }

  // ----- what a tick has done so far -----

  ghost predicate Progress(c: Context, i: nat, jobs: JobMap, fired: seq<Fired>, results: seq<PassResult>, due: seq<CronJob>) {
    && TickedTo(c.next, c.order, i, c.now, c.running, c.before, jobs) && FiredTo(c.order, i, c.now, c.running, due)
    && fired == c.firedBefore + Firings(due) && results == ResultsFor(c.env, due)
  }

  lemma ProgressStarts(c: Context)
    requires KeyedById(c.before) && Enumerates(c.order, c.before) && DistinctIds(c.order)
    ensures Progress(c, 0, c.before, c.firedBefore, [], [])
  {
    assert c.firedBefore + [] == c.firedBefore;
  }

  lemma ProgressRuns(c: Context, i: nat, jobs: JobMap, fired: seq<Fired>, results: seq<PassResult>, due: seq<CronJob>, clock: int)
    requires i < |c.order| && Progress(c, i, jobs, fired, results, due)
    requires Due(c.order[i], c.now) && c.order[i].id !in c.running && clock >= c.now
    ensures var job := c.order[i];
            Progress(c, i + 1, WrittenBack(c.next, jobs, job, c.now, clock), fired + [Fired(job.id, job.nextRun.value)],
                     results + [ResultFor(c.env, job)], due + [job])
  {
    var job := c.order[i];
    DueTicked(c.next, c.order, i, c.now, c.running, c.before, jobs, WrittenBack(c.next, jobs, job, c.now, clock), clock);
    assert c.firedBefore + Firings(due) + [Fired(job.id, job.nextRun.value)] == c.firedBefore + Firings(due + [job]);
    assert ResultsFor(c.env, due) + [ResultFor(c.env, job)] == ResultsFor(c.env, due + [job]);
  }

  lemma ProgressSkips(c: Context, i: nat, jobs: JobMap, fired: seq<Fired>, results: seq<PassResult>, due: seq<CronJob>)
    requires i < |c.order| && Progress(c, i, jobs, fired, results, due)
    requires !Due(c.order[i], c.now) || c.order[i].id in c.running
    ensures Progress(c, i + 1, jobs, fired, results, due)
  {
  }

  lemma ProgressEnds(c: Context, jobs: JobMap, fired: seq<Fired>, results: seq<PassResult>, due: seq<CronJob>)
    requires Enumerates(c.order, c.before) && Progress(c, |c.order|, jobs, fired, results, due)
    ensures TickDone(c, jobs, fired, results, due)
  {
  }

  /** What a tick has done when it ends. */
  ghost predicate TickDone(c: Context, jobs: JobMap, fired: seq<Fired>, results: seq<PassResult>, due: seq<CronJob>) {
    && jobs.Keys <= c.before.Keys && results == ResultsFor(c.env, due)
    && (forall id :: id in c.before ==> Outcome(c.next, c.before[id], c.now, c.running, jobs))
    && FiresExactly(c.before, c.running, c.now, due)
    && |fired| == |c.firedBefore| + |due| && c.firedBefore <= fired
    && forall i :: 0 <= i < |due| ==> fired[|c.firedBefore| + i] == Fired(due[i].id, due[i].nextRun.GetOr(0))
  }

  lemma TickSays(c: Context, next: Schedules, env: Env, now: int, running: set<string>, before: JobMap, firedBefore: seq<Fired>,
                 jobs: JobMap, fired: seq<Fired>, results: seq<PassResult>, due: seq<CronJob>)
    requires c == Context(next, env, c.order, now, running, before, firedBefore) && TickDone(c, jobs, fired, results, due)
    ensures jobs.Keys <= before.Keys && results == ResultsFor(env, due) && FiresExactly(before, running, now, due)
    ensures forall id :: id in before ==> Outcome(next, before[id], now, running, jobs)
    ensures |fired| == |firedBefore| + |due| && firedBefore <= fired
    ensures forall i :: 0 <= i < |due| ==> fired[|firedBefore| + i] == Fired(due[i].id, due[i].nextRun.GetOr(0))
  {
  }

  // ----- the same tick in the protocol -----

  ghost predicate ShowsIn(sys: Sys, jobs: JobMap, inFlight: set<string>, fired: seq<Fired>) {
    sys.jobs == jobs && sys.inFlight == inFlight && sys.fired == fired
  }

  /** The steps lead the protocol to where the tick is before the `i`-th job. */
  ghost predicate Mirrors(c: Context, start: Sys, acts: seq<Action>, a: nat, i: nat, jobs: JobMap, fired: seq<Fired>) {
    i <= |c.order| && IsRunFrom(c.next, start, acts) &&
    var sys := RunFrom(c.next, start, acts);
    && ShowsIn(sys, jobs, c.running, fired) && OthersKept(start, sys, a)
    && ActorAt(sys, a) == Visiting(c.now, c.order[i..])
  }

  lemma MirrorStarts(c: Context, start: Sys, a: nat) returns (acts: seq<Action>)
    requires ShowsIn(start, c.before, c.running, c.firedBefore) && ActorAt(start, a).Idle?
    requires Enumerates(c.order, c.before) && DistinctIds(c.order)
    ensures Mirrors(c, start, acts, a, 0, c.before, c.firedBefore)
  {
    var act := Snapshot(a, Later(start.clock, c.now), c.now, c.order);
    OneMoreAct(c.next, start, [], start, act);
    acts := [] + [act];
    assert c.order[0..] == c.order;
  }

  lemma MirrorRuns(c: Context, start: Sys, acts: seq<Action>, a: nat, i: nat, jobs: JobMap, fired: seq<Fired>, clock: int)
    returns (acts': seq<Action>)
    requires i < |c.order| && Mirrors(c, start, acts, a, i, jobs, fired)
    requires Due(c.order[i], c.now) && c.order[i].id !in c.running && clock >= c.now
    ensures var job := c.order[i];
            Mirrors(c, start, acts', a, i + 1, WrittenBack(c.next, jobs, job, c.now, clock), fired + [Fired(job.id, job.nextRun.value)])
  {
    var sys;
    acts', sys := TickRuns(c.next, start, acts, RunFrom(c.next, start, acts), a, c.now, c.order[i..], clock);
    assert c.order[i..][1..] == c.order[i + 1..];
  }

  lemma MirrorSkips(c: Context, start: Sys, acts: seq<Action>, a: nat, i: nat, jobs: JobMap, fired: seq<Fired>)
    returns (acts': seq<Action>)
    requires i < |c.order| && Mirrors(c, start, acts, a, i, jobs, fired)
    requires !Due(c.order[i], c.now) || c.order[i].id in c.running
    ensures Mirrors(c, start, acts', a, i + 1, jobs, fired)
  {
    var sys;
    acts', sys := TickSkips(c.next, start, acts, RunFrom(c.next, start, acts), a, c.now, c.order[i..]);
    assert c.order[i..][1..] == c.order[i + 1..];
  }

  /** The steps lead the protocol to where the tick has ended. */
  ghost predicate MirrorDone(c: Context, start: Sys, acts: seq<Action>, a: nat, jobs: JobMap, fired: seq<Fired>) {
    && IsRunFrom(c.next, start, acts) && OthersKept(start, RunFrom(c.next, start, acts), a)
    && ShowsIn(RunFrom(c.next, start, acts), jobs, c.running, fired)
    && ActorAt(RunFrom(c.next, start, acts), a).Idle?
  }

  lemma MirrorEnds(c: Context, start: Sys, acts: seq<Action>, a: nat, jobs: JobMap, fired: seq<Fired>)
    returns (acts': seq<Action>)
    requires Mirrors(c, start, acts, a, |c.order|, jobs, fired)
    ensures MirrorDone(c, start, acts', a, jobs, fired)
  {
    var sys := RunFrom(c.next, start, acts);
    var act := EndTick(a, sys.clock);
    OneMoreAct(c.next, start, acts, sys, act);
    acts' := acts + [act];
  }

  // ----- jobs and firings -----

  /** The tick has dealt with the first `i` jobs of its snapshot. */
  ghost predicate TickedTo(next: Schedules, order: seq<CronJob>, i: nat, now: int, running: set<string>, before: JobMap, jobs: JobMap) {
    && i <= |order| && DistinctIds(order) && KeyedById(jobs) && jobs.Keys <= before.Keys
    && (forall k :: 0 <= k < i ==> Outcome(next, order[k], now, running, jobs))
    && (forall k :: i <= k < |order| ==> order[k].id in jobs && jobs[order[k].id] == order[k])
  }

  lemma DueTicked(next: Schedules, order: seq<CronJob>, i: nat, now: int, running: set<string>, before: JobMap,
                  jobs: JobMap, jobs': JobMap, clock: int)
    requires i < |order| && TickedTo(next, order, i, now, running, before, jobs)
    requires Due(order[i], now) && order[i].id !in running && clock >= now
    requires jobs' == WrittenBack(next, jobs, order[i], now, clock)
    ensures TickedTo(next, order, i + 1, now, running, before, jobs')
  {
  }

  /** `due` lists what has been executed of the first `i` jobs. */
  ghost predicate FiredTo(order: seq<CronJob>, i: nat, now: int, running: set<string>, due: seq<CronJob>) {
    && i <= |order| && DistinctIds(order) && DistinctIds(due)
    && forall j :: j in due <==> j in order[..i] && Due(j, now) && j.id !in running
  }

  /** What a tick makes of a job. */
  ghost predicate Outcome(next: Schedules, job: CronJob, now: int, running: set<string>, jobs: JobMap) {
    if !(job.enabled && job.nextRun.Some? && job.nextRun.value <= now) || job.id in running then
      job.id in jobs && jobs[job.id] == job
    else if job.schedule == "__at__" then job.id !in jobs
    else
      && job.id in jobs
      && exists clock :: clock >= now && jobs[job.id] == job.(lastRun := Some(now), nextRun := NextRun(next, job, clock))
  }

  /** `due` lists, each once, the jobs that a tick at `now` executes. */
  ghost predicate FiresExactly(jobs: JobMap, running: set<string>, now: int, due: seq<CronJob>) {
    && DistinctIds(due)
    && forall j :: j in due <==>
         && j.id in jobs && jobs[j.id] == j && j.id !in running
         && j.enabled && j.nextRun.Some? && j.nextRun.value <= now
  }

  function Firings(due: seq<CronJob>): seq<Fired> {
    seq(|due|, i requires 0 <= i < |due| => Fired(due[i].id, due[i].nextRun.GetOr(0)))
  }
}
