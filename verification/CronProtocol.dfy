/**
 The cron scheduler as interleaved actors. Every await point is a place where other actors may run:
 a tick takes a snapshot, visits its jobs one by one, and for each due one acquires, executes,
 releases and writes back; a manual run fetches, acquires, executes and releases; anyone may create
 and remove jobs.
 */
module CronProtocol {
  import opened CronJobs
  import opened CronStore
  import opened Wrappers

  datatype Actor =
    | Idle
    | Visiting(now: int, todo: seq<CronJob>)
    | TickRun(now: int, job: CronJob, todo: seq<CronJob>)
    | TickRan(now: int, job: CronJob, todo: seq<CronJob>)
    | Fetched(job: CronJob)
    | ManualRun(job: CronJob)

  /** An execution begun by a tick, for the instant the job was due. */
  datatype Fired = Fired(id: string, instant: int)

  /** `origin` keeps the record every id was created with, `fired` all executions begun by ticks; the
      scheduler itself keeps neither. */
  datatype Sys = Sys(
    jobs: JobMap,
    inFlight: set<string>,
    actors: map<nat, Actor>,
    clock: int,
    origin: JobMap,
    fired: seq<Fired>)

  function ActorAt(sys: Sys, a: nat): Actor {
    if a in sys.actors then sys.actors[a] else Idle
  }

  predicate Due(job: CronJob, now: int) {
    job.enabled && job.nextRun.Some? && job.nextRun.value <= now
  }

  datatype Action =
    | Snapshot(actor: nat, time: int, now: int, order: seq<CronJob>)
    | Visit(actor: nat, time: int)
    | Release(actor: nat, time: int)
    | WriteBack(actor: nat, time: int, computedAt: int)
    | EndTick(actor: nat, time: int)
    | Fetch(actor: nat, time: int, id: string)
    | Acquire(actor: nat, time: int)
    | Create(time: int, job: CronJob)
    | Remove(time: int, id: string)

  /** The clock does not go back. A tick reads it before it lists the map, and again before it writes
      a job back; generated job ids are new. */
  ghost predicate Enabled(sys: Sys, act: Action) {
    && sys.clock <= act.time
    && match act
       case Snapshot(a, t, now, order) =>
         now <= t && ActorAt(sys, a).Idle? && Enumerates(order, sys.jobs) && DistinctIds(order)
       case Visit(a, _) => ActorAt(sys, a).Visiting? && ActorAt(sys, a).todo != []
       case Release(a, _) => ActorAt(sys, a).TickRun? || ActorAt(sys, a).ManualRun?
       case WriteBack(a, t, computedAt) => ActorAt(sys, a).TickRan? && ActorAt(sys, a).now <= computedAt <= t
       case EndTick(a, _) => ActorAt(sys, a).Visiting? && ActorAt(sys, a).todo == []
       case Fetch(a, _, _) => ActorAt(sys, a).Idle?
       case Acquire(a, _) => ActorAt(sys, a).Fetched?
       case Create(_, job) => job.id !in sys.origin
       case Remove(_, _) => true
  }

  function Set(sys: Sys, a: nat, actor: Actor): Sys {
    sys.(actors := sys.actors[a := actor])
  }

  /** Skip the job, find it running already, or begin to execute it. */
  function VisitNext(sys: Sys, a: nat, now: int, todo: seq<CronJob>): Sys
    requires todo != []
  {
    var job, rest := todo[0], todo[1..];
    if !Due(job, now) || job.id in sys.inFlight then Set(sys, a, Visiting(now, rest))
    else Set(sys, a, TickRun(now, job, rest))
         .(inFlight := sys.inFlight + {job.id}, fired := sys.fired + [Fired(job.id, job.nextRun.value)])
  }

  /** The record a tick writes back for a recurring job, computed at `clock`. */
  function Refreshed(next: Schedules, job: CronJob, now: int, clock: int): CronJob {
    job.(lastRun := Some(now), nextRun := NextRun(next, job, clock))
  }

  /** Remove an executed one-shot; update a recurring job unless it is gone. */
  function WrittenBack(next: Schedules, jobs: JobMap, job: CronJob, now: int, clock: int): JobMap {
    if IsOneShot(job) then jobs - {job.id}
    else if job.id in jobs then jobs[job.id := Refreshed(next, job, now, clock)]
    else jobs
  }

  function Next(next: Schedules, sys: Sys, act: Action): Sys {
    var sys := sys.(clock := act.time);
    match act
    case Snapshot(a, _, now, order) => Set(sys, a, Visiting(now, order))
    case Visit(a, _) =>
      var actor := ActorAt(sys, a);
      if actor.Visiting? && actor.todo != [] then VisitNext(sys, a, actor.now, actor.todo) else sys
    case Release(a, _) =>
      var actor := ActorAt(sys, a);
      if actor.TickRun? then Set(sys, a, TickRan(actor.now, actor.job, actor.todo)).(inFlight := sys.inFlight - {actor.job.id})
      else if actor.ManualRun? then Set(sys, a, Idle).(inFlight := sys.inFlight - {actor.job.id})
      else sys
    case WriteBack(a, _, computedAt) =>
      var actor := ActorAt(sys, a);
      if actor.TickRan? then
        Set(sys, a, Visiting(actor.now, actor.todo)).(jobs := WrittenBack(next, sys.jobs, actor.job, actor.now, computedAt))
      else sys
    case EndTick(a, _) => Set(sys, a, Idle)
    case Fetch(a, _, id) => if id in sys.jobs then Set(sys, a, Fetched(sys.jobs[id])) else sys
    case Acquire(a, _) =>
      var actor := ActorAt(sys, a);
      if !actor.Fetched? || actor.job.id in sys.inFlight then Set(sys, a, Idle)
      else Set(sys, a, ManualRun(actor.job)).(inFlight := sys.inFlight + {actor.job.id})
    case Create(_, job) => sys.(jobs := sys.jobs[job.id := job], origin := sys.origin[job.id := job])
    case Remove(_, id) => sys.(jobs := sys.jobs - {id})
  }

  const START := Sys(map[], {}, map[], 0, map[], [])

  function Run(next: Schedules, acts: seq<Action>): Sys {
    if acts == [] then START else Next(next, Run(next, acts[..|acts| - 1]), acts[|acts| - 1])
  }

  /** Step `i` may be taken where the steps before it lead. */
  ghost predicate EnabledAt(next: Schedules, acts: seq<Action>, i: nat)
    requires i < |acts|
  {
    Enabled(Run(next, acts[..i]), acts[i])
  }

  ghost predicate IsRun(next: Schedules, acts: seq<Action>) {
    forall i :: 0 <= i < |acts| ==> EnabledAt(next, acts, i)
  }

  lemma PrefixIsRun(next: Schedules, acts: seq<Action>, n: nat)
    requires IsRun(next, acts) && n <= |acts|
    ensures IsRun(next, acts[..n])
  {
    forall i | 0 <= i < n ensures EnabledAt(next, acts[..n], i) {
      assert EnabledAt(next, acts, i) && acts[..n][..i] == acts[..i];
    }
  }

  // ----- mutual exclusion -----

  /** The actor is between acquire and release of this job. */
  ghost predicate Executing(sys: Sys, a: nat, id: string) {
    var actor := ActorAt(sys, a);
    (actor.TickRun? || actor.ManualRun?) && actor.job.id == id
  }

  /** `in_flight` is exactly the jobs between acquire and release, and each has one actor. */
  ghost predicate Exclusive(sys: Sys) {
    && (forall a, id :: Executing(sys, a, id) ==> id in sys.inFlight)
    && (forall id :: id in sys.inFlight ==> exists a :: Executing(sys, a, id))
    && (forall a, b, id :: Executing(sys, a, id) && Executing(sys, b, id) ==> a == b)
  }

  /** A step that leaves the set alone and does not change whether anyone executes. */
  lemma SameExecuting(sys: Sys, sys': Sys)
    requires Exclusive(sys) && sys'.inFlight == sys.inFlight
    requires forall a, id :: Executing(sys', a, id) <==> Executing(sys, a, id)
    ensures Exclusive(sys')
  {
  }

  lemma BeginsExecuting(sys: Sys, sys': Sys, a: nat, id: string)
    requires Exclusive(sys) && id !in sys.inFlight && sys'.inFlight == sys.inFlight + {id}
    requires forall x :: !Executing(sys, a, x)
    requires forall b, x :: Executing(sys', b, x) <==> Executing(sys, b, x) || (b == a && x == id)
    ensures Exclusive(sys')
  {
    forall x | x in sys'.inFlight ensures exists b :: Executing(sys', b, x) {
      if x == id {
        assert Executing(sys', a, id);
      } else {
        var b :| Executing(sys, b, x);
        assert Executing(sys', b, x);
      }
    }
  }

  lemma StopsExecuting(sys: Sys, sys': Sys, a: nat, id: string)
    requires Exclusive(sys) && Executing(sys, a, id) && sys'.inFlight == sys.inFlight - {id}
    requires forall b, x :: Executing(sys', b, x) <==> Executing(sys, b, x) && b != a
    ensures Exclusive(sys')
  {
  }

  lemma NextExclusive(next: Schedules, sys: Sys, act: Action)
    requires Exclusive(sys) && Enabled(sys, act)
    ensures Exclusive(Next(next, sys, act))
  {
    var sys' := Next(next, sys, act);
    if act.Create? || act.Remove? {
      SameExecuting(sys, sys');
    } else {
      var actor := ActorAt(sys, act.actor);
      assert forall b :: b != act.actor ==> ActorAt(sys', b) == ActorAt(sys, b);
      if act.Release? {
        StopsExecuting(sys, sys', act.actor, actor.job.id);
      } else if sys'.inFlight == sys.inFlight {
        SameExecuting(sys, sys');
      } else {
        var id := if act.Visit? then actor.todo[0].id else actor.job.id;
        BeginsExecuting(sys, sys', act.actor, id);
      }
    }
  }

  /** Under every interleaving of overlapping ticks, manual runs and store edits, no job is executing
      in two actors, and `in_flight` is exactly the jobs between acquire and release. */
  lemma {:induction false} MutualExclusion(next: Schedules, acts: seq<Action>)
    requires IsRun(next, acts)
    ensures Exclusive(Run(next, acts))
  {
    if acts != [] {
      var n := |acts| - 1;
      PrefixIsRun(next, acts, n);
      MutualExclusion(next, acts[..n]);
      assert EnabledAt(next, acts, n);
      NextExclusive(next, Run(next, acts[..n]), acts[n]);
    }
  }

  // ----- no resurrection -----

  lemma OnlyCreateAdds(next: Schedules, sys: Sys, act: Action, id: string)
    requires id !in sys.jobs && (act.Create? ==> act.job.id != id)
    ensures id !in Next(next, sys, act).jobs
  {
  }

  /** Store edits take effect and touch no other job. */
  lemma EditsTakeEffect(next: Schedules, sys: Sys, job: CronJob, t: int)
    ensures Next(next, sys, Create(t, job)).jobs == sys.jobs[job.id := job]
    ensures Next(next, sys, Remove(t, job.id)).jobs == sys.jobs - {job.id}
  {
  }

  lemma RunUnfold(next: Schedules, acts: seq<Action>, n: nat)
    requires n < |acts|
    ensures Run(next, acts[..n + 1]) == Next(next, Run(next, acts[..n]), acts[n])
  {
    assert acts[..n + 1][..n] == acts[..n];
  }

  /** A removed job stays removed until it is created again: no write-back brings it back. */
  lemma {:induction false} NoResurrection(next: Schedules, acts: seq<Action>, n: nat, m: nat, id: string)
    requires n <= m <= |acts| && id !in Run(next, acts[..n]).jobs
    requires forall i :: n <= i < m && acts[i].Create? ==> acts[i].job.id != id
    ensures id !in Run(next, acts[..m]).jobs
    decreases m - n
  {
    if n < m {
      RunUnfold(next, acts, n);
      OnlyCreateAdds(next, Run(next, acts[..n]), acts[n], id);
      NoResurrection(next, acts, n + 1, m, id);
    }
  }

  // ----- runs from any state -----

  lemma RunStep(next: Schedules, acts: seq<Action>, sys: Sys, act: Action, sys': Sys)
    requires IsRun(next, acts) && Run(next, acts) == sys && Enabled(sys, act) && Next(next, sys, act) == sys'
    ensures IsRun(next, acts + [act]) && Run(next, acts + [act]) == sys'
  {
    var longer := acts + [act];
    assert longer[..|acts|] == acts;
    forall i | 0 <= i < |longer| ensures EnabledAt(next, longer, i) {
      assert i < |acts| ==> EnabledAt(next, acts, i);
      assert longer[..i] == if i < |acts| then acts[..i] else acts;
    }
  }

  function RunFrom(next: Schedules, sys: Sys, acts: seq<Action>): Sys {
    if acts == [] then sys else Next(next, RunFrom(next, sys, acts[..|acts| - 1]), acts[|acts| - 1])
  }

  ghost predicate IsRunFrom(next: Schedules, sys: Sys, acts: seq<Action>) {
    acts == [] ||
    (IsRunFrom(next, sys, acts[..|acts| - 1]) && Enabled(RunFrom(next, sys, acts[..|acts| - 1]), acts[|acts| - 1]))
  }

  /** The steps may be taken from `sys` and lead to `sys'`. */
  ghost predicate Leads(next: Schedules, sys: Sys, acts: seq<Action>, sys': Sys) {
    IsRunFrom(next, sys, acts) && RunFrom(next, sys, acts) == sys'
  }

  lemma OneMoreAct(next: Schedules, sys: Sys, acts: seq<Action>, sys': Sys, act: Action)
    requires Leads(next, sys, acts, sys') && Enabled(sys', act)
    ensures Leads(next, sys, acts + [act], Next(next, sys', act))
  {
    assert (acts + [act])[..|acts|] == acts;
  }

  ghost predicate Reached(next: Schedules, acts: seq<Action>, sys: Sys) {
    IsRun(next, acts) && Run(next, acts) == sys
  }

  lemma ReachedNext(next: Schedules, acts: seq<Action>, sys: Sys, act: Action)
    requires Reached(next, acts, sys) && Enabled(sys, act)
    ensures Reached(next, acts + [act], Next(next, sys, act))
  {
    RunStep(next, acts, sys, act, Next(next, sys, act));
  }

  /** A run goes on from the state it has reached. */
  lemma {:induction false} GoesOn(next: Schedules, acts: seq<Action>, sys: Sys, more: seq<Action>)
    requires Reached(next, acts, sys) && IsRunFrom(next, sys, more)
    ensures Reached(next, acts + more, RunFrom(next, sys, more))
  {
    if more == [] {
      assert acts + more == acts;
    } else {
      var init, act := more[..|more| - 1], more[|more| - 1];
      GoesOn(next, acts, sys, init);
      ReachedNext(next, acts + init, RunFrom(next, sys, init), act);
      assert acts + more == acts + init + [act];
    }
  }

  /** Only the actor `a`, its tick's progress and the clock differ. */
  ghost predicate OthersKept(sys: Sys, sys': Sys, a: nat) {
    sys'.origin == sys.origin && forall c: nat :: c != a ==> ActorAt(sys', c) == ActorAt(sys, c)
  }

  function Later(a: int, b: int): int {
    if a < b then b else a
  }

  /** A tick visits a job that is not due, or is running already. */
  lemma TickSkips(next: Schedules, start: Sys, acts: seq<Action>, sys: Sys, a: nat, now: int, todo: seq<CronJob>)
    returns (acts': seq<Action>, sys': Sys)
    requires Leads(next, start, acts, sys) && ActorAt(sys, a) == Visiting(now, todo) && todo != []
    requires !Due(todo[0], now) || todo[0].id in sys.inFlight
    ensures Leads(next, start, acts', sys') && ActorAt(sys', a) == Visiting(now, todo[1..]) && OthersKept(sys, sys', a)
    ensures sys'.jobs == sys.jobs && sys'.inFlight == sys.inFlight && sys'.fired == sys.fired
  {
    var act := Visit(a, sys.clock);
    OneMoreAct(next, start, acts, sys, act);
    acts', sys' := acts + [act], Next(next, sys, act);
  }

  /** A tick begins to execute a due job. */
  lemma TickBegins(next: Schedules, start: Sys, acts: seq<Action>, sys: Sys, a: nat, now: int, todo: seq<CronJob>)
    returns (acts': seq<Action>, sys': Sys)
    requires Leads(next, start, acts, sys) && ActorAt(sys, a) == Visiting(now, todo) && todo != []
    requires Due(todo[0], now) && todo[0].id !in sys.inFlight
    ensures Leads(next, start, acts', sys') && ActorAt(sys', a) == TickRun(now, todo[0], todo[1..]) && OthersKept(sys, sys', a)
    ensures sys'.jobs == sys.jobs && sys'.inFlight == sys.inFlight + {todo[0].id}
    ensures sys'.fired == sys.fired + [Fired(todo[0].id, todo[0].nextRun.value)]
  {
    var act := Visit(a, sys.clock);
    OneMoreAct(next, start, acts, sys, act);
    acts', sys' := acts + [act], Next(next, sys, act);
  }

  lemma TickReleases(next: Schedules, start: Sys, acts: seq<Action>, sys: Sys, a: nat, now: int, job: CronJob, todo: seq<CronJob>)
    returns (acts': seq<Action>, sys': Sys)
    requires Leads(next, start, acts, sys) && ActorAt(sys, a) == TickRun(now, job, todo)
    ensures Leads(next, start, acts', sys') && ActorAt(sys', a) == TickRan(now, job, todo) && OthersKept(sys, sys', a)
    ensures sys'.jobs == sys.jobs && sys'.inFlight == sys.inFlight - {job.id} && sys'.fired == sys.fired
  {
    var act := Release(a, sys.clock);
    OneMoreAct(next, start, acts, sys, act);
    acts', sys' := acts + [act], Next(next, sys, act);
  }

  lemma TickWritesBack(next: Schedules, start: Sys, acts: seq<Action>, sys: Sys, a: nat, now: int, job: CronJob,
                       todo: seq<CronJob>, clock: int)
    returns (acts': seq<Action>, sys': Sys)
    requires Leads(next, start, acts, sys) && ActorAt(sys, a) == TickRan(now, job, todo) && now <= clock
    ensures Leads(next, start, acts', sys') && ActorAt(sys', a) == Visiting(now, todo) && OthersKept(sys, sys', a)
    ensures sys'.jobs == WrittenBack(next, sys.jobs, job, now, clock) && sys'.inFlight == sys.inFlight && sys'.fired == sys.fired
  {
    var act := WriteBack(a, Later(sys.clock, clock), clock);
    OneMoreAct(next, start, acts, sys, act);
    acts', sys' := acts + [act], Next(next, sys, act);
  }

  /** A tick visits, executes, releases and writes back a due job. */
  lemma TickRuns(next: Schedules, start: Sys, acts: seq<Action>, sys: Sys, a: nat, now: int, todo: seq<CronJob>, clock: int)
    returns (acts': seq<Action>, sys': Sys)
    requires Leads(next, start, acts, sys) && ActorAt(sys, a) == Visiting(now, todo) && todo != []
    requires Due(todo[0], now) && todo[0].id !in sys.inFlight && now <= clock
    ensures Leads(next, start, acts', sys') && ActorAt(sys', a) == Visiting(now, todo[1..]) && OthersKept(sys, sys', a)
    ensures sys'.jobs == WrittenBack(next, sys.jobs, todo[0], now, clock) && sys'.inFlight == sys.inFlight
    ensures sys'.fired == sys.fired + [Fired(todo[0].id, todo[0].nextRun.value)]
  {
    acts', sys' := TickBegins(next, start, acts, sys, a, now, todo);
    acts', sys' := TickReleases(next, start, acts', sys', a, now, todo[0], todo[1..]);
    acts', sys' := TickWritesBack(next, start, acts', sys', a, now, todo[0], todo[1..], clock);
  }
}
