/**
 The scheduler when ticks do not overlap, over whole runs, as with the single `cron_loop`: other actors
 may still run jobs by hand, create and remove them at any point.
 */
module CronLoop {
  import opened CronJobs
  import opened CronProtocol
  import opened CronStore
  import opened Wrappers

  /** A tick begins only when no tick is under way. */
  ghost predicate InTurn(sys: Sys, act: Action) {
    act.Snapshot? ==> forall a: nat :: !InTick(ActorAt(sys, a))
  }

  ghost predicate InTurnAt(next: Schedules, acts: seq<Action>, i: nat)
    requires i < |acts|
  {
    InTurn(Run(next, acts[..i]), acts[i])
  }

  /** A run in which ticks do not overlap. */
  ghost predicate IsSerialRun(next: Schedules, acts: seq<Action>) {
    IsRun(next, acts) && forall i :: 0 <= i < |acts| ==> InTurnAt(next, acts, i)
  }

  // ----- the invariant -----

  function Todo(actor: Actor): seq<CronJob> {
    if actor.Visiting? || actor.TickRun? || actor.TickRan? then actor.todo else []
  }

  predicate InTick(actor: Actor) {
    actor.Visiting? || actor.TickRun? || actor.TickRan?
  }

  predicate HasJob(actor: Actor) {
    actor.TickRun? || actor.TickRan?
  }

  /** The same job apart from when it runs. */
  predicate SameJob(a: CronJob, b: CronJob) {
    a.id == b.id && a.schedule == b.schedule && a.at == b.at && a.enabled == b.enabled
  }

  /** `job` descends from the record its id was created with, and has a next run only if that had. */
  ghost predicate FromOrigin(origin: JobMap, job: CronJob) {
    && job.id in origin && SameJob(job, origin[job.id])
    && (origin[job.id].nextRun.None? ==> job.nextRun.None?)
  }

  /** If the job runs next at all, then strictly after `instant`, and it is not a one-shot. */
  predicate RunsAfter(job: CronJob, instant: int) {
    !IsOneShot(job) && (job.nextRun.Some? ==> job.nextRun.value > instant)
  }

  ghost predicate JobsOk(sys: Sys) {
    && KeyedById(sys.jobs)
    && (forall id :: id in sys.jobs ==> FromOrigin(sys.origin, sys.jobs[id]))
    && (forall id :: id in sys.origin ==> sys.origin[id].id == id)
  }

  /** A snapshot entry is current unless the job has been removed. */
  ghost predicate Current(sys: Sys, job: CronJob) {
    FromOrigin(sys.origin, job) && (job.id in sys.jobs ==> sys.jobs[job.id] == job)
  }

  ghost predicate TodoOk(sys: Sys, todo: seq<CronJob>) {
    && DistinctIds(todo)
    && (forall t :: t in todo ==> Current(sys, t))
    && (forall t, e :: t in todo && e in sys.fired && e.id == t.id ==> RunsAfter(t, e.instant))
  }

  ghost predicate HeldOk(sys: Sys, actor: Actor) {
    HasJob(actor) ==>
      && Current(sys, actor.job) && Due(actor.job, actor.now)
      && (forall t :: t in actor.todo ==> t.id != actor.job.id)
      && (forall e :: e in sys.fired && e.id == actor.job.id ==> e.instant <= actor.job.nextRun.value)
  }

  /** What has fired: jobs enabled and scheduled at creation, at strictly increasing instants; a stored
      job that has fired, and is not just being handled, is recurring and next runs later. */
  ghost predicate FiredOk(sys: Sys, actor: Actor) {
    && (forall e :: e in sys.fired ==> e.id in sys.origin && sys.origin[e.id].enabled && sys.origin[e.id].nextRun.Some?)
    && (forall e :: e in sys.fired && e.id in sys.jobs && !(HasJob(actor) && actor.job.id == e.id)
          ==> RunsAfter(sys.jobs[e.id], e.instant))
    && (forall i, j :: 0 <= i < j < |sys.fired| && sys.fired[i].id == sys.fired[j].id
          ==> sys.fired[i].instant < sys.fired[j].instant && !IsOneShot(sys.origin[sys.fired[i].id]))
  }

  /** `loop` is the actor whose tick is under way, if any is. */
  ghost predicate LoopInv(sys: Sys, loop: nat) {
    var actor := ActorAt(sys, loop);
    && JobsOk(sys) && TodoOk(sys, Todo(actor)) && HeldOk(sys, actor) && FiredOk(sys, actor)
  }

  /** No other actor is inside a tick. */
  ghost predicate OnlyLoopTicks(sys: Sys, loop: nat) {
    forall a: nat :: a != loop ==> !InTick(ActorAt(sys, a))
  }

  lemma NextOnlyLoopTicks(next: Schedules, sys: Sys, act: Action, loop: nat)
    requires OnlyLoopTicks(sys, loop) && Enabled(sys, act) && (act.Snapshot? ==> act.actor == loop)
    ensures OnlyLoopTicks(Next(next, sys, act), loop)
  {
    forall a: nat | a != loop ensures !InTick(ActorAt(Next(next, sys, act), a)) {
      assert !InTick(ActorAt(sys, a));
    }
  }

  // ----- steps -----

  lemma SnapshotKeeps(next: Schedules, sys: Sys, act: Action, loop: nat)
    requires LoopInv(sys, loop) && Enabled(sys, act) && act.Snapshot? && act.actor == loop
    ensures LoopInv(Next(next, sys, act), loop)
  {
    var sys' := Next(next, sys, act);
    forall t | t in act.order ensures Current(sys', t) {
      assert FromOrigin(sys.origin, sys.jobs[t.id]);
    }
  }

  lemma VisitSkips(next: Schedules, sys: Sys, act: Action, loop: nat)
    requires LoopInv(sys, loop) && Enabled(sys, act) && act.Visit?
    requires var actor := ActorAt(sys, loop); act.actor == loop && (!Due(actor.todo[0], actor.now) || actor.todo[0].id in sys.inFlight)
    ensures LoopInv(Next(next, sys, act), loop)
  {
    var sys', todo := Next(next, sys, act), ActorAt(sys, loop).todo;
    assert forall t :: t in todo[1..] ==> t in todo && Current(sys, t);
  }

  /** The loop fires `job`, the first it has left to visit. */
  ghost predicate Fires(sys: Sys, sys': Sys, loop: nat, job: CronJob, rest: seq<CronJob>, now: int) {
    && sys'.jobs == sys.jobs && sys'.origin == sys.origin
    && sys'.fired == sys.fired + [Fired(job.id, job.nextRun.GetOr(0))]
    && ActorAt(sys, loop) == Visiting(now, [job] + rest) && ActorAt(sys', loop) == TickRun(now, job, rest)
    && Due(job, now)
  }

  lemma FireKeepsTodo(sys: Sys, sys': Sys, loop: nat, job: CronJob, rest: seq<CronJob>, now: int)
    requires LoopInv(sys, loop) && Fires(sys, sys', loop, job, rest, now)
    ensures TodoOk(sys', rest) && HeldOk(sys', ActorAt(sys', loop))
  {
    var todo := [job] + rest;
    assert todo[0] == job && forall k :: 0 <= k < |rest| ==> rest[k] == todo[k + 1];
    assert Current(sys, job);
    forall t | t in rest ensures Current(sys', t) && t.id != job.id {
      assert t in todo && Current(sys, t);
    }
  }

  lemma FireKeepsFired(sys: Sys, sys': Sys, loop: nat, job: CronJob, rest: seq<CronJob>, now: int)
    requires LoopInv(sys, loop) && Fires(sys, sys', loop, job, rest, now)
    ensures FiredOk(sys', ActorAt(sys', loop))
  {
    assert job in [job] + rest && Current(sys, job);
  }

  lemma VisitFires(next: Schedules, sys: Sys, act: Action, loop: nat)
    requires LoopInv(sys, loop) && Enabled(sys, act) && act.Visit?
    requires var actor := ActorAt(sys, loop); act.actor == loop && Due(actor.todo[0], actor.now) && actor.todo[0].id !in sys.inFlight
    ensures LoopInv(Next(next, sys, act), loop)
  {
    var sys', actor := Next(next, sys, act), ActorAt(sys, loop);
    var job, rest := actor.todo[0], actor.todo[1..];
    assert actor.todo == [job] + rest;
    FireKeepsTodo(sys, sys', loop, job, rest, actor.now);
    FireKeepsFired(sys, sys', loop, job, rest, actor.now);
  }

  lemma WriteBackKeeps(next: Schedules, sys: Sys, act: Action, loop: nat)
    requires StrictlyLater(next) && LoopInv(sys, loop) && Enabled(sys, act) && act.WriteBack? && act.actor == loop
    ensures LoopInv(Next(next, sys, act), loop)
  {
    var sys', actor := Next(next, sys, act), ActorAt(sys, loop);
    var job := actor.job;
    NextRunIsLater(next, job, act.computedAt);
    forall t | t in actor.todo ensures Current(sys', t) {
      assert Current(sys, t);
    }
    assert Current(sys, job);
    forall e | e in sys'.fired && e.id in sys'.jobs ensures RunsAfter(sys'.jobs[e.id], e.instant) {
      if e.id == job.id {
        assert e.instant <= job.nextRun.value <= actor.now <= act.computedAt;
      }
    }
  }

  /** The actor is as far in its tick as before. */
  predicate SameTick(a: Actor, b: Actor) {
    Todo(a) == Todo(b) && (HasJob(a) <==> HasJob(b)) && (HasJob(a) ==> a.job == b.job && a.now == b.now)
  }

  lemma SameTickKeeps(sys: Sys, sys': Sys, loop: nat)
    requires LoopInv(sys, loop)
    requires sys'.jobs == sys.jobs && sys'.origin == sys.origin && sys'.fired == sys.fired
    requires SameTick(ActorAt(sys, loop), ActorAt(sys', loop))
    ensures LoopInv(sys', loop)
  {
  }

  lemma ActorKeeps(next: Schedules, sys: Sys, act: Action, loop: nat)
    requires LoopInv(sys, loop) && Enabled(sys, act) && (act.Release? || act.EndTick? || act.Fetch? || act.Acquire?)
    ensures LoopInv(Next(next, sys, act), loop)
  {
    SameTickKeeps(sys, Next(next, sys, act), loop);
  }

  lemma CreateKeeps(next: Schedules, sys: Sys, act: Action, loop: nat)
    requires LoopInv(sys, loop) && Enabled(sys, act) && act.Create?
    ensures LoopInv(Next(next, sys, act), loop)
  {
    var sys', actor := Next(next, sys, act), ActorAt(sys, loop);
    CreateKeepsJobs(sys, sys', act.job);
    forall t | t in Todo(actor) ensures Current(sys', t) {
      assert Current(sys, t);
    }
  }

  /** A record under a new id has been stored. */
  ghost predicate Stores(sys: Sys, sys': Sys, job: CronJob) {
    && job.id !in sys.origin && sys'.fired == sys.fired
    && sys'.jobs == sys.jobs[job.id := job] && sys'.origin == sys.origin[job.id := job]
  }

  lemma CreateKeepsJobs(sys: Sys, sys': Sys, job: CronJob)
    requires JobsOk(sys) && Stores(sys, sys', job)
    ensures JobsOk(sys')
  {
  }

  lemma RemoveKeeps(next: Schedules, sys: Sys, act: Action, loop: nat)
    requires LoopInv(sys, loop) && Enabled(sys, act) && act.Remove?
    ensures LoopInv(Next(next, sys, act), loop)
  {
    var sys' := Next(next, sys, act);
    forall t | t in Todo(ActorAt(sys, loop)) ensures Current(sys', t) {
      assert Current(sys, t);
    }
  }

  /** Between ticks any actor may be the next to tick. */
  lemma TakeTurn(sys: Sys, a: nat, b: nat)
    requires LoopInv(sys, a) && forall c: nat :: !InTick(ActorAt(sys, c))
    ensures LoopInv(sys, b) && OnlyLoopTicks(sys, b)
  {
    assert !InTick(ActorAt(sys, a)) && !InTick(ActorAt(sys, b));
  }

  lemma NextKeeps(next: Schedules, sys: Sys, act: Action, loop: nat)
    requires StrictlyLater(next) && LoopInv(sys, loop) && OnlyLoopTicks(sys, loop) && Enabled(sys, act)
    requires act.Snapshot? ==> act.actor == loop
    ensures LoopInv(Next(next, sys, act), loop) && OnlyLoopTicks(Next(next, sys, act), loop)
  {
    NextOnlyLoopTicks(next, sys, act, loop);
    match act {
      case Snapshot(_, _, _, _) => SnapshotKeeps(next, sys, act, loop);
      case Visit(a, _) =>
        assert a == loop by {
          assert InTick(ActorAt(sys, a));
        }
        var actor := ActorAt(sys, loop);
        if !Due(actor.todo[0], actor.now) || actor.todo[0].id in sys.inFlight {
          VisitSkips(next, sys, act, loop);
        } else {
          VisitFires(next, sys, act, loop);
        }
      case WriteBack(a, _, _) =>
        assert a == loop by {
          assert InTick(ActorAt(sys, a));
        }
        WriteBackKeeps(next, sys, act, loop);
      case Release(_, _) => ActorKeeps(next, sys, act, loop);
      case EndTick(_, _) => ActorKeeps(next, sys, act, loop);
      case Fetch(_, _, _) => ActorKeeps(next, sys, act, loop);
      case Acquire(_, _) => ActorKeeps(next, sys, act, loop);
      case Create(_, _) => CreateKeeps(next, sys, act, loop);
      case Remove(_, _) => RemoveKeeps(next, sys, act, loop);
    }
  }

  lemma PrefixIsSerial(next: Schedules, acts: seq<Action>, n: nat)
    requires IsSerialRun(next, acts) && n <= |acts|
    ensures IsSerialRun(next, acts[..n])
  {
    PrefixIsRun(next, acts, n);
    forall i | 0 <= i < n ensures InTurnAt(next, acts[..n], i) {
      assert InTurnAt(next, acts, i) && acts[..n][..i] == acts[..i];
    }
  }

  lemma {:induction false} RunKeeps(next: Schedules, acts: seq<Action>) returns (loop: nat)
    requires StrictlyLater(next) && IsSerialRun(next, acts)
    ensures LoopInv(Run(next, acts), loop) && OnlyLoopTicks(Run(next, acts), loop)
  {
    if acts == [] {
      loop := 0;
    } else {
      var n := |acts| - 1;
      var sys, act := Run(next, acts[..n]), acts[n];
      PrefixIsSerial(next, acts, n);
      loop := RunKeeps(next, acts[..n]);
      assert EnabledAt(next, acts, n) && InTurnAt(next, acts, n);
      if act.Snapshot? {
        TakeTurn(sys, loop, act.actor);
        loop := act.actor;
      }
      NextKeeps(next, sys, act, loop);
    }
  }

  /** A run in which one actor alone takes snapshots, as `cron_loop` does, is serial. */
  lemma SingleLoopIsSerial(next: Schedules, acts: seq<Action>, loop: nat)
    requires IsRun(next, acts) && forall i :: 0 <= i < |acts| && acts[i].Snapshot? ==> acts[i].actor == loop
    ensures IsSerialRun(next, acts)
  {
    forall i | 0 <= i < |acts| ensures InTurnAt(next, acts, i) {
      SingleLoopTicks(next, acts, i, loop);
      assert EnabledAt(next, acts, i);
    }
  }

  lemma {:induction false} SingleLoopTicks(next: Schedules, acts: seq<Action>, n: nat, loop: nat)
    requires IsRun(next, acts) && forall i :: 0 <= i < |acts| && acts[i].Snapshot? ==> acts[i].actor == loop
    requires n <= |acts|
    ensures OnlyLoopTicks(Run(next, acts[..n]), loop)
  {
    if n > 0 {
      SingleLoopTicks(next, acts, n - 1, loop);
      assert EnabledAt(next, acts, n - 1);
      NextOnlyLoopTicks(next, Run(next, acts[..n - 1]), acts[n - 1], loop);
      RunUnfold(next, acts, n - 1);
    }
  }

  // ----- what follows for whole runs -----

  /** A one-shot is executed by ticks at most once, and a recurring job never twice for one instant: the
      instants it fires for strictly increase. */
  lemma FiresInOrder(next: Schedules, acts: seq<Action>, i: nat, j: nat)
    requires StrictlyLater(next) && IsSerialRun(next, acts)
    requires var fired := Run(next, acts).fired; i < j < |fired| && fired[i].id == fired[j].id
    ensures var sys := Run(next, acts);
            && sys.fired[i].instant < sys.fired[j].instant
            && sys.fired[i].id in sys.origin && !IsOneShot(sys.origin[sys.fired[i].id])
  {
    var loop := RunKeeps(next, acts);
    assert Run(next, acts).fired[i] in Run(next, acts).fired;
  }

  /** Once the tick that executed a one-shot has written back, the job is gone from memory. */
  lemma FiredOneShotIsGone(next: Schedules, acts: seq<Action>, e: Fired)
    requires StrictlyLater(next) && IsSerialRun(next, acts) && e in Run(next, acts).fired
    requires forall a: nat :: !(HasJob(ActorAt(Run(next, acts), a)) && ActorAt(Run(next, acts), a).job.id == e.id)
    ensures var sys := Run(next, acts); e.id in sys.origin && (IsOneShot(sys.origin[e.id]) ==> e.id !in sys.jobs)
  {
    var loop := RunKeeps(next, acts);
    var sys := Run(next, acts);
    if e.id in sys.jobs {
      assert FromOrigin(sys.origin, sys.jobs[e.id]);
    }
  }
}
