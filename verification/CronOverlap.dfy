/**
 The scheduler with any number of ticks under way at once, as its methods allow: what holds in every
 interleaving, and exactly when a one-shot can be executed again.
 */
module CronOverlap {
  import opened CronJobs
  import opened CronLoop
  import opened CronProtocol
  import opened CronStore
  import opened Wrappers

  // ----- what never fires -----

  /** All jobs the actor holds descend from the records they were created with. */
  ghost predicate HoldsCreated(origin: JobMap, actor: Actor) {
    && (forall t :: t in Todo(actor) ==> FromOrigin(origin, t))
    && (HasJob(actor) ==> FromOrigin(origin, actor.job) && actor.job.enabled && actor.job.nextRun.Some?)
  }

  ghost predicate FiredCreated(sys: Sys) {
    forall e :: e in sys.fired ==> e.id in sys.origin && sys.origin[e.id].enabled && sys.origin[e.id].nextRun.Some?
  }

  ghost predicate OriginInv(sys: Sys) {
    JobsOk(sys) && FiredCreated(sys) && forall a: nat :: HoldsCreated(sys.origin, ActorAt(sys, a))
  }

  lemma FromOriginStays(next: Schedules, sys: Sys, act: Action, job: CronJob)
    requires Enabled(sys, act) && FromOrigin(sys.origin, job)
    ensures FromOrigin(Next(next, sys, act).origin, job)
  {
  }

  lemma NextJobs(next: Schedules, sys: Sys, act: Action)
    requires OriginInv(sys) && Enabled(sys, act)
    ensures JobsOk(Next(next, sys, act))
  {
    var sys' := Next(next, sys, act);
    if act.Create? {
      CreateKeepsJobs(sys, sys', act.job);
    } else if act.WriteBack? {
      assert HoldsCreated(sys.origin, ActorAt(sys, act.actor));
    }
  }

  lemma NextActor(next: Schedules, sys: Sys, act: Action, a: nat)
    requires OriginInv(sys) && Enabled(sys, act)
    ensures HoldsCreated(Next(next, sys, act).origin, ActorAt(Next(next, sys, act), a))
  {
    var sys' := Next(next, sys, act);
    var before, after := ActorAt(sys, a), ActorAt(sys', a);
    assert HoldsCreated(sys.origin, before);
    forall t | t in Todo(after) ensures FromOrigin(sys'.origin, t) {
      if t in Todo(before) {
        FromOriginStays(next, sys, act, t);
      } else {
        assert act.Snapshot? && t in act.order;
      }
    }
    if HasJob(after) {
      assert after.job in Todo(before) || (HasJob(before) && after.job == before.job);
      FromOriginStays(next, sys, act, after.job);
    }
  }

  lemma NextFired(next: Schedules, sys: Sys, act: Action)
    requires OriginInv(sys) && Enabled(sys, act)
    ensures FiredCreated(Next(next, sys, act))
  {
    if act.Visit? {
      var actor := ActorAt(sys, act.actor);
      assert HoldsCreated(sys.origin, actor);
      assert actor.todo[0] in Todo(actor);
    }
  }

  lemma {:induction false} RunOrigin(next: Schedules, acts: seq<Action>)
    requires IsRun(next, acts)
    ensures OriginInv(Run(next, acts))
  {
    if acts != [] {
      var n := |acts| - 1;
      var sys, act := Run(next, acts[..n]), acts[n];
      PrefixIsRun(next, acts, n);
      RunOrigin(next, acts[..n]);
      assert EnabledAt(next, acts, n);
      NextJobs(next, sys, act);
      NextFired(next, sys, act);
      forall a: nat ensures HoldsCreated(Next(next, sys, act).origin, ActorAt(Next(next, sys, act), a)) {
        NextActor(next, sys, act, a);
      }
    }
  }

  /** In every interleaving a job that was created disabled, or without a next run, never fires. */
  lemma NeverFires(next: Schedules, acts: seq<Action>, e: Fired)
    requires IsRun(next, acts) && e in Run(next, acts).fired
    ensures var sys := Run(next, acts);
            e.id in sys.origin && sys.origin[e.id].enabled && sys.origin[e.id].nextRun.Some?
  {
    RunOrigin(next, acts);
  }

  /** After `n` steps the id stands for the record it was created with. */
  ghost predicate Originates(next: Schedules, acts: seq<Action>, n: nat, job: CronJob)
    requires n <= |acts|
  {
    var origin := Run(next, acts[..n]).origin;
    job.id in origin && origin[job.id] == job
  }

  lemma OriginStep(next: Schedules, acts: seq<Action>, n: nat, job: CronJob)
    requires n < |acts| && EnabledAt(next, acts, n)
    requires Originates(next, acts, n, job) || acts[n] == Create(acts[n].time, job)
    ensures Originates(next, acts, n + 1, job)
  {
    RunUnfold(next, acts, n);
    if Originates(next, acts, n, job) {
    }
  }

  lemma {:induction false} OriginStays(next: Schedules, acts: seq<Action>, n: nat, m: nat, job: CronJob)
    requires IsRun(next, acts) && n <= m <= |acts| && Originates(next, acts, n, job)
    ensures Originates(next, acts, m, job)
    decreases m - n
  {
    if n < m {
      assert EnabledAt(next, acts, n);
      OriginStep(next, acts, n, job);
      OriginStays(next, acts, n + 1, m, job);
    }
  }

  lemma CreateStores(next: Schedules, acts: seq<Action>, k: nat)
    requires IsRun(next, acts) && k < |acts| && acts[k].Create?
    ensures Originates(next, acts, |acts|, acts[k].job)
  {
    assert EnabledAt(next, acts, k);
    OriginStep(next, acts, k, acts[k].job);
    OriginStays(next, acts, k + 1, |acts|, acts[k].job);
  }

  lemma CreatedWithout(next: Schedules, acts: seq<Action>, k: nat, e: Fired)
    requires IsRun(next, acts) && k < |acts| && acts[k].Create?
    requires !acts[k].job.enabled || acts[k].job.nextRun.None?
    ensures e in Run(next, acts).fired ==> e.id != acts[k].job.id
  {
    CreateStores(next, acts, k);
    assert acts[..|acts|] == acts;
    if e in Run(next, acts).fired {
      NeverFires(next, acts, e);
    }
  }

  /** The request asks for a disabled job, a webhook-only job, or a one-shot whose time has passed when it
      is stored, which includes those that validation accepts up to a minute late. */
  predicate NeverDue(req: Request, later: int) {
    || !req.enabled
    || (req.at.None? && req.webhookSecret.Some? && req.schedule == WEBHOOK)
    || (req.at.Some? && req.at.value <= later)
  }

  /** In every interleaving such jobs never fire on a tick. */
  lemma SuchJobsNeverFire(next: Schedules, valid: string -> bool, req: Request, id: string, now: int, later: int,
                          acts: seq<Action>, k: nat, e: Fired)
    requires StrictlyLater(next) && IsRun(next, acts) && now <= later
    requires k < |acts| && acts[k].Create? && Some(acts[k].job) == CreateJob(next, valid, req, id, now, later)
    requires NeverDue(req, later)
    ensures e in Run(next, acts).fired ==> e.id != id
  {
    CreatedOneShot(next, valid, req, id, now, later);
    NextRunIsLater(next, acts[k].job, later);
    assert acts[k].job.nextRun == NextRun(next, acts[k].job.(nextRun := None), later);
    CreatedWithout(next, acts, k, e);
  }

  // ----- ticks and their snapshots -----

  /** The latest snapshot the actor has taken before step `n`. */
  function LastSnapshot(acts: seq<Action>, n: nat, b: nat): Option<nat>
    requires n <= |acts|
  {
    if n == 0 then None
    else if acts[n - 1].Snapshot? && acts[n - 1].actor == b then Some(n - 1)
    else LastSnapshot(acts, n - 1, b)
  }

  /** What the actor still has to do in its tick was in the snapshot. */
  ghost predicate StemsFrom(order: seq<CronJob>, actor: Actor) {
    (forall t :: t in Todo(actor) ==> t in order) && (HasJob(actor) ==> actor.job in order)
  }

  lemma TickStep(next: Schedules, sys: Sys, act: Action, b: nat, order: seq<CronJob>)
    requires Enabled(sys, act)
    ensures act.Snapshot? && act.actor == b ==> StemsFrom(act.order, ActorAt(Next(next, sys, act), b))
    ensures !(act.Snapshot? && act.actor == b) && InTick(ActorAt(Next(next, sys, act), b)) ==>
              InTick(ActorAt(sys, b)) && (StemsFrom(order, ActorAt(sys, b)) ==> StemsFrom(order, ActorAt(Next(next, sys, act), b)))
  {
  }

  /** If the actor is in a tick after `n` steps, it has taken a snapshot and its tick stems from that. */
  ghost predicate Stems(next: Schedules, acts: seq<Action>, n: nat, b: nat)
    requires n <= |acts|
  {
    var actor, s := ActorAt(Run(next, acts[..n]), b), LastSnapshot(acts, n, b);
    InTick(actor) ==> s.Some? && s.value < n && acts[s.value].Snapshot? && StemsFrom(acts[s.value].order, actor)
  }

  lemma StemsNext(next: Schedules, acts: seq<Action>, n: nat, b: nat)
    requires n < |acts| && EnabledAt(next, acts, n) && Stems(next, acts, n, b)
    ensures Stems(next, acts, n + 1, b)
  {
    var sys, act, s := Run(next, acts[..n]), acts[n], LastSnapshot(acts, n, b);
    RunUnfold(next, acts, n);
    TickStep(next, sys, act, b, if s.Some? && s.value < n && acts[s.value].Snapshot? then acts[s.value].order else []);
  }

  lemma {:induction false} TickStemsFrom(next: Schedules, acts: seq<Action>, n: nat, b: nat)
    requires IsRun(next, acts) && n <= |acts|
    ensures Stems(next, acts, n, b)
  {
    if n > 0 {
      TickStemsFrom(next, acts, n - 1, b);
      assert EnabledAt(next, acts, n - 1);
      StemsNext(next, acts, n - 1, b);
    }
  }

  /** Step `n` begins an execution of the job in the tick of `b`. */
  ghost predicate FiresAt(next: Schedules, acts: seq<Action>, n: nat, b: nat, id: string) {
    n < |acts| && acts[n].Visit? && acts[n].actor == b &&
    var sys := Run(next, acts[..n]);
    var actor := ActorAt(sys, b);
    actor.Visiting? && actor.todo != [] && actor.todo[0].id == id && Due(actor.todo[0], actor.now) && id !in sys.inFlight
  }

  // ----- a tick deals with every due job -----

  /** Step `v` visits the job in a tick that began at `now`: if the job is due it is executed, unless it is
      running already. */
  ghost predicate Handles(next: Schedules, acts: seq<Action>, v: nat, b: nat, j: CronJob, now: int)
    requires v < |acts|
  {
    acts[v].Visit? && acts[v].actor == b &&
    var before, after := Run(next, acts[..v]), Run(next, acts[..v + 1]);
    j.enabled && j.nextRun.Some? && j.nextRun.value <= now && j.id !in before.inFlight ==>
      after.fired == before.fired + [Fired(j.id, j.nextRun.value)]
  }

  ghost predicate Handled(next: Schedules, acts: seq<Action>, s: nat, n: nat, b: nat, j: CronJob, now: int) {
    exists v: nat :: s < v < n && v < |acts| && Handles(next, acts, v, b, j, now)
  }

  /** In a tick every job of the snapshot is still to be visited or has been handled. */
  ghost predicate Covered(next: Schedules, acts: seq<Action>, n: nat, b: nat, j: CronJob)
    requires n <= |acts|
  {
    var actor, s := ActorAt(Run(next, acts[..n]), b), LastSnapshot(acts, n, b);
    InTick(actor) ==>
      && s.Some? && s.value < n && acts[s.value].Snapshot? && actor.now == acts[s.value].now
      && (j in acts[s.value].order ==> j in Todo(actor) || Handled(next, acts, s.value, n, b, j, actor.now))
  }

  lemma VisitHandles(next: Schedules, acts: seq<Action>, n: nat, b: nat)
    requires n < |acts| && EnabledAt(next, acts, n) && acts[n].Visit? && acts[n].actor == b
    ensures var actor := ActorAt(Run(next, acts[..n]), b);
            actor.Visiting? && actor.todo != [] && Handles(next, acts, n, b, actor.todo[0], actor.now)
  {
    RunUnfold(next, acts, n);
  }

  /** How a step changes what is left of a tick. */
  lemma TodoAfter(next: Schedules, sys: Sys, act: Action, b: nat)
    requires Enabled(sys, act) && InTick(ActorAt(Next(next, sys, act), b)) && !(act.Snapshot? && act.actor == b)
    ensures var before, after := ActorAt(sys, b), ActorAt(Next(next, sys, act), b);
            && InTick(before) && after.now == before.now
            && (if act.Visit? && act.actor == b then before.todo != [] && after.todo == before.todo[1..] else after.todo == before.todo)
  {
  }

  lemma CoveredNext(next: Schedules, acts: seq<Action>, n: nat, b: nat, j: CronJob)
    requires n < |acts| && EnabledAt(next, acts, n) && Covered(next, acts, n, b, j)
    ensures Covered(next, acts, n + 1, b, j)
  {
    var sys, act := Run(next, acts[..n]), acts[n];
    RunUnfold(next, acts, n);
    var before, after := ActorAt(sys, b), ActorAt(Next(next, sys, act), b);
    if InTick(after) && !(act.Snapshot? && act.actor == b) {
      TodoAfter(next, sys, act, b);
      var s := LastSnapshot(acts, n, b).value;
      if j in before.todo && j !in after.todo {
        VisitHandles(next, acts, n, b);
        assert before.todo == [before.todo[0]] + after.todo;
        assert Handled(next, acts, s, n + 1, b, j, before.now);
      } else if Handled(next, acts, s, n, b, j, before.now) {
        var v: nat :| s < v < n && v < |acts| && Handles(next, acts, v, b, j, before.now);
        assert Handled(next, acts, s, n + 1, b, j, before.now);
      }
    }
  }

  lemma {:induction false} RunCovers(next: Schedules, acts: seq<Action>, n: nat, b: nat, j: CronJob)
    requires IsRun(next, acts) && n <= |acts|
    ensures Covered(next, acts, n, b, j)
  {
    if n > 0 {
      RunCovers(next, acts, n - 1, b, j);
      assert EnabledAt(next, acts, n - 1);
      CoveredNext(next, acts, n - 1, b, j);
    }
  }

  /** In every interleaving, when a tick ends each job of its snapshot that was enabled and due at the time
      of the tick has been executed in it, or was running already when the tick came to it. */
  lemma EveryDueJobFires(next: Schedules, acts: seq<Action>, n: nat, b: nat, j: CronJob)
    requires IsRun(next, acts) && n < |acts| && acts[n].EndTick? && acts[n].actor == b
    ensures LastSnapshot(acts, n, b).Some?
    ensures var s := LastSnapshot(acts, n, b).value;
            && s < n && acts[s].Snapshot?
            && (j in acts[s].order && j.enabled && j.nextRun.Some? && j.nextRun.value <= acts[s].now ==>
                exists v: nat ::
                  && s < v < n && acts[v].Visit? && acts[v].actor == b
                  && (|| j.id in Run(next, acts[..v]).inFlight
                      || Run(next, acts[..v + 1]).fired == Run(next, acts[..v]).fired + [Fired(j.id, j.nextRun.value)]))
  {
    RunCovers(next, acts, n, b, j);
    assert EnabledAt(next, acts, n);
    var s := LastSnapshot(acts, n, b).value;
    if j in acts[s].order {
      var v: nat :| s < v < n && v < |acts| && Handles(next, acts, v, b, j, acts[s].now);
    }
  }

  /** And only such jobs are executed: whatever a step adds to the executions is an enabled job of the
      snapshot, due at the time of the tick and not running. */
  lemma OnlyDueJobsFire(next: Schedules, acts: seq<Action>, n: nat) returns (b: nat, j: CronJob)
    requires IsRun(next, acts) && n < |acts| && Run(next, acts[..n + 1]).fired != Run(next, acts[..n]).fired
    ensures LastSnapshot(acts, n, b).Some?
    ensures var s := LastSnapshot(acts, n, b).value;
            && s < n && acts[s].Snapshot? && j in acts[s].order
            && j.enabled && j.nextRun.Some? && j.nextRun.value <= acts[s].now && j.id !in Run(next, acts[..n]).inFlight
            && Run(next, acts[..n + 1]).fired == Run(next, acts[..n]).fired + [Fired(j.id, j.nextRun.value)]
  {
    var sys := Run(next, acts[..n]);
    assert EnabledAt(next, acts, n);
    RunUnfold(next, acts, n);
    assert acts[n].Visit?;
    b := acts[n].actor;
    j := ActorAt(sys, b).todo[0];
    TickStemsFrom(next, acts, n, b);
    RunCovers(next, acts, n, b, j);
  }

  // ----- a repeated execution comes from an old snapshot -----

  /** Step `n` removes the one-shot that a tick has executed. */
  ghost predicate RemovesAt(next: Schedules, acts: seq<Action>, n: nat, id: string) {
    n < |acts| && acts[n].WriteBack? &&
    var actor := ActorAt(Run(next, acts[..n]), acts[n].actor);
    actor.TickRan? && actor.job.id == id && IsOneShot(actor.job)
  }

  lemma KnownStays(next: Schedules, acts: seq<Action>, n: nat, m: nat, id: string)
    requires IsRun(next, acts) && n <= m <= |acts| && id in Run(next, acts[..n]).origin && JobsOk(Run(next, acts[..n]))
    ensures id in Run(next, acts[..m]).origin
  {
    OriginStays(next, acts, n, m, Run(next, acts[..n]).origin[id]);
  }

  /** Once the write-back has removed a one-shot it never comes back into the map. */
  lemma RemovedForGood(next: Schedules, acts: seq<Action>, w: nat, m: nat, id: string)
    requires IsRun(next, acts) && RemovesAt(next, acts, w, id) && w < m <= |acts|
    ensures id !in Run(next, acts[..m]).jobs
  {
    var sys := Run(next, acts[..w]);
    PrefixIsRun(next, acts, w);
    RunOrigin(next, acts[..w]);
    assert HoldsCreated(sys.origin, ActorAt(sys, acts[w].actor));
    RunUnfold(next, acts, w);
    forall i | w + 1 <= i < m && acts[i].Create? ensures acts[i].job.id != id {
      KnownStays(next, acts, w, i, id);
      assert EnabledAt(next, acts, i);
    }
    NoResurrection(next, acts, w + 1, m, id);
  }

  /** A job that is executed was in the map when its tick took the snapshot. */
  lemma FiredWasListed(next: Schedules, acts: seq<Action>, l: nat, b: nat, id: string)
    requires IsRun(next, acts) && FiresAt(next, acts, l, b, id)
    ensures LastSnapshot(acts, l, b).Some?
    ensures var s := LastSnapshot(acts, l, b).value; s < l && acts[s].Snapshot? && id in Run(next, acts[..s]).jobs
  {
    TickStemsFrom(next, acts, l, b);
    var s := LastSnapshot(acts, l, b).value;
    assert ActorAt(Run(next, acts[..l]), b).todo[0] in acts[s].order;
    assert EnabledAt(next, acts, s);
  }

  lemma ListedBeforeRemoval(next: Schedules, acts: seq<Action>, w: nat, s: nat, id: string)
    requires IsRun(next, acts) && RemovesAt(next, acts, w, id)
    requires s < |acts| && acts[s].Snapshot? && id in Run(next, acts[..s]).jobs
    ensures s < w
  {
    if s > w {
      RemovedForGood(next, acts, w, s, id);
    }
  }

  /** In every interleaving, with any number of ticks: whatever tick executes a one-shot after a write-back
      has removed it took its snapshot before that write-back. */
  lemma SnapshotPrecedesRemoval(next: Schedules, acts: seq<Action>, w: nat, l: nat, b: nat, id: string)
    requires IsRun(next, acts) && RemovesAt(next, acts, w, id) && FiresAt(next, acts, l, b, id)
    ensures LastSnapshot(acts, l, b).Some? && LastSnapshot(acts, l, b).value < w
  {
    FiredWasListed(next, acts, l, b, id);
    ListedBeforeRemoval(next, acts, w, LastSnapshot(acts, l, b).value, id);
  }

  /** A one-shot is executed twice only in runs in which a tick begins while another is under way. */
  lemma RepeatNeedsOverlap(next: Schedules, acts: seq<Action>, i: nat, j: nat)
    requires StrictlyLater(next) && IsRun(next, acts)
    requires var sys := Run(next, acts);
             i < j < |sys.fired| && sys.fired[i].id == sys.fired[j].id
             && sys.fired[i].id in sys.origin && IsOneShot(sys.origin[sys.fired[i].id])
    ensures exists k: nat, a: nat ::
              k < |acts| && acts[k].Snapshot? && acts[k].actor != a && InTick(ActorAt(Run(next, acts[..k]), a))
  {
    if IsSerialRun(next, acts) {
      FiresInOrder(next, acts, i, j);
    } else {
      var k :| 0 <= k < |acts| && !InTurnAt(next, acts, k);
      var a: nat :| InTick(ActorAt(Run(next, acts[..k]), a));
      assert EnabledAt(next, acts, k);
    }
  }

  // ----- two ticks that hold a due job can both execute it -----

  /** The tick gets past its first `k` jobs, whatever they are. */
  lemma {:induction false} PassBy(next: Schedules, start: Sys, acts: seq<Action>, sys: Sys, a: nat, now: int, todo: seq<CronJob>, k: nat)
    returns (acts': seq<Action>, sys': Sys)
    requires Leads(next, start, acts, sys) && ActorAt(sys, a) == Visiting(now, todo) && k <= |todo|
    ensures Leads(next, start, acts', sys') && ActorAt(sys', a) == Visiting(now, todo[k..]) && OthersKept(sys, sys', a)
    ensures sys'.inFlight == sys.inFlight && sys.fired <= sys'.fired
  {
    if k == 0 {
      acts', sys' := acts, sys;
    } else {
      acts', sys' := PassBy(next, start, acts, sys, a, now, todo, k - 1);
      var before, rest := sys', todo[k - 1..];
      if Due(rest[0], now) && rest[0].id !in before.inFlight {
        acts', sys' := TickRuns(next, start, acts', before, a, now, rest, now);
      } else {
        acts', sys' := TickSkips(next, start, acts', before, a, now, rest);
      }
      assert rest[1..] == todo[k..];
    }
  }

  /** The tick of the actor still has the job before it, and it is due there. */
  ghost predicate HoldsDue(actor: Actor, id: string) {
    actor.Visiting? && exists t :: t in actor.todo && t.id == id && Due(t, actor.now)
  }

  /** A tick that holds a due job that is not running executes it sooner or later. */
  lemma GetsToExecute(next: Schedules, start: Sys, acts: seq<Action>, sys: Sys, a: nat, id: string)
    returns (acts': seq<Action>, sys': Sys)
    requires Leads(next, start, acts, sys) && HoldsDue(ActorAt(sys, a), id) && id !in sys.inFlight
    ensures Leads(next, start, acts', sys') && OthersKept(sys, sys', a) && Executing(sys', a, id) && ActorAt(sys', a).TickRun?
    ensures sys'.inFlight == sys.inFlight + {id}
    ensures |sys'.fired| > |sys.fired| && sys'.fired[|sys'.fired| - 1].id == id && sys.fired <= sys'.fired
  {
    var actor := ActorAt(sys, a);
    var t :| t in actor.todo && t.id == id && Due(t, actor.now);
    var k :| 0 <= k < |actor.todo| && actor.todo[k] == t;
    acts', sys' := PassBy(next, start, acts, sys, a, actor.now, actor.todo, k);
    acts', sys' := TickBegins(next, start, acts', sys', a, actor.now, actor.todo[k..]);
  }

  /** Whoever is executing the job releases it. */
  lemma GetsReleased(next: Schedules, start: Sys, sys: Sys, id: string) returns (acts: seq<Action>, sys': Sys)
    requires sys == start && Exclusive(sys)
    ensures Leads(next, start, acts, sys') && id !in sys'.inFlight && sys'.fired == sys.fired
    ensures forall a: nat :: ActorAt(sys, a).Visiting? ==> ActorAt(sys', a) == ActorAt(sys, a)
  {
    acts, sys' := [], sys;
    if id in sys.inFlight {
      var c :| Executing(sys, c, id);
      var act := Release(c, sys.clock);
      OneMoreAct(next, start, [], sys, act);
      acts, sys' := [] + [act], Next(next, sys, act);
    }
  }

  /** Two entries with the id come after the first `from`. */
  ghost predicate FiredTwice(fired: seq<Fired>, from: nat, id: string) {
    exists i: nat, j: nat :: from <= i < j < |fired| && fired[i].id == id && fired[j].id == id
  }

  /** Whenever two ticks hold the same due job, in whatever state the run is, it can go on so that both
      execute it. For a one-shot that is one execution too many. */
  lemma BothCanExecute(next: Schedules, acts: seq<Action>, a: nat, b: nat, id: string) returns (more: seq<Action>)
    requires IsRun(next, acts) && a != b
    requires HoldsDue(ActorAt(Run(next, acts), a), id) && HoldsDue(ActorAt(Run(next, acts), b), id)
    ensures IsRun(next, acts + more)
    ensures FiredTwice(Run(next, acts + more).fired, |Run(next, acts).fired|, id)
  {
    var start := Run(next, acts);
    MutualExclusion(next, acts);
    var sys;
    more, sys := GetsReleased(next, start, start, id);
    more, sys := GetsToExecute(next, start, more, sys, a, id);
    var i := |sys.fired| - 1;
    var actor := ActorAt(sys, a);
    var first := sys.fired;
    more, sys := TickReleases(next, start, more, sys, a, actor.now, actor.job, actor.todo);
    more, sys := GetsToExecute(next, start, more, sys, b, id);
    assert first <= sys.fired && sys.fired[i] == first[i];
    GoesOn(next, acts, start, more);
  }

  // ----- a one-shot executed twice -----

  const ONCE := CronJob("j", "", "", "", ONE_SHOT, Some(1), true, 0, Some(1), None, None)

  function TwoTicks(first: Actor, second: Actor, inFlight: set<string>, fired: seq<Fired>): Sys {
    Sys(map["j" := ONCE], inFlight, map[0 := first, 1 := second], 2, map["j" := ONCE], fired)
  }

  /** Two ticks have taken their snapshots while the one-shot is due. */
  lemma BothSnapshot(next: Schedules) returns (acts: seq<Action>)
    ensures IsRun(next, acts) && Run(next, acts) == TwoTicks(Visiting(2, [ONCE]), Visiting(2, [ONCE]), {}, [])
  {
    var s1 := Sys(map["j" := ONCE], {}, map[], 0, map["j" := ONCE], []);
    var s2 := Sys(map["j" := ONCE], {}, map[0 := Visiting(2, [ONCE])], 2, map["j" := ONCE], []);
    RunStep(next, [], START, Create(0, ONCE), s1);
    acts := [] + [Create(0, ONCE)];
    RunStep(next, acts, s1, Snapshot(0, 2, 2, [ONCE]), s2);
    acts := acts + [Snapshot(0, 2, 2, [ONCE])];
    RunStep(next, acts, s2, Snapshot(1, 2, 2, [ONCE]), TwoTicks(Visiting(2, [ONCE]), Visiting(2, [ONCE]), {}, []));
    acts := acts + [Snapshot(1, 2, 2, [ONCE])];
  }

  /** Without serial ticks the claim fails: a second tick that took its snapshot before the first one
      removed the job runs the one-shot again, because it is released before it is removed. */
  lemma OverlappingTicksRunAgain(next: Schedules) returns (acts: seq<Action>)
    ensures IsRun(next, acts) && FiredTwice(Run(next, acts).fired, 0, "j")
    ensures "j" in Run(next, acts).origin && IsOneShot(Run(next, acts).origin["j"])
  {
    acts := BothSnapshot(next);
    var sys := Run(next, acts);
    assert ONCE in ActorAt(sys, 0).todo && ONCE in ActorAt(sys, 1).todo;
    var more := BothCanExecute(next, acts, 0, 1, "j");
    assert acts[..|acts|] == acts && (acts + more)[..|acts|] == acts && (acts + more)[..|acts + more|] == acts + more;
    OriginStays(next, acts + more, |acts|, |acts + more|, ONCE);
    acts := acts + more;
  }
}
