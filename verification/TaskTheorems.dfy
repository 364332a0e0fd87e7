/**
 Any number of passes of the task runner over a ledger nobody else writes: what is executed when,
 and which tasks stay pending forever.
 */
module TaskTheorems {
  import opened DependencyGraph
  import opened TaskRunner
  import opened Tasks

  /** The ledger after `n` passes; `fates(k)` says what executing a task in pass `k` would give. */
  function Passes(tasks: seq<Task>, fates: nat -> Fates, n: nat): (r: seq<Task>)
    ensures |r| == |tasks|
  {
    if n == 0 then tasks else Pass(Passes(tasks, fates, n - 1), fates(n - 1))
  }

  /** Pass `n` (counted from zero) executes the task at position `i`. */
  predicate ExecutedIn(tasks: seq<Task>, fates: nat -> Fates, n: nat, i: nat)
    requires i < |tasks|
  {
    Executes(Passes(tasks, fates, n), Passes(tasks, fates, n)[i])
  }

  predicate PendingAt(tasks: seq<Task>, fates: nat -> Fates, i: nat, n: nat)
    requires i < |tasks|
  {
    Passes(tasks, fates, n)[i].status == Pending
  }

  /** Pass `n` takes the record at position `i` out of `Pending`. */
  predicate LeavesIn(tasks: seq<Task>, fates: nat -> Fates, i: nat, n: nat)
    requires i < |tasks|
  {
    var now := Passes(tasks, fates, n);
    PendingAt(tasks, fates, i, n) && Advance(now, now[i], fates(n)).status != Pending
  }

  /** `late` is `early` after more passes: id and dependencies stay, and so does everything else unless
      the record was pending and no longer is. */
  ghost predicate Later(early: Task, late: Task) {
    && late.id == early.id && late.dependsOn == early.dependsOn
    && (early.status != Pending ==> late == early)
    && (late.status == Pending ==> late == early)
  }

  /** A record that is no longer pending never changes again, and no pass changes ids or dependencies. */
  lemma {:induction false} RecordsSettle(tasks: seq<Task>, fates: nat -> Fates, m: nat, n: nat, i: nat)
    requires UniqueIds(tasks) && m <= n && i < |tasks|
    ensures Later(Passes(tasks, fates, m)[i], Passes(tasks, fates, n)[i])
  {
    if m < n {
      RecordsSettle(tasks, fates, m, n - 1, i);
    }
  }

  lemma {:induction false} IdsStay(tasks: seq<Task>, fates: nat -> Fates, n: nat)
    requires UniqueIds(tasks)
    ensures Ids(Passes(tasks, fates, n)) == Ids(tasks)
  {
    var now := Passes(tasks, fates, n);
    forall i | 0 <= i < |tasks| ensures now[i].id == tasks[i].id {
      RecordsSettle(tasks, fates, 0, n, i);
    }
    forall id ensures id in Ids(now) <==> id in Ids(tasks) {
      if id in Ids(tasks) {
        var i :| 0 <= i < |tasks| && tasks[i].id == id;
        assert now[i] in now;
      }
    }
  }

  lemma {:induction false} CompletedStay(tasks: seq<Task>, fates: nat -> Fates, m: nat, n: nat)
    requires UniqueIds(tasks) && m <= n
    ensures CompletedIds(Passes(tasks, fates, m)) <= CompletedIds(Passes(tasks, fates, n))
  {
    forall id | id in CompletedIds(Passes(tasks, fates, m)) ensures id in CompletedIds(Passes(tasks, fates, n)) {
      var i :| 0 <= i < |tasks| && Passes(tasks, fates, m)[i].id == id && Passes(tasks, fates, m)[i].status == Completed;
      RecordsSettle(tasks, fates, m, n, i);
      assert Passes(tasks, fates, n)[i] in Passes(tasks, fates, n);
    }
  }

  /** A record that a pass takes out of `Pending` never returns to it. */
  lemma OverAfter(tasks: seq<Task>, fates: nat -> Fates, i: nat, m: nat, n: nat)
    requires UniqueIds(tasks) && m < n && i < |tasks| && LeavesIn(tasks, fates, i, m)
    ensures !PendingAt(tasks, fates, i, n)
  {
    NotPendingStays(tasks, fates, i, m + 1, n);
  }

  lemma NotPendingStays(tasks: seq<Task>, fates: nat -> Fates, i: nat, m: nat, n: nat)
    requires UniqueIds(tasks) && m <= n && i < |tasks| && !PendingAt(tasks, fates, i, m)
    ensures !PendingAt(tasks, fates, i, n)
  {
    RecordsSettle(tasks, fates, m, n, i);
  }

  /** However runs and saves turn out, a task is executed in at most one pass, and only after each of
      its dependencies has completed for good. */
  lemma ExecutedAtMostOnce(tasks: seq<Task>, fates: nat -> Fates, i: nat, m: nat, n: nat, d: string)
    requires UniqueIds(tasks) && m < n && i < |tasks| && ExecutedIn(tasks, fates, m, i)
    ensures !ExecutedIn(tasks, fates, n, i)
    ensures d in tasks[i].dependsOn ==> d in CompletedIds(Passes(tasks, fates, m)) && d in CompletedIds(Passes(tasks, fates, n))
  {
    OverAfter(tasks, fates, i, m, n);
    if d in tasks[i].dependsOn {
      RecordsSettle(tasks, fates, 0, m, i);
      assert d in CompletedIds(Passes(tasks, fates, m));
      CompletedStay(tasks, fates, m, n);
    }
  }

  // ----- with one fate per task -----

  function Same(f: Fates): nat -> Fates {
    (n: nat) => f
  }

  /** The passes that take a record with this id out of `Pending`. */
  ghost function LeavingPasses(tasks: seq<Task>, fates: nat -> Fates, id: string): nat -> bool {
    (k: nat) => exists i: nat :: i < |tasks| && tasks[i].id == id && LeavesIn(tasks, fates, i, k)
  }

  ghost function FateWhen(when: nat -> bool, fates: nat -> Fates, id: string): Fate {
    if k: nat :| when(k) then fates(k)(id) else fates(0)(id)
  }

  lemma FateWhenIs(when: nat -> bool, fates: nat -> Fates, id: string, n: nat)
    requires when(n) && forall k: nat :: when(k) ==> k == n
    ensures FateWhen(when, fates, id) == fates(n)(id)
  {
  }

  /** The fate of a task in the one pass that deals with it. */
  ghost function OwnFate(tasks: seq<Task>, fates: nat -> Fates, id: string): Fate {
    FateWhen(LeavingPasses(tasks, fates, id), fates, id)
  }

  ghost function OwnFates(tasks: seq<Task>, fates: nat -> Fates): Fates {
    id => OwnFate(tasks, fates, id)
  }

  lemma LeavesOnce(tasks: seq<Task>, fates: nat -> Fates, i: nat, k: nat, n: nat)
    requires UniqueIds(tasks) && i < |tasks| && LeavesIn(tasks, fates, i, k) && LeavesIn(tasks, fates, i, n)
    ensures k == n
  {
    if k < n {
      OverAfter(tasks, fates, i, k, n);
    } else if n < k {
      OverAfter(tasks, fates, i, n, k);
    }
  }

  lemma OwnFateIs(tasks: seq<Task>, fates: nat -> Fates, i: nat, n: nat)
    requires UniqueIds(tasks) && i < |tasks| && LeavesIn(tasks, fates, i, n)
    ensures OwnFate(tasks, fates, tasks[i].id) == fates(n)(tasks[i].id)
  {
    var when := LeavingPasses(tasks, fates, tasks[i].id);
    forall k: nat | when(k) ensures k == n {
      LeavesOnceById(tasks, fates, i, k, n);
    }
    FateWhenIs(when, fates, tasks[i].id, n);
  }

  lemma LeavesOnceById(tasks: seq<Task>, fates: nat -> Fates, i: nat, k: nat, n: nat)
    requires UniqueIds(tasks) && i < |tasks| && LeavesIn(tasks, fates, i, n)
    requires LeavingPasses(tasks, fates, tasks[i].id)(k)
    ensures k == n
  {
    var j: nat :| j < |tasks| && tasks[j].id == tasks[i].id && LeavesIn(tasks, fates, j, k);
    assert !(i < j) && !(j < i);
    LeavesOnce(tasks, fates, i, k, n);
  }

  lemma SameAdvance(tasks: seq<Task>, fates: nat -> Fates, n: nat, i: nat)
    requires UniqueIds(tasks) && i < |tasks|
    ensures var now := Passes(tasks, fates, n);
            Advance(now, now[i], fates(n)) == Advance(now, now[i], OwnFates(tasks, fates))
  {
    var now := Passes(tasks, fates, n);
    RecordsSettle(tasks, fates, 0, n, i);
    if now[i].status == Pending && Advance(now, now[i], fates(n)).status != Pending {
      OwnFateIs(tasks, fates, i, n);
    }
  }

  /** A run in which fates change from pass to pass is one in which every task has its own fixed fate. */
  lemma {:induction false} OneFateEach(tasks: seq<Task>, fates: nat -> Fates, n: nat)
    requires UniqueIds(tasks)
    ensures Passes(tasks, fates, n) == Passes(tasks, Same(OwnFates(tasks, fates)), n)
  {
    if n > 0 {
      OneFateEach(tasks, fates, n - 1);
      var now := Passes(tasks, fates, n - 1);
      forall i | 0 <= i < |tasks|
        ensures Pass(now, fates(n - 1))[i] == Pass(now, OwnFates(tasks, fates))[i]
      {
        SameAdvance(tasks, fates, n - 1, i);
      }
      assert Pass(now, fates(n - 1)) == Pass(now, OwnFates(tasks, fates));
    }
  }

  predicate Succeeds(f: Fate) {
    f.startSaved && f.result.Ok?
  }

  /** What still counts of the dependencies: those of pending tasks. */
  function OpenDependencies(tasks: seq<Task>, id: string): set<string> {
    set t, d | t in tasks && t.id == id && t.status == Pending && d in t.dependsOn :: d
  }

  function TaskGraph(tasks: seq<Task>): Graph {
    map id | id in Ids(tasks) :: OpenDependencies(tasks, id)
  }

  /** Tasks that have completed or will once executed. */
  function Okay(tasks: seq<Task>, f: Fates): set<string> {
    set t | t in tasks && (t.status == Completed || (t.status == Pending && Succeeds(f(t.id)))) :: t.id
  }

  lemma TaskInGraph(tasks: seq<Task>, f: Fates, i: nat)
    requires UniqueIds(tasks) && i < |tasks|
    ensures tasks[i].id in TaskGraph(tasks)
    ensures TaskGraph(tasks)[tasks[i].id] == if tasks[i].status == Pending then set d | d in tasks[i].dependsOn else {}
    ensures tasks[i].id in Okay(tasks, f) <==>
            tasks[i].status == Completed || (tasks[i].status == Pending && Succeeds(f(tasks[i].id)))
  {
  }

  /** A record that was `t` at first is still that, is what executing `t` makes of it, or has failed
      for a missing dependency. */
  ghost predicate History(tasks: seq<Task>, t: Task, f: Fates, now: Task) {
    || now == t
    || (t.status == Pending && now == Executed(t, f(t.id)))
    || (t.status == Pending && !DependenciesExist(tasks, t) && now.status == Failed)
  }

  lemma AdvanceHistory(tasks: seq<Task>, t: Task, f: Fates, now: seq<Task>, r: Task)
    requires History(tasks, t, f, r) && Ids(now) == Ids(tasks)
    ensures History(tasks, t, f, Advance(now, r, f))
  {
  }

  lemma {:induction false} RecordHistory(tasks: seq<Task>, f: Fates, n: nat, i: nat)
    requires UniqueIds(tasks) && i < |tasks|
    ensures History(tasks, tasks[i], f, Passes(tasks, Same(f), n)[i])
  {
    if n > 0 {
      var now := Passes(tasks, Same(f), n - 1);
      RecordHistory(tasks, f, n - 1, i);
      IdsStay(tasks, Same(f), n - 1);
      AdvanceHistory(tasks, tasks[i], f, now, now[i]);
      assert Passes(tasks, Same(f), n)[i] == Advance(now, now[i], f);
    }
  }

  /** One pass completes a task exactly when it was complete, or was pending with completed
      dependencies and succeeds. */
  lemma CompletedNext(tasks: seq<Task>, f: Fates, n: nat, i: nat)
    requires UniqueIds(tasks) && i < |tasks|
    ensures var now, next := Passes(tasks, Same(f), n), Passes(tasks, Same(f), n + 1);
            next[i].status == Completed <==>
            || now[i].status == Completed
            || (tasks[i].id in Okay(tasks, f) && TaskGraph(tasks)[tasks[i].id] <= CompletedIds(now))
  {
    var t, now := tasks[i], Passes(tasks, Same(f), n);
    TaskInGraph(tasks, f, i);
    RecordHistory(tasks, f, n, i);
    IdsStay(tasks, Same(f), n);
    RecordsSettle(tasks, Same(f), 0, n, i);
    assert forall d :: d in t.dependsOn <==> d in set e | e in t.dependsOn;
    assert CompletedIds(now) <= Ids(now);
    assert Passes(tasks, Same(f), n + 1) == Pass(now, f);
    if now[i].status == Pending {
      assert now[i] == t;
      assert DependenciesCompleted(now, t) <==> TaskGraph(tasks)[t.id] <= CompletedIds(now);
    } else if tasks[i].id in Okay(tasks, f) && TaskGraph(tasks)[t.id] <= CompletedIds(now) {
      assert DependenciesExist(tasks, t) || t.status == Completed;
    }
  }

  lemma CompletedAt(tasks: seq<Task>, fates: nat -> Fates, n: nat, i: nat)
    requires UniqueIds(tasks) && i < |tasks|
    ensures Passes(tasks, fates, n)[i].status == Completed <==> tasks[i].id in CompletedIds(Passes(tasks, fates, n))
  {
    var now := Passes(tasks, fates, n);
    RecordsSettle(tasks, fates, 0, n, i);
    if tasks[i].id in CompletedIds(now) {
      var j :| 0 <= j < |now| && now[j].id == tasks[i].id && now[j].status == Completed;
      RecordsSettle(tasks, fates, 0, n, j);
      assert !(i < j) && !(j < i);
    } else {
      assert now[i] in now;
    }
  }

  /** Every pass is a round of the dependency graph. */
  lemma PassIsRound(tasks: seq<Task>, f: Fates, n: nat, id: string)
    requires UniqueIds(tasks)
    ensures id in CompletedIds(Passes(tasks, Same(f), n + 1)) <==>
            || id in CompletedIds(Passes(tasks, Same(f), n))
            || (id in TaskGraph(tasks) && id in Okay(tasks, f) && TaskGraph(tasks)[id] <= CompletedIds(Passes(tasks, Same(f), n)))
  {
    IdsStay(tasks, Same(f), n);
    IdsStay(tasks, Same(f), n + 1);
    if id in Ids(tasks) {
      var i :| 0 <= i < |tasks| && tasks[i].id == id;
      CompletedNext(tasks, f, n, i);
      CompletedAt(tasks, Same(f), n, i);
      CompletedAt(tasks, Same(f), n + 1, i);
    }
  }

  /** The completed tasks are the settled ones of the graph, early by at most the tasks that had
      completed before the first pass. */
  lemma CompletedBounds(tasks: seq<Task>, f: Fates, n: nat, head: nat)
    requires UniqueIds(tasks) && CompletedIds(tasks) <= Settled(TaskGraph(tasks), Okay(tasks, f), head)
    ensures Settled(TaskGraph(tasks), Okay(tasks, f), n) <= CompletedIds(Passes(tasks, Same(f), n))
    ensures CompletedIds(Passes(tasks, Same(f), n)) <= Settled(TaskGraph(tasks), Okay(tasks, f), n + head)
  {
    var done: nat -> set<string> := (k: nat) => CompletedIds(Passes(tasks, Same(f), k));
    forall k: nat ensures IsRound(TaskGraph(tasks), Okay(tasks, f), done, k) {
      forall id
        ensures id in done(k + 1) <==>
                || id in done(k)
                || (id in TaskGraph(tasks) && id in Okay(tasks, f) && TaskGraph(tasks)[id] <= done(k))
      {
        PassIsRound(tasks, f, k, id);
      }
    }
    RoundsBound(TaskGraph(tasks), Okay(tasks, f), done, head, n);
    assert done(n) == CompletedIds(Passes(tasks, Same(f), n));
  }

  // ----- stuck tasks -----

  /** Following the dependencies of pending tasks from `id` leads to a task that is missing, that
      neither has completed nor will when executed, or that lies on a cycle. */
  ghost predicate Blocked(tasks: seq<Task>, f: Fates, id: string) {
    exists u :: && Reaches(TaskGraph(tasks), id, u)
                && (u !in Ids(tasks) || u !in Okay(tasks, f) || OnCycle(TaskGraph(tasks), u))
  }

  lemma BlockedIff(tasks: seq<Task>, f: Fates, id: string)
    requires id in Ids(tasks)
    ensures !Blocked(tasks, f, id) <==> TaskGraph(tasks)[id] <= Eventually(TaskGraph(tasks), Okay(tasks, f))
  {
    var g, ok := TaskGraph(tasks), Okay(tasks, f);
    forall u ensures Reaches(g, id, u) <==> exists d :: d in g[id] && Upstream(g, d, u) {
      ReachesUnfold(g, id, u);
    }
    forall d | d in g[id]
      ensures d in Eventually(g, ok) <==> forall u :: Upstream(g, d, u) ==> u in g && u in ok && !OnCycle(g, u)
    {
      EventuallyIff(g, ok, d);
    }
    if !Blocked(tasks, f, id) {
      forall d | d in g[id] ensures d in Eventually(g, ok) {
        forall u | Upstream(g, d, u) ensures u in g && u in ok && !OnCycle(g, u) {
          assert Reaches(g, id, u);
        }
      }
    }
  }

  lemma EventuallyCompletes(tasks: seq<Task>, f: Fates)
    requires UniqueIds(tasks)
    ensures forall n: nat :: CompletedIds(Passes(tasks, Same(f), n)) <= Eventually(TaskGraph(tasks), Okay(tasks, f))
    ensures Eventually(TaskGraph(tasks), Okay(tasks, f)) <= CompletedIds(Passes(tasks, Same(f), |TaskGraph(tasks)|))
  {
    forall n: nat ensures CompletedIds(Passes(tasks, Same(f), n)) <= Eventually(TaskGraph(tasks), Okay(tasks, f)) {
      CompletedBounds(tasks, f, n, 1);
      EventuallyIsLimit(TaskGraph(tasks), Okay(tasks, f), n + 1);
    }
    CompletedBounds(tasks, f, |TaskGraph(tasks)|, 1);
  }

  ghost predicate NotCompletedAt(tasks: seq<Task>, f: Fates, d: string, n: nat) {
    d !in CompletedIds(Passes(tasks, Same(f), n))
  }

  lemma Waits(now: seq<Task>, t: Task, f: Fates, d: string)
    requires DependenciesExist(now, t) && d in t.dependsOn && d !in CompletedIds(now)
    ensures Advance(now, t, f) == t
  {
  }

  ghost predicate StaysTrue(p: nat -> bool, k: nat) {
    p(k) ==> p(k + 1)
  }

  lemma {:induction false} HoldsForever(p: nat -> bool, m: nat, n: nat)
    requires m <= n && p(m) && forall k: nat :: StaysTrue(p, k)
    ensures p(n)
  {
    if m < n {
      HoldsForever(p, m, n - 1);
      assert StaysTrue(p, n - 1);
    }
  }

  lemma WaitsOnce(tasks: seq<Task>, f: Fates, i: nat, d: string, n: nat)
    requires UniqueIds(tasks) && i < |tasks| && DependenciesExist(tasks, tasks[i]) && d in tasks[i].dependsOn
    requires NotCompletedAt(tasks, f, d, n) && Passes(tasks, Same(f), n)[i] == tasks[i]
    ensures Passes(tasks, Same(f), n + 1)[i] == tasks[i]
  {
    var now := Passes(tasks, Same(f), n);
    IdsStay(tasks, Same(f), n);
    Waits(now, now[i], f, d);
    assert Passes(tasks, Same(f), n + 1) == Pass(now, f);
  }

  lemma WaitsForever(tasks: seq<Task>, f: Fates, i: nat, d: string, n: nat)
    requires UniqueIds(tasks) && i < |tasks| && DependenciesExist(tasks, tasks[i]) && d in tasks[i].dependsOn
    requires forall k: nat :: NotCompletedAt(tasks, f, d, k)
    ensures Passes(tasks, Same(f), n)[i] == tasks[i]
  {
    var same: nat -> bool := (k: nat) => Passes(tasks, Same(f), k)[i] == tasks[i];
    forall k: nat ensures StaysTrue(same, k) {
      if same(k) {
        assert NotCompletedAt(tasks, f, d, k);
        WaitsOnce(tasks, f, i, d, k);
      }
    }
    HoldsForever(same, 0, n);
  }

  lemma GetsExecuted(tasks: seq<Task>, f: Fates, i: nat, n: nat)
    requires UniqueIds(tasks) && i < |tasks| && DependenciesExist(tasks, tasks[i])
    requires forall d :: d in tasks[i].dependsOn ==> d in CompletedIds(Passes(tasks, Same(f), n))
    ensures !PendingAt(tasks, Same(f), i, n + 1)
  {
    var now := Passes(tasks, Same(f), n);
    RecordsSettle(tasks, Same(f), 0, n, i);
    IdsStay(tasks, Same(f), n);
    assert Passes(tasks, Same(f), n + 1)[i] == Advance(now, now[i], f);
    if now[i].status == Pending {
      assert Executes(now, now[i]);
    }
  }

  /** A pending task whose dependencies all exist stays pending forever exactly when it is blocked. */
  lemma PendingForeverIff(tasks: seq<Task>, f: Fates, i: nat)
    requires UniqueIds(tasks) && i < |tasks| && tasks[i].status == Pending && DependenciesExist(tasks, tasks[i])
    ensures (forall n: nat :: PendingAt(tasks, Same(f), i, n)) <==> Blocked(tasks, f, tasks[i].id)
  {
    var g, ok, id := TaskGraph(tasks), Okay(tasks, f), tasks[i].id;
    TaskInGraph(tasks, f, i);
    BlockedIff(tasks, f, id);
    EventuallyCompletes(tasks, f);
    if Blocked(tasks, f, id) {
      var d :| d in g[id] && d !in Eventually(g, ok);
      forall n: nat ensures NotCompletedAt(tasks, f, d, n) {
      }
      forall n: nat ensures PendingAt(tasks, Same(f), i, n) {
        WaitsForever(tasks, f, i, d, n);
      }
    } else {
      GetsExecuted(tasks, f, i, |g|);
    }
  }

  /** The same for fates that change from pass to pass. */
  lemma StuckIff(tasks: seq<Task>, fates: nat -> Fates, i: nat)
    requires UniqueIds(tasks) && i < |tasks| && tasks[i].status == Pending && DependenciesExist(tasks, tasks[i])
    ensures (forall n: nat :: PendingAt(tasks, fates, i, n)) <==>
            Blocked(tasks, OwnFates(tasks, fates), tasks[i].id)
  {
    var f := OwnFates(tasks, fates);
    forall n: nat ensures PendingAt(tasks, fates, i, n) <==> PendingAt(tasks, Same(f), i, n) {
      OneFateEach(tasks, fates, n);
    }
    PendingForeverIff(tasks, f, i);
  }

  // ----- layers -----

  /** Unique pending tasks whose dependencies exist without a cycle, and whose runs succeed. */
  ghost predicate FreshAndSound(tasks: seq<Task>, f: Fates) {
    && UniqueIds(tasks) && Closed(TaskGraph(tasks)) && Acyclic(TaskGraph(tasks))
    && forall i :: 0 <= i < |tasks| ==> tasks[i].status == Pending && Succeeds(f(tasks[i].id))
  }

  /** The longest dependency chain that starts at `id` has `k` tasks. */
  ghost predicate LongestChain(g: Graph, id: string, k: nat) {
    && (exists p :: IsPath(g, p) && p[0] == id && |p| == k)
    && forall p :: IsPath(g, p) && p[0] == id ==> |p| <= k
  }

  lemma LongestChainIff(g: Graph, id: string, k: nat)
    requires Closed(g) && id in g && k > 0
    ensures LongestChain(g, id, k) <==> id in Settled(g, g.Keys, k) && id !in Settled(g, g.Keys, k - 1)
  {
    SettledIffChains(g, k, id);
    SettledIffChains(g, k - 1, id);
  }

  lemma NoHeadStart(tasks: seq<Task>, f: Fates, n: nat, ok: set<string>)
    requires UniqueIds(tasks) && CompletedIds(tasks) == {} && ok == Okay(tasks, f)
    ensures CompletedIds(Passes(tasks, Same(f), n)) == Settled(TaskGraph(tasks), ok, n)
  {
    CompletedBounds(tasks, f, n, 0);
    BothWays(CompletedIds(Passes(tasks, Same(f), n)), Settled(TaskGraph(tasks), ok, n + 0));
  }

  lemma BothWays<T>(a: set<T>, b: set<T>)
    requires a <= b && b <= a
    ensures a == b
  {
  }

  lemma SoundCompleted(tasks: seq<Task>, f: Fates, n: nat)
    requires FreshAndSound(tasks, f)
    ensures CompletedIds(Passes(tasks, Same(f), n)) == Settled(TaskGraph(tasks), TaskGraph(tasks).Keys, n)
  {
    NoHeadStart(tasks, f, n, TaskGraph(tasks).Keys);
  }

  /** From fresh, sound tasks the passes are the layers of the dependency graph: the pass after `n`
      others executes exactly the tasks whose longest dependency chain has `n + 1` tasks. */
  lemma PassExecutesLayer(tasks: seq<Task>, f: Fates, n: nat, i: nat)
    requires FreshAndSound(tasks, f) && i < |tasks|
    ensures ExecutedIn(tasks, Same(f), n, i) <==> LongestChain(TaskGraph(tasks), tasks[i].id, n + 1)
  {
    var g, id, now := TaskGraph(tasks), tasks[i].id, Passes(tasks, Same(f), n);
    TaskInGraph(tasks, f, i);
    SoundCompleted(tasks, f, n);
    LongestChainIff(g, id, n + 1);
    IdsStay(tasks, Same(f), n);
    RecordsSettle(tasks, Same(f), 0, n, i);
    RecordHistory(tasks, f, n, i);
    CompletedAt(tasks, Same(f), n, i);
    assert forall d :: d in tasks[i].dependsOn <==> d in g[id];
    assert CompletedIds(now) <= Ids(now);
  }

  /** All tasks have completed after `n` passes exactly when no dependency chain is longer than `n`. */
  lemma AllCompleteIff(tasks: seq<Task>, f: Fates, n: nat)
    requires FreshAndSound(tasks, f)
    ensures CompletedIds(Passes(tasks, Same(f), n)) == Ids(tasks) <==>
            forall p :: IsPath(TaskGraph(tasks), p) && p[0] in Ids(tasks) ==> |p| <= n
  {
    var g := TaskGraph(tasks);
    SoundCompleted(tasks, f, n);
    SettledCount(g, g.Keys, n);
    forall id | id in Ids(tasks)
      ensures id in Settled(g, g.Keys, n) <==> forall p :: IsPath(g, p) && p[0] == id ==> |p| <= n
    {
      SettledIffChains(g, n, id);
    }
  }

  /** Unique pending tasks with sound dependencies, whose runs succeed whenever they happen. */
  ghost predicate AlwaysSound(tasks: seq<Task>, fates: nat -> Fates) {
    forall n: nat :: FreshAndSound(tasks, fates(n))
  }

  lemma OwnFateSucceeds(tasks: seq<Task>, fates: nat -> Fates)
    requires AlwaysSound(tasks, fates)
    ensures FreshAndSound(tasks, OwnFates(tasks, fates))
  {
    assert FreshAndSound(tasks, fates(0));
    forall i | 0 <= i < |tasks| ensures Succeeds(OwnFates(tasks, fates)(tasks[i].id)) {
      forall k: nat ensures Succeeds(fates(k)(tasks[i].id)) {
        assert FreshAndSound(tasks, fates(k));
      }
    }
  }

  /** Layer by layer, also when fates change from pass to pass. */
  lemma LayersInEveryRun(tasks: seq<Task>, fates: nat -> Fates, n: nat, i: nat)
    requires AlwaysSound(tasks, fates) && i < |tasks|
    ensures ExecutedIn(tasks, fates, n, i) <==> LongestChain(TaskGraph(tasks), tasks[i].id, n + 1)
    ensures CompletedIds(Passes(tasks, fates, n)) == Ids(tasks) <==>
            forall p :: IsPath(TaskGraph(tasks), p) && p[0] in Ids(tasks) ==> |p| <= n
  {
    var f := OwnFates(tasks, fates);
    OwnFateSucceeds(tasks, fates);
    OneFateEach(tasks, fates, n);
    PassExecutesLayer(tasks, f, n, i);
    AllCompleteIff(tasks, f, n);
  }
}
