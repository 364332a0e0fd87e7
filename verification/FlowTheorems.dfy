/**
 What every flow run gives, proved of the order-free specification: a closed form for both loop
 guards, when a flow completes, which steps run, and where the guard as written differs from
 what the module promises for the `Continue` policy.
 */
module FlowTheorems {
  import opened DependencyGraph
  import opened Flow
  import opened FlowSpec
  import opened Harness
  import opened Wrappers

  /** The steps whose own run would succeed. */
  ghost function Okay(flow: TaskFlow, run: Runs): set<string> {
    set n | n in Names(flow.steps) && !Fails(run, n)
  }

  /** Steps that have succeeded after `k` layers. */
  ghost function Succeeded(flow: TaskFlow, run: Runs, k: nat): set<string> {
    Settled(GraphOf(flow.steps), Okay(flow, run), k)
  }

  /** Steps that have failed after `k` layers. */
  ghost function FailedBy(flow: TaskFlow, run: Runs, k: nat): set<string> {
    if k == 0 then {}
    else set n | && n in Names(flow.steps) && n !in Okay(flow, run)
                 && GraphOf(flow.steps)[n] <= Succeeded(flow, run, k - 1)
  }

  ghost function StatusAt(flow: TaskFlow, run: Runs, k: nat, n: string): Option<StepStatus> {
    if n in Succeeded(flow, run, k) then Some(Completed)
    else if n in FailedBy(flow, run, k) then Some(Failed)
    else if exists f :: f in FailedBy(flow, run, k) && (flow.onFailure == Abort || n in Dependents(flow.steps, f)) then
      Some(Skipped)
    else None
  }

  /** The state of a run after `k` layers, if the guard lets it get that far. */
  ghost function StateAt(flow: TaskFlow, run: Runs, k: nat): FlowState {
    var failed := FailedBy(flow, run, k);
    FlowState(
      map n | n in Names(flow.steps) && StatusAt(flow, run, k, n).Some? :: StatusAt(flow, run, k, n).value,
      Failures(run, failed),
      failed != {},
      flow.onFailure == Abort && failed != {},
      Succeeded(flow, run, k) + failed)
  }

  // ----- layers -----

  /** A step all of whose dependencies succeeded depends on no failing step. */
  lemma UnblockedIsNoDependent(flow: TaskFlow, run: Runs, k: nat, n: string, f: string)
    requires n in Names(flow.steps) && GraphOf(flow.steps)[n] <= Succeeded(flow, run, k)
    requires Reaches(GraphOf(flow.steps), n, f)
    ensures f in Okay(flow, run)
  {
    var g, ok := GraphOf(flow.steps), Okay(flow, run);
    ReachesUnfold(g, n, f);
    var d :| d in g[n] && Upstream(g, d, f);
    EventuallyIsLimit(g, ok, k);
    EventuallyIff(g, ok, d);
  }

  ghost predicate Runnable(flow: TaskFlow, run: Runs, k: nat, n: string) {
    n in Names(flow.steps) && GraphOf(flow.steps)[n] <= Succeeded(flow, run, k)
  }

  lemma CompletedAfter(flow: TaskFlow, run: Runs, k: nat, d: string)
    ensures HasCompleted(StateAt(flow, run, k).statuses, d) <==> d in Succeeded(flow, run, k)
  {
    SettledCount(GraphOf(flow.steps), Okay(flow, run), k);
    if d in Names(flow.steps) {
      assert Lookup(StateAt(flow, run, k).statuses, d) == StatusAt(flow, run, k, d);
    }
  }

  /** A step that could run and has not has no status. */
  lemma UnrunIsOpen(flow: TaskFlow, run: Runs, k: nat, n: string)
    requires !StateAt(flow, run, k).aborted
    requires Runnable(flow, run, k, n) && n !in Succeeded(flow, run, k) && n !in FailedBy(flow, run, k)
    ensures n !in StateAt(flow, run, k).statuses
  {
    forall f | f in FailedBy(flow, run, k) ensures n !in Dependents(flow.steps, f) {
      if n in Dependents(flow.steps, f) {
        UnblockedIsNoDependent(flow, run, k, n, f);
      }
    }
    assert StatusAt(flow, run, k, n) == None;
  }

  /** The ready steps after `k` layers are the unblocked ones that have not been run. */
  lemma ReadyAt(flow: TaskFlow, run: Runs, k: nat)
    requires !StateAt(flow, run, k).aborted
    ensures forall n :: n in Ready(flow, StateAt(flow, run, k)) <==>
                        && Runnable(flow, run, k, n)
                        && n !in Succeeded(flow, run, k) && n !in FailedBy(flow, run, k)
  {
    var st := StateAt(flow, run, k);
    forall d ensures HasCompleted(st.statuses, d) <==> d in Succeeded(flow, run, k) {
      CompletedAfter(flow, run, k, d);
    }
    forall n | Runnable(flow, run, k, n) && n !in Succeeded(flow, run, k) && n !in FailedBy(flow, run, k)
      ensures n in Ready(flow, st)
    {
      UnrunIsOpen(flow, run, k, n);
    }
    forall n | n in Ready(flow, st)
      ensures Runnable(flow, run, k, n) && n !in Succeeded(flow, run, k) && n !in FailedBy(flow, run, k)
    {
      assert StatusAt(flow, run, k, n) == None;
    }
  }

  lemma FailedByGrows(flow: TaskFlow, run: Runs, k: nat)
    ensures FailedBy(flow, run, k) <= FailedBy(flow, run, k + 1)
    ensures Succeeded(flow, run, k) <= Succeeded(flow, run, k + 1)
  {
    SettledGrows(GraphOf(flow.steps), Okay(flow, run), k, k + 1);
    if k > 0 {
      SettledGrows(GraphOf(flow.steps), Okay(flow, run), k - 1, k);
    }
  }

  lemma NodeAdvances(flow: TaskFlow, run: Runs, k: nat, ready: set<string>, n: string)
    requires !StateAt(flow, run, k).aborted && ready == Ready(flow, StateAt(flow, run, k))
    ensures n in Succeeded(flow, run, k + 1) <==> n in Succeeded(flow, run, k) || (n in ready && n in Okay(flow, run))
    ensures n in FailedBy(flow, run, k + 1) <==> n in FailedBy(flow, run, k) || (n in ready && n !in Okay(flow, run))
    ensures n in ready ==> n in Names(flow.steps) && n !in Succeeded(flow, run, k) && n !in FailedBy(flow, run, k)
  {
    ReadyAt(flow, run, k);
    FailedByGrows(flow, run, k);
    assert n in ready <==> Runnable(flow, run, k, n) && n !in Succeeded(flow, run, k) && n !in FailedBy(flow, run, k);
    assert n in Succeeded(flow, run, k) ==> n in Okay(flow, run);
  }

  /** Draining a layer splits its steps into newly succeeded and newly failed ones. */
  lemma LayerSplits(flow: TaskFlow, run: Runs, k: nat, ready: set<string>)
    requires !StateAt(flow, run, k).aborted && ready == Ready(flow, StateAt(flow, run, k))
    ensures Succeeded(flow, run, k + 1) == Succeeded(flow, run, k) + (ready * Okay(flow, run))
    ensures FailedBy(flow, run, k + 1) == FailedBy(flow, run, k) + (ready - Okay(flow, run))
    ensures ready <= Names(flow.steps) && ready !! Succeeded(flow, run, k) + FailedBy(flow, run, k)
  {
    var s, s', f, f' := Succeeded(flow, run, k), Succeeded(flow, run, k + 1), FailedBy(flow, run, k), FailedBy(flow, run, k + 1);
    forall n
      ensures n in s' <==> n in s + (ready * Okay(flow, run))
      ensures n in f' <==> n in f + (ready - Okay(flow, run))
      ensures n in ready ==> n in Names(flow.steps) && n !in s + f
    {
      NodeAdvances(flow, run, k, ready, n);
    }
  }

  lemma AnyFailsIff(flow: TaskFlow, run: Runs, done: set<string>)
    requires done <= Names(flow.steps)
    ensures AnyFails(run, done) <==> done - Okay(flow, run) != {}
    ensures Failures(run, done).Keys == done - Okay(flow, run)
  {
    if AnyFails(run, done) {
      var f :| f in done && Fails(run, f);
      assert f in done - Okay(flow, run);
    }
    if done - Okay(flow, run) != {} {
      var f :| f in done - Okay(flow, run);
      assert f in done && Fails(run, f);
    }
  }

  lemma StatusAdvances(flow: TaskFlow, run: Runs, k: nat, done: set<string>, n: string)
    requires !StateAt(flow, run, k).aborted && done == Ready(flow, StateAt(flow, run, k)) && n in Names(flow.steps)
    ensures StatusAfter(flow, run, StateAt(flow, run, k), done, n) == StatusAt(flow, run, k + 1, n)
  {
    var st := StateAt(flow, run, k);
    LayerSplits(flow, run, k, done);
    assert Lookup(st.statuses, n) == StatusAt(flow, run, k, n);
    assert n in Succeeded(flow, run, k + 1) ==> n in Okay(flow, run);
    if n !in done && n !in Succeeded(flow, run, k) && n !in FailedBy(flow, run, k) {
      if f :| f in FailedBy(flow, run, k + 1) && (flow.onFailure == Abort || n in Dependents(flow.steps, f)) {
        if f in done {
          assert Fails(run, f);
          assert SkipMarked(flow, run, done, n);
        } else {
          assert f in FailedBy(flow, run, k);
        }
      }
      if SkipMarked(flow, run, done, n) {
        var f :| f in done && Fails(run, f) && (flow.onFailure == Abort || n in Dependents(flow.steps, f));
        assert f in FailedBy(flow, run, k + 1);
      }
    }
  }

  lemma StatusesAdvance(flow: TaskFlow, run: Runs, k: nat, st: FlowState, done: set<string>)
    requires st == StateAt(flow, run, k) && !st.aborted && done == Ready(flow, st)
    ensures AfterLayer(flow, run, st).statuses == StateAt(flow, run, k + 1).statuses
  {
    forall n | n in Names(flow.steps)
      ensures StatusAfter(flow, run, st, done, n) == StatusAt(flow, run, k + 1, n)
    {
      StatusAdvances(flow, run, k, done, n);
    }
  }

  lemma ErrorsAdvance(run: Runs, failed: set<string>, failed': set<string>, done: set<string>, ok: set<string>)
    requires failed' == failed + (done - ok) && forall n :: n in done && n in ok ==> !Fails(run, n)
    ensures Failures(run, failed) + Failures(run, done) == Failures(run, failed')
  {
  }

  lemma FlagsAdvance(flow: TaskFlow, run: Runs, k: nat, st: FlowState, done: set<string>)
    requires st == StateAt(flow, run, k) && !st.aborted && done == Ready(flow, st)
    ensures st.errors + Failures(run, done) == Failures(run, FailedBy(flow, run, k + 1))
    ensures st.failed || AnyFails(run, done) <==> FailedBy(flow, run, k + 1) != {}
    ensures st.started + done == Succeeded(flow, run, k + 1) + FailedBy(flow, run, k + 1)
  {
    LayerSplits(flow, run, k, done);
    AnyFailsIff(flow, run, done);
    ErrorsAdvance(run, FailedBy(flow, run, k), FailedBy(flow, run, k + 1), done, Okay(flow, run));
  }

  lemma LayerAdvances(flow: TaskFlow, run: Runs, k: nat)
    requires !StateAt(flow, run, k).aborted
    ensures AfterLayer(flow, run, StateAt(flow, run, k)) == StateAt(flow, run, k + 1)
  {
    var st := StateAt(flow, run, k);
    StatusesAdvance(flow, run, k, st, Ready(flow, st));
    FlagsAdvance(flow, run, k, st, Ready(flow, st));
  }

  lemma LoopUnfolds(flow: TaskFlow, run: Runs, guard: Guard, st: FlowState)
    requires !Stops(guard, st) && Ready(flow, st) != {}
    ensures RunLoop(flow, run, guard, st) == RunLoop(flow, run, guard, AfterLayer(flow, run, st))
    ensures |Unstatused(flow, AfterLayer(flow, run, st).statuses)| < |Unstatused(flow, st.statuses)|
  {
    LayerShrinks(flow, run, st);
  }

  ghost predicate Progresses<T>(stop: nat -> bool, measure: nat -> nat, result: nat -> T, j: nat) {
    !stop(j) ==> measure(j + 1) < measure(j) && result(j + 1) == result(j)
  }

  /** A loop whose measure falls as long as it goes on, and whose result stays the same, ends. */
  lemma {:induction false} FirstStop<T(!new)>(stop: nat -> bool, measure: nat -> nat, result: nat -> T, k: nat)
    returns (n: nat)
    requires forall j: nat :: Progresses(stop, measure, result, j)
    ensures k <= n && stop(n) && result(n) == result(k)
    ensures forall j: nat :: k <= j < n ==> !stop(j)
    decreases measure(k)
  {
    if stop(k) {
      n := k;
    } else {
      assert Progresses(stop, measure, result, k);
      n := FirstStop(stop, measure, result, k + 1);
    }
  }

  lemma LayersFollow(flow: TaskFlow, run: Runs, at: nat -> FlowState)
    requires forall j: nat :: at(j) == StateAt(flow, run, j)
    ensures forall j: nat :: Follows(flow, run, at, j)
  {
    forall j: nat ensures Follows(flow, run, at, j) {
      if !at(j).aborted {
        LayerAdvances(flow, run, j);
      }
    }
  }

  /** Draining a layer leads from the state after `j` layers to the next one. */
  ghost predicate Follows(flow: TaskFlow, run: Runs, at: nat -> FlowState, j: nat) {
    !at(j).aborted ==> AfterLayer(flow, run, at(j)) == at(j + 1)
  }

  lemma QuietLayerIsLimit(flow: TaskFlow, run: Runs, n: nat)
    requires Succeeded(flow, run, n + 1) == Succeeded(flow, run, n)
    requires FailedBy(flow, run, n + 1) == FailedBy(flow, run, n)
    ensures Succeeded(flow, run, n) == Eventually(GraphOf(flow.steps), Okay(flow, run))
    ensures FailedBy(flow, run, n) == EventuallyFailed(flow, run)
  {
    var g, ok := GraphOf(flow.steps), Okay(flow, run);
    SettledStays(g, ok, n, n + |g|);
    EventuallyIsLimit(g, ok, n + |g|);
  }

  /** With nothing ready, everything that will ever succeed has. */
  lemma NothingReadyIsLimit(flow: TaskFlow, run: Runs, n: nat, st: FlowState)
    requires st == StateAt(flow, run, n) && !st.aborted && Ready(flow, st) == {}
    ensures Succeeded(flow, run, n) == Eventually(GraphOf(flow.steps), Okay(flow, run))
    ensures FailedBy(flow, run, n) == EventuallyFailed(flow, run)
  {
    assert Succeeded(flow, run, n + 1) == Succeeded(flow, run, n) && FailedBy(flow, run, n + 1) == FailedBy(flow, run, n) by {
      LayerSplits(flow, run, n, {});
    }
    QuietLayerIsLimit(flow, run, n);
  }

  /** The steps that fail when every step gets its turn: all their dependencies succeed, they do not. */
  ghost function EventuallyFailed(flow: TaskFlow, run: Runs): set<string> {
    set m | && m in Names(flow.steps) && m !in Okay(flow, run)
            && GraphOf(flow.steps)[m] <= Eventually(GraphOf(flow.steps), Okay(flow, run))
  }

  /** What is recorded after `k` layers. */
  ghost predicate Records(flow: TaskFlow, run: Runs, k: nat, st: FlowState) {
    && st.statuses.Keys <= Names(flow.steps)
    && (forall n :: n in Names(flow.steps) ==> Lookup(st.statuses, n) == StatusAt(flow, run, k, n))
    && (st.failed <==> FailedBy(flow, run, k) != {}) && st.errors == Failures(run, FailedBy(flow, run, k))
    && st.started == Succeeded(flow, run, k) + FailedBy(flow, run, k)
  }

  /** The loop goes on after `k` layers. */
  ghost predicate GoesOn(flow: TaskFlow, run: Runs, guard: Guard, k: nat) {
    FailedBy(flow, run, k) == {} || (guard == Intended && flow.onFailure == Continue)
  }

  /** How a run of a valid flow ends: after `n` layers, stopped by the guard or with nothing left to start. */
  lemma RunEnds(flow: TaskFlow, run: Runs, guard: Guard) returns (n: nat, last: FlowState)
    requires Valid(flow)
    ensures Records(flow, run, n, last)
    ensures forall j: nat :: j < n ==> GoesOn(flow, run, guard, j)
    ensures Final(flow, run, guard) == if GoesOn(flow, run, guard, n) then SkipRemaining(flow, last) else last
    ensures GoesOn(flow, run, guard, n) ==>
              && Succeeded(flow, run, n) == Eventually(GraphOf(flow.steps), Okay(flow, run))
              && FailedBy(flow, run, n) == EventuallyFailed(flow, run)
  {
    var at: nat -> FlowState := (k: nat) => StateAt(flow, run, k);
    LayersFollow(flow, run, at);
    n, last := LoopFromStart(flow, run, guard, at);
    forall j: nat | j < n ensures GoesOn(flow, run, guard, j) {
      assert !Stops(guard, at(j));
    }
    if GoesOn(flow, run, guard, n) {
      NothingReadyIsLimit(flow, run, n, last);
    }
  }

  lemma LoopFromStart(flow: TaskFlow, run: Runs, guard: Guard, at: nat -> FlowState) returns (n: nat, last: FlowState)
    requires Valid(flow) && at(0) == INITIAL
    requires forall j: nat :: Follows(flow, run, at, j)
    ensures last == at(n) && forall j: nat :: j < n ==> !Stops(guard, at(j))
    ensures Stops(guard, last) || Ready(flow, last) == {}
    ensures Final(flow, run, guard) == if Stops(guard, last) then last else SkipRemaining(flow, last)
  {
    var stop: nat -> bool := (j: nat) => Stops(guard, at(j)) || Ready(flow, at(j)) == {};
    var measure: nat -> nat := (j: nat) => |Unstatused(flow, at(j).statuses)|;
    var result: nat -> FlowState := (j: nat) => RunLoop(flow, run, guard, at(j));
    forall j: nat ensures Progresses(stop, measure, result, j) {
      assert Follows(flow, run, at, j);
      if !stop(j) {
        LoopUnfolds(flow, run, guard, at(j));
      }
    }
    n := FirstStop(stop, measure, result, 0);
    last := at(n);
    forall j: nat | j < n ensures !Stops(guard, at(j)) {
      assert !stop(j);
    }
    assert stop(n) && result(n) == Final(flow, run, guard);
  }

  // ----- the guard as written -----

  /** The steps whose longest dependency chain has at most `k` steps. */
  ghost function Depth(flow: TaskFlow, k: nat): set<string> {
    Settled(GraphOf(flow.steps), Names(flow.steps), k)
  }

  /** The steps that are not held up by a dependency cycle. */
  ghost function Unblocked(flow: TaskFlow): set<string> {
    Eventually(GraphOf(flow.steps), Names(flow.steps))
  }

  /** `k` is the smallest depth at which some step fails. */
  ghost predicate FirstFailing(flow: TaskFlow, run: Runs, k: nat) {
    && !(Depth(flow, k) <= Okay(flow, run))
    && forall j: nat :: j < k ==> Depth(flow, j) <= Okay(flow, run)
  }

  lemma {:induction false} FindFirstFailing(flow: TaskFlow, run: Runs, n: nat) returns (k: nat)
    requires !(Depth(flow, n) <= Okay(flow, run))
    ensures FirstFailing(flow, run, k)
  {
    if j: nat :| j < n && !(Depth(flow, j) <= Okay(flow, run)) {
      k := FindFirstFailing(flow, run, j);
    } else {
      k := n;
    }
  }

  /** While no depth below `k` holds a failing step, the layers are the depths of the graph. */
  lemma LayersAreDepths(flow: TaskFlow, run: Runs, k: nat)
    requires forall j: nat :: j < k ==> Depth(flow, j) <= Okay(flow, run)
    ensures Succeeded(flow, run, k) == Depth(flow, k) * Okay(flow, run)
    ensures FailedBy(flow, run, k) == Depth(flow, k) - Okay(flow, run)
  {
    if k > 0 {
      var g := GraphOf(flow.steps);
      assert g.Keys == Names(flow.steps);
      assert Depth(flow, k - 1) <= Okay(flow, run);
      SettledAgree(g, Okay(flow, run), k - 1);
    }
  }

  /** If no step ever fails, no depth holds a failing step. */
  lemma {:induction false} DepthSucceeds(flow: TaskFlow, run: Runs, k: nat)
    requires EventuallyFailed(flow, run) == {}
    ensures Depth(flow, k) <= Eventually(GraphOf(flow.steps), Okay(flow, run)) <= Okay(flow, run)
  {
    var g, ok := GraphOf(flow.steps), Okay(flow, run);
    EventuallyUnfold(g, ok);
    if k > 0 {
      DepthSucceeds(flow, run, k - 1);
      forall v | v in Depth(flow, k) ensures v in Eventually(g, ok) {
        assert v !in EventuallyFailed(flow, run);
      }
    }
  }

  /** The only layer at which a loop that meets the first failure at depth `k` can end is `k`. */
  lemma EndsAtFirstFailure(flow: TaskFlow, run: Runs, k: nat, n: nat)
    requires FirstFailing(flow, run, k)
    requires forall j: nat :: j < n ==> GoesOn(flow, run, AsWritten, j)
    requires GoesOn(flow, run, AsWritten, n) ==> FailedBy(flow, run, n) == EventuallyFailed(flow, run)
    ensures n == k && !GoesOn(flow, run, AsWritten, n)
    ensures Succeeded(flow, run, k) == Depth(flow, k) * Okay(flow, run)
    ensures FailedBy(flow, run, k) == Depth(flow, k) - Okay(flow, run) != {}
  {
    LayersAreDepths(flow, run, k);
    var v :| v in Depth(flow, k) && v !in Okay(flow, run);
    assert v in FailedBy(flow, run, k);
    assert !GoesOn(flow, run, AsWritten, k);
    assert n <= k;
    if n < k {
      LayersAreDepths(flow, run, n);
      DepthSucceeds(flow, run, k);
    }
  }

  /** A run with a failing step stops right after the first depth that holds one, under either policy. */
  lemma FailingRunEnds(flow: TaskFlow, run: Runs, k: nat)
    requires Valid(flow) && FirstFailing(flow, run, k)
    ensures Records(flow, run, k, Final(flow, run, AsWritten))
    ensures Succeeded(flow, run, k) == Depth(flow, k) * Okay(flow, run)
    ensures FailedBy(flow, run, k) == Depth(flow, k) - Okay(flow, run) != {}
  {
    var n, last := RunEnds(flow, run, AsWritten);
    EndsAtFirstFailure(flow, run, k, n);
  }

  lemma NoDepthFails(flow: TaskFlow, run: Runs, n: nat)
    requires Unblocked(flow) <= Okay(flow, run)
    ensures FailedBy(flow, run, n) == {} && Unblocked(flow) <= Names(flow.steps)
    ensures Eventually(GraphOf(flow.steps), Okay(flow, run)) == Unblocked(flow)
  {
    var g := GraphOf(flow.steps);
    assert g.Keys == Names(flow.steps);
    forall j: nat
      ensures Depth(flow, j) <= Okay(flow, run)
    {
      EventuallyIsLimit(g, Names(flow.steps), j);
    }
    LayersAreDepths(flow, run, n);
    SettledAgree(g, Okay(flow, run), |g|);
    SettledCount(g, Names(flow.steps), |g|);
  }

  lemma SkipTheBlocked(flow: TaskFlow, st: FlowState, done: set<string>)
    requires done <= Names(flow.steps) && !st.failed
    requires st.statuses == map n | n in done :: Completed
    ensures var final := SkipRemaining(flow, st);
            && final.statuses == (map n | n in Names(flow.steps) :: if n in done then Completed else Skipped)
            && (final.failed <==> done != Names(flow.steps))
  {
    assert st.statuses.Keys == done;
    assert Unstatused(flow, st.statuses) == Names(flow.steps) - done;
    if done != Names(flow.steps) {
      var n :| n in Names(flow.steps) && n !in done;
      assert n in Names(flow.steps) - done;
    }
  }

  lemma FailureFreeRecords(flow: TaskFlow, run: Runs, n: nat, st: FlowState, done: set<string>)
    requires Records(flow, run, n, st)
    requires FailedBy(flow, run, n) == {} && Succeeded(flow, run, n) == done <= Names(flow.steps)
    ensures st.statuses == map n | n in done :: Completed
  {
    forall m | m in Names(flow.steps)
      ensures Lookup(st.statuses, m) == if m in done then Some(Completed) else None
    {
      assert StatusAt(flow, run, n, m) == if m in done then Some(Completed) else None;
    }
  }

  ghost predicate CompletesExactly(flow: TaskFlow, final: FlowState, done: set<string>) {
    && final.started == done <= Names(flow.steps)
    && final.statuses == (map n | n in Names(flow.steps) :: if n in done then Completed else Skipped)
    && (final.failed <==> done != Names(flow.steps))
  }

  lemma FailureFreeFrom(flow: TaskFlow, run: Runs, n: nat, last: FlowState, done: set<string>)
    requires Records(flow, run, n, last)
    requires FailedBy(flow, run, n) == {} && Succeeded(flow, run, n) == done <= Names(flow.steps)
    ensures CompletesExactly(flow, SkipRemaining(flow, last), done)
  {
    FailureFreeRecords(flow, run, n, last, done);
    SkipTheBlocked(flow, last, done);
  }

  /** A run without a failing step completes every step that no cycle holds up and skips the rest. */
  lemma FailureFreeRunEnds(flow: TaskFlow, run: Runs)
    requires Valid(flow) && Unblocked(flow) <= Okay(flow, run)
    ensures CompletesExactly(flow, Final(flow, run, AsWritten), Unblocked(flow))
  {
    var n, last := RunEnds(flow, run, AsWritten);
    NoDepthFails(flow, run, n);
    FailureFreeFrom(flow, run, n, last, Unblocked(flow));
  }

  lemma AllOkayIff(flow: TaskFlow, run: Runs)
    ensures Okay(flow, run) == GraphOf(flow.steps).Keys <==> forall n :: n in Names(flow.steps) ==> !Fails(run, n)
  {
    assert GraphOf(flow.steps).Keys == Names(flow.steps);
    if Okay(flow, run) == Names(flow.steps) {
      forall n | n in Names(flow.steps) ensures !Fails(run, n) {
        assert n in Okay(flow, run);
      }
    }
  }

  lemma AllSucceeded(flow: TaskFlow, run: Runs, n: nat, last: FlowState)
    requires Records(flow, run, n, last) && Succeeded(flow, run, n) == Names(flow.steps)
    ensures !SkipRemaining(flow, last).failed && last.started == Names(flow.steps)
    ensures SkipRemaining(flow, last).statuses == map m | m in Names(flow.steps) :: Completed
  {
    forall m | m in Names(flow.steps) ensures HasCompleted(last.statuses, m) && m in Okay(flow, run) {
      assert m in Succeeded(flow, run, n) && Lookup(last.statuses, m) == StatusAt(flow, run, n, m);
    }
    assert FailedBy(flow, run, n) == {};
    assert Unstatused(flow, last.statuses) == {};
  }

  lemma OneMissing(all: set<string>, some: set<string>) returns (m: string)
    requires some <= all && some != all
    ensures m in all && m !in some
  {
    m :| m in all && m !in some;
  }

  lemma NotAllSucceeded(flow: TaskFlow, run: Runs, n: nat, last: FlowState, m: string)
    requires Records(flow, run, n, last) && m in Names(flow.steps) && m !in Succeeded(flow, run, n)
    ensures SkipRemaining(flow, last).failed
  {
    if FailedBy(flow, run, n) == {} {
      assert StatusAt(flow, run, n, m) == None && Lookup(last.statuses, m) == StatusAt(flow, run, n, m);
      assert m in Unstatused(flow, last.statuses);
    }
  }

  /** With either guard a flow completes exactly when it validates, has no dependency cycle and every step
      succeeds; every step then ran and is recorded as completed. */
  lemma CompletesIff(flow: TaskFlow, run: Runs, guard: Guard)
    ensures var final := Final(flow, run, guard);
            && (!final.failed <==>
                && Valid(flow) && Acyclic(GraphOf(flow.steps))
                && forall n :: n in Names(flow.steps) ==> !Fails(run, n))
            && (!final.failed ==>
                && final.started == Names(flow.steps)
                && final.statuses == (map n | n in Names(flow.steps) :: Completed))
  {
    if Valid(flow) {
      AllOkayIff(flow, run);
      AllSettleIff(GraphOf(flow.steps), Okay(flow, run));
      var n, last := RunEnds(flow, run, guard);
      if GoesOn(flow, run, guard, n) {
        if Succeeded(flow, run, n) == Names(flow.steps) {
          AllSucceeded(flow, run, n, last);
        } else {
          SettledCount(GraphOf(flow.steps), Okay(flow, run), n);
          var m := OneMissing(Names(flow.steps), Succeeded(flow, run, n));
          NotAllSucceeded(flow, run, n, last, m);
        }
      } else {
        var f :| f in FailedBy(flow, run, n);
        assert Fails(run, f);
      }
    }
  }

  /** A step that ran has its own outcome recorded, and an error is recorded exactly for those that ran
      and failed. */
  lemma OutcomeRecorded(flow: TaskFlow, run: Runs, guard: Guard, m: string)
    requires m in Names(flow.steps)
    ensures var final := Final(flow, run, guard);
            && (m in final.started ==> Lookup(final.statuses, m) == Some(if Fails(run, m) then Failed else Completed))
            && Lookup(final.errors, m) == if m in final.started && Fails(run, m) then Some(run(m).error) else None
  {
    if Valid(flow) {
      var n, last := RunEnds(flow, run, guard);
      assert Lookup(last.statuses, m) == StatusAt(flow, run, n, m);
      assert m in Succeeded(flow, run, n) ==> m in Okay(flow, run);
      SkipRemainingStatus(flow, last, m);
    }
  }

  /** A step that never ran is reported skipped, except that the guard as written reports it completed when
      it neither is as deep as the first failure nor depends on a step that failed there. */
  ghost predicate Phantom(flow: TaskFlow, run: Runs, guard: Guard, n: string) {
    && guard == AsWritten && flow.onFailure == Continue && Valid(flow)
    && exists k: nat :: FirstFailing(flow, run, k) && n !in Depth(flow, k) && !DependsOnFailure(flow, run, k, n)
  }

  lemma OnlyOneFirst(flow: TaskFlow, run: Runs, j: nat, k: nat)
    requires FirstFailing(flow, run, j) && FirstFailing(flow, run, k)
    ensures j == k
  {
    assert !(j < k) && !(k < j);
  }

  /** If no step fails where it gets its turn, no depth is the first failing one. */
  lemma NoFirstFailing(flow: TaskFlow, run: Runs)
    requires Unblocked(flow) <= Okay(flow, run)
    ensures forall k: nat :: !FirstFailing(flow, run, k)
  {
    forall k: nat ensures !FirstFailing(flow, run, k) {
      EventuallyIsLimit(GraphOf(flow.steps), Names(flow.steps), k);
    }
  }

  lemma UnstartedReported(flow: TaskFlow, run: Runs, guard: Guard, n: string)
    requires n in Names(flow.steps) && n !in Final(flow, run, guard).started
    ensures ReportedStatus(Final(flow, run, guard), n) == if Phantom(flow, run, guard, n) then Completed else Skipped
  {
    if Valid(flow) {
      if guard == Intended && flow.onFailure == Continue {
        IntendedContinue(flow, run, n);
      } else if Unblocked(flow) <= Okay(flow, run) {
        SameUnlessContinue(flow, run, guard);
        FailureFreeRunEnds(flow, run);
        NoFirstFailing(flow, run);
      } else {
        SameUnlessContinue(flow, run, guard);
        var k := FindFirstFailing(flow, run, |GraphOf(flow.steps)|);
        FailingRunReports(flow, run, k, n);
        forall j: nat | FirstFailing(flow, run, j) ensures j == k {
          OnlyOneFirst(flow, run, j, k);
        }
      }
    }
  }

  /** The guards differ only under `Continue`. */
  lemma {:induction false} SameLoop(flow: TaskFlow, run: Runs, st: FlowState)
    requires flow.onFailure == Abort && (st.failed <==> st.aborted)
    ensures RunLoop(flow, run, Intended, st) == RunLoop(flow, run, AsWritten, st)
    decreases |Unstatused(flow, st.statuses)|
  {
    if !st.aborted && Ready(flow, st) != {} {
      LayerShrinks(flow, run, st);
      SameLoop(flow, run, AfterLayer(flow, run, st));
    }
  }

  lemma SameUnlessContinue(flow: TaskFlow, run: Runs, guard: Guard)
    requires flow.onFailure == Abort || guard == AsWritten
    ensures Final(flow, run, guard) == Final(flow, run, AsWritten)
  {
    if guard == Intended {
      SameLoop(flow, run, INITIAL);
    }
  }

  /** What a report says of a flow when exactly the steps in `started` were run. */
  ghost predicate TellsOf(flow: TaskFlow, run: Runs, guard: Guard, started: set<string>, report: FlowReport) {
    && report.flowId == flow.id && |report.steps| == |flow.steps|
    && (report.status == FlowCompleted <==>
        && Valid(flow) && Acyclic(GraphOf(flow.steps)) && forall n :: n in Names(flow.steps) ==> !Fails(run, n))
    && forall i :: 0 <= i < |flow.steps| ==>
         TellsOfStep(flow, run, guard, started, flow.steps[i].name, report.steps[i])
  }

  ghost predicate TellsOfStep(flow: TaskFlow, run: Runs, guard: Guard, started: set<string>, n: string, o: StepOutcome) {
    && o.name == n
    && (o.status == Failed <==> n in started && Fails(run, n))
    && (o.status == Completed <==> (n in started && !Fails(run, n)) || (n !in started && Phantom(flow, run, guard, n)))
    && o.error == if n in started && Fails(run, n) then Some(run(n).error) else None
  }

  /** The report tells what happened. */
  lemma ReportTells(flow: TaskFlow, run: Runs, guard: Guard)
    ensures var final := Final(flow, run, guard); TellsOf(flow, run, guard, final.started, ReportOf(flow, final))
  {
    var final := Final(flow, run, guard);
    CompletesIff(flow, run, guard);
    forall i | 0 <= i < |flow.steps|
      ensures TellsOfStep(flow, run, guard, final.started, flow.steps[i].name, ReportOf(flow, final).steps[i])
    {
      var n := flow.steps[i].name;
      OutcomeRecorded(flow, run, guard, n);
      if n !in final.started {
        UnstartedReported(flow, run, guard, n);
      }
    }
  }

  /** What the report says of a step when some step failed: those at most as deep as the first
      failure report their own outcome; deeper ones never start, and are reported skipped if the
      policy is `Abort` or they depend on a step that failed, and completed otherwise. */
  lemma FailingRunReports(flow: TaskFlow, run: Runs, k: nat, n: string)
    requires Valid(flow) && FirstFailing(flow, run, k) && n in Names(flow.steps)
    ensures var final := Final(flow, run, AsWritten);
            && (n in final.started <==> n in Depth(flow, k))
            && ReportedStatus(final, n) ==
               if n in Depth(flow, k) then (if Fails(run, n) then Failed else Completed)
               else if flow.onFailure == Abort || DependsOnFailure(flow, run, k, n) then Skipped
               else Completed
  {
    FailingRunEnds(flow, run, k);
    var final := Final(flow, run, AsWritten);
    assert Lookup(final.statuses, n) == StatusAt(flow, run, k, n);
    if n !in Depth(flow, k) {
      if flow.onFailure == Abort {
        var f :| f in FailedBy(flow, run, k);
      }
      if DependsOnFailure(flow, run, k, n) {
        var f :| f in Depth(flow, k) && Fails(run, f) && Reaches(GraphOf(flow.steps), n, f);
        SettledCount(GraphOf(flow.steps), Names(flow.steps), k);
        assert f in FailedBy(flow, run, k) && n in Dependents(flow.steps, f);
      }
    }
  }

  ghost predicate DependsOnFailure(flow: TaskFlow, run: Runs, k: nat, n: string) {
    exists f :: f in Depth(flow, k) && Fails(run, f) && Reaches(GraphOf(flow.steps), n, f)
  }

  /** Every step reported completed really ran. */
  ghost predicate ReportIsHonest(flow: TaskFlow, run: Runs) {
    var final := Final(flow, run, AsWritten);
    forall n :: n in Names(flow.steps) && ReportedStatus(final, n) == Completed ==> n in final.started
  }

  /** The report is honest exactly when the flow is rejected, the policy is `Abort`, or every step
      deeper than the first failing depth depends on a step that fails there. */
  lemma HonestIff(flow: TaskFlow, run: Runs)
    ensures ReportIsHonest(flow, run) <==>
            || !Valid(flow)
            || flow.onFailure == Abort
            || forall k, n :: FirstFailing(flow, run, k) && n in Names(flow.steps) && n !in Depth(flow, k)
                              ==> DependsOnFailure(flow, run, k, n)
  {
    if !Valid(flow) {
      assert forall n :: n in Names(flow.steps) ==> ReportedStatus(AllSkipped(flow), n) == Skipped;
    } else if Unblocked(flow) <= Okay(flow, run) {
      FailureFreeRunEnds(flow, run);
      NoFirstFailing(flow, run);
    } else {
      var k := FindFirstFailing(flow, run, |GraphOf(flow.steps)|);
      forall j: nat | FirstFailing(flow, run, j) ensures j == k {
        OnlyOneFirst(flow, run, j, k);
      }
      forall n | n in Names(flow.steps)
        ensures ReportedStatus(Final(flow, run, AsWritten), n) == Completed && n !in Final(flow, run, AsWritten).started
                <==> n !in Depth(flow, k) && flow.onFailure == Continue && !DependsOnFailure(flow, run, k, n)
      {
        FailingRunReports(flow, run, k, n);
      }
    }
  }

  // ----- the intended guard -----

  /** A step's dependencies all succeed in the end exactly when nothing it transitively depends on
      fails or lies on a cycle. */
  lemma GetsItsTurnIff(flow: TaskFlow, run: Runs, n: string)
    requires Valid(flow) && n in Names(flow.steps)
    ensures GraphOf(flow.steps)[n] <= Eventually(GraphOf(flow.steps), Okay(flow, run)) <==> ClearUpstream(flow, run, n)
  {
    var g, ok := GraphOf(flow.steps), Okay(flow, run);
    forall u ensures Reaches(g, n, u) <==> exists d :: d in g[n] && Upstream(g, d, u) {
      ReachesUnfold(g, n, u);
    }
    forall d | d in g[n]
      ensures d in Eventually(g, ok) <==> forall u :: Upstream(g, d, u) ==> u in ok && !OnCycle(g, u)
    {
      EventuallyIff(g, ok, d);
    }
    if ClearUpstream(flow, run, n) {
      forall d | d in g[n] ensures d in Eventually(g, ok) {
        forall u | Upstream(g, d, u) ensures u in ok && !OnCycle(g, u) {
          assert Reaches(g, n, u);
        }
      }
    }
  }

  /** No step that `n` transitively depends on fails or lies on a cycle. */
  ghost predicate ClearUpstream(flow: TaskFlow, run: Runs, n: string) {
    forall u :: Reaches(GraphOf(flow.steps), n, u) ==> u in Okay(flow, run) && !OnCycle(GraphOf(flow.steps), u)
  }

  lemma SkipRemainingStatus(flow: TaskFlow, st: FlowState, m: string)
    requires m in Names(flow.steps)
    ensures Lookup(SkipRemaining(flow, st).statuses, m) == Some(Lookup(st.statuses, m).GetOr(Skipped))
  {
    if m !in st.statuses {
      assert m in Unstatused(flow, st.statuses);
    }
  }

  lemma StatusAtLimit(flow: TaskFlow, run: Runs, n: nat, m: string)
    requires m in Names(flow.steps)
    requires Succeeded(flow, run, n) == Eventually(GraphOf(flow.steps), Okay(flow, run))
    requires FailedBy(flow, run, n) == EventuallyFailed(flow, run)
    ensures m in Succeeded(flow, run, n) + FailedBy(flow, run, n) <==>
            GraphOf(flow.steps)[m] <= Eventually(GraphOf(flow.steps), Okay(flow, run))
    ensures StatusAt(flow, run, n, m).GetOr(Skipped) ==
            if m !in Succeeded(flow, run, n) + FailedBy(flow, run, n) then Skipped
            else if Fails(run, m) then Failed else Completed
  {
    EventuallyUnfold(GraphOf(flow.steps), Okay(flow, run));
  }

  lemma IntendedRecords(flow: TaskFlow, run: Runs, n: nat, last: FlowState, m: string)
    requires Records(flow, run, n, last) && m in Names(flow.steps)
    requires Succeeded(flow, run, n) == Eventually(GraphOf(flow.steps), Okay(flow, run))
    requires FailedBy(flow, run, n) == EventuallyFailed(flow, run)
    ensures var final := SkipRemaining(flow, last);
            && (m in final.started <==> GraphOf(flow.steps)[m] <= Eventually(GraphOf(flow.steps), Okay(flow, run)))
            && m in final.statuses
            && final.statuses[m] ==
               if m !in final.started then Skipped else if Fails(run, m) then Failed else Completed
  {
    StatusAtLimit(flow, run, n, m);
    SkipRemainingStatus(flow, last, m);
    assert Lookup(last.statuses, m) == StatusAt(flow, run, n, m);
  }

  /** With the guard `!aborted` alone, `Continue` runs exactly the steps that are not downstream of
      a failure or a cycle, and reports each step as what happened to it. */
  lemma IntendedContinue(flow: TaskFlow, run: Runs, m: string)
    requires Valid(flow) && flow.onFailure == Continue && m in Names(flow.steps)
    ensures var final := Final(flow, run, Intended);
            && (m in final.started <==> ClearUpstream(flow, run, m))
            && m in final.statuses
            && final.statuses[m] ==
               if m !in final.started then Skipped else if Fails(run, m) then Failed else Completed
  {
    var n, last := RunEnds(flow, run, Intended);
    IntendedRecords(flow, run, n, last, m);
    GetsItsTurnIff(flow, run, m);
  }

  // ----- who is skipped under `Continue` -----

  /** `n` transitively depends on a step that is recorded as failed. */
  ghost predicate DownstreamOfFailed(flow: TaskFlow, final: FlowState, n: string) {
    exists f :: f in final.statuses && final.statuses[f] == Failed && Reaches(GraphOf(flow.steps), n, f)
  }

  /** `n` is on a dependency cycle or depends on one. */
  ghost predicate CycleBlocked(flow: TaskFlow, n: string) {
    exists u :: Upstream(GraphOf(flow.steps), n, u) && OnCycle(GraphOf(flow.steps), u)
  }

  lemma BlockedIff(flow: TaskFlow, n: string)
    requires Valid(flow) && n in Names(flow.steps)
    ensures CycleBlocked(flow, n) <==> n !in Unblocked(flow)
  {
    var g := GraphOf(flow.steps);
    assert g.Keys == Names(flow.steps);
    EventuallyIff(g, Names(flow.steps), n);
    forall u | Upstream(g, n, u) ensures u in g {
      StaysInside(g, n, u);
    }
  }

  /** Walking up from a step that never gets to succeed, and that no cycle blocks, meets a step
      that is run and fails. */
  lemma {:induction false} FindFailedUpstream(flow: TaskFlow, run: Runs, k: nat, n: string) returns (f: string)
    requires Valid(flow) && n in Depth(flow, k) && n !in Eventually(GraphOf(flow.steps), Okay(flow, run))
    ensures f in EventuallyFailed(flow, run) && Upstream(GraphOf(flow.steps), n, f)
  {
    var g, ok := GraphOf(flow.steps), Okay(flow, run);
    EventuallyUnfold(g, ok);
    if g[n] <= Eventually(g, ok) {
      f := n;
    } else {
      var d :| d in g[n] && d !in Eventually(g, ok);
      f := FindFailedUpstream(flow, run, k - 1, d);
      ReachesUnfold(g, n, f);
    }
  }

  lemma IntendedSkips(flow: TaskFlow, run: Runs, n: string)
    requires Valid(flow) && flow.onFailure == Continue && n in Names(flow.steps)
    ensures SkipsExactly(flow, Final(flow, run, Intended), n)
  {
    var g, ok, final := GraphOf(flow.steps), Okay(flow, run), Final(flow, run, Intended);
    IntendedContinue(flow, run, n);
    if DownstreamOfFailed(flow, final, n) {
      var f :| f in final.statuses && final.statuses[f] == Failed && Reaches(g, n, f);
      StaysInside(g, n, f);
      IntendedContinue(flow, run, f);
    }
    if ReportedStatus(final, n) == Skipped && !CycleBlocked(flow, n) {
      BlockedIff(flow, n);
      GetsItsTurnIff(flow, run, n);
      EventuallyUnfold(g, ok);
      var f := FindFailedUpstream(flow, run, |g|, n);
      IntendedContinue(flow, run, f);
      GetsItsTurnIff(flow, run, f);
      assert f != n;
    }
  }

  /** A step downstream of a failed one is skipped without having been run, and a skipped step that
      no cycle blocks is downstream of a failed one. */
  ghost predicate SkipsExactly(flow: TaskFlow, final: FlowState, n: string) {
    && (DownstreamOfFailed(flow, final, n) ==> ReportedStatus(final, n) == Skipped)
    && (ReportedStatus(final, n) == Skipped && !CycleBlocked(flow, n) ==> DownstreamOfFailed(flow, final, n))
    && (ReportedStatus(final, n) == Skipped ==> n !in final.started)
  }

  lemma RecordedFailureIff(flow: TaskFlow, run: Runs, k: nat, final: FlowState, f: string)
    requires Records(flow, run, k, final)
    ensures f in final.statuses && final.statuses[f] == Failed <==> f in FailedBy(flow, run, k)
  {
  }

  lemma DownstreamIff(flow: TaskFlow, run: Runs, k: nat, final: FlowState, n: string)
    requires Records(flow, run, k, final) && FailedBy(flow, run, k) == Depth(flow, k) - Okay(flow, run)
    ensures DownstreamOfFailed(flow, final, n) <==> DependsOnFailure(flow, run, k, n)
  {
    SettledCount(GraphOf(flow.steps), Names(flow.steps), k);
    forall f
      ensures f in final.statuses && final.statuses[f] == Failed <==> f in Depth(flow, k) && Fails(run, f)
    {
      RecordedFailureIff(flow, run, k, final, f);
    }
  }

  lemma ShallowIsNotDownstream(flow: TaskFlow, run: Runs, k: nat, n: string)
    requires FirstFailing(flow, run, k) && n in Depth(flow, k)
    ensures !DependsOnFailure(flow, run, k, n)
  {
    if f :| f in Depth(flow, k) && Fails(run, f) && Reaches(GraphOf(flow.steps), n, f) {
      LayersAreDepths(flow, run, k - 1);
      assert Depth(flow, k - 1) <= Okay(flow, run);
      UnblockedIsNoDependent(flow, run, k - 1, n, f);
    }
  }

  lemma FailingRunSkips(flow: TaskFlow, run: Runs, k: nat, n: string)
    requires Valid(flow) && flow.onFailure == Continue && n in Names(flow.steps) && FirstFailing(flow, run, k)
    ensures SkipsExactly(flow, Final(flow, run, AsWritten), n)
  {
    FailingRunEnds(flow, run, k);
    FailingRunReports(flow, run, k, n);
    DownstreamIff(flow, run, k, Final(flow, run, AsWritten), n);
    if n in Depth(flow, k) {
      ShallowIsNotDownstream(flow, run, k, n);
    }
  }

  lemma ContinueSkipsExactly(flow: TaskFlow, run: Runs, guard: Guard, n: string)
    requires Valid(flow) && flow.onFailure == Continue && n in Names(flow.steps)
    ensures SkipsExactly(flow, Final(flow, run, guard), n)
  {
    if guard == Intended {
      IntendedSkips(flow, run, n);
    } else if Unblocked(flow) <= Okay(flow, run) {
      FailureFreeRunEnds(flow, run);
      BlockedIff(flow, n);
    } else {
      var k := FindFirstFailing(flow, run, |GraphOf(flow.steps)|);
      FailingRunSkips(flow, run, k, n);
    }
  }

  // ----- a flow whose report is not honest -----

  const EXAMPLE := TaskFlow(
    "example",
    [Step("a", "", []), Step("b", "", []), Step("c", "", ["b"])],
    Continue)

  function ExampleRun(name: string): StepResult {
    if name == "a" then Err("no model") else Ok
  }

  lemma ExampleGraph()
    ensures Valid(EXAMPLE)
    ensures var g := GraphOf(EXAMPLE.steps);
            g.Keys == Names(EXAMPLE.steps) == {"a", "b", "c"} && g["a"] == {} && g["b"] == {} && g["c"] == {"b"}
  {
    assert EXAMPLE.steps[0].name == "a" && EXAMPLE.steps[1].name == "b" && EXAMPLE.steps[2].name == "c";
    assert "b" in EXAMPLE.steps[2].dependsOn;
  }

  lemma ExampleReaches(g: Graph, u: string)
    requires g == map["a" := {}, "b" := {}, "c" := {"b"}]
    ensures Reaches(g, "c", u) <==> u == "b"
    ensures !Reaches(g, "b", u)
  {
    ReachesUnfold(g, "c", u);
    ReachesUnfold(g, "b", u);
    assert Upstream(g, "b", "b");
  }

  lemma ExampleFirstFailing(g: Graph)
    requires g == map["a" := {}, "b" := {}, "c" := {"b"}]
    requires GraphOf(EXAMPLE.steps) == g && Names(EXAMPLE.steps) == {"a", "b", "c"}
    ensures FirstFailing(EXAMPLE, ExampleRun, 1) && "c" !in Depth(EXAMPLE, 1)
  {
    assert Settled(g, {"a", "b", "c"}, 0) == {};
    assert Settled(g, {"a", "b", "c"}, 1) == {"a", "b"};
    assert "a" !in Okay(EXAMPLE, ExampleRun);
  }

  /** Step `c` depends only on `b`, which succeeds; the unrelated step `a` fails. As written, `c` is
      never run and yet reported completed; with the intended guard it runs. */
  lemma PhantomCompletion()
    ensures Valid(EXAMPLE)
    ensures var final := Final(EXAMPLE, ExampleRun, AsWritten);
            "c" !in final.started && ReportedStatus(final, "c") == Completed
    ensures "c" in Final(EXAMPLE, ExampleRun, Intended).started
  {
    var g := map["a" := {}, "b" := {}, "c" := {"b"}];
    ExampleGraph();
    assert GraphOf(EXAMPLE.steps) == g;
    ExampleFirstFailing(g);
    forall u ensures (Reaches(g, "c", u) <==> u == "b") && !Reaches(g, "b", u) {
      ExampleReaches(g, u);
    }
    FailingRunReports(EXAMPLE, ExampleRun, 1, "c");
    assert !DependsOnFailure(EXAMPLE, ExampleRun, 1, "c");
    assert ClearUpstream(EXAMPLE, ExampleRun, "c");
    IntendedContinue(EXAMPLE, ExampleRun, "c");
  }
}
