/**
 The flow runner itself. Futures of a layer are started and finish in an arbitrary order, chosen
 anew at every step of the drain loop; the postcondition of `RunFlow` says that the report does
 not depend on it.
 */
module FlowRunner {
  import opened DependencyGraph
  import opened Flow
  import opened FlowSpec
  import FlowTheorems
  import opened Harness
  import opened Wrappers

  /** When runs begin and end. The trace is an observation of the run; the source only logs it. */
  datatype TraceEvent = Started(name: string) | Finished(name: string, result: StepResult)

  ghost function StartedIn(trace: seq<TraceEvent>): set<string> {
    set e | e in trace && e.Started? :: e.name
  }

  ghost function FinishedIn(trace: seq<TraceEvent>): set<string> {
    set e | e in trace && e.Finished? :: e.name
  }

  /** The event may follow `before`: a step starts once, after all its dependencies finished
      successfully; it finishes once, after it started, with its own result. */
  ghost predicate MayFollow(g: Graph, run: Runs, before: seq<TraceEvent>, e: TraceEvent) {
    match e
    case Started(n) =>
      && n in g && n !in StartedIn(before)
      && forall d :: d in g[n] ==> Finished(d, Ok) in before
    case Finished(n, r) =>
      && n in StartedIn(before) && n !in FinishedIn(before)
      && r == run(n)
  }

  ghost predicate Orderly(g: Graph, run: Runs, trace: seq<TraceEvent>) {
    forall i :: 0 <= i < |trace| ==> MayFollow(g, run, trace[..i], trace[i])
  }

  lemma OrderlyAppend(g: Graph, run: Runs, trace: seq<TraceEvent>, e: TraceEvent)
    requires Orderly(g, run, trace) && MayFollow(g, run, trace, e)
    ensures Orderly(g, run, trace + [e])
    ensures StartedIn(trace + [e]) == StartedIn(trace) + (if e.Started? then {e.name} else {})
    ensures FinishedIn(trace + [e]) == FinishedIn(trace) + (if e.Finished? then {e.name} else {})
    ensures forall x :: x in trace + [e] <==> x in trace || x == e
  {
    var longer := trace + [e];
    forall i | 0 <= i < |longer|
      ensures MayFollow(g, run, longer[..i], longer[i])
    {
      assert longer[..i] == if i < |trace| then trace[..i] else trace;
    }
  }

  lemma OrderlyPrefix(g: Graph, run: Runs, trace: seq<TraceEvent>, e: TraceEvent)
    requires Orderly(g, run, trace + [e])
    ensures Orderly(g, run, trace) && MayFollow(g, run, trace, e)
  {
    var longer := trace + [e];
    assert longer[..|trace|] == trace && longer[|trace|] == e;
    forall i | 0 <= i < |trace| ensures MayFollow(g, run, trace[..i], trace[i]) {
      assert longer[..i] == trace[..i] && longer[i] == trace[i];
    }
  }

  lemma CountPush<T>(s: seq<T>, e: T, x: T)
    ensures multiset(s + [e])[x] == multiset(s)[x] + if x == e then 1 else 0
  {
  }

  /** In an orderly trace every step starts at most once and finishes at most once. */
  lemma {:induction false} RunsAtMostOnce(g: Graph, run: Runs, trace: seq<TraceEvent>, n: string)
    requires Orderly(g, run, trace)
    ensures multiset(trace)[Started(n)] == if n in StartedIn(trace) then 1 else 0
    ensures multiset(trace)[Finished(n, run(n))] == if n in FinishedIn(trace) then 1 else 0
  {
    if trace != [] {
      var init, e := trace[..|trace| - 1], trace[|trace| - 1];
      assert trace == init + [e];
      OrderlyPrefix(g, run, init, e);
      RunsAtMostOnce(g, run, init, n);
      OrderlyAppend(g, run, init, e);
      CountPush(init, e, Started(n));
      CountPush(init, e, Finished(n, run(n)));
    }
  }

  // ----- recording one outcome -----

  /** `entry(..).or_insert(Skipped)` for each of the names, in any order. */
  method SkipIfAbsent(names: set<string>, statuses: map<string, StepStatus>) returns (r: map<string, StepStatus>)
    ensures r.Keys == statuses.Keys + names
    ensures forall n :: n in r ==> r[n] == if n in statuses then statuses[n] else Skipped
  {
    r := statuses;
    var left := names;
    while left != {}
      invariant left <= names
      invariant r.Keys == statuses.Keys + (names - left)
      invariant forall n :: n in r ==> r[n] == if n in statuses then statuses[n] else Skipped
      decreases left
    {
      var n :| n in left;
      if n !in r {
        r := r[n := Skipped];
      }
      left := left - {n};
    }
  }

  /** The status map agrees with the layer begun in `st` when exactly `done` of it has finished. */
  ghost predicate Agrees(flow: TaskFlow, run: Runs, st: FlowState, done: set<string>, statuses: map<string, StepStatus>) {
    && statuses.Keys <= Names(flow.steps)
    && forall n :: n in Names(flow.steps) ==> Lookup(statuses, n) == StatusAfter(flow, run, st, done, n)
  }

  lemma StatusRecorded(flow: TaskFlow, run: Runs, st: FlowState, done: set<string>, name: string, n: string,
                       before: Option<StepStatus>, after: Option<StepStatus>)
    requires name !in st.statuses && before == StatusAfter(flow, run, st, done, n)
    requires after ==
             if n == name then Some(StatusOf(run(name)))
             else if before.None? && Fails(run, name) && (flow.onFailure == Abort || n in Dependents(flow.steps, name)) then Some(Skipped)
             else before
    ensures after == StatusAfter(flow, run, st, done + {name}, n)
  {
  }

  /** Record the status of one finished step and apply the failure policy. */
  method RecordStatus(flow: TaskFlow, ghost run: Runs, ghost st: FlowState, ghost done: set<string>, name: string,
                      result: StepResult, statuses: map<string, StepStatus>)
    returns (statuses': map<string, StepStatus>)
    requires result == run(name) && name in Names(flow.steps) && name !in st.statuses
    requires Agrees(flow, run, st, done, statuses)
    ensures Agrees(flow, run, st, done + {name}, statuses')
  {
    statuses' := statuses[name := StatusOf(result)];
    if result.Err? {
      var skipped := Names(flow.steps);
      if flow.onFailure == Continue {
        skipped := TransitiveDependents(flow.steps, name);
      }
      statuses' := SkipIfAbsent(skipped, statuses');
    }
    forall n | n in Names(flow.steps)
      ensures Lookup(statuses', n) == StatusAfter(flow, run, st, done + {name}, n)
    {
      StatusRecorded(flow, run, st, done, name, n, Lookup(statuses, n), Lookup(statuses', n));
    }
  }

  // ----- one layer -----

  /** Between layers: every started step has finished, and completed statuses come from the trace. */
  ghost predicate BetweenLayers(flow: TaskFlow, run: Runs, st: FlowState, trace: seq<TraceEvent>) {
    && st.statuses.Keys <= Names(flow.steps)
    && st.started <= st.statuses.Keys
    && InLayer(GraphOf(flow.steps), run, st, {}, {}, trace)
  }

  /** Inside the layer begun in `st`: its steps `running` have started, its steps `done` have finished too. */
  ghost predicate InLayer(g: Graph, run: Runs, st: FlowState, running: set<string>, done: set<string>,
                          trace: seq<TraceEvent>) {
    && Orderly(g, run, trace)
    && StartedIn(trace) == st.started + running + done
    && FinishedIn(trace) == st.started + done
    && SuccessesIn(run, st, done, trace)
  }

  /** Every success recorded before the layer or in it is in the trace. */
  ghost predicate SuccessesIn(run: Runs, st: FlowState, done: set<string>, trace: seq<TraceEvent>) {
    && (forall d :: HasCompleted(st.statuses, d) ==> Finished(d, Ok) in trace)
    && forall n :: n in done && !Fails(run, n) ==> Finished(n, Ok) in trace
  }

  ghost predicate Startable(g: Graph, st: FlowState, n: string) {
    && n in g && n !in st.statuses && n !in st.started
    && forall d :: d in g[n] ==> HasCompleted(st.statuses, d)
  }

  lemma StartOne(g: Graph, run: Runs, st: FlowState, running: set<string>, done: set<string>,
                 trace: seq<TraceEvent>, n: string)
    requires InLayer(g, run, st, running, done, trace)
    requires Startable(g, st, n) && n !in running && n !in done
    ensures InLayer(g, run, st, running + {n}, done, trace + [Started(n)])
  {
    OrderlyAppend(g, run, trace, Started(n));
    assert st.started + (running + {n}) + done == st.started + running + done + {n};
  }

  lemma FinishOne(g: Graph, run: Runs, st: FlowState, running: set<string>, done: set<string>,
                  trace: seq<TraceEvent>, n: string)
    requires InLayer(g, run, st, running, done, trace)
    requires n in running && n !in done && n !in st.started
    ensures InLayer(g, run, st, running - {n}, done + {n}, trace + [Finished(n, run(n))])
  {
    var longer := trace + [Finished(n, run(n))];
    assert n in StartedIn(trace) && n !in FinishedIn(trace);
    assert Orderly(g, run, longer) && StartedIn(longer) == StartedIn(trace) && FinishedIn(longer) == FinishedIn(trace) + {n} by {
      FinishAppends(g, run, trace, n);
    }
    assert SuccessesIn(run, st, done + {n}, longer) by {
      OneMoreSuccess(run, st, done, trace, n);
    }
    Moved(st.started, running, done, n);
  }

  lemma OneMoreSuccess(run: Runs, st: FlowState, done: set<string>, trace: seq<TraceEvent>, n: string)
    requires SuccessesIn(run, st, done, trace)
    ensures SuccessesIn(run, st, done + {n}, trace + [Finished(n, run(n))])
  {
  }

  lemma FinishAppends(g: Graph, run: Runs, trace: seq<TraceEvent>, n: string)
    requires Orderly(g, run, trace) && n in StartedIn(trace) && n !in FinishedIn(trace)
    ensures var longer := trace + [Finished(n, run(n))];
            Orderly(g, run, longer) && StartedIn(longer) == StartedIn(trace) && FinishedIn(longer) == FinishedIn(trace) + {n}
  {
    OrderlyAppend(g, run, trace, Finished(n, run(n)));
  }

  lemma Moved(earlier: set<string>, running: set<string>, done: set<string>, n: string)
    requires n in running
    ensures earlier + (running - {n}) + (done + {n}) == earlier + running + done
    ensures earlier + (done + {n}) == earlier + done + {n}
  {
  }

  /** The variables of the run while a layer is drained. */
  datatype Vars = Vars(
    statuses: map<string, StepStatus>,
    errors: map<string, string>,
    failed: bool,
    aborted: bool,
    trace: seq<TraceEvent>)

  ghost function ErrorAfter(run: Runs, st: FlowState, done: set<string>, name: string): Option<string> {
    if name in done && Fails(run, name) then Some(run(name).error) else Lookup(st.errors, name)
  }

  ghost predicate FlagsAgree(flow: TaskFlow, run: Runs, st: FlowState, done: set<string>, v: Vars) {
    && (forall n :: Lookup(v.errors, n) == ErrorAfter(run, st, done, n))
    && (v.failed <==> st.failed || AnyFails(run, done))
    && (v.aborted <==> st.aborted || (flow.onFailure == Abort && AnyFails(run, done)))
  }

  /** What a layer has made of the variables when its steps `running` have started and `done` have finished. */
  ghost predicate Drained(flow: TaskFlow, run: Runs, st: FlowState, running: set<string>, done: set<string>, v: Vars) {
    && InLayer(GraphOf(flow.steps), run, st, running, done, v.trace)
    && Agrees(flow, run, st, done, v.statuses)
    && FlagsAgree(flow, run, st, done, v)
  }

  /** Record the error of a finished step, if it failed. */
  method RecordFlags(flow: TaskFlow, ghost run: Runs, ghost st: FlowState, ghost done: set<string>, n: string,
                     result: StepResult, v: Vars)
    returns (v': Vars)
    requires result == run(n) && n !in done && FlagsAgree(flow, run, st, done, v)
    ensures FlagsAgree(flow, run, st, done + {n}, v') && v'.statuses == v.statuses && v'.trace == v.trace
  {
    v' := v;
    if result.Err? {
      v' := v.(errors := v.errors[n := result.error], failed := true, aborted := v.aborted || flow.onFailure == Abort);
      assert n in done + {n} && Fails(run, n);
    } else if AnyFails(run, done) {
      ghost var f :| f in done && Fails(run, f);
      assert f in done + {n};
    }
    forall m ensures Lookup(v'.errors, m) == ErrorAfter(run, st, done + {n}, m) {
      assert Lookup(v.errors, m) == ErrorAfter(run, st, done, m);
    }
  }

  /** `run` is what driving the event streams of the steps to their end gives. */
  ghost predicate Gives(streams: string -> Run, run: Runs) {
    forall n {:trigger streams(n)} :: run(n) == StepResultOf(streams(n))
  }

  method RunStep(streams: string -> Run, ghost run: Runs, name: string) returns (result: StepResult)
    requires Gives(streams, run)
    ensures result == run(name)
  {
    result := DriveFlowStep(streams(name));
  }

  /** The next future of the layer completes. */
  method FinishStep(flow: TaskFlow, streams: string -> Run, ghost run: Runs, ghost st: FlowState, ghost running: set<string>, ghost done: set<string>,
                    n: string, v: Vars)
    returns (v': Vars)
    requires Gives(streams, run) && Drained(flow, run, st, running, done, v)
    requires Startable(GraphOf(flow.steps), st, n) && n in running && n !in done
    ensures Drained(flow, run, st, running - {n}, done + {n}, v')
  {
    var result := RunStep(streams, run, n);
    var statuses := RecordStatus(flow, run, st, done, n, result, v.statuses);
    v' := RecordFlags(flow, run, st, done, n, result, v);
    FinishOne(GraphOf(flow.steps), run, st, running, done, v.trace, n);
    v' := v'.(statuses := statuses, trace := v.trace + [Finished(n, result)]);
  }

  lemma StartStep(flow: TaskFlow, run: Runs, st: FlowState, running: set<string>, done: set<string>, n: string, v: Vars)
    requires Drained(flow, run, st, running, done, v)
    requires Startable(GraphOf(flow.steps), st, n) && n !in running && n !in done
    ensures Drained(flow, run, st, running + {n}, done, v.(trace := v.trace + [Started(n)]))
  {
    StartOne(GraphOf(flow.steps), run, st, running, done, v.trace, n);
  }

  /** Run all ready steps concurrently: whatever starts and finishes next, the layer ends the same. */
  method DrainLayer(flow: TaskFlow, streams: string -> Run, ghost run: Runs, ghost st: FlowState, ready: set<string>,
                    v0: Vars)
    returns (v: Vars)
    requires Gives(streams, run)
    requires forall n :: n in ready ==> Startable(GraphOf(flow.steps), st, n)
    requires Drained(flow, run, st, {}, {}, v0)
    ensures Drained(flow, run, st, {}, ready, v)
  {
    v := v0;
    var waiting, running := ready, {};
    ghost var done := {};
    while waiting != {} || running != {}
      invariant forall n :: n in ready <==> n in waiting || n in running || n in done
      invariant forall n :: n in done ==> n !in waiting && n !in running
      invariant forall n :: n in waiting ==> n !in running
      invariant Drained(flow, run, st, running, done, v)
      decreases waiting, running
    {
      var startNext: bool := *;
      if waiting != {} && (startNext || running == {}) {
        var n :| n in waiting;
        StartStep(flow, run, st, running, done, n, v);
        waiting, running, v := waiting - {n}, running + {n}, v.(trace := v.trace + [Started(n)]);
      } else {
        var n :| n in running;
        v := FinishStep(flow, streams, run, st, running, done, n, v);
        running := running - {n};
        done := done + {n};
      }
    }
    assert done == ready;
  }

  lemma StatusesEnd(flow: TaskFlow, run: Runs, st: FlowState, statuses: map<string, StepStatus>)
    requires Agrees(flow, run, st, Ready(flow, st), statuses)
    ensures statuses == AfterLayer(flow, run, st).statuses
  {
  }

  lemma LayerEnds(flow: TaskFlow, run: Runs, st: FlowState, statuses: map<string, StepStatus>, trace: seq<TraceEvent>)
    requires BetweenLayersStatuses(flow, st) && Agrees(flow, run, st, Ready(flow, st), statuses)
    requires InLayer(GraphOf(flow.steps), run, st, {}, Ready(flow, st), trace)
    ensures statuses == AfterLayer(flow, run, st).statuses
    ensures StartedIn(trace) == AfterLayer(flow, run, st).started
    ensures BetweenLayers(flow, run, AfterLayer(flow, run, st), trace)
  {
    var after, done := AfterLayer(flow, run, st), Ready(flow, st);
    StatusesEnd(flow, run, st, statuses);
    forall d | HasCompleted(statuses, d)
      ensures Finished(d, Ok) in trace
    {
      assert Lookup(statuses, d) == StatusAfter(flow, run, st, done, d);
      if d !in done {
        assert HasCompleted(st.statuses, d);
      }
    }
    forall n | n in after.started
      ensures n in statuses
    {
      assert Lookup(statuses, n) == StatusAfter(flow, run, st, done, n);
    }
  }

  lemma ErrorsEnd(flow: TaskFlow, run: Runs, st: FlowState, errors: map<string, string>)
    requires forall n :: Lookup(errors, n) == ErrorAfter(run, st, Ready(flow, st), n)
    ensures errors == st.errors + Failures(run, Ready(flow, st))
  {
    var both, done := st.errors + Failures(run, Ready(flow, st)), Ready(flow, st);
    forall n ensures Lookup(errors, n) == Lookup(both, n) {
      assert Lookup(errors, n) == ErrorAfter(run, st, done, n);
    }
    SameMap(errors, both);
  }

  lemma SameMap<T>(a: map<string, T>, b: map<string, T>)
    requires forall n :: Lookup(a, n) == Lookup(b, n)
    ensures a == b
  {
    forall n ensures n in a <==> n in b {
      assert Lookup(a, n) == Lookup(b, n);
    }
    forall n | n in a ensures a[n] == b[n] {
      assert Lookup(a, n) == Lookup(b, n);
    }
  }

  ghost predicate BetweenLayersStatuses(flow: TaskFlow, st: FlowState) {
    st.started <= st.statuses.Keys <= Names(flow.steps)
  }

  ghost function StateOf(v: Vars): FlowState {
    FlowState(v.statuses, v.errors, v.failed, v.aborted, StartedIn(v.trace))
  }

  method RunLayer(flow: TaskFlow, streams: string -> Run, ghost run: Runs, ready: set<string>, v: Vars) returns (v': Vars)
    requires Gives(streams, run)
    requires ready == Ready(flow, StateOf(v))
    requires BetweenLayers(flow, run, StateOf(v), v.trace)
    ensures StateOf(v') == AfterLayer(flow, run, StateOf(v))
    ensures BetweenLayers(flow, run, StateOf(v'), v'.trace)
  {
    ghost var st := StateOf(v);
    v' := DrainLayer(flow, streams, run, st, ready, v);
    LayerEnds(flow, run, st, v'.statuses, v'.trace);
    ErrorsEnd(flow, run, st, v'.errors);
  }

  // ----- the whole flow -----

  /** The run before its first layer: nothing recorded, or everything skipped if validation failed. */
  method Begin(flow: TaskFlow, ghost run: Runs) returns (v: Vars)
    ensures StateOf(v) == if Valid(flow) then INITIAL else AllSkipped(flow)
    ensures BetweenLayers(flow, run, StateOf(v), v.trace)
  {
    v := Vars(map[], map[], false, false, []);
    var reason := ValidateFlow(flow);
    if reason.Some? {
      for i := 0 to |flow.steps|
        invariant v == Vars(map n | n in Names(flow.steps[..i]) :: Skipped, map[], false, false, [])
      {
        assert flow.steps[..i + 1] == flow.steps[..i] + [flow.steps[i]];
        v := v.(statuses := v.statuses[flow.steps[i].name := Skipped]);
      }
      assert flow.steps[..|flow.steps|] == flow.steps;
      v := v.(failed := true);
    }
  }

  /** One pass of the outer loop: run the ready steps, or, with none ready, skip what remains. */
  method RunIteration(flow: TaskFlow, streams: string -> Run, ghost run: Runs, ghost guard: Guard, v: Vars)
    returns (v': Vars, over: bool)
    requires Gives(streams, run) && !Stops(guard, StateOf(v)) && BetweenLayers(flow, run, StateOf(v), v.trace)
    ensures BetweenLayers(flow, run, StateOf(v'), v'.trace)
    ensures over ==> StateOf(v') == RunLoop(flow, run, guard, StateOf(v))
    ensures !over ==> RunLoop(flow, run, guard, StateOf(v')) == RunLoop(flow, run, guard, StateOf(v))
    ensures !over ==> |Unstatused(flow, v'.statuses)| < |Unstatused(flow, v.statuses)|
  {
    var ready := set n | n in Names(flow.steps) && IsReady(flow, v.statuses, n);
    assert ready == Ready(flow, StateOf(v));
    if ready != {} {
      LayerShrinks(flow, run, StateOf(v));
      v' := RunLayer(flow, streams, run, ready, v);
      over := false;
    } else {
      v' := SkipBlocked(flow, run, v);
      over := true;
    }
  }

  /** No ready step: if unfinished steps remain they are skipped and the flow fails. */
  method SkipBlocked(flow: TaskFlow, ghost run: Runs, v: Vars) returns (v': Vars)
    requires BetweenLayers(flow, run, StateOf(v), v.trace)
    ensures StateOf(v') == SkipRemaining(flow, StateOf(v))
    ensures BetweenLayers(flow, run, StateOf(v'), v'.trace)
  {
    var remaining := Unstatused(flow, v.statuses);
    v' := v;
    if remaining != {} {
      var skipped := map n | n in remaining :: Skipped;
      v' := v.(statuses := v.statuses + skipped, failed := true);
      assert forall d :: HasCompleted(v'.statuses, d) ==> HasCompleted(v.statuses, d);
    }
  }

  /** Run a flow. For every order in which the steps of each layer start and finish, the report is
      the one the specification determines, and the steps that ran are the ones it determines. The source
      has the guard `AsWritten`. */
  method RunFlow(flow: TaskFlow, streams: string -> Run, ghost run: Runs, guard: Guard)
    returns (report: FlowReport, trace: seq<TraceEvent>)
    requires Gives(streams, run)
    ensures report == ReportOf(flow, Final(flow, run, guard))
    ensures FlowTheorems.TellsOf(flow, run, guard, StartedIn(trace), report)
    ensures Orderly(GraphOf(flow.steps), run, trace)
    ensures StartedIn(trace) == FinishedIn(trace) == Final(flow, run, guard).started
  {
    var v := Begin(flow, run);
    var over := false;
    ghost var final := Final(flow, run, guard);
    while !over && !v.aborted && !(guard == AsWritten && v.failed)
      invariant BetweenLayers(flow, run, StateOf(v), v.trace)
      invariant over ==> StateOf(v) == final
      invariant !over ==> RunLoop(flow, run, guard, StateOf(v)) == final
      decreases !over, |Unstatused(flow, v.statuses)|
    {
      v, over := RunIteration(flow, streams, run, guard, v);
    }
    assert StateOf(v) == final;
    trace := v.trace;
    report := Report(flow, v);
    FlowTheorems.ReportTells(flow, run, guard);
  }

  method Report(flow: TaskFlow, v: Vars) returns (report: FlowReport)
    ensures report == ReportOf(flow, StateOf(v))
  {
    report := FlowReport(
      flow.id,
      if v.failed then FlowFailed else FlowCompleted,
      seq(|flow.steps|, i requires 0 <= i < |flow.steps| =>
        var name := flow.steps[i].name;
        StepOutcome(name, Lookup(v.statuses, name).GetOr(Completed), Lookup(v.errors, name))));
  }
}
