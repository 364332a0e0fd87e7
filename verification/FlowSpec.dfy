/**
 What a flow run computes, said without any completion order: one layer of ready steps is
 drained as a whole, and layers repeat until the loop guard or the graph stops them.
 `Guard` selects the loop guard in the source (`AsWritten`: leave once any step failed) or the
 one the `Continue` policy is documented to have (`Intended`: leave only when aborted).
 */
module FlowSpec {
  import opened DependencyGraph
  import opened Flow
  import opened Harness
  import opened Wrappers

  datatype StepStatus = Completed | Failed | Skipped

  datatype FlowStatus = FlowCompleted | FlowFailed

  datatype StepOutcome = StepOutcome(name: string, status: StepStatus, error: Option<string>)

  datatype FlowReport = FlowReport(flowId: string, status: FlowStatus, steps: seq<StepOutcome>)

  /** `started` names the steps whose run was begun; the source keeps no such record. */
  datatype FlowState = FlowState(
    statuses: map<string, StepStatus>,
    errors: map<string, string>,
    failed: bool,
    aborted: bool,
    started: set<string>)

  datatype Guard = AsWritten | Intended

  /** The result that running each step gives; fixed for one run of the flow. */
  type Runs = string -> StepResult

  predicate Fails(run: Runs, name: string) {
    run(name).Err?
  }

  function StatusOf(result: StepResult): StepStatus {
    if result.Ok? then Completed else Failed
  }

  const INITIAL := FlowState(map[], map[], false, false, {})

  function Lookup<T>(m: map<string, T>, name: string): Option<T> {
    if name in m then Some(m[name]) else None
  }

  predicate HasCompleted(statuses: map<string, StepStatus>, name: string) {
    name in statuses && statuses[name] == Completed
  }

  predicate IsReady(flow: TaskFlow, statuses: map<string, StepStatus>, name: string) {
    && name in GraphOf(flow.steps)
    && name !in statuses
    && forall d :: d in GraphOf(flow.steps)[name] ==> HasCompleted(statuses, d)
  }

  function Ready(flow: TaskFlow, st: FlowState): set<string> {
    set n | n in Names(flow.steps) && IsReady(flow, st.statuses, n)
  }

  function Unstatused(flow: TaskFlow, statuses: map<string, StepStatus>): set<string> {
    Names(flow.steps) - statuses.Keys
  }

  // ----- one layer -----

  /** Some step of `done` failed in a way that makes the policy skip `name`. */
  ghost predicate SkipMarked(flow: TaskFlow, run: Runs, done: set<string>, name: string) {
    exists f :: f in done && Fails(run, f) && (flow.onFailure == Abort || name in Dependents(flow.steps, f))
  }

  /** The status of `name` once the steps `done` of the layer begun in `st` have finished, in any order. */
  ghost function StatusAfter(flow: TaskFlow, run: Runs, st: FlowState, done: set<string>, name: string): Option<StepStatus> {
    if name in done then Some(StatusOf(run(name)))
    else if name in st.statuses then Some(st.statuses[name])
    else if SkipMarked(flow, run, done, name) then Some(Skipped)
    else None
  }

  ghost predicate AnyFails(run: Runs, done: set<string>) {
    exists f :: f in done && Fails(run, f)
  }

  function Failures(run: Runs, done: set<string>): map<string, string> {
    map n | n in done && Fails(run, n) :: run(n).error
  }

  ghost function AfterLayer(flow: TaskFlow, run: Runs, st: FlowState): FlowState {
    var done := Ready(flow, st);
    FlowState(
      map n | n in Names(flow.steps) && StatusAfter(flow, run, st, done, n).Some?
        :: StatusAfter(flow, run, st, done, n).value,
      st.errors + Failures(run, done),
      st.failed || AnyFails(run, done),
      st.aborted || (flow.onFailure == Abort && AnyFails(run, done)),
      st.started + done)
  }

  // ----- the whole run -----

  predicate Stops(guard: Guard, st: FlowState) {
    st.aborted || (guard == AsWritten && st.failed)
  }

  /** Steps that can never become ready are skipped and fail the flow. */
  function SkipRemaining(flow: TaskFlow, st: FlowState): FlowState {
    var remaining := Unstatused(flow, st.statuses);
    if remaining == {} then st
    else st.(statuses := st.statuses + map n | n in remaining :: Skipped, failed := true)
  }

  ghost function RunLoop(flow: TaskFlow, run: Runs, guard: Guard, st: FlowState): FlowState
    decreases |Unstatused(flow, st.statuses)|
  {
    if Stops(guard, st) then st
    else if Ready(flow, st) == {} then SkipRemaining(flow, st)
    else
      LayerShrinks(flow, run, st);
      RunLoop(flow, run, guard, AfterLayer(flow, run, st))
  }

  /** Every layer strictly reduces the number of steps without a status. */
  lemma LayerShrinks(flow: TaskFlow, run: Runs, st: FlowState)
    requires Ready(flow, st) != {}
    ensures |Unstatused(flow, AfterLayer(flow, run, st).statuses)| < |Unstatused(flow, st.statuses)|
  {
    var before, after := Unstatused(flow, st.statuses), Unstatused(flow, AfterLayer(flow, run, st).statuses);
    var n :| n in Ready(flow, st);
    forall m | m in after
      ensures m in before
    {
      assert StatusAfter(flow, run, st, Ready(flow, st), m).None?;
    }
    assert n in before && n !in after;
    SubsetSize(after, before);
  }

  /** A layer never changes a status that was recorded before it. */
  lemma LayerKeepsStatuses(flow: TaskFlow, run: Runs, st: FlowState, n: string)
    requires n in Names(flow.steps) && n in st.statuses
    ensures Lookup(AfterLayer(flow, run, st).statuses, n) == Some(st.statuses[n])
  {
  }

  function AllSkipped(flow: TaskFlow): FlowState {
    INITIAL.(statuses := map n | n in Names(flow.steps) :: Skipped, failed := true)
  }

  ghost function Final(flow: TaskFlow, run: Runs, guard: Guard): FlowState {
    if Valid(flow) then RunLoop(flow, run, guard, INITIAL) else AllSkipped(flow)
  }

  /** A step without a recorded status is reported as completed. */
  function ReportedStatus(st: FlowState, name: string): StepStatus {
    Lookup(st.statuses, name).GetOr(Completed)
  }

  function ReportOf(flow: TaskFlow, st: FlowState): FlowReport {
    FlowReport(
      flow.id,
      if st.failed then FlowFailed else FlowCompleted,
      seq(|flow.steps|, i requires 0 <= i < |flow.steps| =>
        var name := flow.steps[i].name;
        StepOutcome(name, ReportedStatus(st, name), Lookup(st.errors, name))))
  }
}
