/**
 What an agent run looks like to the automation layer, and how each caller turns it into an
 outcome. The agent runtime itself is an oracle: a run is either refused or a finite stream of
 events.
 */
module Harness {
  import opened Wrappers

  datatype LifecyclePhase = Start | End | Error

  datatype RunEvent = Lifecycle(phase: LifecyclePhase, error: Option<string>) | Other

  datatype Run = Refused(error: string) | Stream(events: seq<RunEvent>)

  datatype StepResult = Ok | Err(error: string)

  predicate IsError(event: RunEvent) {
    event.Lifecycle? && event.phase == Error
  }

  /** Position of the first error event, or the length of the stream. */
  function FirstError(events: seq<RunEvent>): (i: nat)
    ensures i <= |events|
    ensures forall k :: 0 <= k < i ==> !IsError(events[k])
    ensures i < |events| ==> IsError(events[i])
  {
    if events == [] || IsError(events[0]) then 0 else 1 + FirstError(events[1..])
  }

  /** A flow step fails when its run is refused or its stream has an error event. */
  function StepResultOf(run: Run): StepResult {
    match run
    case Refused(error) => Err(error)
    case Stream(events) =>
      var i := FirstError(events);
      if i == |events| then Ok else Err(events[i].error.GetOr("flow step failed"))
  }

  /** A cron job or background task fails when its run is refused or its first error event carries a message. */
  function LedgerResultOf(run: Run): StepResult {
    match run
    case Refused(error) => Err(error)
    case Stream(events) =>
      var i := FirstError(events);
      if i < |events| && events[i].error.Some? then Err(events[i].error.value) else Ok
  }

  /** The event at `i` is the first of the error phase. */
  predicate FirstErrorAt(events: seq<RunEvent>, i: nat) {
    && i < |events| && events[i].Lifecycle? && events[i].phase == Error
    && forall k :: 0 <= k < i && events[k].Lifecycle? ==> events[k].phase != Error
  }

  lemma FirstErrorIs(events: seq<RunEvent>)
    ensures forall i: nat :: FirstErrorAt(events, i) <==> i == FirstError(events) < |events|
  {
    forall i: nat | FirstErrorAt(events, i) ensures i == FirstError(events) {
      assert IsError(events[i]);
    }
  }

  /** What the ledger makes of a run, by its events. */
  lemma LedgerResultIs(run: Run)
    ensures LedgerResultOf(run).Ok? <==> run.Stream? && forall i: nat :: FirstErrorAt(run.events, i) ==> run.events[i].error.None?
    ensures run.Refused? ==> LedgerResultOf(run) == Err(run.error)
    ensures forall i: nat :: run.Stream? && FirstErrorAt(run.events, i) && run.events[i].error.Some? ==>
              LedgerResultOf(run) == Err(run.events[i].error.value)
  {
    if run.Stream? {
      FirstErrorIs(run.events);
      assert FirstErrorAt(run.events, FirstError(run.events)) || FirstError(run.events) == |run.events|;
    }
  }

  /** The event loop of a flow step. */
  method DriveFlowStep(run: Run) returns (result: StepResult)
    ensures result == StepResultOf(run)
    ensures result.Ok? <==> run.Stream? && forall i: nat :: !FirstErrorAt(run.events, i)
    ensures run.Refused? ==> result == Err(run.error)
    ensures forall i: nat :: run.Stream? && FirstErrorAt(run.events, i) ==>
              result == Err(if run.events[i].error.Some? then run.events[i].error.value else "flow step failed")
  {
    match run {
      case Refused(error) => return Err(error);
      case Stream(events) =>
        var sawError: Option<string> := None;
        var next := 0;
        while next < |events|
          invariant 0 <= next <= FirstError(events)
          invariant sawError == None
        {
          var event := events[next];
          next := next + 1;
          if event.Lifecycle? && event.phase == Error {
            sawError := Some(event.error.GetOr("flow step failed"));
            break;
          }
        }
        result := if sawError.Some? then Err(sawError.value) else Ok;
        FirstErrorIs(events);
        assert FirstErrorAt(events, FirstError(events)) || FirstError(events) == |events|;
    }
  }

  /** The event loop of a cron job or background task. */
  method DriveLedgerRun(run: Run) returns (result: StepResult)
    ensures result == LedgerResultOf(run)
    ensures result.Ok? <==> run.Stream? && forall i: nat :: FirstErrorAt(run.events, i) ==> run.events[i].error.None?
    ensures run.Refused? ==> result == Err(run.error)
    ensures forall i: nat :: run.Stream? && FirstErrorAt(run.events, i) && run.events[i].error.Some? ==>
              result == Err(run.events[i].error.value)
  {
    LedgerResultIs(run);
    match run {
      case Refused(error) => return Err(error);
      case Stream(events) =>
        var sawError: Option<string> := None;
        var next := 0;
        while next < |events|
          invariant 0 <= next <= FirstError(events)
          invariant sawError == None
        {
          var event := events[next];
          next := next + 1;
          if event.Lifecycle? && event.phase == Error {
            sawError := event.error;
            break;
          }
        }
        result := if sawError.Some? then Err(sawError.value) else Ok;
    }
  }

  /** The two loops disagree on whether a run failed exactly when its first error event has no
      message: the ledger then records a success. */
  lemma SilentErrorRecordedAsSuccess(run: Run)
    ensures StepResultOf(run).Err? != LedgerResultOf(run).Err? <==>
            run.Stream? && exists i :: && 0 <= i < |run.events| && run.events[i] == Lifecycle(Error, None)
                                       && forall k :: 0 <= k < i ==> !IsError(run.events[k])
  {
  }
}
