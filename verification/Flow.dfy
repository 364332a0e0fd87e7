/**
 Declarative task flows: their steps as a dependency graph, validation before a run, and the
 set of steps skipped when a step fails under the `Continue` policy.
 */
module Flow {
  import opened DependencyGraph
  import opened Wrappers

  datatype FailurePolicy = Abort | Continue

  datatype Step = Step(name: string, message: string, dependsOn: seq<string>)

  datatype TaskFlow = TaskFlow(id: string, steps: seq<Step>, onFailure: FailurePolicy)

  function Names(steps: seq<Step>): set<string> {
    set s | s in steps :: s.name
  }

  function DependenciesOf(steps: seq<Step>, name: string): set<string> {
    set s, d | s in steps && s.name == name && d in s.dependsOn :: d
  }

  /** The dependency graph of a step list; steps that share a name are merged into one node. */
  function GraphOf(steps: seq<Step>): Graph {
    map n | n in Names(steps) :: DependenciesOf(steps, n)
  }

  ghost predicate UniqueNames(steps: seq<Step>) {
    forall i, j :: 0 <= i < j < |steps| ==> steps[i].name != steps[j].name
  }

  ghost predicate Valid(flow: TaskFlow) {
    UniqueNames(flow.steps) && Closed(GraphOf(flow.steps))
  }

  lemma DependencyListed(steps: seq<Step>, s: Step)
    requires s in steps
    ensures s.name in GraphOf(steps)
    ensures forall d :: d in s.dependsOn ==> d in GraphOf(steps)[s.name]
    ensures UniqueNames(steps) ==> GraphOf(steps)[s.name] == set d | d in s.dependsOn
  {
  }

  /** Duplicate names, and dependencies on steps that do not exist, reject the flow; nothing else does. */
  method ValidateFlow(flow: TaskFlow) returns (reason: Option<string>)
    ensures reason.None? <==> Valid(flow)
  {
    var names: set<string> := {};
    for i := 0 to |flow.steps|
      invariant names == Names(flow.steps[..i])
      invariant UniqueNames(flow.steps[..i])
    {
      var step := flow.steps[i];
      assert flow.steps[..i + 1] == flow.steps[..i] + [step];
      if step.name in names {
        ghost var s :| s in flow.steps[..i] && s.name == step.name;
        return Some("duplicate step name '" + step.name + "'");
      }
      names := names + {step.name};
    }
    assert flow.steps[..|flow.steps|] == flow.steps;
    for i := 0 to |flow.steps|
      invariant forall k, d :: 0 <= k < i && d in flow.steps[k].dependsOn ==> d in names
    {
      var step := flow.steps[i];
      for j := 0 to |step.dependsOn|
        invariant forall d :: d in step.dependsOn[..j] ==> d in names
      {
        if step.dependsOn[j] !in names {
          DependencyListed(flow.steps, step);
          assert step.dependsOn[j] in GraphOf(flow.steps)[step.name];
          return Some("step '" + step.name + "' depends on unknown step '" + step.dependsOn[j] + "'");
        }
      }
    }
    return None;
  }

  /** Everything other than `failed` itself that depends on it through one or more edges. */
  ghost function Dependents(steps: seq<Step>, failed: string): set<string> {
    set n | n in Names(steps) && n != failed && Reaches(GraphOf(steps), n, failed)
  }

  /** The step is already accounted for, or depends neither on `failed` nor on a skipped step. */
  ghost predicate Quiet(step: Step, failed: string, skipped: set<string>) {
    || step.name == failed || step.name in skipped
    || forall d :: d in step.dependsOn ==> d != failed && d !in skipped
  }

  ghost predicate NothingLeft(steps: seq<Step>, failed: string, skipped: set<string>) {
    forall k :: 0 <= k < |steps| ==> Quiet(steps[k], failed, skipped)
  }

  lemma {:induction false} NothingLeftIsComplete(steps: seq<Step>, failed: string, skipped: set<string>, p: seq<string>)
    requires NothingLeft(steps, failed, skipped)
    requires IsPath(GraphOf(steps), p) && p[|p| - 1] == failed
    ensures p[0] == failed || p[0] in skipped
  {
    if |p| > 1 {
      NothingLeftIsComplete(steps, failed, skipped, p[1..]);
      var k :| 0 <= k < |steps| && steps[k].name == p[0] && p[1] in steps[k].dependsOn;
      assert Quiet(steps[k], failed, skipped);
    }
  }

  lemma OneMoreDependent(steps: seq<Step>, failed: string, skipped: set<string>, step: Step, d: string)
    requires step in steps && step.name != failed && skipped <= Dependents(steps, failed)
    requires d in step.dependsOn && (d == failed || d in skipped)
    ensures step.name in Dependents(steps, failed)
  {
    DependencyListed(steps, step);
    ReachesUnfold(GraphOf(steps), step.name, failed);
    assert Upstream(GraphOf(steps), d, failed);
  }

  lemma NothingLeftIsExact(steps: seq<Step>, failed: string, skipped: set<string>)
    requires skipped <= Dependents(steps, failed) && NothingLeft(steps, failed, skipped)
    ensures skipped == Dependents(steps, failed)
  {
    forall n | n in Dependents(steps, failed)
      ensures n in skipped
    {
      var p :| PathFromTo(GraphOf(steps), p, n, failed) && |p| > 1;
      NothingLeftIsComplete(steps, failed, skipped, p);
    }
  }

  lemma GrowingLeavesFewer(all: set<string>, before: set<string>, after: set<string>)
    requires before <= after <= all && before != after
    ensures |all - after| < |all - before|
  {
    SubsetSize(all - after, all - before);
    var n :| n in after && n !in before;
    assert n in all - before && n !in all - after;
  }

  /** The in-place fixpoint loop computes exactly reachability, on cyclic step lists too. */
  method TransitiveDependents(steps: seq<Step>, failed: string) returns (skipped: set<string>)
    ensures skipped == Dependents(steps, failed)
  {
    skipped := {};
    ghost var target := Dependents(steps, failed);
    var changed := true;
    while changed
      invariant skipped <= target <= Names(steps)
      invariant changed || NothingLeft(steps, failed, skipped)
      decreases |Names(steps) - skipped|, changed
    {
      changed := false;
      ghost var before := skipped;
      for i := 0 to |steps|
        invariant before <= skipped <= target
        invariant changed <==> before != skipped
        invariant !changed ==> forall k :: 0 <= k < i ==> Quiet(steps[k], failed, skipped)
      {
        var step := steps[i];
        if step.name == failed || step.name in skipped {
          continue;
        }
        var dependsOnFailed := exists d :: d in step.dependsOn && (d == failed || d in skipped);
        if dependsOnFailed {
          ghost var d :| d in step.dependsOn && (d == failed || d in skipped);
          OneMoreDependent(steps, failed, skipped, step, d);
          skipped := skipped + {step.name};
          changed := true;
        }
      }
      if changed {
        GrowingLeavesFewer(Names(steps), before, skipped);
      }
    }
    NothingLeftIsExact(steps, failed, skipped);
  }
}
