/**
 The read-only gate that is evaluated before an approved artifact write begins.
 */
module ApprovalGate {

  import opened Wrappers
  import opened ApprovedWrite

  datatype Check =
    | RunKindCheck | RunStatusCheck | DryRunBoundary | VersionAuthored | TasksReady | WorkflowApproval
    | ApprovalGatePassed | LiveMappingPassed | EnginePreview | WorkerOnline | WorkerCapabilities

  // What the gate reads. `approved`, `approvalGate` and `liveMapping` are the latest records, if any.
  datatype Facts = Facts(
    run: Run, authored: bool, tasks: seq<Task>,
    approved: Option<bool>, approvalGate: Option<bool>, liveMapping: Option<bool>,
    skipEngine: bool, engineBlocked: bool, workers: seq<Worker>, required: seq<string>)

  function Required(f: Facts): seq<string> {
    var caps := Normalized(f.required);
    if caps == [] then ["execute_agents", "read_project", "run_commands", "write_artifacts"] else caps
  }

  predicate Runnable(t: Task) {
    t.status == TaskQueued || t.status == TaskPending
  }

  predicate Holds(f: Facts, c: Check) {
    match c
    case RunKindCheck => f.run.execution
    case RunStatusCheck => f.run.status == RunQueued
    case DryRunBoundary => !f.run.dryRun
    case VersionAuthored => f.authored
    case TasksReady => exists t | t in f.tasks :: Runnable(t)
    case WorkflowApproval => f.approved == Some(true)
    case ApprovalGatePassed => f.approvalGate == Some(true)
    case LiveMappingPassed => f.liveMapping == Some(true)
    case EnginePreview => f.skipEngine || !f.engineBlocked
    case WorkerOnline => exists w | w in f.workers :: w.online
    case WorkerCapabilities => exists w | w in f.workers :: w.online && Capable(w.capabilities, Required(f))
  }

  ghost predicate Passes(f: Facts) {
    forall c :: Holds(f, c)
  }

  // The gate under construction: blocked as soon as one item is. `seen` are the items added.
  class Gate {
    var pass: bool
    var blockers: seq<Check>
    ghost var seen: set<Check>

    ghost predicate Faithful(failing: set<Check>)
      reads this
    {
      && (forall c :: c in blockers <==> c in seen && c in failing)
      && (pass <==> seen !! failing)
    }

    constructor (ghost failing: set<Check>)
      ensures Faithful(failing) && seen == {}
    {
      pass, blockers, seen := true, [], {};
    }

    method Add(c: Check, ok: bool, ghost failing: set<Check>)
      requires Faithful(failing) && (ok <==> c !in failing)
      modifies this
      ensures Faithful(failing) && seen == old(seen) + {c}
    {
      if !ok {
        pass := false;
        blockers := blockers + [c];
      }
      seen := seen + {c};
    }
  }

  ghost function Failing(f: Facts): (failing: set<Check>)
    ensures forall c :: c in failing <==> !Holds(f, c)
  {
    AllChecks();
    set c | c in CHECKS && !Holds(f, c)
  }

  const CHECKS := {
    RunKindCheck, RunStatusCheck, DryRunBoundary, VersionAuthored, TasksReady, WorkflowApproval,
    ApprovalGatePassed, LiveMappingPassed, EnginePreview, WorkerOnline, WorkerCapabilities}

  lemma AllChecks()
    ensures forall c :: c in CHECKS
  {
    forall c: Check ensures c in CHECKS {
      match c
      case RunKindCheck =>
      case RunStatusCheck =>
      case DryRunBoundary =>
      case VersionAuthored =>
      case TasksReady =>
      case WorkflowApproval =>
      case ApprovalGatePassed =>
      case LiveMappingPassed =>
      case EnginePreview =>
      case WorkerOnline =>
      case WorkerCapabilities =>
    }
  }

  method RunnableCount(tasks: seq<Task>) returns (n: nat)
    ensures n > 0 <==> exists t | t in tasks :: Runnable(t)
  {
    n := 0;
    for i := 0 to |tasks|
      invariant n > 0 <==> exists t | t in tasks[..i] :: Runnable(t)
    {
      assert forall t :: t in tasks[..i + 1] <==> t in tasks[..i] || t == tasks[i];
      if Runnable(tasks[i]) {
        assert tasks[i] in tasks[..i + 1];
        n := n + 1;
      }
    }
    assert tasks[..|tasks|] == tasks;
  }

  method OnlineWorkers(workers: seq<Worker>) returns (online: seq<Worker>)
    ensures forall w :: w in online <==> w in workers && w.online
  {
    online := [];
    for i := 0 to |workers|
      invariant forall w :: w in online <==> w in workers[..i] && w.online
    {
      assert forall w :: w in workers[..i + 1] <==> w in workers[..i] || w == workers[i];
      if workers[i].online {
        online := online + [workers[i]];
      }
    }
    assert workers[..|workers|] == workers;
  }

  method WorkerWithCapabilities(workers: seq<Worker>, required: seq<string>) returns (found: bool)
    ensures found <==> exists w | w in workers :: Capable(w.capabilities, required)
  {
    for i := 0 to |workers|
      invariant forall w | w in workers[..i] :: !Capable(w.capabilities, required)
    {
      assert forall w :: w in workers[..i + 1] <==> w in workers[..i] || w == workers[i];
      var missing := MissingCapabilities(workers[i].capabilities, required);
      if missing == [] {
        assert workers[i] in workers;
        return true;
      }
    }
    assert workers[..|workers|] == workers;
    return false;
  }

  method AddRunItems(gate: Gate, f: Facts)
    requires gate.Faithful(Failing(f))
    modifies gate
    ensures gate.Faithful(Failing(f))
    ensures gate.seen == old(gate.seen) + {RunKindCheck, RunStatusCheck, DryRunBoundary}
  {
    ghost var failing := Failing(f);
    gate.Add(RunKindCheck, f.run.execution, failing);
    gate.Add(RunStatusCheck, f.run.status == RunQueued, failing);
    gate.Add(DryRunBoundary, !f.run.dryRun, failing);
  }

  method AddTaskItems(gate: Gate, f: Facts)
    requires gate.Faithful(Failing(f))
    modifies gate
    ensures gate.Faithful(Failing(f))
    ensures gate.seen == old(gate.seen) + {VersionAuthored, TasksReady}
  {
    ghost var failing := Failing(f);
    gate.Add(VersionAuthored, f.authored, failing);
    var runnable := RunnableCount(f.tasks);
    gate.Add(TasksReady, runnable > 0, failing);
  }

  method AddApprovalItems(gate: Gate, f: Facts)
    requires gate.Faithful(Failing(f))
    modifies gate
    ensures gate.Faithful(Failing(f))
    ensures gate.seen == old(gate.seen) + {WorkflowApproval, ApprovalGatePassed, LiveMappingPassed, EnginePreview}
  {
    ghost var failing := Failing(f);
    gate.Add(WorkflowApproval, f.approved.Some? && f.approved.value, failing);
    gate.Add(ApprovalGatePassed, f.approvalGate.Some? && f.approvalGate.value, failing);
    gate.Add(LiveMappingPassed, f.liveMapping.Some? && f.liveMapping.value, failing);
    gate.Add(EnginePreview, f.skipEngine || !f.engineBlocked, failing);
  }

  method AddWorkerItems(gate: Gate, f: Facts)
    requires gate.Faithful(Failing(f))
    modifies gate
    ensures gate.Faithful(Failing(f))
    ensures gate.seen == old(gate.seen) + {WorkerOnline, WorkerCapabilities}
  {
    ghost var failing := Failing(f);
    var online := OnlineWorkers(f.workers);
    assert online != [] ==> online[0] in online;
    gate.Add(WorkerOnline, |online| > 0, failing);
    var equipped := WorkerWithCapabilities(online, Required(f));
    gate.Add(WorkerCapabilities, equipped, failing);
  }

  // The gate passes exactly when every check holds, and it lists exactly those that do not.
  method Build(f: Facts) returns (pass: bool, blockers: seq<Check>)
    ensures pass <==> Passes(f)
    ensures forall c :: c in blockers <==> !Holds(f, c)
  {
    var gate := new Gate(Failing(f));
    AddRunItems(gate, f);
    AddTaskItems(gate, f);
    AddApprovalItems(gate, f);
    AddWorkerItems(gate, f);
    AllChecks();
    assert gate.seen == CHECKS;
    pass, blockers := gate.pass, gate.blockers;
  }
}
