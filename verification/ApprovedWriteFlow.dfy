/**
 From the queue to the artifact: what queueing puts there, what the gate then asks for, and that
 a write request gets it done. And what makes two requests the same.
 */
module ApprovedWriteFlow {

  import opened Wrappers
  import opened ApprovedWrite
  import opened ApprovalGate
  import opened ApprovedWriteRuns
  import Text

  // ---------- queueing ----------

  // A run that waits for its one task to be written under the given title.
  predicate Waiting(db: Db, project: nat, version: nat, run: nat, task: nat, title: string) {
    && run < |db.runs| && task < |db.tasks|
    && db.runs[run].project == project && db.runs[run].version == version
    && db.runs[run].execution && !db.runs[run].dryRun && db.runs[run].status == RunQueued && !db.runs[run].finished
    && db.tasks[task].project == project && db.tasks[task].run == run && db.tasks[task].approvedWrite
    && db.tasks[task].status == TaskQueued && db.tasks[task].title == title
    && (forall u | 0 <= u < |db.tasks| && db.tasks[u].run == run :: u == task)
    && !Leased(db.leases, task)
  }

  /** A request to queue is answered as created exactly for an authored version of the project and
      a new key. Then the answer names a new run of that version, which waits for its one task,
      and everything there before is as it was. */
  lemma QueueOutcome(db: Db, q: QueueRequest, db': Db, out: Outcome)
    requires Inv(db) && QueueTx(db, q, db', out)
    ensures (out.Answered? && out.created) <==>
              && q.version in db.versions && db.versions[q.version].project == q.project
              && db.versions[q.version].authored && QueueKey(q) !in db.commands
    ensures !(out.Answered? && out.created) ==> db' == db
    ensures out.Answered? && out.created ==>
              && out.response == QueuedResponse(|db.runs|, |db.tasks|, |db.events|, |db.audits|)
              && Waiting(db', q.project, q.version, |db.runs|, |db.tasks|, q.title)
              && |db'.runs| == |db.runs| + 1 && db'.runs[..|db.runs|] == db.runs
              && |db'.tasks| == |db.tasks| + 1 && db'.tasks[..|db.tasks|] == db.tasks
              && db'.events == db.events + [Event(QueueKey(q), |db.runs|, false)]
              && db'.audits == db.audits + [Audit(QueueKey(q), q.title, false)]
              && db'.commands.Keys == db.commands.Keys + {QueueKey(q)}
              && db' == db.(runs := db'.runs, tasks := db'.tasks, events := db'.events, audits := db'.audits,
                            commands := db'.commands)
  {
  }

  /** The gate on a waiting run, with its facts read as they are: it passes exactly when the version
      is authored and approved, the approval gate and the live mapping passed, the engine preview
      is skipped or clear, and some online worker has what is required. */
  lemma WaitingGate(db: Db, project: nat, version: nat, run: nat, task: nat, title: string, f: Facts)
    requires Waiting(db, project, version, run, task, title) && ReadFrom(f, db, run)
    ensures Passes(f) <==>
              && f.authored && f.approved == Some(true) && f.approvalGate == Some(true) && f.liveMapping == Some(true)
              && (f.skipEngine || !f.engineBlocked)
              && exists w | w in f.workers :: w.online && Capable(w.capabilities, Required(f))
  {
    assert db.tasks[task] in f.tasks && Runnable(db.tasks[task]);
    if Passes(f) {
      assert Holds(f, VersionAuthored) && Holds(f, WorkflowApproval) && Holds(f, ApprovalGatePassed);
      assert Holds(f, LiveMappingPassed) && Holds(f, EnginePreview) && Holds(f, WorkerCapabilities);
    } else {
      var c :| !Holds(f, c);
      WaitingCheck(f, c);
    }
  }

  lemma WaitingCheck(f: Facts, c: Check)
    requires f.run.execution && f.run.status == RunQueued && !f.run.dryRun
    requires exists t | t in f.tasks :: Runnable(t)
    ensures f.authored && f.approved == Some(true) && f.approvalGate == Some(true) && f.liveMapping == Some(true)
            && (f.skipEngine || !f.engineBlocked)
            && (exists w | w in f.workers :: w.online && Capable(w.capabilities, Required(f))) ==>
              Holds(f, c)
  {
  }

  // ---------- writing ----------

  // The rows a write leaves behind for a run with one task.
  predicate Delivered(db: Db, worker: string, run: nat, task: nat, title: string, w: Response)
    requires w.WrittenResponse?
  {
    && w.run == run && w.task == task && run < |db.runs| && task < |db.tasks|
    && w.artifact < |db.artifacts| && db.artifacts[w.artifact] == Artifact(run, task, w.lease, title)
    && w.attempt < |db.attempts| && db.attempts[w.attempt] == Attempt(run, task, w.lease, w.artifact)
    && w.lease < |db.leases| && db.leases[w.lease] == Lease(task, worker, Completed)
    && db.tasks[task].status == TaskWritten && db.runs[run].status == RunWritten && db.runs[run].finished
    && db.runs[run].lastArtifact == Some(w.artifact) && db.runs[run].lastAttempt == Some(w.attempt)
    && db.runs[run].writtenTasks == 1 && db.runs[run].remainingTasks == 0
    && w.event < |db.events| && db.events[w.event].run == run && !db.events[w.event].denied
    && w.audit < |db.audits| && db.audits[w.audit].title == title && !db.audits[w.audit].denied
  }

  /** A new request for a waiting run is carried out exactly when the gate was open, the worker has
      the capabilities asked for, the project permits it and nobody has its row locked; otherwise
      the first of these that fails is the reason. What is carried out is delivered: the artifact
      bears the queued title, or the default one. */
  lemma WaitingIsWritten(db: Db, version: nat, run: nat, task: nat, title: string, r: Request, gate: bool,
                         locked: set<nat>, db': Db, out: Outcome)
    requires Waiting(db, r.project, version, run, task, title) && r.run == run
    requires Resolves(db, r) && WriteKey(r) !in db.commands && WriteTx(db, r, gate, locked, db', out)
    ensures out.Answered? && out.created && out.response.run == run
    ensures var able := Capable(db.workers[(r.project, Text.TrimSpace(r.worker))].capabilities, Capabilities(r));
            var permitted := Permitted(db.permissions, r.project, "write_artifacts");
            && (gate && able && permitted && task !in locked <==> out.response.WrittenResponse?)
            && (out.response.DeniedResponse? ==>
                  out.response.why == if !gate then GateBlocked else if !able then WorkerLacksCapability
                                      else if !permitted then ProjectForbids else NoTask)
            && !out.response.QueuedResponse?
    ensures out.response.WrittenResponse? ==>
              && Delivered(db', Text.TrimSpace(r.worker), run, task,
                           if title == "" then "approved-artifact" else title, out.response)
              && |db'.artifacts| == |db.artifacts| + 1 && db'.artifacts[..|db.artifacts|] == db.artifacts
  {
    assert Claimable(db, r.project, run, task);
    assert forall u | 0 <= u < |db.tasks| && Claimable(db, r.project, run, u) :: u == task;
    var refusal := Refusal(db, r, gate, locked);
    if refusal == None {
      var t :| 0 <= t < |db.tasks| && IsNext(db, r.project, r.run, locked, t) && db' == Written(db, r, t);
      assert t == task;
      OnlyTaskFinishesRun(db, r, task);
    }
  }

  lemma OnlyTaskFinishesRun(db: Db, r: Request, t: nat)
    requires 0 <= r.run < |db.runs| && t < |db.tasks| && db.tasks[t].run == r.run
    requires forall u | 0 <= u < |db.tasks| && db.tasks[u].run == r.run :: u == t
    ensures var run := Written(db, r, t).runs[r.run];
            run.status == RunWritten && run.finished && run.writtenTasks == 1 && run.remainingTasks == 0
  {
    var tasks := Written(db, r, t).tasks;
    forall u | 0 <= u < |tasks| && tasks[u].run == r.run ensures u == t {
      assert db.tasks[u].run == r.run;
    }
    assert OpenTasks(tasks, r.run) == {};
    assert WrittenTasks(tasks, r.run) == {t};
  }

  /** Queued, then requested with nothing against it: the artifact is there, under the queued
      title. */
  lemma QueuedIsWritten(db: Db, q: QueueRequest, mid: Db, queued: Outcome, r: Request, locked: set<nat>, db': Db,
                        out: Outcome)
    requires Inv(db) && QueueTx(db, q, mid, queued) && queued.Answered? && queued.created
    requires queued.response.QueuedResponse? && r.run == queued.response.run && r.project == q.project
    requires Resolves(mid, r) && WriteKey(r) !in mid.commands && queued.response.task !in locked
    requires Capable(mid.workers[(r.project, Text.TrimSpace(r.worker))].capabilities, Capabilities(r))
    requires Permitted(mid.permissions, r.project, "write_artifacts")
    requires WriteTx(mid, r, true, locked, db', out)
    ensures out.Answered? && out.created && out.response.WrittenResponse?
    ensures Delivered(db', Text.TrimSpace(r.worker), queued.response.run, queued.response.task,
                      if q.title == "" then "approved-artifact" else q.title, out.response)
  {
    QueueOutcome(db, q, mid, queued);
    WaitingIsWritten(mid, q.version, queued.response.run, queued.response.task, q.title, r, true, locked, db', out);
  }

  // A lease that ends without completing its task, or expires, leaves that one to be claimed again.
  lemma EndedLeaseFreesTask(db: Db, l: nat, status: LeaseStatus, db': Db)
    requires l < |db.leases| && db.leases[l].status == Active && db.leases[l].task < |db.tasks|
    requires forall k | 0 <= k < |db.leases| && k != l && db.leases[k].task == db.leases[l].task ::
               db.leases[k].status != Active
    requires (ReleaseTx(db, l, status, db') && status != Active && status != Completed) ||
             (RecoverTx(db, {l}, true, db'))
    requires var task := db.tasks[db.leases[l].task];
             && task.approvedWrite && task.run < |db.runs|
             && db.runs[task.run].execution && !db.runs[task.run].dryRun && db.runs[task.run].status == RunQueued
    ensures var t := db.leases[l].task; Claimable(db', db.tasks[t].project, db.tasks[t].run, t)
  {
    var t := db.leases[l].task;
    if RecoverTx(db, {l}, true, db') {
      assert l in {l} && db.leases[l].task == t;
    }
    forall k | 0 <= k < |db'.leases| && db'.leases[k].task == t ensures db'.leases[k].status != Active {
      assert db.leases[k].task == t;
    }
  }

  // ---------- which requests are the same ----------

  // Requests share a key when they name the same one, or name none and ask for the same thing.
  lemma KeysExactly(r: Request, s: Request)
    ensures WriteKey(r) == WriteKey(s) <==>
              && r.project == s.project
              && (if Text.TrimSpace(r.key) == "" then
                    Text.TrimSpace(s.key) == "" && WriteContentOf(r) == WriteContentOf(s)
                  else Text.TrimSpace(r.key) == Text.TrimSpace(s.key))
    ensures WriteContentOf(r) == WriteContentOf(s) <==>
              && Text.TrimSpace(r.worker) == Text.TrimSpace(s.worker) && r.run == s.run
              && Capabilities(r) == Capabilities(s) && r.rest == s.rest
  {
  }

  lemma QueueKeysExactly(q: QueueRequest, p: QueueRequest, r: Request)
    ensures QueueKey(q) == QueueKey(p) <==>
              && q.project == p.project
              && (if Text.TrimSpace(q.key) == "" then
                    Text.TrimSpace(p.key) == "" && QueueContentOf(q) == QueueContentOf(p)
                  else Text.TrimSpace(q.key) == Text.TrimSpace(p.key))
    ensures QueueContentOf(q) == QueueContentOf(p) <==> q.version == p.version && q.title == p.title && q.rest == p.rest
    ensures QueueKey(q) != WriteKey(r)
  {
  }

  // A request that names no capabilities asks for writing artifacts, and for nothing else.
  lemma DefaultCapability(r: Request, have: seq<string>)
    requires r.capabilities == []
    ensures Capable(have, Capabilities(r)) <==> Has(have, "write_artifacts")
  {
    var want := Capabilities(r);
    assert Text.Trimmed(want[0]) && Text.TrimSpace(want[0]) == "write_artifacts";
  }

  // A gate asked for no capabilities in particular requires four.
  lemma DefaultRequirement(f: Facts, have: seq<string>)
    requires f.required == []
    ensures Capable(have, Required(f)) <==>
              && Has(have, "execute_agents") && Has(have, "read_project")
              && Has(have, "run_commands") && Has(have, "write_artifacts")
  {
    var want := Required(f);
    assert want == ["execute_agents", "read_project", "run_commands", "write_artifacts"];
    assert Text.TrimSpace(want[0]) == want[0] && Text.TrimSpace(want[1]) == want[1];
    assert Text.TrimSpace(want[2]) == want[2] && Text.TrimSpace(want[3]) == want[3];
  }
}
