/**
 Every interleaving of approved artifact writes with stale gate reads, with queueing, with the
 workers' own lease traffic and with everything else that happens to the database.
 */
module ApprovedWriteRuns {

  import opened Wrappers
  import opened ApprovedWrite
  import opened ApprovalGate
  import Text

  // ---------- steps ----------

  // Rows of other kinds come and go; approved-write tasks, their runs and leases are left alone.
  ghost predicate Elsewhere(db: Db, db': Db) {
    && |db.runs| <= |db'.runs| && |db.tasks| <= |db'.tasks| && |db.leases| <= |db'.leases|
    && (forall t | 0 <= t < |db.tasks| ::
          db'.tasks[t].run == db.tasks[t].run && db'.tasks[t].approvedWrite == db.tasks[t].approvedWrite)
    && (forall t | 0 <= t < |db.tasks| && db.tasks[t].approvedWrite ::
          db'.tasks[t] == db.tasks[t] &&
              (db.tasks[t].run < |db.runs| ==> db'.runs[db.tasks[t].run] == db.runs[db.tasks[t].run]))
    && (forall t | |db.tasks| <= t < |db'.tasks| ::
          && !db'.tasks[t].approvedWrite && db'.tasks[t].run < |db'.runs|
          && forall u | 0 <= u < |db.tasks| && db.tasks[u].approvedWrite :: db.tasks[u].run != db'.tasks[t].run)
    && (forall l | 0 <= l < |db.leases| :: db'.leases[l].task == db.leases[l].task)
    && (forall l | 0 <= l < |db.leases| && db.leases[l].task < |db.tasks| &&
          db.tasks[db.leases[l].task].approvedWrite ::
          db'.leases[l] == db.leases[l])
    && (forall l | |db.leases| <= l < |db'.leases| ::
          db'.leases[l].task < |db'.tasks| && !db'.tasks[db'.leases[l].task].approvedWrite)
    && db'.attempts == db.attempts && db'.artifacts == db.artifacts
    && db'.commands == db.commands && db'.events == db.events && db'.audits == db.audits
  }

  ghost predicate Next(db: Db, db': Db) {
    || (exists q, out :: QueueTx(db, q, db', out))
    || (exists r, gate, locked, out :: WriteTx(db, r, gate, locked, db', out))
    || (exists t, worker :: AcquireTx(db, t, worker, db'))
    || (exists l, status :: ReleaseTx(db, l, status, db'))
    || (exists expired, requeue :: RecoverTx(db, expired, requeue, db'))
    || Elsewhere(db, db')
  }

  predicate Init(db: Db) {
    db.runs == [] && db.tasks == [] && db.leases == [] && db.attempts == [] && db.artifacts == []
    && db.commands == map[] && db.events == [] && db.audits == []
  }

  ghost predicate Behavior(b: nat -> Db) {
    Init(b(0)) && forall i: nat :: Next(b(i), b(i + 1))
  }

  // ---------- the invariant ----------

  predicate Rows(db: Db) {
    && (forall t | 0 <= t < |db.tasks| :: db.tasks[t].run < |db.runs|)
    && (forall l | 0 <= l < |db.leases| :: db.leases[l].task < |db.tasks|)
  }

  // An approved-write task is the only task of its run, which is a real execution run.
  predicate OwnRun(db: Db)
    requires Rows(db)
  {
    forall t | 0 <= t < |db.tasks| && db.tasks[t].approvedWrite ::
      var run := db.runs[db.tasks[t].run];
      && run.execution && !run.dryRun && run.project == db.tasks[t].project && db.tasks[t].status != TaskPending
      && forall u | 0 <= u < |db.tasks| && db.tasks[u].run == db.tasks[t].run :: u == t
  }

  // The attempt, its report and its completed lease belong to one approved-write task and name each other.
  predicate Coherent(db: Db, i: nat)
    requires Rows(db) && i < |db.attempts| && |db.attempts| == |db.artifacts|
  {
    var a := db.attempts[i];
    && a.artifact == i && a.task < |db.tasks| && a.lease < |db.leases|
    && db.tasks[a.task].approvedWrite && db.tasks[a.task].run == a.run
    && db.leases[a.lease].task == a.task && db.leases[a.lease].status == Completed
    && db.artifacts[i] == Artifact(a.run, a.task, a.lease, TitleOf(db.tasks[a.task]))
  }

  predicate Paired(db: Db)
    requires Rows(db)
  {
    && |db.attempts| == |db.artifacts|
    && (forall i | 0 <= i < |db.attempts| :: Coherent(db, i))
    && (forall i, j | 0 <= i < j < |db.attempts| ::
          db.attempts[i].task != db.attempts[j].task && db.attempts[i].lease != db.attempts[j].lease)
  }

  predicate Attempted(attempts: seq<Attempt>, t: nat) {
    exists i | 0 <= i < |attempts| :: attempts[i].task == t
  }

  // The run is still queued and nothing was written, or it is finished and names the one write.
  predicate Settled(db: Db, t: nat)
    requires Rows(db) && t < |db.tasks|
  {
    var run := db.runs[db.tasks[t].run];
    if run.status == RunQueued then !run.finished && !Attempted(db.attempts, t)
    else
      && run.status == RunWritten && run.finished && run.writtenTasks == 1 && run.remainingTasks == 0
      && run.lastArtifact == run.lastAttempt
      && run.lastAttempt.Some? && run.lastAttempt.value < |db.attempts| && db.attempts[run.lastAttempt.value].task == t
  }

  predicate AllSettled(db: Db)
    requires Rows(db)
  {
    forall t | 0 <= t < |db.tasks| && db.tasks[t].approvedWrite :: Settled(db, t)
  }

  // Every command is answered, by exactly one event and one audit event of its own.
  predicate Recorded(db: Db) {
    && |db.events| == |db.audits|
    && (forall key | key in db.commands ::
          && db.commands[key].response.Some?
          && var resp := db.commands[key].response.value;
             && resp.event == resp.audit && resp.event < |db.events| && db.events[resp.event].key == key
             && db.events[resp.event].denied == resp.DeniedResponse?)
    && (forall e | 0 <= e < |db.events| ::
          && db.events[e].key == db.audits[e].key && db.events[e].denied == db.audits[e].denied
          && db.events[e].key in db.commands && db.commands[db.events[e].key].response.Some?
          && db.commands[db.events[e].key].response.value.event == e)
  }

  // A command answered as written names rows that are there, and no two name the same ones.
  predicate Honest(db: Db) {
    && (forall key | key in db.commands && db.commands[key].response.Some? &&
          db.commands[key].response.value.WrittenResponse? ::
          var w := db.commands[key].response.value;
          w.attempt < |db.attempts| && db.attempts[w.attempt] == Attempt(w.run, w.task, w.lease, w.artifact))
    && (forall key, other | key in db.commands && other in db.commands && key != other
          && db.commands[key].response.Some? && db.commands[key].response.value.WrittenResponse?
          && db.commands[other].response.Some? && db.commands[other].response.value.WrittenResponse? ::
          db.commands[key].response.value.attempt != db.commands[other].response.value.attempt)
  }

  predicate Inv(db: Db) {
    Rows(db) && OwnRun(db) && Paired(db) && AllSettled(db) && Recorded(db) && Honest(db)
  }

  // ---------- the invariant is kept ----------

  // Task and lease statuses play no part in it, beyond completed leases staying completed.
  predicate StatusOnly(db: Db, db': Db) {
    && |db'.tasks| == |db.tasks| && |db'.leases| >= |db.leases|
    && (forall t | 0 <= t < |db.tasks| :: db'.tasks[t] == db.tasks[t].(status := db'.tasks[t].status) &&
          (db'.tasks[t].status == TaskPending ==> db.tasks[t].status == TaskPending))
    && (forall l | 0 <= l < |db.leases| :: db'.leases[l].task == db.leases[l].task
          && (db.leases[l].status == Completed ==> db'.leases[l].status == Completed))
    && (forall l | |db.leases| <= l < |db'.leases| :: db'.leases[l].task < |db.tasks|)
    && db' == db.(tasks := db'.tasks, leases := db'.leases)
  }

  lemma StatusOnlyKeeps(db: Db, db': Db)
    requires Inv(db) && StatusOnly(db, db')
    ensures Inv(db')
  {
    assert Rows(db');
    forall i | 0 <= i < |db'.attempts| ensures Coherent(db', i) {
      assert Coherent(db, i);
    }
    forall t | 0 <= t < |db'.tasks| && db'.tasks[t].approvedWrite ensures Settled(db', t) {
      assert Settled(db, t);
    }
  }

  lemma ElsewhereKeeps(db: Db, db': Db)
    requires Inv(db) && Elsewhere(db, db')
    ensures Inv(db')
  {
    forall l | 0 <= l < |db'.leases| ensures db'.leases[l].task < |db'.tasks| {
      if l < |db.leases| {
        assert db.leases[l].task < |db.tasks|;
      }
    }
    assert Rows(db');
    forall i | 0 <= i < |db'.attempts| ensures Coherent(db', i) {
      assert Coherent(db, i);
    }
    forall t | 0 <= t < |db'.tasks| && db'.tasks[t].approvedWrite ensures t < |db.tasks| && Settled(db', t) {
      assert Settled(db, t);
    }
  }

  lemma QueuedRows(db: Db, q: QueueRequest)
    requires Inv(db)
    ensures Rows(Queued(db, q)) && OwnRun(Queued(db, q)) && Paired(Queued(db, q)) && AllSettled(Queued(db, q))
  {
    var db' := Queued(db, q);
    forall i | 0 <= i < |db'.attempts| ensures db.attempts[i].task < |db.tasks| && Coherent(db', i) {
      assert Coherent(db, i);
    }
    forall t | 0 <= t < |db'.tasks| && db'.tasks[t].approvedWrite ensures Settled(db', t) {
      if t < |db.tasks| {
        assert Settled(db, t);
      }
    }
  }

  lemma QueuedRecords(db: Db, q: QueueRequest)
    requires Recorded(db) && Honest(db) && QueueKey(q) !in db.commands
    ensures Recorded(Queued(db, q)) && Honest(Queued(db, q))
  {
  }

  lemma DeniedRecords(db: Db, r: Request, why: Why)
    requires Recorded(db) && Honest(db) && r.run >= 0 && WriteKey(r) !in db.commands
    ensures Recorded(Denied(db, r, why)) && Honest(Denied(db, r, why))
  {
  }

  lemma DeniedKeeps(db: Db, r: Request, why: Why)
    requires Inv(db) && r.run >= 0 && WriteKey(r) !in db.commands
    ensures Inv(Denied(db, r, why))
  {
    var db' := Denied(db, r, why);
    DeniedRecords(db, r, why);
    forall i | 0 <= i < |db'.attempts| ensures Coherent(db', i) {
      assert Coherent(db, i);
    }
    forall t | 0 <= t < |db'.tasks| && db'.tasks[t].approvedWrite ensures Settled(db', t) {
      assert Settled(db, t);
    }
  }

  // The written task was the only open one of its run, so the run is finished.
  lemma WriteFinishesRun(db: Db, r: Request, t: nat)
    requires Rows(db) && OwnRun(db) && 0 <= r.run < |db.runs| && Claimable(db, r.project, r.run, t)
    ensures var run := Written(db, r, t).runs[r.run];
            && run.status == RunWritten && run.finished && run.writtenTasks == 1 && run.remainingTasks == 0
            && run.lastArtifact == Some(|db.artifacts|) && run.lastAttempt == Some(|db.attempts|)
            && run.execution == db.runs[r.run].execution && run.dryRun == db.runs[r.run].dryRun
            && run.project == db.runs[r.run].project
  {
    var tasks := Written(db, r, t).tasks;
    forall u | 0 <= u < |tasks| && tasks[u].run == r.run ensures u == t {
      assert db.tasks[u].run == db.tasks[t].run;
    }
    assert OpenTasks(tasks, r.run) == {};
    assert WrittenTasks(tasks, r.run) == {t};
  }

  lemma WrittenRows(db: Db, r: Request, t: nat)
    requires Rows(db) && OwnRun(db) && 0 <= r.run < |db.runs| && Claimable(db, r.project, r.run, t)
    ensures Rows(Written(db, r, t)) && OwnRun(Written(db, r, t))
  {
    WriteFinishesRun(db, r, t);
    var db' := Written(db, r, t);
    assert Rows(db');
    forall u | 0 <= u < |db'.tasks| && db'.tasks[u].approvedWrite
      ensures var run := db'.runs[db'.tasks[u].run];
              run.execution && !run.dryRun && run.project == db'.tasks[u].project && db'.tasks[u].status != TaskPending
      ensures forall v | 0 <= v < |db'.tasks| && db'.tasks[v].run == db'.tasks[u].run :: v == u
    {
      assert db.tasks[u].approvedWrite;
    }
  }

  lemma WrittenPairs(db: Db, r: Request, t: nat)
    requires Inv(db) && 0 <= r.run < |db.runs| && Claimable(db, r.project, r.run, t)
    ensures Rows(Written(db, r, t)) && Paired(Written(db, r, t))
  {
    WrittenRows(db, r, t);
    var db' := Written(db, r, t);
    assert Settled(db, t);
    forall i | 0 <= i < |db'.attempts| ensures Coherent(db', i) {
      if i < |db.attempts| {
        assert Coherent(db, i);
      }
    }
    forall i, j | 0 <= i < j < |db'.attempts|
      ensures db'.attempts[i].task != db'.attempts[j].task && db'.attempts[i].lease != db'.attempts[j].lease
    {
      assert Coherent(db, i);
    }
  }

  lemma WrittenSettles(db: Db, r: Request, t: nat)
    requires Inv(db) && 0 <= r.run < |db.runs| && Claimable(db, r.project, r.run, t)
    ensures Rows(Written(db, r, t)) && AllSettled(Written(db, r, t))
  {
    WrittenRows(db, r, t);
    WriteFinishesRun(db, r, t);
    var db' := Written(db, r, t);
    forall u | 0 <= u < |db'.tasks| && db'.tasks[u].approvedWrite ensures Settled(db', u) {
      assert Settled(db, u);
      if u != t {
        assert db.tasks[u].run != r.run;
        assert Attempted(db'.attempts, u) ==> Attempted(db.attempts, u) by {
          if Attempted(db'.attempts, u) {
            var i :| 0 <= i < |db'.attempts| && db'.attempts[i].task == u;
            assert db.attempts[i].task == u;
          }
        }
      }
    }
  }

  lemma WrittenRecords(db: Db, r: Request, t: nat)
    requires Recorded(db) && Honest(db) && WriteKey(r) !in db.commands && 0 <= r.run < |db.runs| && t < |db.tasks|
    ensures Recorded(Written(db, r, t)) && Honest(Written(db, r, t))
  {
  }

  lemma WriteKeeps(db: Db, r: Request, gate: bool, locked: set<nat>, db': Db, out: Outcome)
    requires Inv(db) && WriteTx(db, r, gate, locked, db', out)
    ensures Inv(db')
  {
    if db' != db {
      var refusal := Refusal(db, r, gate, locked);
      if refusal.Some? {
        DeniedKeeps(db, r, refusal.value);
      } else {
        var t :| 0 <= t < |db.tasks| && IsNext(db, r.project, r.run, locked, t) && db' == Written(db, r, t);
        WrittenRows(db, r, t);
        WrittenPairs(db, r, t);
        WrittenSettles(db, r, t);
        WrittenRecords(db, r, t);
      }
    }
  }

  lemma QueueKeeps(db: Db, q: QueueRequest, db': Db, out: Outcome)
    requires Inv(db) && QueueTx(db, q, db', out)
    ensures Inv(db')
  {
    if db' != db {
      QueuedRows(db, q);
      QueuedRecords(db, q);
    }
  }

  lemma LeasingKeeps(db: Db, db': Db)
    requires Inv(db)
    requires (exists t, worker :: AcquireTx(db, t, worker, db')) || (exists l, status :: ReleaseTx(db, l, status, db'))
    ensures Inv(db')
  {
    StatusOnlyKeeps(db, db');
  }

  lemma RecoveryKeeps(db: Db, expired: set<nat>, requeue: bool, db': Db)
    requires Inv(db) && RecoverTx(db, expired, requeue, db')
    ensures Inv(db')
  {
    StatusOnlyKeeps(db, db');
  }

  lemma NextKeeps(db: Db, db': Db)
    requires Inv(db) && Next(db, db')
    ensures Inv(db')
  {
    if q, out :| QueueTx(db, q, db', out) {
      QueueKeeps(db, q, db', out);
    } else if r, gate, locked, out :| WriteTx(db, r, gate, locked, db', out) {
      WriteKeeps(db, r, gate, locked, db', out);
    } else if expired, requeue :| RecoverTx(db, expired, requeue, db') {
      RecoveryKeeps(db, expired, requeue, db');
    } else if Elsewhere(db, db') {
      ElsewhereKeeps(db, db');
    } else {
      LeasingKeeps(db, db');
    }
  }

  lemma {:induction false} AlwaysInv(b: nat -> Db, i: nat)
    requires Behavior(b)
    ensures Inv(b(i))
  {
    if i > 0 {
      AlwaysInv(b, i - 1);
      NextKeeps(b(i - 1), b(i));
    }
  }

  // ---------- what holds in every run ----------

  /** However stale the gates were: no task gets a second artifact, attempt or lease from a
      write, no such lease is active, the three rows name each other, and the run is finished
      and names them. */
  lemma OneWritePerTask(b: nat -> Db, n: nat)
    requires Behavior(b)
    ensures |b(n).attempts| == |b(n).artifacts|
    ensures forall i, j | 0 <= i < j < |b(n).attempts| ::
              && b(n).attempts[i].task != b(n).attempts[j].task && b(n).attempts[i].lease != b(n).attempts[j].lease
              && b(n).artifacts[i].task != b(n).artifacts[j].task
    ensures forall i | 0 <= i < |b(n).attempts| ::
              var a := b(n).attempts[i];
              && a.artifact == i && b(n).artifacts[i].task == a.task && b(n).artifacts[i].lease == a.lease
              && a.lease < |b(n).leases| && b(n).leases[a.lease].task == a.task &&
                    b(n).leases[a.lease].status == Completed
              && a.run < |b(n).runs| && b(n).runs[a.run].status == RunWritten && b(n).runs[a.run].finished
              && b(n).runs[a.run].lastArtifact == Some(i) && b(n).runs[a.run].lastAttempt == Some(i)
              && b(n).runs[a.run].writtenTasks == 1 && b(n).runs[a.run].remainingTasks == 0
  {
    AlwaysInv(b, n);
    var db := b(n);
    forall i | 0 <= i < |db.attempts|
      ensures Coherent(db, i) && db.runs[db.attempts[i].run].lastAttempt == Some(i) && Settled(db, db.attempts[i].task)
    {
      assert Coherent(db, i);
      assert Settled(db, db.attempts[i].task);
    }
  }

  // Conversely, an approved-write run that is no longer queued has its one write.
  lemma FinishedMeansWritten(b: nat -> Db, n: nat, t: nat)
    requires Behavior(b) && t < |b(n).tasks| && b(n).tasks[t].approvedWrite
    ensures b(n).tasks[t].run < |b(n).runs|
    ensures var run := b(n).runs[b(n).tasks[t].run];
            && (run.finished <==> run.status == RunWritten) && (run.finished <==> run.status != RunQueued)
            && (run.finished <==> Attempted(b(n).attempts, t))
  {
    AlwaysInv(b, n);
    assert Settled(b(n), t);
  }

  lemma WriteKeepsCommand(db: Db, r: Request, gate: bool, locked: set<nat>, db': Db, out: Outcome, key: Key)
    requires WriteTx(db, r, gate, locked, db', out) && key in db.commands
    ensures key in db'.commands && db'.commands[key] == db.commands[key]
  {
  }

  lemma QueueKeepsCommand(db: Db, q: QueueRequest, db': Db, out: Outcome, key: Key)
    requires QueueTx(db, q, db', out) && key in db.commands
    ensures key in db'.commands && db'.commands[key] == db.commands[key]
  {
  }

  lemma CommandsKept(db: Db, db': Db, key: Key)
    requires Next(db, db') && key in db.commands
    ensures key in db'.commands && db'.commands[key] == db.commands[key]
  {
    if q, out :| QueueTx(db, q, db', out) {
      QueueKeepsCommand(db, q, db', out, key);
    } else if r, gate, locked, out :| WriteTx(db, r, gate, locked, db', out) {
      WriteKeepsCommand(db, r, gate, locked, db', out, key);
    }
  }

  lemma {:induction false} AnswersKept(b: nat -> Db, i: nat, j: nat, key: Key)
    requires Behavior(b) && i <= j && key in b(i).commands
    ensures key in b(j).commands && b(j).commands[key] == b(i).commands[key]
    decreases j
  {
    if i < j {
      AnswersKept(b, i, j - 1, key);
      CommandsKept(b(j - 1), b(j), key);
    }
  }

  /** A request answered at any moment - written or denied - is answered the same way whenever
      it is sent again, whatever the gate says by then, and changes nothing; another request
      under its key is refused as a conflict and changes nothing. */
  lemma RetryReplays(b: nat -> Db, i: nat, j: nat, r: Request, gate: bool, locked: set<nat>, db': Db, out: Outcome)
    requires Behavior(b) && i <= j && WriteKey(r) in b(i).commands
    requires Resolves(b(j), r) && WriteTx(b(j), r, gate, locked, db', out)
    ensures db' == b(j) && b(i).commands[WriteKey(r)].response.Some?
    ensures out == if b(i).commands[WriteKey(r)].content != WriteContentOf(r) then Failed(IdempotencyConflict)
                   else Answered(b(i).commands[WriteKey(r)].response.value, false)
  {
    AlwaysInv(b, i);
    AnswersKept(b, i, j, WriteKey(r));
  }

  // Every command has its one event and one audit event, and no other is recorded.
  lemma OneRecordPerCommand(b: nat -> Db, n: nat, key: Key)
    requires Behavior(b)
    ensures |b(n).events| == |b(n).audits|
    ensures key in b(n).commands ==>
              exists e | 0 <= e < |b(n).events| ::
                && b(n).events[e].key == key && b(n).audits[e].key == key
                && forall f | 0 <= f < |b(n).events| && f != e :: b(n).events[f].key != key && b(n).audits[f].key != key
    ensures key !in b(n).commands ==> forall e | 0 <= e < |b(n).events| ::
              b(n).events[e].key != key && b(n).audits[e].key != key
  {
    AlwaysInv(b, n);
    if key in b(n).commands {
      var e := b(n).commands[key].response.value.event;
      assert b(n).events[e].key == key && b(n).audits[e].key == key;
    }
  }

  // ---------- one request ----------

  /** A new request is denied exactly when there is a reason to; a denial changes no run,
      task, lease, attempt or artifact and leaves one event, one audit event and one answered
      command; a write changes one task and one run and leaves one row in every table. */
  lemma OutcomeExactly(db: Db, r: Request, gate: bool, locked: set<nat>, db': Db, out: Outcome)
    requires Resolves(db, r) && WriteKey(r) !in db.commands && WriteTx(db, r, gate, locked, db', out)
    ensures out.Answered? && out.created
    ensures db'.commands.Keys == db.commands.Keys + {WriteKey(r)} &&
              db'.commands[WriteKey(r)].response == Some(out.response)
    ensures forall key | key in db.commands :: db'.commands[key] == db.commands[key]
    ensures |db'.events| == |db.events| + 1 && db'.events[..|db.events|] == db.events
    ensures |db'.audits| == |db.audits| + 1 && db'.audits[..|db.audits|] == db.audits
    ensures out.response.event == |db.events| && out.response.audit == |db.audits|
    ensures !out.response.QueuedResponse? && out.response.run == r.run
    ensures db'.events[|db.events|] == Event(WriteKey(r), r.run, out.response.DeniedResponse?)
    ensures db'.audits[|db.audits|].key == WriteKey(r)
            && db'.audits[|db.audits|].denied == out.response.DeniedResponse?
    ensures match Refusal(db, r, gate, locked)
            case Some(why) =>
              && out.response.DeniedResponse? && out.response.why == why
              && db'.runs == db.runs && db'.tasks == db.tasks && db'.leases == db.leases
              && db'.attempts == db.attempts && db'.artifacts == db.artifacts
            case None =>
              && out.response.WrittenResponse? && out.response.task < |db.tasks|
              && Claimable(db, r.project, r.run, out.response.task) && out.response.task !in locked
              && (forall t | 0 <= t < |db.tasks| && t !in locked && Claimable(db, r.project, r.run, t) ::
                    var first := out.response.task;
                    db.tasks[first].sequence < db.tasks[t].sequence ||
                      (db.tasks[first].sequence == db.tasks[t].sequence && first <= t))
              && (forall t | 0 <= t < |db.tasks| && t != out.response.task :: db'.tasks[t] == db.tasks[t])
              && (forall n | 0 <= n < |db.runs| && n != r.run :: db'.runs[n] == db.runs[n])
              && |db'.leases| == |db.leases| + 1 && |db'.attempts| == |db.attempts| + 1 &&
                    |db'.artifacts| == |db.artifacts| + 1
  {
    if Refusal(db, r, gate, locked) == None {
      var t :| 0 <= t < |db.tasks| && IsNext(db, r.project, r.run, locked, t) && db' == Written(db, r, t);
    }
  }

  // The gate's facts were read from this database.
  ghost predicate ReadFrom(f: Facts, db: Db, run: nat) {
    && run < |db.runs| && f.run == db.runs[run]
    && forall task :: task in f.tasks <==> task in db.tasks && task.run == run
  }

  /** When nothing changes between the gate and the transaction, a request for an
      approved-write run that the gate lets pass is written exactly when its own worker is
      capable, the project permits it, and no lease or lock holds the run's task. */
  lemma FreshGateWrites(db: Db, r: Request, f: Facts, locked: set<nat>, t: nat)
    requires Inv(db) && Resolves(db, r)
    requires t < |db.tasks| && db.tasks[t].approvedWrite && db.tasks[t].run == r.run
    requires ReadFrom(f, db, r.run) && Passes(f)
    ensures Refusal(db, r, true, locked) == None <==>
              && Capable(db.workers[(r.project, Text.TrimSpace(r.worker))].capabilities, Capabilities(r))
              && Permitted(db.permissions, r.project, "write_artifacts")
              && t !in locked && !Leased(db.leases, t)
  {
    assert Holds(f, TasksReady) && Holds(f, RunStatusCheck);
    var task :| task in f.tasks && Runnable(task);
    var u :| 0 <= u < |db.tasks| && db.tasks[u] == task;
    assert u == t;
    assert !Leased(db.leases, t) ==> Claimable(db, r.project, r.run, t);
    assert forall v | 0 <= v < |db.tasks| && Claimable(db, r.project, r.run, v) :: v == t;
  }
}
