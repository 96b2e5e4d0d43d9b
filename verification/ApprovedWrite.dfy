/**
 The approval-gated artifact write: a queued run with one task, a gate read before the
 transaction, and a transaction that leases its run task, stores the report, records the attempt
 and finishes the run - or records a denial.

 Rows are numbered in the order of insertion. The rows of `artifacts` and `attempts` are
 those this operation inserts, and `events` and `audits` those it records.
 */
module ApprovedWrite {

  import opened Wrappers
  import Text

  // ---------- rows ----------

  datatype RunStatus = RunQueued | RunRunning | RunWritten | RunOther

  // The last two are the counts in the run's summary.
  datatype Run = Run(
    project: nat, version: nat, execution: bool, dryRun: bool, status: RunStatus, finished: bool,
    lastArtifact: Option<nat>, lastAttempt: Option<nat>, writtenTasks: nat, remainingTasks: nat)

  datatype TaskStatus = TaskQueued | TaskPending | TaskNeedsRecovery | TaskLeased | TaskWritten | TaskPassed | TaskOther

  // `approvedWrite` tells the kind of task.
  datatype Task = Task(project: nat, run: nat, approvedWrite: bool, status: TaskStatus, sequence: int, title: string)

  datatype LeaseStatus = Active | Completed | NeedsRecovery | Released

  datatype Lease = Lease(task: nat, worker: string, status: LeaseStatus)

  datatype Artifact = Artifact(run: nat, task: nat, lease: nat, title: string)

  datatype Attempt = Attempt(run: nat, task: nat, lease: nat, artifact: nat)

  datatype Worker = Worker(key: string, online: bool, capabilities: seq<string>)

  datatype Effect = Allow | Deny | NoEffect

  datatype Permission = Permission(
    project: nat, aboutCapability: bool, effect: Effect, capability: string, pattern: string)

  datatype Kind = Queueing | Writing

  // A blank idempotency key is replaced by one computed from the request hash.
  datatype KeyText = Given(text: string) | Derived(content: Content)

  datatype Key = Key(project: nat, kind: Kind, text: KeyText)

  // What the request hash is computed from; `rest` is the lease timeout, metadata, actor and reason.
  datatype Content =
    | QueueContent(version: nat, title: string, rest: string)
    | WriteContent(worker: string, run: int, capabilities: seq<string>, rest: string)

  datatype Why = GateBlocked | WorkerLacksCapability | ProjectForbids | NoTask

  datatype Response =
    | QueuedResponse(run: nat, task: nat, event: nat, audit: nat)
    | DeniedResponse(run: nat, why: Why, event: nat, audit: nat)
    | WrittenResponse(run: nat, task: nat, lease: nat, attempt: nat, artifact: nat, event: nat, audit: nat)

  // A reserved command has no response until it is completed.
  datatype Command = Command(content: Content, response: Option<Response>)

  datatype Event = Event(key: Key, run: nat, denied: bool)

  datatype Audit = Audit(key: Key, title: string, denied: bool)

  datatype Db = Db(
    runs: seq<Run>, tasks: seq<Task>, leases: seq<Lease>, attempts: seq<Attempt>, artifacts: seq<Artifact>,
    commands: map<Key, Command>, events: seq<Event>, audits: seq<Audit>,
    workers: map<(nat, string), Worker>, permissions: seq<Permission>, versions: map<nat, Version>)

  datatype Version = Version(project: nat, authored: bool)

  // ---------- capabilities ----------

  // Trimmed, without blanks, first occurrences only.
  function Normalized(list: seq<string>): seq<string> {
    if list == [] then []
    else
      var done := Normalized(list[..|list| - 1]);
      var c := Text.TrimSpace(list[|list| - 1]);
      if c == "" || c in done then done else done + [c]
  }

  predicate Has(list: seq<string>, c: string) {
    exists i | 0 <= i < |list| :: Text.TrimSpace(list[i]) == c
  }

  predicate Distinct(list: seq<string>) {
    forall i, j | 0 <= i < j < |list| :: list[i] != list[j]
  }

  // Every wanted capability that is not blank is one the worker has.
  predicate Capable(have: seq<string>, want: seq<string>) {
    forall i | 0 <= i < |want| && Text.TrimSpace(want[i]) != "" :: Has(have, Text.TrimSpace(want[i]))
  }

  lemma {:induction false} NormalizedMeaning(list: seq<string>)
    ensures Distinct(Normalized(list))
    ensures forall c :: c in Normalized(list) <==> c != "" && Has(list, c)
  {
    if list != [] {
      var n := |list| - 1;
      NormalizedMeaning(list[..n]);
      forall c ensures Has(list, c) <==> Has(list[..n], c) || c == Text.TrimSpace(list[n]) {
        if Has(list[..n], c) {
          var i :| 0 <= i < n && Text.TrimSpace(list[..n][i]) == c;
          assert Text.TrimSpace(list[i]) == c;
        }
        if Has(list, c) && c != Text.TrimSpace(list[n]) {
          var i :| 0 <= i < |list| && Text.TrimSpace(list[i]) == c;
          assert Text.TrimSpace(list[..n][i]) == c;
        }
      }
    }
  }

  // In order of first appearance: what comes later is added behind.
  lemma {:induction false} NormalizedGrows(list: seq<string>, more: seq<string>)
    ensures Normalized(list) <= Normalized(list + more)
    decreases |more|
  {
    if more == [] {
      assert list + more == list;
    } else {
      var n := |more| - 1;
      NormalizedGrows(list, more[..n]);
      assert (list + more)[..|list + more| - 1] == list + more[..n];
    }
  }

  method NormalizeCapabilities(list: seq<string>) returns (out: seq<string>)
    ensures out == Normalized(list)
  {
    out := [];
    for i := 0 to |list|
      invariant out == Normalized(list[..i])
    {
      assert list[..i + 1][..i] == list[..i];
      var c := Text.TrimSpace(list[i]);
      if c != "" && c !in out {
        out := out + [c];
      }
    }
    assert list[..|list|] == list;
  }

  // missingWorkerCapabilities: none are missing exactly when the worker is capable.
  method MissingCapabilities(have: seq<string>, want: seq<string>) returns (missing: seq<string>)
    ensures forall c :: c in missing <==> c != "" && Has(want, c) && !Has(have, c)
    ensures Distinct(missing)
    ensures missing == [] <==> Capable(have, want)
  {
    var allowed := NormalizeCapabilities(have);
    var wanted := NormalizeCapabilities(want);
    NormalizedMeaning(have);
    NormalizedMeaning(want);
    missing := [];
    for i := 0 to |wanted|
      invariant forall c :: c in missing <==> c in wanted[..i] && c !in allowed
      invariant Distinct(missing)
    {
      if wanted[i] !in allowed {
        assert wanted[i] !in wanted[..i];
        missing := missing + [wanted[i]];
      }
    }
    assert wanted[..|wanted|] == wanted;
    if missing == [] {
      forall i | 0 <= i < |want| && Text.TrimSpace(want[i]) != "" ensures Has(have, Text.TrimSpace(want[i])) {
        assert Text.TrimSpace(want[i]) !in missing;
      }
    } else {
      assert missing[0] in missing;
    }
  }

  predicate Matches(p: Permission, project: nat, capability: string) {
    p.project == project && p.aboutCapability && (p.capability == capability || p.pattern == capability)
  }

  // Some matching permission allows, and none denies.
  predicate Permitted(permissions: seq<Permission>, project: nat, capability: string) {
    && (exists p :: p in permissions && Matches(p, project, capability) && p.effect == Allow)
    && (forall p | p in permissions && Matches(p, project, capability) :: p.effect != Deny)
  }

  method CanProject(permissions: seq<Permission>, project: nat, capability: string)
    returns (allowed: bool, denied: bool)
    ensures allowed <==> Permitted(permissions, project, capability)
    ensures allowed ==> exists p :: p in permissions && p.effect == Allow && p.project == project && p.aboutCapability
                                    && (p.capability == capability || p.pattern == capability)
    ensures denied <==> exists p :: p in permissions && Matches(p, project, capability) && p.effect == Deny
  {
    allowed, denied := false, false;
    for i := 0 to |permissions|
      invariant allowed <==> exists p :: p in permissions[..i] && Matches(p, project, capability) && p.effect == Allow
      invariant forall p | p in permissions[..i] && Matches(p, project, capability) :: p.effect != Deny
      invariant !denied
    {
      var p := permissions[i];
      assert p in permissions;
      if Matches(p, project, capability) {
        if p.effect == Deny {
          return false, true;
        }
        if p.effect == Allow {
          assert p in permissions[..i + 1];
          allowed := true;
        }
      }
      assert forall q :: q in permissions[..i + 1] <==> q in permissions[..i] || q == p;
    }
    assert permissions[..|permissions|] == permissions;
  }

  // ---------- requests ----------

  datatype Request = Request(
    project: nat, key: string, worker: string, run: int, capabilities: seq<string>, rest: string)

  datatype QueueRequest = QueueRequest(project: nat, key: string, version: nat, title: string, rest: string)

  function Capabilities(r: Request): seq<string> {
    if r.capabilities == [] then ["write_artifacts"] else Normalized(r.capabilities)
  }

  function WriteContentOf(r: Request): Content {
    WriteContent(Text.TrimSpace(r.worker), r.run, Capabilities(r), r.rest)
  }

  function TextOf(key: string, content: Content): KeyText {
    if Text.TrimSpace(key) == "" then Derived(content) else Given(Text.TrimSpace(key))
  }

  function WriteKey(r: Request): Key {
    Key(r.project, Writing, TextOf(r.key, WriteContentOf(r)))
  }

  function QueueContentOf(q: QueueRequest): Content {
    QueueContent(q.version, q.title, q.rest)
  }

  function QueueKey(q: QueueRequest): Key {
    Key(q.project, Queueing, TextOf(q.key, QueueContentOf(q)))
  }

  // ---------- the write transaction ----------

  // The run, its version and the worker are found, in the request's project.
  predicate Resolves(db: Db, r: Request) {
    && 0 <= r.run < |db.runs|
    && db.runs[r.run].project == r.project
    && db.runs[r.run].version in db.versions
    && db.versions[db.runs[r.run].version].project == r.project
    && Text.TrimSpace(r.worker) != ""
    && (r.project, Text.TrimSpace(r.worker)) in db.workers
  }

  predicate Leased(leases: seq<Lease>, task: nat) {
    exists l | 0 <= l < |leases| :: leases[l].task == task && leases[l].status == Active
  }

  predicate Claimable(db: Db, project: nat, run: nat, t: nat)
    requires run < |db.runs|
  {
    && t < |db.tasks|
    && db.tasks[t].project == project && db.tasks[t].run == run && db.tasks[t].approvedWrite
    && !db.runs[run].dryRun && db.runs[run].execution && db.runs[run].status == RunQueued
    && (db.tasks[t].status == TaskQueued || db.tasks[t].status == TaskNeedsRecovery)
    && !Leased(db.leases, t)
  }

  predicate Before(tasks: seq<Task>, t: nat, u: nat)
    requires t < |tasks| && u < |tasks|
  {
    tasks[t].sequence < tasks[u].sequence || (tasks[t].sequence == tasks[u].sequence && t < u)
  }

  // The first claimable task; rows another transaction has locked are skipped.
  predicate IsNext(db: Db, project: nat, run: nat, locked: set<nat>, t: nat)
    requires run < |db.runs|
  {
    && Claimable(db, project, run, t) && t !in locked
    && forall u | 0 <= u < |db.tasks| && u != t && u !in locked && Claimable(db, project, run, u) ::
          Before(db.tasks, t, u)
  }

  predicate AnyClaimable(db: Db, project: nat, run: nat, locked: set<nat>)
    requires run < |db.runs|
  {
    exists t | 0 <= t < |db.tasks| :: t !in locked && Claimable(db, project, run, t)
  }

  // An unfinished task of the run.
  predicate Open(task: Task, run: nat) {
    && task.run == run && task.approvedWrite
    && (task.status == TaskQueued || task.status == TaskPending || task.status == TaskNeedsRecovery ||
          task.status == TaskLeased)
  }

  function OpenTasks(tasks: seq<Task>, run: nat): set<nat> {
    set t | 0 <= t < |tasks| && Open(tasks[t], run)
  }

  function WrittenTasks(tasks: seq<Task>, run: nat): set<nat> {
    set t | 0 <= t < |tasks| && tasks[t].run == run && tasks[t].status == TaskWritten
  }

  // Why a request that resolves and is new is turned down, if it is.
  function Refusal(db: Db, r: Request, gate: bool, locked: set<nat>): Option<Why>
    requires Resolves(db, r)
  {
    if !gate then Some(GateBlocked)
    else if !Capable(db.workers[(r.project, Text.TrimSpace(r.worker))].capabilities, Capabilities(r)) then
      Some(WorkerLacksCapability)
    else if !Permitted(db.permissions, r.project, "write_artifacts") then Some(ProjectForbids)
    else if !AnyClaimable(db, r.project, r.run, locked) then Some(NoTask)
    else None
  }

  // A denial: one event, one audit event, one completed command, nothing else.
  function Denied(db: Db, r: Request, why: Why): Db
    requires r.run >= 0
  {
    db.(events := db.events + [Event(WriteKey(r), r.run, true)],
        audits := db.audits + [Audit(WriteKey(r), "", true)],
        commands := db.commands[WriteKey(r) :=
                      Command(WriteContentOf(r), Some(DeniedResponse(r.run, why, |db.events|, |db.audits|)))])
  }

  function TitleOf(task: Task): string {
    if task.title == "" then "approved-artifact" else task.title
  }

  // The run finishes with its last open task, and records the counts over the tasks as they are by then.
  function RunAfter(run: Run, id: nat, tasks: seq<Task>, artifact: nat, attempt: nat): Run {
    var remaining := |OpenTasks(tasks, id)|;
    run.(status := if remaining > 0 then RunRunning else RunWritten, finished := remaining == 0 || run.finished,
         lastArtifact := Some(artifact), lastAttempt := Some(attempt),
         writtenTasks := |WrittenTasks(tasks, id)|, remainingTasks := remaining)
  }

  // A write of task t: it is marked written, its lease is completed, and the rows name each other.
  function Written(db: Db, r: Request, t: nat): Db
    requires 0 <= r.run < |db.runs| && t < |db.tasks|
  {
    var lease, artifact, attempt := |db.leases|, |db.artifacts|, |db.attempts|;
    var tasks := db.tasks[t := db.tasks[t].(status := TaskWritten)];
    var title := TitleOf(db.tasks[t]);
    db.(leases := db.leases + [Lease(t, Text.TrimSpace(r.worker), Completed)],
        artifacts := db.artifacts + [Artifact(r.run, t, lease, title)],
        attempts := db.attempts + [Attempt(r.run, t, lease, artifact)],
        tasks := tasks,
        runs := db.runs[r.run := RunAfter(db.runs[r.run], r.run, tasks, artifact, attempt)],
        events := db.events + [Event(WriteKey(r), r.run, false)],
        audits := db.audits + [Audit(WriteKey(r), title, false)],
        commands := db.commands[WriteKey(r) :=
                      Command(WriteContentOf(r),
                              Some(WrittenResponse(r.run, t, lease, attempt, artifact, |db.events|, |db.audits|)))])
  }

  datatype Failure = NotFound | IdempotencyConflict | CommandIncomplete | VersionNotAuthored

  // `created` is false for a replay, and both a denial and a write answer with a response.
  datatype Outcome = Failed(failure: Failure) | Answered(response: Response, created: bool)

  // What a request finds under its key.
  function Lookup(commands: map<Key, Command>, key: Key, content: Content): Option<Outcome> {
    if key !in commands then None
    else if commands[key].content != content then Some(Failed(IdempotencyConflict))
    else if commands[key].response == None then Some(Failed(CommandIncomplete))
    else Some(Answered(commands[key].response.value, false))
  }

  function Reply(db: Db, key: Key): Outcome {
    if key in db.commands && db.commands[key].response.Some? then Answered(db.commands[key].response.value, true)
    else Failed(CommandIncomplete)
  }

  // `gate` is whatever was read before the transaction began.
  predicate WriteTx(db: Db, r: Request, gate: bool, locked: set<nat>, db': Db, out: Outcome) {
    if !Resolves(db, r) then db' == db && out == Failed(NotFound)
    else
      var found := Lookup(db.commands, WriteKey(r), WriteContentOf(r));
      if found.Some? then db' == db && out == found.value
      else
        && out == Reply(db', WriteKey(r))
        && var refusal := Refusal(db, r, gate, locked);
           if refusal.Some? then db' == Denied(db, r, refusal.value)
           else exists t | 0 <= t < |db.tasks| :: IsNext(db, r.project, r.run, locked, t) && db' == Written(db, r, t)
  }

  // ---------- the other transactions on these rows ----------

  function Queued(db: Db, q: QueueRequest): Db {
    var run, task := |db.runs|, |db.tasks|;
    db.(runs := db.runs + [Run(q.project, q.version, true, false, RunQueued, false, None, None, 0, 0)],
        tasks := db.tasks + [Task(q.project, run, true, TaskQueued, 1, q.title)],
        events := db.events + [Event(QueueKey(q), run, false)],
        audits := db.audits + [Audit(QueueKey(q), q.title, false)],
        commands := db.commands[QueueKey(q) :=
                      Command(QueueContentOf(q), Some(QueuedResponse(run, task, |db.events|, |db.audits|)))])
  }

  predicate QueueTx(db: Db, q: QueueRequest, db': Db, out: Outcome) {
    if q.version !in db.versions || db.versions[q.version].project != q.project then
      db' == db && out == Failed(NotFound)
    else if !db.versions[q.version].authored then db' == db && out == Failed(VersionNotAuthored)
    else
      var found := Lookup(db.commands, QueueKey(q), QueueContentOf(q));
      if found.Some? then db' == db && out == found.value
      else db' == Queued(db, q) && out == Reply(db', QueueKey(q))
  }

  // A worker may lease any task, in whatever status, that no active lease holds.
  predicate AcquireTx(db: Db, t: nat, worker: string, db': Db) {
    && t < |db.tasks| && !Leased(db.leases, t)
    && db' == db.(leases := db.leases + [Lease(t, worker, Active)],
                  tasks := db.tasks[t := db.tasks[t].(status := TaskLeased)])
  }

  function TaskAfter(status: LeaseStatus): TaskStatus {
    if status == Completed then TaskPassed else TaskQueued
  }

  // The status is the caller's; only an active lease is released.
  predicate ReleaseTx(db: Db, l: nat, status: LeaseStatus, db': Db) {
    && l < |db.leases| && db.leases[l].status == Active && db.leases[l].task < |db.tasks|
    && var t := db.leases[l].task;
       db' == db.(leases := db.leases[l := db.leases[l].(status := status)],
                  tasks := db.tasks[t := db.tasks[t].(status := TaskAfter(status))])
  }

  // Expired leases are recovered; recovery before an acquisition leaves the tasks as they are.
  predicate RecoverTx(db: Db, expired: set<nat>, requeue: bool, db': Db) {
    && (forall l | l in expired :: l < |db.leases| && db.leases[l].status == Active)
    && db'.leases == seq(|db.leases|, l requires 0 <= l < |db.leases| =>
         if l in expired then db.leases[l].(status := NeedsRecovery) else db.leases[l])
    && db'.tasks == seq(|db.tasks|, t requires 0 <= t < |db.tasks| =>
         if requeue && (exists l | l in expired && l < |db.leases| :: db.leases[l].task == t)
         then db.tasks[t].(status := TaskNeedsRecovery) else db.tasks[t])
    && db' == db.(leases := db'.leases, tasks := db'.tasks)
  }

  // ---------- the store ----------

  class Store {
    var runs: seq<Run>
    var tasks: seq<Task>
    var leases: seq<Lease>
    var attempts: seq<Attempt>
    var artifacts: seq<Artifact>
    var commands: map<Key, Command>
    var events: seq<Event>
    var audits: seq<Audit>
    var workers: map<(nat, string), Worker>
    var permissions: seq<Permission>
    var versions: map<nat, Version>

    function Contents(): Db
      reads this
    {
      Db(runs, tasks, leases, attempts, artifacts, commands, events, audits, workers, permissions, versions)
    }

    method HasActiveLease(t: nat) returns (held: bool)
      ensures held <==> Leased(leases, t)
    {
      for l := 0 to |leases|
        invariant forall k | 0 <= k < l :: !(leases[k].task == t && leases[k].status == Active)
      {
        if leases[l].task == t && leases[l].status == Active {
          return true;
        }
      }
      return false;
    }

    // nextApprovedArtifactWriteTaskForLease.
    method NextTask(project: nat, run: nat, locked: set<nat>) returns (found: bool, t: nat)
      requires run < |runs|
      ensures found <==> AnyClaimable(Contents(), project, run, locked)
      ensures found ==> IsNext(Contents(), project, run, locked, t)
    {
      found, t := false, 0;
      for u := 0 to |tasks|
        invariant !found ==> forall v | 0 <= v < u && v !in locked :: !Claimable(Contents(), project, run, v)
        invariant found ==> t < u && t !in locked && Claimable(Contents(), project, run, t)
        invariant found ==>
                    forall v | 0 <= v < u && v != t && v !in locked && Claimable(Contents(), project, run, v) ::
                        Before(tasks, t, v)
      {
        var held := HasActiveLease(u);
        if u !in locked && tasks[u].project == project && tasks[u].run == run && tasks[u].approvedWrite
           && !runs[run].dryRun && runs[run].execution && runs[run].status == RunQueued
           && (tasks[u].status == TaskQueued || tasks[u].status == TaskNeedsRecovery) && !held
        {
          if !found || tasks[u].sequence < tasks[t].sequence {
            found, t := true, u;
          }
        }
      }
    }

    method CountRemaining(run: nat) returns (n: nat)
      ensures n == |OpenTasks(tasks, run)|
    {
      n := 0;
      ghost var seen: set<nat> := {};
      for t := 0 to |tasks|
        invariant seen == set u | 0 <= u < t && Open(tasks[u], run)
        invariant n == |seen|
      {
        if Open(tasks[t], run) {
          n, seen := n + 1, seen + {t};
        }
      }
      assert seen == OpenTasks(tasks, run);
    }

    method CountWritten(run: nat) returns (n: nat)
      ensures n == |WrittenTasks(tasks, run)|
    {
      n := 0;
      ghost var seen: set<nat> := {};
      for t := 0 to |tasks|
        invariant seen == set u | 0 <= u < t && tasks[u].run == run && tasks[u].status == TaskWritten
        invariant n == |seen|
      {
        if tasks[t].run == run && tasks[t].status == TaskWritten {
          n, seen := n + 1, seen + {t};
        }
      }
      assert seen == WrittenTasks(tasks, run);
    }

    // reserveCommandRequest and, for a key already there, the stored response.
    method Reserve(key: Key, content: Content) returns (found: Option<Outcome>)
      modifies this`commands
      ensures found == Lookup(old(commands), key, content)
      ensures commands == if found.Some? then old(commands) else old(commands)[key := Command(content, None)]
    {
      if key !in commands {
        commands := commands[key := Command(content, None)];
        return None;
      }
      if commands[key].content != content {
        return Some(Failed(IdempotencyConflict));
      }
      match commands[key].response
      case None => return Some(Failed(CommandIncomplete));
      case Some(response) => return Some(Answered(response, false));
    }

    method Complete(key: Key, response: Response)
      requires key in commands
      modifies this`commands
      ensures commands == old(commands)[key := old(commands)[key].(response := Some(response))]
    {
      commands := commands[key := commands[key].(response := Some(response))];
    }

    method FinishDenied(r: Request, why: Why)
      requires r.run >= 0 && WriteKey(r) in commands && commands[WriteKey(r)].content == WriteContentOf(r)
      modifies this`events, this`audits, this`commands
      ensures Contents() == Denied(old(Contents()), r, why)
    {
      var event, audit := |events|, |audits|;
      events := events + [Event(WriteKey(r), r.run, true)];
      audits := audits + [Audit(WriteKey(r), "", true)];
      Complete(WriteKey(r), DeniedResponse(r.run, why, event, audit));
    }

    method SetTask(t: nat, status: TaskStatus)
      requires t < |tasks|
      modifies this`tasks
      ensures tasks == old(tasks)[t := old(tasks)[t].(status := status)]
    {
      tasks := tasks[t := tasks[t].(status := status)];
    }

    // updateApprovedArtifactWriteRunAfterTask.
    method UpdateRun(run: nat, artifact: nat, attempt: nat)
      requires run < |runs|
      modifies this`runs
      ensures runs == old(runs)[run := RunAfter(old(runs)[run], run, tasks, artifact, attempt)]
    {
      var written := CountWritten(run);
      var remaining := CountRemaining(run);
      var row := runs[run].(status := RunRunning, lastArtifact := Some(artifact), lastAttempt := Some(attempt),
                            writtenTasks := written, remainingTasks := remaining);
      if remaining == 0 {
        row := row.(status := RunWritten, finished := true);
      }
      runs := runs[run := row];
    }

    // Lease, report, attempt, release, task and run, in this order.
    method Claim(r: Request, t: nat) returns (lease: nat, attempt: nat, artifact: nat)
      requires 0 <= r.run < |runs| && t < |tasks|
      modifies this`runs, this`tasks, this`leases, this`attempts, this`artifacts
      ensures lease == |old(leases)| && attempt == |old(attempts)| && artifact == |old(artifacts)|
      ensures leases == old(leases) + [Lease(t, Text.TrimSpace(r.worker), Completed)]
      ensures artifacts == old(artifacts) + [Artifact(r.run, t, lease, TitleOf(old(tasks)[t]))]
      ensures attempts == old(attempts) + [Attempt(r.run, t, lease, artifact)]
      ensures tasks == old(tasks)[t := old(tasks)[t].(status := TaskWritten)]
      ensures runs == old(runs)[r.run := RunAfter(old(runs)[r.run], r.run, tasks, artifact, attempt)]
    {
      var title := TitleOf(tasks[t]);
      lease := |leases|;
      leases := leases + [Lease(t, Text.TrimSpace(r.worker), Active)];
      SetTask(t, TaskLeased);
      artifact := |artifacts|;
      artifacts := artifacts + [Artifact(r.run, t, lease, title)];
      attempt := |attempts|;
      attempts := attempts + [Attempt(r.run, t, lease, artifact)];
      leases := leases[lease := leases[lease].(status := Completed)];
      SetTask(t, TaskWritten);
      UpdateRun(r.run, artifact, attempt);
    }

    // The write proper, once nothing stands against it.
    method FinishWritten(r: Request, t: nat)
      requires 0 <= r.run < |runs| && t < |tasks|
      requires WriteKey(r) in commands && commands[WriteKey(r)].content == WriteContentOf(r)
      modifies this
      ensures Contents() == Written(old(Contents()), r, t)
    {
      var title := TitleOf(tasks[t]);
      var lease, attempt, artifact := Claim(r, t);
      var event, audit := |events|, |audits|;
      events := events + [Event(WriteKey(r), r.run, false)];
      audits := audits + [Audit(WriteKey(r), title, false)];
      Complete(WriteKey(r), WrittenResponse(r.run, t, lease, attempt, artifact, event, audit));
    }

    // The checks made inside the transaction, and which task is next if they pass.
    method Decide(r: Request, gate: bool, locked: set<nat>) returns (refusal: Option<Why>, t: nat)
      requires Resolves(Contents(), r)
      ensures refusal == Refusal(Contents(), r, gate, locked)
      ensures refusal == None ==> IsNext(Contents(), r.project, r.run, locked, t)
    {
      t := 0;
      if !gate {
        return Some(GateBlocked), t;
      }
      var missing := MissingCapabilities(workers[(r.project, Text.TrimSpace(r.worker))].capabilities, Capabilities(r));
      if missing != [] {
        return Some(WorkerLacksCapability), t;
      }
      var allowed, _ := CanProject(permissions, r.project, "write_artifacts");
      if !allowed {
        return Some(ProjectForbids), t;
      }
      var found;
      found, t := NextTask(r.project, r.run, locked);
      refusal := if found then None else Some(NoTask);
    }

    method Write(r: Request, gate: bool, locked: set<nat>) returns (out: Outcome)
      modifies this
      ensures WriteTx(old(Contents()), r, gate, locked, Contents(), out)
    {
      if !Resolves(Contents(), r) {
        return Failed(NotFound);
      }
      ghost var before := Contents();
      var found := Reserve(WriteKey(r), WriteContentOf(r));
      if found.Some? {
        return found.value;
      }
      ghost var reserved := Contents();
      var refusal, t := Decide(r, gate, locked);
      ReservingDecides(before, reserved, r, gate, locked, t);
      if refusal.Some? {
        FinishDenied(r, refusal.value);
      } else {
        FinishWritten(r, t);
      }
      out := Reply(Contents(), WriteKey(r));
    }

    method Queue(q: QueueRequest) returns (out: Outcome)
      modifies this
      ensures QueueTx(old(Contents()), q, Contents(), out)
    {
      if q.version !in versions || versions[q.version].project != q.project {
        return Failed(NotFound);
      }
      if !versions[q.version].authored {
        return Failed(VersionNotAuthored);
      }
      var found := Reserve(QueueKey(q), QueueContentOf(q));
      if found.Some? {
        return found.value;
      }
      var run, task, event, audit := |runs|, |tasks|, |events|, |audits|;
      runs := runs + [Run(q.project, q.version, true, false, RunQueued, false, None, None, 0, 0)];
      tasks := tasks + [Task(q.project, run, true, TaskQueued, 1, q.title)];
      events := events + [Event(QueueKey(q), run, false)];
      audits := audits + [Audit(QueueKey(q), q.title, false)];
      Complete(QueueKey(q), QueuedResponse(run, task, event, audit));
      out := Reply(Contents(), QueueKey(q));
    }
  }

  // Reserving the command changes neither the decision nor what it leads to.
  lemma ReservingDecides(before: Db, reserved: Db, r: Request, gate: bool, locked: set<nat>, t: nat)
    requires Resolves(before, r)
    requires reserved == before.(commands := before.commands[WriteKey(r) := Command(WriteContentOf(r), None)])
    ensures Resolves(reserved, r) && Refusal(reserved, r, gate, locked) == Refusal(before, r, gate, locked)
    ensures IsNext(reserved, r.project, r.run, locked, t) == IsNext(before, r.project, r.run, locked, t)
    ensures forall why :: Denied(reserved, r, why) == Denied(before, r, why)
    ensures t < |before.tasks| ==> Written(reserved, r, t) == Written(before, r, t)
  {
    forall u ensures Claimable(reserved, r.project, r.run, u) == Claimable(before, r.project, r.run, u) {
    }
  }
}
