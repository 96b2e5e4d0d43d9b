/**
 Any number of migration commands running against one database at the same time.
 Each read and each transaction is a step of its own, so the reads of one command can
 be stale by the time it commits; a command may die at any point.
 */
module MigrateConcurrent {
  import opened Wrappers
  import opened Text
  import opened MigrateModel

  /** Where a command stands. `i` is the migration at hand, `j` the next one a checksum
      scan looks at, `todo` the rows whose hash is still to be filled in. */
  datatype Point =
    | UpStart
    | UpScan(j: nat)
    | UpCheck(i: nat)
    | GateColumns(i: nat)
    | GateScan(i: nat, j: nat)
    | GateCount(i: nat)
    | UpApproval(i: nat)
    | UpCommit(i: nat)
    | UpFill(i: nat, todo: set<string>)
    | OneCheck(i: nat)
    | OneApproval(i: nat)
    | OneCommit(i: nat)
    | AttestColumns
    | AttestCommit
    | Stopped

  // A running command, with the hashes of what it has applied itself.
  datatype Command = Command(at: Point, done: map<string, Digest>)

  /** The database, the commands, the last decision taken on each migration name, and the
      names committed so far. */
  datatype State = State(db: Database, commands: map<nat, Command>, approved: map<string, bool>, commits: seq<string>)

  // ---------- steps ----------

  // A read: the database stays as it is.
  predicate Reads(es: Catalog, db: Database, c: Command, c': Command) {
    && c'.done == c.done
    && match c.at
       case UpStart => c'.at == if db.columns then UpScan(0) else UpCheck(0)
       case UpScan(j) =>
         if j < |es.list| then Agrees(es, db, j) && c'.at == UpScan(j + 1) else c'.at == UpCheck(0)
       case UpCheck(i) =>
         if i >= |es.list| then c'.at == Stopped
         else if es.list[i].name in db.rows then c'.at == UpCheck(i + 1)
         else if Less(es.checksum, es.list[i].name) then c'.at == GateColumns(i)
         else if es.list[i].name == es.releaseException then c'.at == UpApproval(i)
         else c'.at == UpCommit(i)
       case GateColumns(i) => db.columns && c'.at == GateScan(i, 0)
       case GateScan(i, j) =>
         if j < |es.list| then Agrees(es, db, j) && c'.at == GateScan(i, j + 1) else c'.at == GateCount(i)
       case GateCount(i) =>
         (forall n | n in db.rows :: db.rows[n].Some?) && c'.at == UpCommit(i)
       case UpApproval(i) =>
         i < |es.list| && c'.at == if Effective(db, es.list[i]) then UpCommit(i) else UpCheck(i + 1)
       case UpFill(i, todo) => todo == {} && c'.at == UpCheck(i + 1)
       case OneCheck(i) => i < |es.list| && es.list[i].name !in db.rows && c'.at == OneApproval(i)
       case OneApproval(i) => i < |es.list| && Effective(db, es.list[i]) && c'.at == OneCommit(i)
       case AttestColumns => db.columns && c'.at == AttestCommit
       case _ => false
  }

  // A commit of the i-th migration, refused if the name is recorded by now.
  predicate Commits(es: Catalog, db: Database, c: Command, db': Database, c': Command) {
    && (c.at.UpCommit? || c.at.OneCommit?)
    && c.at.i < |es.list|
    && var m := es.list[c.at.i];
    && m.name !in db.rows
    && db' == ApplyTx(es, db, m)
    && c'.done == c.done[m.name := m.Hash()]
    && c'.at == (if c.at.OneCommit? then Stopped
                 else if m.name == es.checksum then UpFill(c.at.i, c'.done.Keys)
                 else UpCheck(c.at.i + 1))
  }

  // One UPDATE of `recordAppliedRunHashes`.
  ghost predicate Fills(db: Database, c: Command, db': Database, c': Command) {
    && c.at.UpFill? && c'.done == c.done
    && exists n | n in c.at.todo && n in c.done ::
         db' == FillTx(db, n, c.done[n]) && c'.at == UpFill(c.at.i, c.at.todo - {n})
  }

  /** One step of the whole system. `only` is the set of names `ApplyApproved` is used with. */
  ghost predicate Next(es: Catalog, only: set<string>, s: State, s': State) {
    || Starts(es, only, s, s')
    || (exists id, c' | id in s.commands :: CommandStep(es, s, id, c', s'))
    || Decides(es, s, s')
  }

  ghost predicate Starts(es: Catalog, only: set<string>, s: State, s': State) {
    exists id, at :: StartsAs(es, only, s, s', id, at)
  }

  predicate StartsAs(es: Catalog, only: set<string>, s: State, s': State, id: nat, at: Point) {
    && id !in s.commands
    && (at == UpStart || at == AttestColumns || (at.OneCheck? && at.i < |es.list| && es.list[at.i].name in only))
    && s' == s.(commands := s.commands[id := Command(at, map[])])
  }

  ghost predicate CommandStep(es: Catalog, s: State, id: nat, c': Command, s': State)
    requires id in s.commands
  {
    var c := s.commands[id];
    && s'.commands == s.commands[id := c'] && s'.approved == s.approved
    && (|| (s'.db == s.db && s'.commits == s.commits && (Reads(es, s.db, c, c') || c' == Command(Stopped, c.done)))
        || (Commits(es, s.db, c, s'.db, c') && s'.commits == s.commits + [es.list[c.at.i].name])
        || (Fills(s.db, c, s'.db, c') && s'.commits == s.commits)
        || (c.at.AttestCommit? && AttestTx(es, s.db, s'.db) && c' == Command(Stopped, c.done) &&
              s'.commits == s.commits))
  }

  ghost predicate Decides(es: Catalog, s: State, s': State) {
    exists i, flag | 0 <= i < |es.list| :: DecidesOn(es, s, s', i, flag)
  }

  // `Approve` or `Revoke` of the i-th migration.
  ghost predicate DecidesOn(es: Catalog, s: State, s': State, i: nat, flag: bool)
    requires i < |es.list|
  {
    var m := es.list[i];
    && s' == s.(db := s'.db, approved := s.approved[m.name := flag])
    && exists actor, reason ::
         Some(s'.db) == if flag then ApproveTx(s.db, m, actor, reason) else RevokeTx(s.db, m, actor, reason)
  }

  // ---------- what every transaction guarantees to the others ----------

  /** Rows are never removed; a hash changes only from missing to the embedded one; once the
      columns exist, new rows have the embedded hash. */
  ghost predicate Grows(es: Catalog, db: Database, db': Database) {
    && (db.columns ==> db'.columns)
    && db.rows.Keys <= db'.rows.Keys
    && (forall n | n in db.rows :: db'.rows[n] == db.rows[n] || (db.rows[n].None? && db'.rows[n].Some?))
    && (forall j | 0 <= j < |es.list| :: Agrees(es, db, j) ==> Agrees(es, db', j))
    && (db.columns ==> forall n | n in db'.rows && n !in db.rows :: db'.rows[n].Some?)
  }

  lemma ApplyGrows(es: Catalog, db: Database, i: nat)
    requires Sorted(es) && i < |es.list| && es.list[i].name !in db.rows
    ensures Grows(es, db, ApplyTx(es, db, es.list[i]))
  {
    forall j | 0 <= j < |es.list| && es.list[j].name == es.list[i].name ensures j == i {
      NamesDistinct(es, i, j);
    }
  }

  lemma FillGrows(es: Catalog, db: Database, n: string, hash: Digest)
    requires Sorted(es) && Embeds(es, n, hash)
    ensures Grows(es, db, FillTx(db, n, hash))
  {
    forall i, j | 0 <= i < |es.list| && 0 <= j < |es.list| && es.list[i].name == es.list[j].name ensures i == j {
      NamesDistinct(es, i, j);
    }
  }

  lemma AttestGrows(es: Catalog, db: Database, db': Database)
    requires AttestTx(es, db, db')
    ensures Grows(es, db, db')
  {
    forall n | n in db.rows ensures db'.rows[n] == db.rows[n] || (db.rows[n].None? && db'.rows[n].Some?) {
      var j :| 0 <= j < |es.list| && es.list[j].name == n;
      assert Agrees(es, db, j);
    }
  }

  // ---------- the invariant ----------

  // What a command has found out and may rely on, however old its reads are.
  ghost predicate Knows(es: Catalog, only: set<string>, db: Database, c: Command) {
    && (forall n | n in c.done :: Embeds(es, n, c.done[n]))
    && match c.at
       case UpCheck(i) => i <= |es.list| && PredecessorsApplied(es, db, i)
       case GateColumns(i) => i < |es.list| && PredecessorsApplied(es, db, i)
       case GateScan(i, j) =>
         i < |es.list| && PredecessorsApplied(es, db, i) && db.columns && j <= |es.list| && forall k | 0 <= k < j ::
             Agrees(es, db, k)
       case GateCount(i) =>
         i < |es.list| && PredecessorsApplied(es, db, i) && db.columns && forall k | 0 <= k < |es.list| ::
             Agrees(es, db, k)
       case UpApproval(i) =>
         i < |es.list| && PredecessorsApplied(es, db, i) && es.list[i].name == es.releaseException
       case UpCommit(i) =>
         i < |es.list| && PredecessorsApplied(es, db, i) && (Less(es.checksum, es.list[i].name) ==> Verified(es, db))
       case UpFill(i, todo) => i < |es.list| && PredecessorsApplied(es, db, i + 1)
       case OneCheck(i) => i < |es.list| && es.list[i].name in only
       case OneApproval(i) => i < |es.list| && es.list[i].name in only
       case OneCommit(i) => i < |es.list| && es.list[i].name in only
       case _ => true
  }

  // The last decision on a migration is what its ledger row says, under the current hash.
  predicate Decided(db: Database, m: Migration, approved: bool) {
    var key := (m.name, Remediation);
    && db.ledgerTable && key in db.ledger
    && db.ledger[key].hash == Some(m.Hash())
    && StatusOf(db.ledger[key]) == if approved then Approved else Revoked
  }

  predicate NoRepeats(s: seq<string>) {
    forall i, j | 0 <= i < j < |s| :: s[i] != s[j]
  }

  ghost predicate Inv(es: Catalog, only: set<string>, s: State) {
    && Valid(s.db)
    && ((forall n | n in only :: !Less(es.checksum, n)) ==> Gated(es, s.db))
    && (only <= {es.releaseException} ==> Prefix(es, s.db))
    && (forall id | id in s.commands :: Knows(es, only, s.db, s.commands[id]))
    && NoRepeats(s.commits)
    && (forall n | n in s.commits :: n in s.db.rows)
    && DecisionsHold(es, s.db, s.approved)
  }

  predicate DecisionsHold(es: Catalog, db: Database, approved: map<string, bool>) {
    forall i | 0 <= i < |es.list| && es.list[i].name in approved :: Decided(db, es.list[i], approved[es.list[i].name])
  }

  // ---------- every step keeps the invariant ----------

  lemma VerifiedGrows(es: Catalog, db: Database, db': Database)
    requires Verified(es, db) && Grows(es, db, db')
    ensures Verified(es, db')
  {
    forall j | 0 <= j < |es.list|
      ensures es.list[j].name in db'.rows ==> db'.rows[es.list[j].name] == Some(es.list[j].Hash())
    {
      assert Agrees(es, db, j) && Agrees(es, db', j);
    }
  }

  lemma GatedGrows(es: Catalog, db: Database, db': Database)
    requires Gated(es, db) && Grows(es, db, db') && db'.rows.Keys == db.rows.Keys
    ensures Gated(es, db')
  {
    if PastChecksum(es, db') {
      assert PastChecksum(es, db);
      VerifiedGrows(es, db, db');
    }
  }

  lemma PrefixKept(es: Catalog, db: Database, db': Database)
    requires Prefix(es, db) && db'.rows.Keys == db.rows.Keys
    ensures Prefix(es, db')
  {
    var k: nat :| PrefixAt(es, db, k);
    assert PrefixAt(es, db', k);
  }

  lemma KnowsGrows(es: Catalog, only: set<string>, db: Database, db': Database, c: Command)
    requires Knows(es, only, db, c) && Grows(es, db, db')
    ensures Knows(es, only, db', c)
  {
    if c.at.UpCommit? && Less(es.checksum, es.list[c.at.i].name) {
      VerifiedGrows(es, db, db');
    }
  }

  lemma OthersKnow(es: Catalog, only: set<string>, s: State, db': Database)
    requires Inv(es, only, s) && Grows(es, s.db, db')
    ensures forall id | id in s.commands :: Knows(es, only, db', s.commands[id])
  {
    forall id | id in s.commands ensures Knows(es, only, db', s.commands[id]) {
      KnowsGrows(es, only, s.db, db', s.commands[id]);
    }
  }

  lemma ReadsKnow(es: Catalog, only: set<string>, db: Database, c: Command, c': Command)
    requires Sorted(es) && Knows(es, only, db, c) && Reads(es, db, c, c')
    ensures Knows(es, only, db, c')
  {
    SpecialNamesDistinct(es);
    if c.at.GateCount? {
      forall j | 0 <= j < |es.list| && es.list[j].name in db.rows
        ensures db.rows[es.list[j].name] == Some(es.list[j].Hash())
      {
        assert Agrees(es, db, j);
      }
    }
  }

  lemma DecisionsApplied(es: Catalog, db: Database, approved: map<string, bool>, i: nat)
    requires Sorted(es) && i < |es.list| && DecisionsHold(es, db, approved)
    ensures DecisionsHold(es, ApplyTx(es, db, es.list[i]), approved)
  {
    var db' := ApplyTx(es, db, es.list[i]);
    forall j | 0 <= j < |es.list| && es.list[j].name in approved
      ensures Decided(db', es.list[j], approved[es.list[j].name])
    {
      LedgerKept(es, db, es.list[i], es.list[j].name);
      if es.list[j].name == es.list[i].name {
        NamesDistinct(es, i, j);
      }
    }
  }

  lemma CommitKnows(es: Catalog, only: set<string>, db: Database, c: Command, db': Database, c': Command)
    requires Knows(es, only, db, c) && Commits(es, db, c, db', c')
    ensures Knows(es, only, db', c')
  {
    var m := es.list[c.at.i];
    assert Embeds(es, m.name, m.Hash());
  }

  lemma CommitKeeps(es: Catalog, only: set<string>, s: State, id: nat, c': Command, s': State)
    requires Sorted(es) && Inv(es, only, s) && id in s.commands && CommandStep(es, s, id, c', s')
    requires Commits(es, s.db, s.commands[id], s'.db, c') &&
              s'.commits == s.commits + [es.list[s.commands[id].at.i].name]
    ensures Inv(es, only, s')
  {
    var c := s.commands[id];
    var i := c.at.i;
    var m := es.list[i];
    ApplyGrows(es, s.db, i);
    OthersKnow(es, only, s, s'.db);
    DecisionsApplied(es, s.db, s.approved, i);
    CommitKnows(es, only, s.db, c, s'.db, c');
    CommitLaws(es, only, s, c);
    assert m.name !in s.commits;
  }

  lemma CommitLaws(es: Catalog, only: set<string>, s: State, c: Command)
    requires Sorted(es) && Inv(es, only, s) && Knows(es, only, s.db, c) && (c.at.UpCommit? || c.at.OneCommit?)
    requires es.list[c.at.i].name !in s.db.rows
    ensures (forall n | n in only :: !Less(es.checksum, n)) ==> Gated(es, ApplyTx(es, s.db, es.list[c.at.i]))
    ensures only <= {es.releaseException} ==> Prefix(es, ApplyTx(es, s.db, es.list[c.at.i]))
  {
    if forall n | n in only :: !Less(es.checksum, n) {
      ApplyGatedExactly(es, s.db, c.at.i);
    }
    if only <= {es.releaseException} {
      ApplyPrefixExactly(es, s.db, c.at.i);
    }
  }

  lemma UpdateKeeps(es: Catalog, only: set<string>, s: State, id: nat, c': Command, s': State)
    requires Sorted(es) && Inv(es, only, s) && id in s.commands
    requires s' == State(s'.db, s.commands[id := c'], s.approved, s.commits)
    requires s'.db.rows.Keys == s.db.rows.Keys && Valid(s'.db) && Grows(es, s.db, s'.db)
    requires DecisionsHold(es, s'.db, s.approved) && Knows(es, only, s'.db, c')
    ensures Inv(es, only, s')
  {
    OthersKnow(es, only, s, s'.db);
    if Gated(es, s.db) {
      GatedGrows(es, s.db, s'.db);
    }
    if Prefix(es, s.db) {
      PrefixKept(es, s.db, s'.db);
    }
  }

  lemma CommandKeeps(es: Catalog, only: set<string>, s: State, id: nat, c': Command, s': State)
    requires Sorted(es) && Inv(es, only, s) && id in s.commands && CommandStep(es, s, id, c', s')
    ensures Inv(es, only, s')
  {
    var c := s.commands[id];
    if Commits(es, s.db, c, s'.db, c') && s'.commits == s.commits + [es.list[c.at.i].name] {
      CommitKeeps(es, only, s, id, c', s');
    } else {
      if Fills(s.db, c, s'.db, c') {
        FillUpdates(es, only, s, c, s'.db, c');
      } else if c.at.AttestCommit? && AttestTx(es, s.db, s'.db) {
        AttestGrows(es, s.db, s'.db);
        AttestDecisions(es, s.db, s'.db, s.approved);
      } else if Reads(es, s.db, c, c') {
        ReadsKnow(es, only, s.db, c, c');
      }
      UpdateKeeps(es, only, s, id, c', s');
    }
  }

  lemma FillUpdates(es: Catalog, only: set<string>, s: State, c: Command, db': Database, c': Command)
    requires Sorted(es) && Inv(es, only, s) && Knows(es, only, s.db, c) && Fills(s.db, c, db', c')
    ensures db'.rows.Keys == s.db.rows.Keys && Valid(db') && Grows(es, s.db, db')
    ensures DecisionsHold(es, db', s.approved) && Knows(es, only, db', c')
  {
    var n :| n in c.at.todo && n in c.done && db' == FillTx(s.db, n, c.done[n]) &&
        c'.at == UpFill(c.at.i, c.at.todo - {n});
    FillGrows(es, s.db, n, c.done[n]);
    KnowsGrows(es, only, s.db, db', c);
    forall j | 0 <= j < |es.list| && es.list[j].name in s.approved
      ensures Decided(db', es.list[j], s.approved[es.list[j].name])
    {
      assert Decided(s.db, es.list[j], s.approved[es.list[j].name]);
    }
  }

  lemma AttestDecisions(es: Catalog, db: Database, db': Database, approved: map<string, bool>)
    requires AttestTx(es, db, db') && DecisionsHold(es, db, approved)
    ensures DecisionsHold(es, db', approved)
  {
    forall j | 0 <= j < |es.list| && es.list[j].name in approved
      ensures Decided(db', es.list[j], approved[es.list[j].name])
    {
      assert Decided(db, es.list[j], approved[es.list[j].name]);
      assert (es.list[j].name, Remediation) in db.ledger;
    }
  }

  lemma DecisionKeeps(es: Catalog, only: set<string>, s: State, s': State, i: nat, flag: bool)
    requires Sorted(es) && Inv(es, only, s) && i < |es.list|
    requires s' == s.(db := s'.db, approved := s.approved[es.list[i].name := flag])
    requires s'.db == s.db.(ledger := s'.db.ledger) && s.db.ledgerTable && Decided(s'.db, es.list[i], flag)
    requires forall n | n != es.list[i].name && (n, Remediation) in s.db.ledger ::
               (n, Remediation) in s'.db.ledger && s'.db.ledger[(n, Remediation)] == s.db.ledger[(n, Remediation)]
    ensures Inv(es, only, s')
  {
    OthersKnow(es, only, s, s'.db);
    if Gated(es, s.db) {
      GatedGrows(es, s.db, s'.db);
    }
    if Prefix(es, s.db) {
      PrefixKept(es, s.db, s'.db);
    }
    forall j | 0 <= j < |es.list| && es.list[j].name in s'.approved
      ensures Decided(s'.db, es.list[j], s'.approved[es.list[j].name])
    {
      if es.list[j].name == es.list[i].name {
        NamesDistinct(es, i, j);
      } else {
        assert Decided(s.db, es.list[j], s.approved[es.list[j].name]);
      }
    }
  }

  lemma NextKeeps(es: Catalog, only: set<string>, s: State, s': State)
    requires Sorted(es) && Inv(es, only, s) && Next(es, only, s, s')
    ensures Inv(es, only, s')
  {
    if Starts(es, only, s, s') {
    } else if exists id, c' | id in s.commands :: CommandStep(es, s, id, c', s') {
      var id, c' :| id in s.commands && CommandStep(es, s, id, c', s');
      CommandKeeps(es, only, s, id, c', s');
    } else {
      DecideKeeps(es, only, s, s');
    }
  }

  lemma DecideKeeps(es: Catalog, only: set<string>, s: State, s': State)
    requires Sorted(es) && Inv(es, only, s) && Decides(es, s, s')
    ensures Inv(es, only, s')
  {
    var i, flag :| 0 <= i < |es.list| && DecidesOn(es, s, s', i, flag);
    DecisionKeeps(es, only, s, s', i, flag);
  }

  // ---------- whole runs ----------

  // Any database whose history respects both laws, and nobody running yet.
  ghost predicate Init(es: Catalog, s: State) {
    Valid(s.db) && Gated(es, s.db) && Prefix(es, s.db) && s.commands == map[] && s.approved == map[] && s.commits == []
  }

  ghost predicate Behavior(es: Catalog, only: set<string>, ss: seq<State>) {
    && ss != []
    && Init(es, ss[0])
    && forall i | 0 <= i < |ss| - 1 :: Next(es, only, ss[i], ss[i + 1])
  }

  lemma {:induction false} AlwaysInv(es: Catalog, only: set<string>, ss: seq<State>, k: nat)
    requires Sorted(es) && Behavior(es, only, ss) && k < |ss|
    ensures Inv(es, only, ss[k])
  {
    if k > 0 {
      AlwaysInv(es, only, ss, k - 1);
      assert Next(es, only, ss[k - 1], ss[k]);
      NextKeeps(es, only, ss[k - 1], ss[k]);
    }
  }

  /** In every state of every interleaving, crashes included: if a migration past the checksum
      one is recorded, the columns exist, every recorded migration has a hash and every embedded
      one the embedded hash - provided `ApplyApproved` is used for no name past the checksum one. */
  lemma HistoryStaysVerified(es: Catalog, only: set<string>, ss: seq<State>, k: nat)
    requires Sorted(es) && Behavior(es, only, ss) && k < |ss|
    requires forall n | n in only :: !Less(es.checksum, n)
    ensures PastChecksum(es, ss[k].db) ==> Verified(es, ss[k].db)
  {
    AlwaysInv(es, only, ss, k);
  }

  /** With any number of commands at once, the recorded migrations other than the release
      exception are always a prefix of the list, and no migration is committed twice. */
  lemma HistoryStaysPrefix(es: Catalog, only: set<string>, ss: seq<State>, k: nat)
    requires Sorted(es) && Behavior(es, only, ss) && k < |ss|
    requires only <= {es.releaseException}
    ensures Prefix(es, ss[k].db) && NoRepeats(ss[k].commits)
  {
    AlwaysInv(es, only, ss, k);
  }

  // In every interleaving an approval is in force exactly when the last decision was to approve.
  lemma LastDecisionCounts(es: Catalog, only: set<string>, ss: seq<State>, k: nat, i: nat)
    requires Sorted(es) && Behavior(es, only, ss) && k < |ss| && i < |es.list| && es.list[i].name in ss[k].approved
    ensures Effective(ss[k].db, es.list[i]) <==> ss[k].approved[es.list[i].name]
  {
    AlwaysInv(es, only, ss, k);
    assert Decided(ss[k].db, es.list[i], ss[k].approved[es.list[i].name]);
  }

  // ---------- where the laws end ----------

  // A legacy database whose history stops at the ledger migration.
  ghost function LedgerOnly(es: Catalog, l: nat): State
    requires l < |es.list|
  {
    State(Database(map j | 0 <= j <= l :: es.list[j].name := None, false, true, map[]), map[], map[], [])
  }

  lemma LedgerOnlyInit(es: Catalog, l: nat)
    requires Sorted(es) && l < |es.list| && es.list[l].name == es.ledger
    ensures Init(es, LedgerOnly(es, l))
    ensures forall j | l < j < |es.list| :: es.list[j].name !in LedgerOnly(es, l).db.rows
    ensures es.releaseException !in LedgerOnly(es, l).db.rows
  {
    var s := LedgerOnly(es, l);
    SpecialNamesDistinct(es);
    forall j | 0 <= j <= l ensures !Less(es.checksum, es.list[j].name) && es.list[j].name != es.releaseException {
      LessIrreflexive(es.ledger);
      if Less(es.checksum, es.list[j].name) {
        LessTransitive(es.ledger, es.checksum, es.list[j].name);
        if j < l {
          LessTransitive(es.ledger, es.list[j].name, es.ledger);
        }
      }
      if j < l && es.list[j].name == es.releaseException {
        LessTransitive(es.ledger, es.releaseException, es.ledger);
      }
    }
    forall j | l < j < |es.list| ensures es.list[j].name !in s.db.rows {
      forall i | 0 <= i <= l ensures es.list[i].name != es.list[j].name {
        LessIrreflexive(es.list[j].name);
      }
    }
    assert PrefixAt(es, s.db, l + 1);
  }

  lemma Extend(es: Catalog, only: set<string>, ss: seq<State>, s': State)
    requires Behavior(es, only, ss) && Next(es, only, ss[|ss| - 1], s')
    ensures Behavior(es, only, ss + [s'])
  {
    var tt := ss + [s'];
    forall i | 0 <= i < |tt| - 1 ensures Next(es, only, tt[i], tt[i + 1]) {
      assert i < |ss| - 1 ==> tt[i] == ss[i] && tt[i + 1] == ss[i + 1];
    }
  }

  lemma Moved(es: Catalog, only: set<string>, ss: seq<State>, c': Command) returns (tt: seq<State>)
    requires Behavior(es, only, ss)
    requires var s := ss[|ss| - 1]; s.commands.Keys == {0} && Reads(es, s.db, s.commands[0], c')
    ensures Behavior(es, only, tt)
    ensures tt[|tt| - 1] == ss[|ss| - 1].(commands := map[0 := c'])
  {
    var s := ss[|ss| - 1];
    var s' := s.(commands := s.commands[0 := c']);
    assert CommandStep(es, s, 0, c', s');
    Extend(es, only, ss, s');
    tt := ss + [s'];
    assert s'.commands == map[0 := c'];
  }

  // The i-th migration has been approved.
  ghost function ApprovedState(es: Catalog, l: nat, i: nat): State
    requires l < |es.list| && i < |es.list|
  {
    var s, m := LedgerOnly(es, l), es.list[i];
    s.(db := s.db.(ledger := map[(m.name, Remediation) := Decision(m, Pass, "a", "b", Approved)]),
        approved := map[m.name := true])
  }

  lemma ApprovedRun(es: Catalog, l: nat, i: nat)
    requires Sorted(es) && l < i < |es.list| && es.list[l].name == es.ledger
    ensures Behavior(es, {es.list[i].name}, [LedgerOnly(es, l), ApprovedState(es, l, i)])
  {
    var s := LedgerOnly(es, l);
    LedgerOnlyInit(es, l);
    assert ApproveTx(s.db, es.list[i], "a", "b") == Some(ApprovedState(es, l, i).db);
    assert DecidesOn(es, s, ApprovedState(es, l, i), i, true);
  }

  // `ApplyApproved` of the i-th migration has read its approval and is about to commit.
  lemma Poised(es: Catalog, l: nat, i: nat) returns (ss: seq<State>)
    requires Sorted(es) && l < i < |es.list| && es.list[l].name == es.ledger
    ensures Behavior(es, {es.list[i].name}, ss)
    ensures ss[|ss| - 1] == ApprovedState(es, l, i).(commands := map[0 := Command(OneCommit(i), map[])])
  {
    var only, s1 := {es.list[i].name}, ApprovedState(es, l, i);
    LedgerOnlyInit(es, l);
    ApprovedRun(es, l, i);
    ss := [LedgerOnly(es, l), s1];
    ss := Started(es, only, ss, i);
    ss := Moved(es, only, ss, Command(OneApproval(i), map[]));
    ss := Moved(es, only, ss, Command(OneCommit(i), map[]));
  }

  lemma Started(es: Catalog, only: set<string>, ss: seq<State>, i: nat) returns (tt: seq<State>)
    requires Behavior(es, only, ss) && ss[|ss| - 1].commands == map[] && i < |es.list| && es.list[i].name in only
    ensures Behavior(es, only, tt)
    ensures tt[|tt| - 1] == ss[|ss| - 1].(commands := map[0 := Command(OneCheck(i), map[])])
  {
    var s := ss[|ss| - 1];
    var s' := s.(commands := map[0 := Command(OneCheck(i), map[])]);
    assert StartsAs(es, only, s, s', 0, OneCheck(i));
    Extend(es, only, ss, s');
    tt := ss + [s'];
  }

  lemma CommitStep(es: Catalog, only: set<string>, s: State, i: nat)
    requires i < |es.list| && es.list[i].name !in s.db.rows && 0 in s.commands &&
              s.commands[0] == Command(OneCommit(i), map[])
    ensures Next(es, only, s, Committed(es, s, i))
  {
    assert CommandStep(es, s, 0, Command(Stopped, map[es.list[i].name := es.list[i].Hash()]), Committed(es, s, i));
  }

  ghost function Committed(es: Catalog, s: State, i: nat): State
    requires i < |es.list|
  {
    var m := es.list[i];
    State(ApplyTx(es, s.db, m), s.commands[0 := Command(Stopped, map[m.name := m.Hash()])], s.approved,
        s.commits + [m.name])
  }

  /** `ApplyApproved` asks for an approval but not for verified history: for every migration
      past the checksum one there is a run of approve and apply-approved alone that breaks both
      laws. So the two provisos above cannot be dropped. */
  lemma ApplyApprovedBypassesGate(es: Catalog, l: nat, i: nat) returns (ss: seq<State>)
    requires Sorted(es) && Named(es, es.checksum) && l < |es.list| && es.list[l].name == es.ledger
    requires i < |es.list| && Less(es.checksum, es.list[i].name)
    ensures Behavior(es, {es.list[i].name}, ss)
    ensures !Gated(es, ss[|ss| - 1].db) && !Prefix(es, ss[|ss| - 1].db)
  {
    LedgerBefore(es, l, i);
    ss := Poised(es, l, i);
    var s := ss[|ss| - 1];
    LedgerOnlyInit(es, l);
    CommitStep(es, {es.list[i].name}, s, i);
    Extend(es, {es.list[i].name}, ss, Committed(es, s, i));
    BypassBreaksLaws(es, l, i, s.db);
    ss := ss + [Committed(es, s, i)];
  }

  lemma BypassBreaksLaws(es: Catalog, l: nat, i: nat, db: Database)
    requires Sorted(es) && Named(es, es.checksum) && l < i < |es.list| && es.list[l].name == es.ledger
    requires Less(es.checksum, es.list[i].name) && db.rows == LedgerOnly(es, l).db.rows && !db.columns
    ensures !Gated(es, ApplyTx(es, db, es.list[i])) && !Prefix(es, ApplyTx(es, db, es.list[i]))
  {
    LedgerOnlyInit(es, l);
    PrefixKept(es, LedgerOnly(es, l).db, db);
    assert PastChecksum(es, db) == PastChecksum(es, LedgerOnly(es, l).db);
    ApplyGatedExactly(es, db, i);
    var c :| 0 <= c < |es.list| && es.list[c].name == es.checksum;
    LedgerBefore(es, l, c);
    ChecksumFirst(es, c, i);
    ApplyPrefixExactly(es, db, i);
  }

  lemma ChecksumFirst(es: Catalog, c: nat, i: nat)
    requires Sorted(es) && c < |es.list| && i < |es.list|
    requires es.list[c].name == es.checksum && Less(es.checksum, es.list[i].name)
    ensures c < i && es.list[i].name != es.releaseException && es.checksum != es.releaseException
  {
    SpecialNamesDistinct(es);
    LessIrreflexive(es.checksum);
    if c > i {
      LessTransitive(es.checksum, es.list[i].name, es.checksum);
    }
  }

  lemma LedgerBefore(es: Catalog, l: nat, i: nat)
    requires Sorted(es) && l < |es.list| && es.list[l].name == es.ledger && i < |es.list|
    requires es.list[i].name == es.checksum || es.list[i].name == es.releaseException ||
              Less(es.checksum, es.list[i].name)
    ensures l < i
  {
    SpecialNamesDistinct(es);
    var n := es.list[i].name;
    if Less(es.checksum, n) {
      LessTransitive(es.ledger, es.checksum, n);
    }
    if i <= l {
      LessIrreflexive(es.ledger);
      if i < l {
        LessTransitive(es.ledger, n, es.ledger);
      }
      assert false;
    }
  }

  /** The approval is read before the commit, in a step of its own. A revocation in between is
      not noticed: the release exception is applied although the last decision was to revoke. */
  lemma RevocationCanComeTooLate(es: Catalog, l: nat, i: nat) returns (ss: seq<State>)
    requires Sorted(es) && l < |es.list| && es.list[l].name == es.ledger
    requires i < |es.list| && es.list[i].name == es.releaseException
    ensures Behavior(es, {es.releaseException}, ss)
    ensures var s := ss[|ss| - 1];
            && es.releaseException in s.db.rows && es.releaseException in s.approved
            && !s.approved[es.releaseException] && !Effective(s.db, es.list[i])
  {
    var only, m := {es.releaseException}, es.list[i];
    LedgerBefore(es, l, i);
    ss := Poised(es, l, i);
    LedgerOnlyInit(es, l);
    var s := ss[|ss| - 1];
    var db := RevokeTx(s.db, m, "a", "b").value;
    var s1 := s.(db := db, approved := s.approved[m.name := false]);
    assert DecidesOn(es, s, s1, i, false);
    Extend(es, only, ss, s1);
    ss := ss + [s1];
    CommitStep(es, only, s1, i);
    Extend(es, only, ss, Committed(es, s1, i));
    ss := ss + [Committed(es, s1, i)];
    LastDecisionCounts(es, only, ss, |ss| - 1, i);
  }
}
