/**
 The schema migration runner: its tables as values, and each database transaction
 or single statement as a function from one table state to the next.
 */
module MigrateModel {
  import opened Wrappers
  import opened Text

  /** A SHA-256 digest is identified with what was hashed, so equal digests mean equal
      content. `OfSet` is the digest over a whole list of named digests. */
  datatype Digest = OfText(text: string) | OfSet(items: seq<(string, Digest)>)

  datatype Migration = Migration(name: string, sql: string) {
    function Hash(): Digest {
      OfText(sql)
    }
  }

  // ---------- the embedded migrations ----------

  /** The migrations compiled into the binary, and the names of the three the runner
      treats specially. */
  datatype Catalog = Catalog(list: seq<Migration>, ledger: string, releaseException: string, checksum: string)

  predicate Sorted(es: Catalog) {
    && (forall i, j | 0 <= i < j < |es.list| :: Less(es.list[i].name, es.list[j].name))
    && Less(es.ledger, es.releaseException)
    && Less(es.releaseException, es.checksum)
  }

  predicate Named(es: Catalog, name: string) {
    exists i | 0 <= i < |es.list| :: es.list[i].name == name
  }

  predicate Embeds(es: Catalog, name: string, hash: Digest) {
    exists i | 0 <= i < |es.list| :: es.list[i].name == name && es.list[i].Hash() == hash
  }

  // The first five characters are 00001 and the sixth is `digit`.
  predicate Numbered(name: string, digit: char) {
    |name| >= 6 && name[0] == name[1] == name[2] == name[3] == '0' && name[4] == '1' && name[5] == digit
  }

  lemma NumberedLess(a: string, b: string, i: char, j: char)
    requires Numbered(a, i) && Numbered(b, j) && i < j
    ensures Less(a, b)
  {
    assert a[..5] == b[..5];
    LessAt(a, b, 5);
  }

  // The runner's own three constants begin 000011, 000012 and 000013: the order the laws need.
  lemma ShippedNamesOrdered(es: Catalog)
    requires Numbered(es.ledger, '1') && Numbered(es.releaseException, '2') && Numbered(es.checksum, '3')
    ensures Less(es.ledger, es.releaseException) && Less(es.releaseException, es.checksum)
  {
    NumberedLess(es.ledger, es.releaseException, '1', '2');
    NumberedLess(es.releaseException, es.checksum, '2', '3');
  }

  lemma SpecialNamesDistinct(es: Catalog)
    requires Sorted(es)
    ensures Less(es.ledger, es.checksum)
    ensures es.ledger != es.releaseException && es.releaseException != es.checksum && es.ledger != es.checksum
    ensures !Less(es.checksum, es.releaseException)
  {
    if Less(es.checksum, es.releaseException) {
      LessTransitive(es.checksum, es.releaseException, es.checksum);
      LessIrreflexive(es.checksum);
    }
    LessTransitive(es.ledger, es.releaseException, es.checksum);
    LessIrreflexive(es.ledger);
    LessIrreflexive(es.releaseException);
  }

  lemma NamesDistinct(es: Catalog, i: nat, j: nat)
    requires Sorted(es) && i < |es.list| && j < |es.list| && es.list[i].name == es.list[j].name
    ensures i == j
  {
    LessIrreflexive(es.list[i].name);
  }

  // ---------- tables ----------

  datatype Phase = Preflight | Apply | Verify | Remediation

  datatype LedgerStatus = Ready | Pass | Blocked

  // What an approval says: nothing, a decision, the bare ledger status, or some other text.
  datatype Status = Unset | Approved | Revoked | Reported(status: LedgerStatus) | Other(text: string)

  datatype Field =
    | Actor | Reason | RiskLevel | ApprovalStatus | Embedded | MigrationHash | RowRecorded
    | RunnerRecorded | RollbackOpened | Bootstrapped | ChecksumAttested | MigrationSetDigest

  datatype Json = JText(text: string) | JStatus(status: Status) | JBool(flag: bool) | JDigest(digest: Digest)

  datatype LedgerRow = LedgerRow(status: LedgerStatus, hash: Option<Digest>, evidence: map<Field, Json>)

  type Ledger = map<(string, Phase), LedgerRow>

  /** `rows` is schema_migrations (a name and its recorded hash, if any), `columns` says
      whether the checksum columns exist, `ledgerTable` whether migration_ledger does. */
  datatype Database = Database(rows: map<string, Option<Digest>>, columns: bool, ledgerTable: bool, ledger: Ledger)

  // A hash needs a column to live in, a ledger row a table.
  predicate Valid(db: Database) {
    && (!db.columns ==> forall n | n in db.rows :: db.rows[n].None?)
    && (!db.ledgerTable ==> db.ledger == map[])
  }

  const EMPTY := Database(map[], false, false, map[])

  // ---------- approval ----------

  datatype Approval = Unreadable | Approval(status: Status, hash: Option<Digest>, actor: string, reason: string)

  function TextOf(evidence: map<Field, Json>, field: Field): string {
    if field in evidence && evidence[field].JText? then evidence[field].text else ""
  }

  function StatusOf(row: LedgerRow): Status {
    if ApprovalStatus in row.evidence && row.evidence[ApprovalStatus].JStatus? &&
        !row.evidence[ApprovalStatus].status.Unset?
    then row.evidence[ApprovalStatus].status
    else Reported(row.status)
  }

  // What `Approval` reads. A row without a hash cannot be scanned.
  function ReadApproval(db: Database, name: string): Approval {
    if !db.ledgerTable || (name, Remediation) !in db.ledger then Approval(Unset, None, "", "")
    else
      var row := db.ledger[(name, Remediation)];
      if row.hash.None? then Unreadable
      else Approval(StatusOf(row), row.hash, TextOf(row.evidence, Actor), TextOf(row.evidence, Reason))
  }

  predicate Effective(db: Database, m: Migration) {
    var a := ReadApproval(db, m.name);
    a.Approval? && a.status == Approved && a.hash == Some(m.Hash())
  }

  // A ledger row that says approved, for this very SQL text.
  predicate RowApproves(row: LedgerRow, sql: string) {
    && row.hash == Some(OfText(sql))
    && ApprovalStatus in row.evidence && row.evidence[ApprovalStatus] == JStatus(Approved)
  }

  /** What makes an approval effective is in the migration's remediation row: a recorded
      approval, under the hash of the SQL that is embedded now. */
  lemma EffectiveExactly(db: Database, m: Migration)
    ensures Effective(db, m) <==>
              && db.ledgerTable && (m.name, Remediation) in db.ledger
              && RowApproves(db.ledger[(m.name, Remediation)], m.sql)
  {
  }

  // ---------- transactions ----------

  function PhaseEvidence(m: Migration, phase: Phase): map<Field, Json> {
    map[Embedded := JBool(true), MigrationHash := JDigest(m.Hash()), RowRecorded := JBool(phase != Preflight),
        RunnerRecorded := JBool(true), RollbackOpened := JBool(false)]
  }

  // Insert the phase row, or overwrite its status and hash and merge its evidence.
  function RecordPhase(ledger: Ledger, m: Migration, phase: Phase): Ledger {
    var kept := if (m.name, phase) in ledger then ledger[(m.name, phase)].evidence else map[];
    ledger[(m.name, phase) := LedgerRow(Ready, Some(m.Hash()), kept + PhaseEvidence(m, phase))]
  }

  function RecordAllPhases(ledger: Ledger, m: Migration): Ledger {
    RecordPhase(RecordPhase(RecordPhase(RecordPhase(ledger, m, Preflight), m, Apply), m, Verify), m, Remediation)
  }

  const BOOTSTRAP_ROW := LedgerRow(Ready, None, map[Bootstrapped := JBool(true), RowRecorded := JBool(true)])

  const PHASES: set<Phase> := {Preflight, Apply, Verify, Remediation}

  // The ledger migration's own SQL: one row per phase for every migration recorded so far.
  function Bootstrap(names: set<string>, ledger: Ledger): Ledger {
    (map n, p | n in names && p in PHASES :: (n, p) := BOOTSTRAP_ROW) + ledger
  }

  function LedgerAfter(es: Catalog, db: Database, m: Migration): Ledger {
    var before := if db.ledgerTable then RecordPhase(db.ledger, m, Preflight) else db.ledger;
    var ran := if m.name == es.ledger then Bootstrap(db.rows.Keys + {es.ledger}, before) else before;
    if db.ledgerTable || m.name == es.ledger then RecordAllPhases(ran, m) else ran
  }

  // One `apply` transaction, for a migration that is not recorded yet.
  function ApplyTx(es: Catalog, db: Database, m: Migration): Database {
    var columns := db.columns || m.name == es.checksum;
    Database(
      db.rows[m.name := if columns then Some(m.Hash()) else None],
      columns,
      db.ledgerTable || m.name == es.ledger,
      LedgerAfter(es, db, m))
  }

  // UPDATE schema_migrations SET sha256 = hash WHERE the name matches AND sha256 IS NULL
  function FillTx(db: Database, name: string, hash: Digest): Database {
    if db.columns && name in db.rows && db.rows[name].None?
    then db.(rows := db.rows[name := Some(hash)])
    else db
  }

  // A recorded hash that is absent, still missing, or the embedded one.
  predicate Agrees(es: Catalog, db: Database, j: nat)
    requires j < |es.list|
  {
    var n := es.list[j].name;
    n in db.rows && db.rows[n].Some? ==> db.rows[n] == Some(es.list[j].Hash())
  }

  /** An attestation: every recorded migration is embedded and agrees, and afterwards has the
      embedded hash; the rows that hold approvals stay as they are. */
  ghost predicate AttestTx(es: Catalog, db: Database, db': Database) {
    && db.columns
    && (forall n | n in db.rows :: Named(es, n))
    && (forall j | 0 <= j < |es.list| :: Agrees(es, db, j))
    && db'.rows.Keys == db.rows.Keys && db'.columns && db'.ledgerTable == db.ledgerTable
    && (forall j | 0 <= j < |es.list| && es.list[j].name in db.rows ::
          db'.rows[es.list[j].name] == Some(es.list[j].Hash()))
    && (forall n | (n, Remediation) in db.ledger || (n, Remediation) in db'.ledger ::
          (n, Remediation) in db.ledger && (n, Remediation) in db'.ledger
          && db'.ledger[(n, Remediation)] == db.ledger[(n, Remediation)])
    && Valid(db')
  }

  function Decision(m: Migration, status: LedgerStatus, actor: string, reason: string, decision: Status): LedgerRow {
    LedgerRow(status, Some(m.Hash()),
              map[Actor := JText(actor), Reason := JText(reason), RiskLevel := JText("R4 migration_security"),
                  ApprovalStatus := JStatus(decision)])
  }

  function ApproveTx(db: Database, m: Migration, actor: string, reason: string): Option<Database> {
    var a, r := TrimSpace(actor), TrimSpace(reason);
    if a == "" || r == "" || !db.ledgerTable then None
    else Some(db.(ledger := db.ledger[(m.name, Remediation) := Decision(m, Pass, a, r, Approved)]))
  }

  function RevokeTx(db: Database, m: Migration, actor: string, reason: string): Option<Database> {
    var a, r := TrimSpace(actor), TrimSpace(reason);
    if a == "" || r == "" || !db.ledgerTable || (m.name, Remediation) !in db.ledger then None
    else Some(db.(ledger := db.ledger[(m.name, Remediation) := Decision(m, Blocked, a, r, Revoked)]))
  }

  // Every row but one is as it was, and none has come or gone.
  ghost predicate OnlyRowChanges(ledger: Ledger, ledger': Ledger, key: (string, Phase)) {
    forall k | k != key && (k in ledger || k in ledger') :: k in ledger && k in ledger' && ledger'[k] == ledger[k]
  }

  /** A decision is read back as it was made, with the trimmed actor and reason, under the hash
      of the embedded SQL, and touches nothing but the migration's remediation row. */
  lemma DecisionIsReadBack(db: Database, m: Migration, actor: string, reason: string)
    ensures var a, r, key := TrimSpace(actor), TrimSpace(reason), (m.name, Remediation);
            var approved, revoked := ApproveTx(db, m, actor, reason), RevokeTx(db, m, actor, reason);
            && (approved.Some? <==> a != "" && r != "" && db.ledgerTable)
            && (revoked.Some? <==> a != "" && r != "" && db.ledgerTable && key in db.ledger)
            && (approved.Some? ==>
                  && ReadApproval(approved.value, m.name) == Approval(Approved, Some(OfText(m.sql)), a, r)
                  && approved.value.ledger[key].status == Pass
                  && approved.value == db.(ledger := approved.value.ledger)
                  && OnlyRowChanges(db.ledger, approved.value.ledger, key))
            && (revoked.Some? ==>
                  && ReadApproval(revoked.value, m.name) == Approval(Revoked, Some(OfText(m.sql)), a, r)
                  && revoked.value.ledger[key].status == Blocked
                  && revoked.value == db.(ledger := revoked.value.ledger)
                  && OnlyRowChanges(db.ledger, revoked.value.ledger, key))
  {
  }

  // ---------- the laws ----------

  // Every recorded migration has a hash and every embedded one has the embedded hash.
  ghost predicate Verified(es: Catalog, db: Database) {
    && db.columns
    && (forall n | n in db.rows :: db.rows[n].Some?)
    && (forall i | 0 <= i < |es.list| :: es.list[i].name in db.rows ==>
          db.rows[es.list[i].name] == Some(es.list[i].Hash()))
  }

  predicate PastChecksum(es: Catalog, db: Database) {
    exists n | n in db.rows :: Less(es.checksum, n)
  }

  // Nothing past the checksum migration is recorded over unverified history.
  ghost predicate Gated(es: Catalog, db: Database) {
    PastChecksum(es, db) ==> Verified(es, db)
  }

  // Leaving the release exception aside, exactly the first k embedded migrations are recorded.
  predicate PrefixAt(es: Catalog, db: Database, k: nat) {
    forall i | 0 <= i < |es.list| && es.list[i].name != es.releaseException :: es.list[i].name in db.rows <==> i < k
  }

  ghost predicate Prefix(es: Catalog, db: Database) {
    exists k: nat :: PrefixAt(es, db, k)
  }

  predicate PredecessorsApplied(es: Catalog, db: Database, i: nat)
    requires i <= |es.list|
  {
    forall j | 0 <= j < i && es.list[j].name != es.releaseException :: es.list[j].name in db.rows
  }

  lemma ApplyKeepsVerified(es: Catalog, db: Database, i: nat)
    requires Sorted(es) && i < |es.list| && Verified(es, db)
    ensures Verified(es, ApplyTx(es, db, es.list[i]))
  {
    forall j | 0 <= j < |es.list| && es.list[j].name == es.list[i].name ensures j == i {
      NamesDistinct(es, i, j);
    }
  }

  /** Applying one more migration respects the gate exactly when it does not sort after
      the checksum migration, or the history was verified already. */
  lemma ApplyGatedExactly(es: Catalog, db: Database, i: nat)
    requires Sorted(es) && i < |es.list| && es.list[i].name !in db.rows && Gated(es, db)
    ensures Gated(es, ApplyTx(es, db, es.list[i]))
            <==> (!Less(es.checksum, es.list[i].name) || Verified(es, db))
  {
    var m, db' := es.list[i], ApplyTx(es, db, es.list[i]);
    if Verified(es, db) {
      ApplyKeepsVerified(es, db, i);
    } else if Less(es.checksum, m.name) {
      LessIrreflexive(es.checksum);
      assert m.name in db'.rows;
      if Verified(es, db') {
        assert forall n | n in db.rows :: db.rows[n] == db'.rows[n];
        assert false;
      }
    }
  }

  /** Applying one more migration keeps the recorded ones a prefix exactly when it is the
      release exception, or everything it follows is recorded. */
  lemma ApplyPrefixExactly(es: Catalog, db: Database, i: nat)
    requires Sorted(es) && i < |es.list| && es.list[i].name !in db.rows && Prefix(es, db)
    ensures Prefix(es, ApplyTx(es, db, es.list[i]))
            <==> (es.list[i].name == es.releaseException || PredecessorsApplied(es, db, i))
  {
    var db' := ApplyTx(es, db, es.list[i]);
    var k: nat :| PrefixAt(es, db, k);
    forall j | 0 <= j < |es.list| && es.list[j].name == es.list[i].name ensures j == i {
      NamesDistinct(es, i, j);
    }
    if es.list[i].name == es.releaseException {
      assert PrefixAt(es, db', k);
    } else if PredecessorsApplied(es, db, i) {
      assert PrefixAt(es, db', i + 1);
    } else {
      var j :| 0 <= j < i && es.list[j].name != es.releaseException && es.list[j].name !in db.rows;
      forall k': nat ensures !PrefixAt(es, db', k') {
        assert es.list[j].name !in db'.rows && es.list[i].name in db'.rows;
      }
    }
  }

  // ---------- approvals over transactions ----------

  // Recording phases leaves all rows of other migrations alone and no decision is lost.
  lemma LedgerKept(es: Catalog, db: Database, x: Migration, name: string)
    requires (name, Remediation) in db.ledger && db.ledgerTable
    ensures var key := (name, Remediation);
            var before, after := db.ledger, LedgerAfter(es, db, x);
            && key in after
            && (name != x.name ==> after[key] == before[key])
            && (name == x.name ==>
                  && after[key].hash == Some(x.Hash())
                  && after[key].evidence == before[key].evidence + PhaseEvidence(x, Remediation))
  {
  }

  /** Applying any migration leaves an approval's status, actor and reason in place, so an
      effective approval stays effective: the ledger row's own status is overwritten, but the
      merged evidence keeps the decision. */
  lemma ApplyKeepsApproval(es: Catalog, db: Database, x: Migration, m: Migration)
    requires x.name == m.name ==> x == m
    requires Effective(db, m)
    ensures Effective(ApplyTx(es, db, x), m)
    ensures var a, b := ReadApproval(db, m.name), ReadApproval(ApplyTx(es, db, x), m.name);
            a.status == b.status && a.actor == b.actor && a.reason == b.reason
  {
    LedgerKept(es, db, x, m.name);
  }

  // Applying something else does not approve a migration that is not recorded yet.
  lemma ApplyApprovesNothing(es: Catalog, db: Database, x: Migration, name: string)
    requires Valid(db) && name != x.name && name !in db.rows && name != es.ledger
    ensures ReadApproval(ApplyTx(es, db, x), name) == ReadApproval(db, name)
  {
    var key := (name, Remediation);
    assert key in LedgerAfter(es, db, x) <==> key in db.ledger;
  }
}
