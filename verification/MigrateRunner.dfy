/**
 The migration runner as an object over its tables: `Up`, `Approve`, `Revoke`,
 `ApplyApproved` and `AttestLegacyHashes`, each run without interference. `Up` is
 proved against a closed form of its outcome, read off the database it started from.
 */
module MigrateRunner {
  import opened Wrappers
  import opened Text
  import opened MigrateModel

  predicate WellFormed(es: Catalog) {
    Sorted(es) && Named(es, es.ledger) && Named(es, es.releaseException) && Named(es, es.checksum)
  }

  datatype Failure = ChecksumMismatch | LegacyUnverified | ApprovalUnreadable

  datatype UpResult = Applied(names: seq<string>) | Failed(at: nat, why: Failure)

  datatype Reply<T> = Ok(value: T) | Error

  // ---------- what one `Up` does, read off the initial database ----------

  // A recorded hash differs from the embedded one.
  ghost predicate Mismatched(es: Catalog, db: Database) {
    && db.columns
    && exists i | 0 <= i < |es.list| ::
         var n := es.list[i].name; n in db.rows && db.rows[n].Some? && db.rows[n] != Some(es.list[i].Hash())
  }

  // The i-th migration is missing and, if it is the release exception, approved.
  predicate Due(es: Catalog, db: Database, i: nat)
    requires i < |es.list|
  {
    var m := es.list[i];
    m.name !in db.rows && (m.name == es.releaseException ==> Effective(db, m))
  }

  // No history is left without a hash (and the columns exist, or this run adds them).
  predicate GateOpen(es: Catalog, db: Database) {
    (db.columns || es.checksum !in db.rows) && forall n | n in db.rows :: db.rows[n].Some?
  }

  predicate Stops(es: Catalog, db: Database, i: nat)
    requires i < |es.list|
  {
    var n := es.list[i].name;
    && n !in db.rows
    && (|| (Less(es.checksum, n) && !GateOpen(es, db))
        || (n == es.releaseException && ReadApproval(db, n).Unreadable?))
  }

  // The checksum columns exist once the first k migrations have been dealt with.
  predicate Hashing(es: Catalog, db: Database, k: nat)
    requires k <= |es.list|
  {
    db.columns || exists i | 0 <= i < k :: es.list[i].name == es.checksum && es.list[i].name !in db.rows
  }

  // The recorded migrations once the first k have been dealt with.
  predicate RowsReached(es: Catalog, db: Database, k: nat, rows: map<string, Option<Digest>>)
    requires k <= |es.list|
  {
    && (forall n | n in db.rows :: n in rows && rows[n] == db.rows[n])
    && (forall n | n in rows :: n in db.rows || DueAmong(es, db, k, n))
    && (forall i | 0 <= i < k && Due(es, db, i) ::
          && es.list[i].name in rows
          && rows[es.list[i].name] == if Hashing(es, db, k) then Some(es.list[i].Hash()) else None)
  }

  predicate DueAmong(es: Catalog, db: Database, k: nat, name: string)
    requires k <= |es.list|
  {
    exists i | 0 <= i < k :: es.list[i].name == name && Due(es, db, i)
  }

  // No effective approval is lost and no release exception is approved on the way.
  predicate ApprovalsReached(es: Catalog, db: Database, after: Database) {
    && (forall i | 0 <= i < |es.list| && Effective(db, es.list[i]) :: Effective(after, es.list[i]))
    && (es.releaseException !in after.rows ==>
          ReadApproval(after, es.releaseException) == ReadApproval(db, es.releaseException))
  }

  // The due migrations among the first k, applied one after the other.
  function Rolled(es: Catalog, db: Database, k: nat): Database
    requires k <= |es.list|
  {
    if k == 0 then db
    else
      var before := Rolled(es, db, k - 1);
      if Due(es, db, k - 1) then ApplyTx(es, before, es.list[k - 1]) else before
  }

  // The ledger is what these transactions leave behind.
  predicate LedgerReached(es: Catalog, db: Database, k: nat, after: Database)
    requires k <= |es.list|
  {
    var rolled := Rolled(es, db, k);
    after.rows.Keys == rolled.rows.Keys && after.ledgerTable == rolled.ledgerTable && after.ledger == rolled.ledger
  }

  // `after` is the database once the first k migrations have been dealt with.
  predicate Reached(es: Catalog, db: Database, k: nat, after: Database)
    requires k <= |es.list|
  {
    && Valid(after)
    && after.columns == Hashing(es, db, k)
    && RowsReached(es, db, k, after.rows)
    && ApprovalsReached(es, db, after)
    && LedgerReached(es, db, k, after)
  }

  function DueNames(es: Catalog, db: Database, k: nat): seq<string>
    requires k <= |es.list|
  {
    if k == 0 then []
    else DueNames(es, db, k - 1) + (if Due(es, db, k - 1) then [es.list[k - 1].name] else [])
  }

  function StopReason(es: Catalog, k: nat): Failure
    requires k < |es.list|
  {
    if Less(es.checksum, es.list[k].name) then LegacyUnverified else ApprovalUnreadable
  }

  // What one `Up` answers and leaves behind.
  ghost predicate UpDone(es: Catalog, db: Database, r: UpResult, after: Database) {
    if Mismatched(es, db) then r == Failed(0, ChecksumMismatch) && after == db
    else
      var k := if r.Applied? then |es.list| else r.at;
      && k <= |es.list|
      && Reached(es, db, k, after)
      && (forall j | 0 <= j < k :: !Stops(es, db, j))
      && (r.Failed? ==> k < |es.list| && Stops(es, db, k) && r.why == StopReason(es, k))
      && (r.Applied? ==> r.names == DueNames(es, db, |es.list|))
  }

  // ---------- lemmas about the closed form ----------

  lemma NotYet(es: Catalog, db: Database, k: nat, after: Database)
    requires Sorted(es) && k < |es.list| && Reached(es, db, k, after)
    ensures es.list[k].name in after.rows <==> es.list[k].name in db.rows
  {
    forall i | 0 <= i < k ensures es.list[i].name != es.list[k].name {
      LessIrreflexive(es.list[k].name);
    }
  }

  // Past the checksum migration the gate's three reads agree with `GateOpen`.
  lemma GateReads(es: Catalog, db: Database, k: nat, after: Database)
    requires WellFormed(es) && Valid(db) && k < |es.list| && Less(es.checksum, es.list[k].name)
    requires !Mismatched(es, db) && Reached(es, db, k, after)
    ensures (after.columns && forall n | n in after.rows :: after.rows[n].Some?) <==> GateOpen(es, db)
    ensures !Mismatched(es, after)
  {
    ChecksumBefore(es, k);
    assert Hashing(es, db, k) <==> db.columns || es.checksum !in db.rows;
    forall i, j | 0 <= i < |es.list| && 0 <= j < |es.list| && es.list[i].name == es.list[j].name ensures i == j {
      NamesDistinct(es, i, j);
    }
    forall i | 0 <= i < |es.list| && es.list[i].name in after.rows && after.rows[es.list[i].name].Some?
      ensures after.rows[es.list[i].name] == Some(es.list[i].Hash())
    {
    }
  }

  lemma ChecksumBefore(es: Catalog, k: nat)
    requires WellFormed(es) && k < |es.list| && Less(es.checksum, es.list[k].name)
    ensures exists i | 0 <= i < k :: es.list[i].name == es.checksum
  {
    var i :| 0 <= i < |es.list| && es.list[i].name == es.checksum;
    if i >= k {
      LessIrreflexive(es.checksum);
      if i > k {
        LessTransitive(es.checksum, es.list[k].name, es.checksum);
      }
      assert false;
    }
  }

  // Nothing is applied: already recorded, or a release exception without approval.
  lemma ReachedSkip(es: Catalog, db: Database, k: nat, after: Database)
    requires WellFormed(es) && k < |es.list| && !Due(es, db, k) && Reached(es, db, k, after)
    ensures Reached(es, db, k + 1, after)
  {
    SpecialNamesDistinct(es);
    RowsSkip(es, db, k, after.rows);
  }

  lemma RowsSkip(es: Catalog, db: Database, k: nat, rows: map<string, Option<Digest>>)
    requires k < |es.list| && !Due(es, db, k) && RowsReached(es, db, k, rows) && es.releaseException != es.checksum
    ensures Hashing(es, db, k + 1) == Hashing(es, db, k) && RowsReached(es, db, k + 1, rows)
  {
    forall n | n in rows && n !in db.rows ensures DueAmong(es, db, k + 1, n) {
      assert DueAmong(es, db, k, n);
    }
  }

  lemma RowsApply(es: Catalog, db: Database, k: nat, rows: map<string, Option<Digest>>)
    requires WellFormed(es) && k < |es.list| && Due(es, db, k) && RowsReached(es, db, k, rows)
    requires es.list[k].name != es.checksum
    ensures var m := es.list[k];
            RowsReached(es, db, k + 1, rows[m.name := if Hashing(es, db, k) then Some(m.Hash()) else None])
  {
    var m := es.list[k];
    assert Hashing(es, db, k + 1) == Hashing(es, db, k);
    forall i | 0 <= i < k ensures es.list[i].name != m.name {
      LessIrreflexive(m.name);
    }
    assert DueAmong(es, db, k + 1, m.name);
    forall n | n in rows && n !in db.rows ensures DueAmong(es, db, k + 1, n) {
      assert DueAmong(es, db, k, n);
    }
  }

  // A transaction looks at no more of the database than this.
  lemma LedgerApply(es: Catalog, db: Database, k: nat, mid: Database)
    requires k < |es.list| && Due(es, db, k) && LedgerReached(es, db, k, mid)
    ensures LedgerReached(es, db, k + 1, ApplyTx(es, mid, es.list[k]))
  {
    var rolled := Rolled(es, db, k);
    assert LedgerAfter(es, mid, es.list[k]) == LedgerAfter(es, rolled, es.list[k]);
  }

  lemma ReachedApply(es: Catalog, db: Database, k: nat, mid: Database)
    requires WellFormed(es) && k < |es.list| && Due(es, db, k) && Reached(es, db, k, mid)
    requires es.list[k].name != es.checksum
    ensures Reached(es, db, k + 1, ApplyTx(es, mid, es.list[k]))
  {
    RowsApply(es, db, k, mid.rows);
    assert Hashing(es, db, k + 1) == Hashing(es, db, k);
    ApprovalsApply(es, db, k, mid);
    LedgerApply(es, db, k, mid);
  }

  lemma ApprovalsApply(es: Catalog, db: Database, k: nat, mid: Database)
    requires Sorted(es) && Valid(mid) && k < |es.list| && ApprovalsReached(es, db, mid)
    ensures ApprovalsReached(es, db, ApplyTx(es, mid, es.list[k]))
  {
    ApprovalsKept(es, mid, k);
    if es.releaseException !in ApplyTx(es, mid, es.list[k]).rows {
      ReleaseExceptionKept(es, mid, k);
    }
  }

  lemma ApprovalsKept(es: Catalog, mid: Database, k: nat)
    requires Sorted(es) && k < |es.list|
    ensures forall i | 0 <= i < |es.list| && Effective(mid, es.list[i]) ::
              Effective(ApplyTx(es, mid, es.list[k]), es.list[i])
  {
    forall i | 0 <= i < |es.list| && Effective(mid, es.list[i])
      ensures Effective(ApplyTx(es, mid, es.list[k]), es.list[i])
    {
      if es.list[i].name == es.list[k].name {
        NamesDistinct(es, i, k);
      }
      ApplyKeepsApproval(es, mid, es.list[k], es.list[i]);
    }
  }

  lemma ReleaseExceptionKept(es: Catalog, mid: Database, k: nat)
    requires Sorted(es) && Valid(mid) && k < |es.list|
    requires es.releaseException !in ApplyTx(es, mid, es.list[k]).rows
    ensures ReadApproval(ApplyTx(es, mid, es.list[k]), es.releaseException) == ReadApproval(mid, es.releaseException)
  {
    SpecialNamesDistinct(es);
    ApplyApprovesNothing(es, mid, es.list[k], es.releaseException);
  }

  // The checksum migration, followed by filling in the hashes of this run.
  lemma ReachedChecksum(es: Catalog, db: Database, k: nat, mid: Database, filled: map<string, Option<Digest>>)
    requires WellFormed(es) && k < |es.list| && Due(es, db, k) && Reached(es, db, k, mid)
    requires es.list[k].name == es.checksum
    requires filled.Keys == mid.rows.Keys + {es.checksum}
    requires forall n | n in db.rows :: n in filled && filled[n] == db.rows[n]
    requires forall i | 0 <= i <= k && Due(es, db, i) ::
               es.list[i].name in filled && filled[es.list[i].name] == Some(es.list[i].Hash())
    ensures Reached(es, db, k + 1, ApplyTx(es, mid, es.list[k]).(rows := filled))
  {
    RowsChecksum(es, db, k, mid.rows, filled);
    ApprovalsApply(es, db, k, mid);
    ApprovalsIgnoreRows(es, db, ApplyTx(es, mid, es.list[k]), filled);
    LedgerApply(es, db, k, mid);
  }

  lemma RowsChecksum(es: Catalog, db: Database, k: nat, rows: map<string, Option<Digest>>, filled: map<string,
                     Option<Digest>>)
    requires k < |es.list| && Due(es, db, k) && RowsReached(es, db, k, rows) && es.list[k].name == es.checksum
    requires filled.Keys == rows.Keys + {es.checksum}
    requires forall n | n in db.rows :: n in filled && filled[n] == db.rows[n]
    requires forall i | 0 <= i <= k && Due(es, db, i) ::
               es.list[i].name in filled && filled[es.list[i].name] == Some(es.list[i].Hash())
    ensures Hashing(es, db, k + 1) && RowsReached(es, db, k + 1, filled)
  {
    assert DueAmong(es, db, k + 1, es.checksum);
    forall n | n in filled && n !in db.rows ensures DueAmong(es, db, k + 1, n) {
      assert n == es.checksum || DueAmong(es, db, k, n);
    }
  }

  lemma ApprovalsIgnoreRows(es: Catalog, db: Database, after: Database, rows: map<string, Option<Digest>>)
    requires ApprovalsReached(es, db, after) && rows.Keys == after.rows.Keys
    ensures ApprovalsReached(es, db, after.(rows := rows))
  {
    forall i | 0 <= i < |es.list| && Effective(db, es.list[i]) ensures Effective(after.(rows := rows), es.list[i]) {
      assert Effective(after, es.list[i]);
    }
  }

  // ---------- the runner ----------

  function SetDigest(es: Catalog): Digest {
    OfSet(seq(|es.list|, i requires 0 <= i < |es.list| => (es.list[i].name, es.list[i].Hash())))
  }

  // The rows that still lack a hash.
  function Legacy(db: Database): set<string> {
    set n | n in db.rows && db.rows[n].None?
  }

  // A recorded migration is embedded, and its recorded hash, if any, is the embedded one.
  predicate Fits(es: Catalog, name: string, recorded: Option<Digest>) {
    exists i | 0 <= i < |es.list| :: es.list[i].name == name && (recorded.Some? ==> recorded.value == es.list[i].Hash())
  }

  ghost predicate Attestable(es: Catalog, db: Database) {
    forall n | n in db.rows :: Fits(es, n, db.rows[n])
  }

  // The verify row of a migration whose hash an attestation fills in.
  function AttestedRow(es: Catalog, row: LedgerRow, hash: Digest): LedgerRow {
    var evidence := row.evidence[ChecksumAttested := JBool(true)][MigrationSetDigest := JDigest(SetDigest(es))];
    LedgerRow(row.status, Some(hash), evidence)
  }

  /** In the ledger an attestation marks the verify rows of the migrations that had no hash, with
      the hash of their SQL and the digest of the whole set, and touches nothing else. */
  ghost predicate LedgerAttested(es: Catalog, db: Database, after: Database) {
    && after.ledger.Keys == db.ledger.Keys
    && (forall n, p | (n, p) in db.ledger && !(p == Verify && n in Legacy(db)) ::
          after.ledger[(n, p)] == db.ledger[(n, p)])
    && (forall i | 0 <= i < |es.list| && es.list[i].name in Legacy(db) && (es.list[i].name, Verify) in db.ledger ::
          var row, row' := db.ledger[(es.list[i].name, Verify)], after.ledger[(es.list[i].name, Verify)];
          && row'.status == row.status && row'.hash == Some(OfText(es.list[i].sql))
          && row'.evidence == row.evidence + map[ChecksumAttested := JBool(true),
                                                 MigrationSetDigest := JDigest(SetDigest(es))])
  }

  // The missing hashes are filled in as `legacy` has them, and the verify rows with them.
  ghost predicate HashesWritten(es: Catalog, db: Database, after: Database, legacy: map<string, Digest>) {
    && after.columns == db.columns && after.ledgerTable == db.ledgerTable
    && after.rows.Keys == db.rows.Keys && after.ledger.Keys == db.ledger.Keys
    && (forall n | n in db.rows :: after.rows[n] == if n in legacy then Some(legacy[n]) else db.rows[n])
    && (forall n, p | (n, p) in db.ledger :: after.ledger[(n, p)] ==
          if p == Verify && n in legacy then AttestedRow(es, db.ledger[(n, p)], legacy[n]) else db.ledger[(n, p)])
  }

  // The digest of the set tells any two sets of migrations apart.
  lemma SetDigestExactly(es: Catalog, fs: Catalog)
    ensures SetDigest(es) == SetDigest(fs) <==> es.list == fs.list
  {
    if SetDigest(es) == SetDigest(fs) {
      assert |es.list| == |fs.list|;
      forall i | 0 <= i < |es.list| ensures es.list[i] == fs.list[i] {
        assert SetDigest(es).items[i] == SetDigest(fs).items[i];
      }
    }
  }

  datatype Progress = Skipped | Ran | Halted(why: Failure)

  class Runner {
    const es: Catalog
    var rows: map<string, Option<Digest>>
    var columns: bool
    var ledgerTable: bool
    var ledger: Ledger

    function View(): Database
      reads this
    {
      Database(rows, columns, ledgerTable, ledger)
    }

    predicate Ready()
      reads this
    {
      WellFormed(es) && Valid(View())
    }

    method Store(db: Database)
      modifies this
      ensures View() == db
    {
      rows, columns, ledgerTable, ledger := db.rows, db.columns, db.ledgerTable, db.ledger;
    }

    // rejectChecksumMismatch
    method HasMismatch() returns (found: bool)
      ensures found <==> Mismatched(es, View())
    {
      if !columns {
        return false;
      }
      for j := 0 to |es.list|
        invariant forall i | 0 <= i < j ::
                    var n := es.list[i].name; n in rows && rows[n].Some? ==> rows[n] == Some(es.list[i].Hash())
      {
        var m := es.list[j];
        if m.name in rows && rows[m.name].Some? && rows[m.name] != Some(m.Hash()) {
          return true;
        }
      }
      return false;
    }

    // requireVerifiedChecksums
    method GatePasses() returns (ok: bool)
      ensures ok <==> columns && !Mismatched(es, View()) && forall n | n in rows :: rows[n].Some?
    {
      if !columns {
        return false;
      }
      var bad := HasMismatch();
      return !bad && forall n | n in rows :: rows[n].Some?;
    }

    // recordAppliedRunHashes: the map is visited in any order.
    method RecordRunHashes(done: map<string, Digest>)
      requires columns && done.Keys <= rows.Keys
      modifies this
      ensures View() == old(View()).(rows := rows) && rows.Keys == old(rows).Keys
      ensures forall n | n in rows ::
                rows[n] == if n in done && old(rows)[n].None? then Some(done[n]) else old(rows)[n]
    {
      var todo := done.Keys;
      while todo != {}
        invariant todo <= done.Keys
        invariant View() == old(View()).(rows := rows) && rows.Keys == old(rows).Keys
        invariant forall n | n in rows ::
                    rows[n] == if n in done && n !in todo && old(rows)[n].None? then Some(done[n]) else old(rows)[n]
        decreases |todo|
      {
        var n :| n in todo;
        Store(FillTx(View(), n, done[n]));
        todo := todo - {n};
      }
    }

    method Up() returns (r: UpResult)
      requires Ready()
      modifies this
      ensures Ready() && UpDone(es, old(View()), r, View())
    {
      ghost var start := View();
      var bad := HasMismatch();
      if bad {
        return Failed(0, ChecksumMismatch);
      }
      r := ApplyAll(start);
    }

    method ApplyAll(ghost start: Database) returns (r: UpResult)
      requires Ready() && start == View() && !Mismatched(es, start)
      modifies this
      ensures Valid(View()) && UpDone(es, start, r, View())
    {
      var k, applied: seq<string>, done: map<string, Digest>, p := 0, [], map[], Skipped;
      UnderwayStart(es, start);
      while k < |es.list|
        invariant Underway(es, start, k, View(), applied, done)
      {
        p, applied, done := Round(k, start, applied, done);
        if p.Halted? {
          return Failed(k, p.why);
        }
        k := k + 1;
      }
      UnderwayEnd(es, start, View(), applied, done);
      return Applied(applied);
    }

    method Round(k: nat, ghost start: Database, applied: seq<string>, done: map<string, Digest>)
      returns (p: Progress, applied': seq<string>, done': map<string, Digest>)
      requires WellFormed(es) && k < |es.list| && Underway(es, start, k, View(), applied, done)
      modifies this
      ensures p.Halted? ==> Valid(View()) && UpDone(es, start, Failed(k, p.why), View())
      ensures !p.Halted? ==> Underway(es, start, k + 1, View(), applied', done')
    {
      applied', done' := applied, done;
      p := Decide(k, start, applied, done);
      if p.Ran? {
        Run(k, start, applied, done);
        applied', done' := applied + [es.list[k].name], done[es.list[k].name := es.list[k].Hash()];
      }
    }

    // What the loop does about one migration: nothing, stop, or run it.
    method Decide(k: nat, ghost start: Database, ghost applied: seq<string>, ghost done: map<string, Digest>)
      returns (p: Progress)
      requires WellFormed(es) && k < |es.list| && Underway(es, start, k, View(), applied, done)
      ensures p.Halted? ==> Valid(View()) && UpDone(es, start, Failed(k, p.why), View())
      ensures p.Skipped? ==> Underway(es, start, k + 1, View(), applied, done)
      ensures p.Ran? ==> Due(es, start, k) && !Stops(es, start, k)
    {
      var m := es.list[k];
      NotYet(es, start, k, View());
      if m.name in rows {
        UnderwaySkip(es, start, k, View(), applied, done);
        return Skipped;
      }
      SpecialNamesDistinct(es);
      if Less(es.checksum, m.name) {
        GateReads(es, start, k, View());
        var ok := GatePasses();
        if !ok {
          UnderwayHalt(es, start, k, View(), applied, done);
          return Halted(LegacyUnverified);
        }
      }
      if m.name == es.releaseException {
        var approval := ReadApproval(View(), m.name);
        if approval.Unreadable? {
          UnderwayHalt(es, start, k, View(), applied, done);
          return Halted(ApprovalUnreadable);
        }
        if !Effective(View(), m) {
          UnderwaySkip(es, start, k, View(), applied, done);
          return Skipped;
        }
      }
      return Ran;
    }

    // `apply`, and after the checksum migration `recordAppliedRunHashes`.
    method Run(k: nat, ghost start: Database, ghost applied: seq<string>, done: map<string, Digest>)
      requires WellFormed(es) && k < |es.list| && Due(es, start, k) && !Stops(es, start, k)
      requires Underway(es, start, k, View(), applied, done)
      modifies this
      ensures Underway(es, start, k + 1, View(), applied + [es.list[k].name],
                done[es.list[k].name := es.list[k].Hash()])
    {
      var m := es.list[k];
      ghost var mid := View();
      Store(ApplyTx(es, View(), m));
      if m.name == es.checksum {
        var all := done[m.name := m.Hash()];
        RecordRunHashes(all);
        RanChecksum(es, start, k, mid, done, View());
      } else {
        RanPlain(es, start, k, mid, done);
      }
    }

    method Approve(name: string, actor: string, reason: string) returns (r: Reply<Approval>)
      requires Ready()
      modifies this
      ensures Ready() && rows == old(rows) && columns == old(columns)
      ensures r.Ok? <==> Named(es, name) && TrimSpace(actor) != "" && TrimSpace(reason) != "" && ledgerTable
      ensures r.Error? ==> View() == old(View())
      ensures r.Ok? ==> exists i | 0 <= i < |es.list| && es.list[i].name == name ::
                old(ApproveTx(View(), es.list[i], actor, reason)) == Some(View())
                && Effective(View(), es.list[i]) && r.value == ReadApproval(View(), name)
    {
      var found, i := MigrationByName(name);
      if !found {
        return Error;
      }
      var after := ApproveTx(View(), es.list[i], actor, reason);
      if after.None? {
        return Error;
      }
      Store(after.value);
      return Ok(ReadApproval(View(), name));
    }

    method Revoke(name: string, actor: string, reason: string) returns (r: Reply<Approval>)
      requires Ready()
      modifies this
      ensures Ready() && rows == old(rows) && columns == old(columns)
      ensures r.Error? ==> View() == old(View())
      ensures r.Error? <==> forall i | 0 <= i < |es.list| && es.list[i].name == name ::
                old(RevokeTx(View(), es.list[i], actor, reason)).None?
      ensures r.Ok? ==> exists i | 0 <= i < |es.list| && es.list[i].name == name ::
                old(RevokeTx(View(), es.list[i], actor, reason)) == Some(View())
                && !Effective(View(), es.list[i]) && r.value == ReadApproval(View(), name)
    {
      var found, i := MigrationByName(name);
      if !found {
        return Error;
      }
      var after := RevokeTx(View(), es.list[i], actor, reason);
      if after.None? {
        return Error;
      }
      Store(after.value);
      return Ok(ReadApproval(View(), name));
    }

    method MigrationByName(name: string) returns (found: bool, i: nat)
      ensures found <==> Named(es, name)
      ensures found ==> i < |es.list| && es.list[i].name == name
    {
      for k := 0 to |es.list|
        invariant forall j | 0 <= j < k :: es.list[j].name != name
      {
        if es.list[k].name == name {
          return true, k;
        }
      }
      return false, 0;
    }

    // There is no checksum gate here: only the approval is asked for.
    method ApplyApproved(name: string) returns (r: Reply<bool>)
      requires Ready()
      modifies this
      ensures Ready()
      ensures r != Ok(true) ==> View() == old(View())
      ensures r == Ok(true) ==> name !in old(rows) && exists i | 0 <= i < |es.list| && es.list[i].name == name ::
                Effective(old(View()), es.list[i]) && View() == ApplyTx(es, old(View()), es.list[i])
      ensures r == Ok(false) <==> Named(es, name) && name in old(rows)
      ensures r == Ok(true) <==>
                name !in old(rows) && exists i | 0 <= i < |es.list| && es.list[i].name == name ::
                    Effective(old(View()), es.list[i])
      ensures r == Ok(true) ==> exists i | 0 <= i < |es.list| && es.list[i].name == name ::
                (name, Remediation) in old(ledger) && RowApproves(old(ledger)[(name, Remediation)], es.list[i].sql)
      ensures name !in old(rows) && (name, Remediation) in old(ledger)
              && (forall i | 0 <= i < |es.list| && es.list[i].name == name ::
                    old(ledger)[(name, Remediation)].hash != Some(OfText(es.list[i].sql))) ==>
                r == Error && View() == old(View())
    {
      var found, i := MigrationByName(name);
      if !found {
        return Error;
      }
      if name in rows {
        return Ok(false);
      }
      if !Effective(View(), es.list[i]) {
        forall j | 0 <= j < |es.list| && es.list[j].name == name ensures j == i {
          NamesDistinct(es, i, j);
        }
        return Error;
      }
      Store(ApplyTx(es, View(), es.list[i]));
      return Ok(true);
    }

    /** A successful attestation reports how many rows lacked a hash and leaves every row
        embedded and verified. It is refused, and changes nothing, exactly when one of its
        checks fails. */
    method AttestLegacyHashes(actor: string, reason: string, expected: Option<Digest>) returns (r: Reply<nat>)
      requires Ready()
      modifies this
      ensures Ready() && columns == old(columns)
      ensures r.Ok? <==>
                && TrimSpace(actor) != "" && TrimSpace(reason) != "" && expected == Some(SetDigest(es))
                && columns && Attestable(es, old(View())) && (Legacy(old(View())) != {} ==> ledgerTable)
      ensures r.Error? ==> View() == old(View())
      ensures r.Ok? ==> && r.value == |Legacy(old(View()))| && rows.Keys == old(rows).Keys
                        && Verified(es, View()) && Attestable(es, View())
                        && AttestTx(es, old(View()), View())
                        && (forall n | n in rows :: ReadApproval(View(), n) == old(ReadApproval(View(), n)))
                        && LedgerAttested(es, old(View()), View())
    {
      if TrimSpace(actor) == "" || TrimSpace(reason) == "" || expected != Some(SetDigest(es)) || !columns {
        return Error;
      }
      var ok, legacy := CollectLegacy();
      if !ok || (legacy != map[] && !ledgerTable) {
        return Error;
      }
      ghost var before := View();
      WriteHashes(legacy);
      AttestOutcome(es, before, View(), legacy);
      return Ok(|legacy|);
    }

    // The rows without a hash, each with its embedded hash; not ok on the first row that does not fit.
    method CollectLegacy() returns (ok: bool, legacy: map<string, Digest>)
      requires Ready()
      ensures ok <==> Attestable(es, View())
      ensures ok ==> legacy.Keys == Legacy(View()) && forall n | n in legacy :: Fits(es, n, Some(legacy[n]))
    {
      var pending := rows.Keys;
      legacy := map[];
      while pending != {}
        invariant pending <= rows.Keys
        invariant forall n | n in rows.Keys - pending :: Fits(es, n, rows[n])
        invariant legacy.Keys == Legacy(View()) - pending
        invariant forall n | n in legacy :: Fits(es, n, Some(legacy[n]))
        decreases |pending|
      {
        var n :| n in pending;
        var found, i := MigrationByName(n);
        if !found || (rows[n].Some? && rows[n] != Some(es.list[i].Hash())) {
          NotAttestable(es, View(), n, found, i);
          return false, map[];
        }
        if rows[n].None? {
          legacy := legacy[n := es.list[i].Hash()];
        }
        pending := pending - {n};
      }
      ok := true;
    }

    method WriteHashes(legacy: map<string, Digest>)
      requires Ready() && columns && (legacy != map[] ==> ledgerTable)
      requires forall n | n in legacy :: n in rows && rows[n].None?
      modifies this
      ensures Ready() && HashesWritten(es, old(View()), View(), legacy)
    {
      var todo := legacy.Keys;
      while todo != {}
        invariant todo <= legacy.Keys
        invariant Ready() && columns == old(columns) && ledgerTable == old(ledgerTable) && rows.Keys == old(rows).Keys
        invariant forall n | n in rows ::
                    rows[n] == if n in legacy && n !in todo then Some(legacy[n]) else old(rows)[n]
        invariant ledger.Keys == old(ledger).Keys
        invariant forall n, p | (n, p) in ledger :: ledger[(n, p)] ==
                    if p == Verify && n in legacy && n !in todo then AttestedRow(es, old(ledger)[(n, p)], legacy[n])
                    else old(ledger)[(n, p)]
        decreases |todo|
      {
        var n :| n in todo;
        rows := FillTx(View(), n, legacy[n]).rows;
        if (n, Verify) in ledger {
          ledger := ledger[(n, Verify) := AttestedRow(es, ledger[(n, Verify)], legacy[n])];
        }
        todo := todo - {n};
      }
    }
  }

  lemma FittingIsVerified(es: Catalog, db: Database)
    requires Sorted(es) && db.columns && forall n | n in db.rows :: db.rows[n].Some? && Fits(es, n, db.rows[n])
    ensures Verified(es, db) && Attestable(es, db)
  {
    forall i, j | 0 <= i < |es.list| && 0 <= j < |es.list| && es.list[i].name == es.list[j].name ensures i == j {
      NamesDistinct(es, i, j);
    }
  }

  lemma FittingAgrees(es: Catalog, db: Database)
    requires Sorted(es) && Attestable(es, db)
    ensures forall n | n in db.rows :: Named(es, n)
    ensures forall j | 0 <= j < |es.list| :: Agrees(es, db, j)
  {
    forall n | n in db.rows ensures Named(es, n) {
      assert Fits(es, n, db.rows[n]);
    }
    forall j | 0 <= j < |es.list| && es.list[j].name in db.rows ensures Agrees(es, db, j) {
      var n := es.list[j].name;
      assert Fits(es, n, db.rows[n]);
      var i :| 0 <= i < |es.list| && es.list[i].name == n
               && (db.rows[n].Some? ==> db.rows[n].value == es.list[i].Hash());
      NamesDistinct(es, i, j);
    }
  }

  lemma VerifyRowsAttested(es: Catalog, before: Database, after: Database, legacy: map<string, Digest>)
    requires Sorted(es) && legacy.Keys == Legacy(before) && forall n | n in legacy :: Fits(es, n, Some(legacy[n]))
    requires HashesWritten(es, before, after, legacy)
    ensures LedgerAttested(es, before, after)
  {
    forall i | 0 <= i < |es.list| && es.list[i].name in legacy
      ensures legacy[es.list[i].name] == OfText(es.list[i].sql)
    {
      var n := es.list[i].name;
      assert Fits(es, n, Some(legacy[n]));
      var j :| 0 <= j < |es.list| && es.list[j].name == n && legacy[n] == es.list[j].Hash();
      NamesDistinct(es, i, j);
    }
  }

  lemma ApprovalsUntouched(es: Catalog, before: Database, after: Database, legacy: map<string, Digest>, n: string)
    requires HashesWritten(es, before, after, legacy)
    ensures ReadApproval(after, n) == ReadApproval(before, n)
  {
    assert (n, Remediation) in after.ledger <==> (n, Remediation) in before.ledger;
  }

  lemma HashesFit(es: Catalog, before: Database, after: Database, legacy: map<string, Digest>)
    requires Attestable(es, before) && before.columns && HashesWritten(es, before, after, legacy)
    requires legacy.Keys == Legacy(before) && forall n | n in legacy :: Fits(es, n, Some(legacy[n]))
    ensures forall n | n in after.rows :: after.rows[n].Some? && Fits(es, n, after.rows[n])
  {
    forall n | n in after.rows ensures after.rows[n].Some? && Fits(es, n, after.rows[n]) {
      assert Fits(es, n, before.rows[n]);
    }
  }

  lemma AttestOutcome(es: Catalog, before: Database, after: Database, legacy: map<string, Digest>)
    requires Sorted(es) && Valid(after) && Attestable(es, before) && before.columns
    requires legacy.Keys == Legacy(before) && forall n | n in legacy :: Fits(es, n, Some(legacy[n]))
    requires HashesWritten(es, before, after, legacy)
    ensures after.columns && after.rows.Keys == before.rows.Keys && |legacy| == |Legacy(before)|
    ensures Verified(es, after) && Attestable(es, after) && AttestTx(es, before, after)
    ensures LedgerAttested(es, before, after)
    ensures forall n | n in after.rows :: ReadApproval(after, n) == ReadApproval(before, n)
  {
    HashesFit(es, before, after, legacy);
    FittingIsVerified(es, after);
    FittingAgrees(es, before);
    VerifyRowsAttested(es, before, after, legacy);
    forall n | n in after.rows ensures ReadApproval(after, n) == ReadApproval(before, n) {
      ApprovalsUntouched(es, before, after, legacy, n);
    }
    assert |legacy| == |legacy.Keys|;
  }

  lemma NotAttestable(es: Catalog, db: Database, n: string, found: bool, i: nat)
    requires Sorted(es) && n in db.rows && (found <==> Named(es, n))
    requires found ==>
               && i < |es.list| && es.list[i].name == n
               && db.rows[n].Some? && db.rows[n] != Some(es.list[i].Hash())
    ensures !Attestable(es, db)
  {
    forall j | 0 <= j < |es.list| && es.list[j].name == n ensures found && j == i {
      NamesDistinct(es, i, j);
    }
  }

  // The hashes remembered for `recordAppliedRunHashes`: those of this run, and no others.
  predicate DoneBefore(es: Catalog, start: Database, k: nat, rows: map<string, Option<Digest>>, done: map<string,
                       Digest>)
    requires k <= |es.list|
  {
    && (forall n | n in done :: n in rows && n !in start.rows)
    && (forall i | 0 <= i < k && Due(es, start, i) ::
          es.list[i].name in done && done[es.list[i].name] == es.list[i].Hash())
  }

  // The loop of `Up` before its k-th round.
  ghost predicate Underway(es: Catalog, start: Database, k: nat, db: Database, applied: seq<string>,
                           done: map<string, Digest>) {
    && k <= |es.list| && Valid(start) && !Mismatched(es, start)
    && Reached(es, start, k, db)
    && DoneBefore(es, start, k, db.rows, done)
    && (forall j | 0 <= j < k :: !Stops(es, start, j))
    && applied == DueNames(es, start, k)
  }

  lemma UnderwayStart(es: Catalog, start: Database)
    requires Valid(start) && !Mismatched(es, start)
    ensures Underway(es, start, 0, start, [], map[])
  {
  }

  lemma UnderwayEnd(es: Catalog, start: Database, db: Database, applied: seq<string>, done: map<string, Digest>)
    requires Underway(es, start, |es.list|, db, applied, done)
    ensures UpDone(es, start, Applied(applied), db) && Valid(db)
  {
  }

  lemma UnderwayHalt(es: Catalog, start: Database, k: nat, db: Database, applied: seq<string>, done: map<string,
                     Digest>)
    requires k < |es.list| && Underway(es, start, k, db, applied, done) && Stops(es, start, k)
    ensures UpDone(es, start, Failed(k, StopReason(es, k)), db) && Valid(db)
  {
  }

  lemma UnderwaySkip(es: Catalog, start: Database, k: nat, db: Database, applied: seq<string>, done: map<string,
                     Digest>)
    requires WellFormed(es) && k < |es.list| && Underway(es, start, k, db, applied, done)
    requires !Due(es, start, k) && !Stops(es, start, k)
    ensures Underway(es, start, k + 1, db, applied, done)
  {
    ReachedSkip(es, start, k, db);
    DoneSkip(es, start, k, db.rows, done);
    assert DueNames(es, start, k + 1) == DueNames(es, start, k) + [];
  }

  lemma DoneSkip(es: Catalog, start: Database, k: nat, rows: map<string, Option<Digest>>, done: map<string, Digest>)
    requires k < |es.list| && !Due(es, start, k) && DoneBefore(es, start, k, rows, done)
    ensures DoneBefore(es, start, k + 1, rows, done)
  {
  }

  lemma DistinctBefore(es: Catalog, k: nat)
    requires Sorted(es) && k < |es.list|
    ensures forall i | 0 <= i < k :: es.list[i].name != es.list[k].name
  {
    forall i | 0 <= i < k ensures es.list[i].name != es.list[k].name {
      LessIrreflexive(es.list[k].name);
    }
  }

  lemma DoneAfter(es: Catalog, start: Database, k: nat, mid: Database, done: map<string, Digest>, rows: map<string,
                  Option<Digest>>)
    requires Sorted(es) && k < |es.list| && Due(es, start, k) && DoneBefore(es, start, k, mid.rows, done)
    requires rows.Keys == mid.rows.Keys + {es.list[k].name}
    ensures DoneBefore(es, start, k + 1, rows, done[es.list[k].name := es.list[k].Hash()])
  {
    DistinctBefore(es, k);
  }

  lemma RanPlain(es: Catalog, start: Database, k: nat, mid: Database, done: map<string, Digest>)
    requires WellFormed(es) && k < |es.list| && Due(es, start, k) && es.list[k].name != es.checksum
    requires Reached(es, start, k, mid) && DoneBefore(es, start, k, mid.rows, done)
    ensures var after := ApplyTx(es, mid, es.list[k]);
            && Reached(es, start, k + 1, after)
            && DoneBefore(es, start, k + 1, after.rows, done[es.list[k].name := es.list[k].Hash()])
  {
    ReachedApply(es, start, k, mid);
    DoneAfter(es, start, k, mid, done, ApplyTx(es, mid, es.list[k]).rows);
  }

  lemma RanChecksum(es: Catalog, start: Database, k: nat, mid: Database, done: map<string, Digest>, after: Database)
    requires WellFormed(es) && k < |es.list| && Due(es, start, k) && es.list[k].name == es.checksum
    requires Reached(es, start, k, mid) && DoneBefore(es, start, k, mid.rows, done)
    requires var added, all := ApplyTx(es, mid, es.list[k]), done[es.list[k].name := es.list[k].Hash()];
             && after == added.(rows := after.rows) && after.rows.Keys == added.rows.Keys
             && (forall n | n in after.rows ::
                   after.rows[n] == if n in all && added.rows[n].None? then Some(all[n]) else added.rows[n])
    ensures Reached(es, start, k + 1, after)
    ensures DoneBefore(es, start, k + 1, after.rows, done[es.list[k].name := es.list[k].Hash()])
  {
    DoneAfter(es, start, k, mid, done, after.rows);
    FilledRows(es, start, k, mid.rows, done[es.list[k].name := es.list[k].Hash()], after.rows);
    ReachedChecksum(es, start, k, mid, after.rows);
  }

  lemma FilledRows(es: Catalog, start: Database, k: nat, rows: map<string, Option<Digest>>, done: map<string,
                   Digest>, filled: map<string, Option<Digest>>)
    requires Sorted(es) && k < |es.list| && Due(es, start, k) && RowsReached(es, start, k, rows)
    requires filled.Keys == rows.Keys + {es.list[k].name}
    requires forall n | n in filled ::
               var added := rows[es.list[k].name := Some(es.list[k].Hash())];
               filled[n] == if n in done && added[n].None? then Some(done[n]) else added[n]
    requires DoneBefore(es, start, k + 1, filled, done)
    ensures forall n | n in start.rows :: n in filled && filled[n] == start.rows[n]
    ensures forall i | 0 <= i <= k && Due(es, start, i) ::
              es.list[i].name in filled && filled[es.list[i].name] == Some(es.list[i].Hash())
  {
    DistinctBefore(es, k);
  }

  // ---------- what a maintainer relies on ----------

  // Nothing stands in the way of a first `Up`.
  lemma EmptyHasNoStops(es: Catalog)
    requires WellFormed(es)
    ensures !Mismatched(es, EMPTY) && forall i | 0 <= i < |es.list| :: !Stops(es, EMPTY, i)
    ensures forall i | 0 <= i < |es.list| :: Due(es, EMPTY, i) <==> es.list[i].name != es.releaseException
    ensures Hashing(es, EMPTY, |es.list|)
  {
    SpecialNamesDistinct(es);
    var c :| 0 <= c < |es.list| && es.list[c].name == es.checksum;
    assert es.list[c].name !in EMPTY.rows;
  }

  /** From an empty database `Up` succeeds, and what it leaves has every migration but the
      release exception, each with its embedded hash. */
  lemma FreshUp(es: Catalog, r: UpResult, after: Database)
    requires WellFormed(es) && UpDone(es, EMPTY, r, after)
    ensures r.Applied?
    ensures forall i | 0 <= i < |es.list| :: es.list[i].name in after.rows <==> es.list[i].name != es.releaseException
    ensures Verified(es, after)
  {
    EmptyHasNoStops(es);
    forall i | 0 <= i < |es.list| ensures es.list[i].name in after.rows <==> es.list[i].name != es.releaseException {
      if es.list[i].name in after.rows {
        assert DueAmong(es, EMPTY, |es.list|, es.list[i].name);
      }
    }
    forall i, j | 0 <= i < |es.list| && 0 <= j < |es.list| && es.list[i].name == es.list[j].name ensures i == j {
      NamesDistinct(es, i, j);
    }
    forall n | n in after.rows ensures after.rows[n].Some? {
      assert DueAmong(es, EMPTY, |es.list|, n);
    }
  }

  // After an `Up` that went through, nothing is due, mismatched or in the way.
  lemma NothingLeft(es: Catalog, db: Database, after: Database)
    requires WellFormed(es) && Valid(db) && !Mismatched(es, db) && Reached(es, db, |es.list|, after)
    requires forall i | 0 <= i < |es.list| :: !Stops(es, db, i)
    ensures !Mismatched(es, after)
    ensures forall i | 0 <= i < |es.list| :: !Stops(es, after, i) && !Due(es, after, i)
  {
    forall i, j | 0 <= i < |es.list| && 0 <= j < |es.list| && es.list[i].name == es.list[j].name ensures i == j {
      NamesDistinct(es, i, j);
    }
    forall i | 0 <= i < |es.list| ensures !Due(es, after, i) && !Stops(es, after, i) {
      if es.list[i].name !in after.rows {
        assert !Due(es, db, i) && !Stops(es, db, i) && es.list[i].name == es.releaseException;
        SpecialNamesDistinct(es);
        if Less(es.checksum, es.releaseException) {
          LessTransitive(es.checksum, es.releaseException, es.checksum);
          LessIrreflexive(es.checksum);
        }
      }
    }
  }

  // With nothing due, whatever is reached is the database itself.
  lemma ReachedNothing(es: Catalog, db: Database, k: nat, after: Database)
    requires k <= |es.list| && Reached(es, db, k, after) && forall i | 0 <= i < |es.list| :: !Due(es, db, i)
    requires es.checksum in db.rows || db.columns
    ensures after == db
  {
    NothingDue(es, db, k);
    assert forall n | n in after.rows :: n in db.rows;
  }

  /** A second `Up` right after one that went through succeeds, applies nothing and leaves the
      database, ledger included, exactly as it was. */
  lemma SecondUpIsIdle(es: Catalog, db: Database, r: UpResult, mid: Database, again: UpResult, after: Database)
    requires WellFormed(es) && Valid(db) && UpDone(es, db, r, mid) && r.Applied? && UpDone(es, mid, again, after)
    ensures again == Applied([]) && after == mid
  {
    NothingLeft(es, db, mid);
    NothingDue(es, mid, |es.list|);
    var c :| 0 <= c < |es.list| && es.list[c].name == es.checksum;
    SpecialNamesDistinct(es);
    assert !Due(es, mid, c);
    ReachedNothing(es, mid, |es.list|, after);
  }

  lemma {:induction false} NothingDue(es: Catalog, db: Database, k: nat)
    requires k <= |es.list| && forall i | 0 <= i < |es.list| :: !Due(es, db, i)
    ensures DueNames(es, db, k) == [] && Rolled(es, db, k) == db
  {
    if k > 0 {
      NothingDue(es, db, k - 1);
    }
  }

  /** `Up` applies the release exception only when its approval was in force, and leaves that
      approval in force. */
  lemma ReleaseExceptionNeedsApproval(es: Catalog, db: Database, k: nat, after: Database)
    requires WellFormed(es) && k <= |es.list| && Reached(es, db, k, after)
    requires es.releaseException in after.rows && es.releaseException !in db.rows
    ensures exists i | 0 <= i < k :: es.list[i].name == es.releaseException
                                     && Effective(db, es.list[i]) && Effective(after, es.list[i])
    ensures exists i | 0 <= i < k && es.list[i].name == es.releaseException ::
              var key := (es.releaseException, Remediation);
              key in db.ledger && RowApproves(db.ledger[key], es.list[i].sql)
  {
    assert DueAmong(es, db, k, es.releaseException);
  }

  /** An `Up` that stops says why: a recorded hash that differs, history without a hash in front of
      a migration past the checksum one, or a release exception whose approval cannot be read. */
  lemma StopNamesCause(es: Catalog, db: Database, r: UpResult, after: Database)
    requires WellFormed(es) && UpDone(es, db, r, after) && r.Failed?
    ensures r.why == ChecksumMismatch <==> Mismatched(es, db)
    ensures r.why == LegacyUnverified ==>
              && r.at < |es.list| && Less(es.checksum, es.list[r.at].name) && es.list[r.at].name !in db.rows
              && (!db.columns || exists n | n in db.rows :: db.rows[n].None?)
    ensures r.why == ApprovalUnreadable ==>
              && r.at < |es.list| && es.list[r.at].name == es.releaseException
              && var key := (es.releaseException, Remediation);
                 key in db.ledger && db.ledger[key].hash == None
  {
    SpecialNamesDistinct(es);
  }

  // What is not due leaves no trace in the ledger.
  lemma {:induction false} RolledKeepsRow(es: Catalog, db: Database, k: nat, name: string)
    requires k <= |es.list| && db.ledgerTable && (name, Remediation) in db.ledger && !DueAmong(es, db, k, name)
    ensures var rolled, key := Rolled(es, db, k), (name, Remediation);
            rolled.ledgerTable && key in rolled.ledger && rolled.ledger[key] == db.ledger[key]
  {
    if k > 0 {
      var p := k - 1;
      RolledKeepsRow(es, db, p, name);
      LedgerKept(es, Rolled(es, db, p), es.list[p], name);
    }
  }

  /** An approval given for other SQL than the embedded one counts for nothing: however `Up`
      ends, the release exception is not recorded and the row that names the other SQL stays. */
  lemma OtherSqlIsNotApplied(es: Catalog, db: Database, r: UpResult, after: Database, i: nat)
    requires WellFormed(es) && Valid(db) && UpDone(es, db, r, after)
    requires i < |es.list| && es.list[i].name == es.releaseException && es.releaseException !in db.rows
    requires (es.releaseException, Remediation) in db.ledger
    requires db.ledger[(es.releaseException, Remediation)].hash != Some(OfText(es.list[i].sql))
    ensures es.releaseException !in after.rows
    ensures var key := (es.releaseException, Remediation);
            key in after.ledger && after.ledger[key] == db.ledger[key]
  {
    if !Mismatched(es, db) {
      var k := if r.Applied? then |es.list| else r.at;
      forall j | 0 <= j < |es.list| && es.list[j].name == es.releaseException ensures !Due(es, db, j) {
        NamesDistinct(es, i, j);
      }
      assert !DueAmong(es, db, k, es.releaseException);
      RolledKeepsRow(es, db, k, es.releaseException);
    }
  }

  // After an attestation the gate is open: `Up` can only stop at an unreadable approval.
  lemma AttestationOpensGate(es: Catalog, db: Database)
    requires Sorted(es) && Verified(es, db)
    ensures !Mismatched(es, db) && GateOpen(es, db)
    ensures forall i | 0 <= i < |es.list| && Stops(es, db, i) ::
              es.list[i].name == es.releaseException && ReadApproval(db, es.releaseException).Unreadable?
  {
  }

  /** A database with history but no checksum columns is always stopped at the first missing
      migration past the checksum one: only an attestation lets it through. */
  lemma LegacyHistoryStops(es: Catalog, db: Database, i: nat)
    requires Valid(db) && !db.columns && db.rows != map[] && i < |es.list|
    requires es.list[i].name !in db.rows && Less(es.checksum, es.list[i].name)
    ensures Stops(es, db, i)
  {
    var n :| n in db.rows;
    assert db.rows[n].None?;
  }
}
