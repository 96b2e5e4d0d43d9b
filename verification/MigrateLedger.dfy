/**
 The migration ledger row by row: what a first `Up` and an attestation leave in it.
 */
module MigrateLedger {
  import opened Wrappers
  import opened Text
  import opened MigrateModel
  import opened MigrateRunner

  // The evidence `Up` records for a phase.
  function RunnerEvidence(sql: string, phase: Phase): map<Field, Json> {
    map[Embedded := JBool(true), MigrationHash := JDigest(OfText(sql)), RowRecorded := JBool(phase != Preflight),
        RunnerRecorded := JBool(true), RollbackOpened := JBool(false)]
  }

  /** The ledger of a first `Up`: history from before the ledger is filed without a hash, so that
      it cannot pass for an approval; everything after it under the hash of its SQL. */
  predicate FreshRow(es: Catalog, m: Migration, phase: Phase, row: LedgerRow) {
    && row.status == Ready
    && (if Less(m.name, es.ledger) then
          row.hash == None && row.evidence == map[Bootstrapped := JBool(true), RowRecorded := JBool(true)]
        else if m.name == es.ledger then
          row.hash == Some(OfText(m.sql)) &&
            row.evidence == map[Bootstrapped := JBool(true)] + RunnerEvidence(m.sql, phase)
        else row.hash == Some(OfText(m.sql)) && row.evidence == RunnerEvidence(m.sql, phase))
  }

  // Exactly the first k migrations are in the ledger, the release exception aside.
  ghost predicate FreshLedgerAt(es: Catalog, k: nat, ledger: Ledger)
    requires k <= |es.list|
  {
    && (forall i, p | 0 <= i < k && es.list[i].name != es.releaseException ::
          (es.list[i].name, p) in ledger && FreshRow(es, es.list[i], p, ledger[(es.list[i].name, p)]))
    && (forall n, p | (n, p) in ledger :: n != es.releaseException && exists i | 0 <= i < k :: es.list[i].name == n)
  }

  ghost predicate FreshRowsAt(es: Catalog, k: nat, names: set<string>)
    requires k <= |es.list|
  {
    && (forall i | 0 <= i < k && es.list[i].name != es.releaseException :: es.list[i].name in names)
    && (forall n | n in names :: n != es.releaseException && exists i | 0 <= i < k :: es.list[i].name == n)
  }

  function EvidenceAt(ledger: Ledger, key: (string, Phase)): map<Field, Json> {
    if key in ledger then ledger[key].evidence else map[]
  }

  predicate SameAt(ledger: Ledger, ledger': Ledger, key: (string, Phase)) {
    (key in ledger <==> key in ledger') && (key in ledger ==> ledger'[key] == ledger[key])
  }

  // The row of a recorded phase, with the evidence that was there before.
  predicate RecordedAt(ledger: Ledger, m: Migration, p: Phase, kept: map<Field, Json>) {
    && (m.name, p) in ledger
    && ledger[(m.name, p)] == LedgerRow(Ready, Some(OfText(m.sql)), kept + RunnerEvidence(m.sql, p))
  }

  // Recording a migration writes its four rows and no others.
  lemma AllPhases(ledger: Ledger, m: Migration, n: string, p: Phase)
    ensures var after := RecordAllPhases(ledger, m);
            && (n != m.name ==> SameAt(ledger, after, (n, p)))
            && (n == m.name ==> RecordedAt(after, m, p, EvidenceAt(ledger, (n, p))))
  {
  }

  lemma LaterRow(es: Catalog, db: Database, m: Migration, n: string, p: Phase)
    requires db.ledgerTable && m.name != es.ledger
    ensures var after := LedgerAfter(es, db, m);
            && (n != m.name ==> SameAt(db.ledger, after, (n, p)))
            && (n == m.name && (n, p) !in db.ledger ==> RecordedAt(after, m, p, map[]))
  {
    var before := RecordPhase(db.ledger, m, Preflight);
    AllPhases(before, m, n, p);
    if n == m.name && (n, p) !in db.ledger {
      assert EvidenceAt(before, (n, p)) + RunnerEvidence(m.sql, p) == map[] + RunnerEvidence(m.sql, p);
    }
  }

  // What the ledger migration files: everything recorded so far, and itself.
  predicate BootstrapAt(es: Catalog, names: set<string>, m: Migration, ledger: Ledger, n: string, p: Phase) {
    && ((n, p) in ledger <==> n in names || n == es.ledger)
    && (n in names && n != es.ledger ==> ledger[(n, p)] == BOOTSTRAP_ROW)
    && (n == es.ledger ==> RecordedAt(ledger, m, p, BOOTSTRAP_ROW.evidence))
  }

  lemma BootstrapRow(es: Catalog, db: Database, m: Migration, n: string, p: Phase)
    requires !db.ledgerTable && db.ledger == map[] && m.name == es.ledger
    ensures BootstrapAt(es, db.rows.Keys, m, LedgerAfter(es, db, m), n, p)
  {
    var ran := Bootstrap(db.rows.Keys + {es.ledger}, map[]);
    assert PHASES == {Preflight, Apply, Verify, Remediation} && p in PHASES;
    AllPhases(ran, m, n, p);
  }

  lemma BootstrapFresh(es: Catalog, names: set<string>, l: nat, m: Migration, p: Phase, ledger: Ledger)
    requires l < |es.list| && es.list[l].name == es.ledger && !Less(es.ledger, es.ledger)
    requires BootstrapAt(es, names, es.list[l], ledger, m.name, p)
    requires m == es.list[l] || (m.name in names && m.name != es.ledger && Less(m.name, es.ledger))
    ensures (m.name, p) in ledger && FreshRow(es, m, p, ledger[(m.name, p)])
  {
  }

  lemma BootstrapLedger(es: Catalog, names: set<string>, l: nat, ledger: Ledger)
    requires Sorted(es) && l < |es.list| && es.list[l].name == es.ledger && FreshRowsAt(es, l, names)
    requires forall n, p :: BootstrapAt(es, names, es.list[l], ledger, n, p)
    ensures FreshLedgerAt(es, l + 1, ledger)
  {
    SpecialNamesDistinct(es);
    LessIrreflexive(es.ledger);
    DistinctBefore(es, l);
    forall i, p | 0 <= i < l + 1 && es.list[i].name != es.releaseException
      ensures (es.list[i].name, p) in ledger && FreshRow(es, es.list[i], p, ledger[(es.list[i].name, p)])
    {
      BootstrapFresh(es, names, l, es.list[i], p, ledger);
    }
    forall n, p | (n, p) in ledger
      ensures n != es.releaseException && exists i | 0 <= i < l + 1 :: es.list[i].name == n
    {
      assert BootstrapAt(es, names, es.list[l], ledger, n, p);
    }
  }

  lemma FreshBootstrap(es: Catalog, l: nat, db: Database)
    requires Sorted(es) && l < |es.list| && es.list[l].name == es.ledger && FreshRowsAt(es, l, db.rows.Keys)
    requires !db.ledgerTable && db.ledger == map[]
    ensures FreshLedgerAt(es, l + 1, LedgerAfter(es, db, es.list[l]))
  {
    forall n, p ensures BootstrapAt(es, db.rows.Keys, es.list[l], LedgerAfter(es, db, es.list[l]), n, p) {
      BootstrapRow(es, db, es.list[l], n, p);
    }
    BootstrapLedger(es, db.rows.Keys, l, LedgerAfter(es, db, es.list[l]));
  }

  // A later migration adds its own four rows.
  lemma FreshLater(es: Catalog, l: nat, k: nat, db: Database)
    requires Sorted(es) && l < k < |es.list| && es.list[l].name == es.ledger && db.ledgerTable
    requires FreshLedgerAt(es, k, db.ledger) && es.list[k].name != es.releaseException
    ensures FreshLedgerAt(es, k + 1, LedgerAfter(es, db, es.list[k]))
  {
    var m, after := es.list[k], LedgerAfter(es, db, es.list[k]);
    DistinctBefore(es, k);
    NotLess(es.list[l].name, m.name);
    forall i, p | 0 <= i < k + 1 && es.list[i].name != es.releaseException
      ensures (es.list[i].name, p) in after && FreshRow(es, es.list[i], p, after[(es.list[i].name, p)])
    {
      LaterRow(es, db, m, es.list[i].name, p);
    }
    forall n, p | (n, p) in after
      ensures n != es.releaseException && exists i | 0 <= i < k + 1 :: es.list[i].name == n
    {
      LaterRow(es, db, m, n, p);
    }
  }

  lemma NotLess(a: string, b: string)
    requires Less(a, b)
    ensures !Less(b, a) && a != b
  {
    LessIrreflexive(a);
    if Less(b, a) {
      LessTransitive(a, b, a);
    }
  }

  lemma FreshRowsNext(es: Catalog, p: nat, names: set<string>, names': set<string>)
    requires p < |es.list| && FreshRowsAt(es, p, names)
    requires names' == if es.list[p].name == es.releaseException then names else names + {es.list[p].name}
    ensures FreshRowsAt(es, p + 1, names')
  {
  }

  lemma FreshLedgerSkip(es: Catalog, p: nat, ledger: Ledger)
    requires p < |es.list| && FreshLedgerAt(es, p, ledger) && es.list[p].name == es.releaseException
    ensures FreshLedgerAt(es, p + 1, ledger)
  {
  }

  lemma {:induction false} RolledFresh(es: Catalog, l: nat, k: nat)
    requires WellFormed(es) && l < |es.list| && es.list[l].name == es.ledger && k <= |es.list|
    ensures var db := Rolled(es, EMPTY, k);
            && FreshRowsAt(es, k, db.rows.Keys) && db.ledgerTable == (l < k)
            && (if l < k then FreshLedgerAt(es, k, db.ledger) else db.ledger == map[])
  {
    if k > 0 {
      var p := k - 1;
      RolledFresh(es, l, p);
      EmptyHasNoStops(es);
      FreshRound(es, l, p, Rolled(es, EMPTY, p));
    }
  }

  // One round of it.
  lemma FreshRound(es: Catalog, l: nat, p: nat, db: Database)
    requires WellFormed(es) && l < |es.list| && es.list[l].name == es.ledger && p < |es.list|
    requires FreshRowsAt(es, p, db.rows.Keys) && db.ledgerTable == (l < p)
    requires if l < p then FreshLedgerAt(es, p, db.ledger) else db.ledger == map[]
    ensures var m := es.list[p];
            var after := if m.name == es.releaseException then db else ApplyTx(es, db, m);
            && FreshRowsAt(es, p + 1, after.rows.Keys) && after.ledgerTable == (l < p + 1)
            && (if l < p + 1 then FreshLedgerAt(es, p + 1, after.ledger) else after.ledger == map[])
  {
    var m := es.list[p];
    var after := if m.name == es.releaseException then db else ApplyTx(es, db, m);
    SpecialNamesDistinct(es);
    FreshRowsNext(es, p, db.rows.Keys, after.rows.Keys);
    if p < l {
      DistinctBefore(es, l);
    } else if p == l {
      FreshBootstrap(es, l, db);
    } else if m.name != es.releaseException {
      FreshLater(es, l, p, db);
    } else {
      FreshLedgerSkip(es, p, db.ledger);
    }
  }

  /** The ledger that a first `Up` leaves: four rows for every migration it recorded, each as it
      should be, and no others. */
  lemma FreshLedger(es: Catalog, r: UpResult, after: Database)
    requires WellFormed(es) && UpDone(es, EMPTY, r, after)
    ensures after.columns && after.ledgerTable && FreshLedgerAt(es, |es.list|, after.ledger)
  {
    EmptyHasNoStops(es);
    var l :| 0 <= l < |es.list| && es.list[l].name == es.ledger;
    RolledFresh(es, l, |es.list|);
  }
}
