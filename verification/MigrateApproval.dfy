/**
 Which approval stands behind the release exception, over every interleaving.

 The approval is read in one step and the migration committed in a later one, so the law that
 the release exception is applied only under an approval in force needs the decisions taken
 in between.
 */
module MigrateApproval {
  import opened Wrappers
  import opened Text
  import opened MigrateModel
  import opened MigrateConcurrent

  // ---------- reading and committing ----------

  predicate ReadsApproval(c: Command, i: nat) {
    c.at == UpApproval(i) || c.at == OneApproval(i)
  }

  predicate AboutToCommit(c: Command, i: nat) {
    c.at == UpCommit(i) || c.at == OneCommit(i)
  }

  /** At step r the command `id` reads an effective approval of the i-th migration, and from
      then on up to state k it stands unmoved, about to commit it. */
  ghost predicate Backed(es: Catalog, ss: seq<State>, r: nat, k: nat, id: nat, i: nat) {
    && r < k < |ss| && i < |es.list|
    && id in ss[r].commands && ReadsApproval(ss[r].commands[id], i) && Effective(ss[r].db, es.list[i])
    && (forall j | r < j <= k :: id in ss[j].commands && AboutToCommit(ss[j].commands[id], i))
  }

  // Step k commits the release exception, which is the i-th migration, on behalf of `id`.
  ghost predicate CommitsException(es: Catalog, ss: seq<State>, k: nat, id: nat, i: nat) {
    && k + 1 < |ss| && i < |es.list| && es.list[i].name == es.releaseException
    && id in ss[k].commands && AboutToCommit(ss[k].commands[id], i)
    && es.releaseException !in ss[k].db.rows && ss[k + 1].db == ApplyTx(es, ss[k].db, es.list[i])
  }

  // A command at the checksum gate is dealing with a migration past the checksum one.
  predicate PastGate(es: Catalog, c: Command) {
    (c.at.GateColumns? || c.at.GateScan? || c.at.GateCount?) && c.at.i < |es.list| ==>
        Less(es.checksum, es.list[c.at.i].name)
  }

  // How a command can come to stand before a commit of the release exception.
  lemma OneStep(es: Catalog, only: set<string>, s: State, s': State, id: nat, i: nat)
    requires Sorted(es) && Next(es, only, s, s') && (forall x | x in s.commands :: PastGate(es, s.commands[x]))
    requires i < |es.list| && es.list[i].name == es.releaseException
    requires id in s'.commands && AboutToCommit(s'.commands[id], i)
    ensures id in s.commands
    ensures AboutToCommit(s.commands[id], i) || (ReadsApproval(s.commands[id], i) && Effective(s.db, es.list[i]))
  {
    SpecialNamesDistinct(es);
    if Less(es.checksum, es.releaseException) {
      LessTransitive(es.checksum, es.releaseException, es.checksum);
      LessIrreflexive(es.checksum);
    }
    if Starts(es, only, s, s') {
    } else if x, c' :| x in s.commands && CommandStep(es, s, x, c', s') {
      assert x != id ==> id in s.commands && s'.commands[id] == s.commands[id];
    }
  }

  lemma GateStep(es: Catalog, only: set<string>, s: State, s': State)
    requires Next(es, only, s, s') && forall x | x in s.commands :: PastGate(es, s.commands[x])
    ensures forall x | x in s'.commands :: PastGate(es, s'.commands[x])
  {
    if Starts(es, only, s, s') {
    } else if id, c' :| id in s.commands && CommandStep(es, s, id, c', s') {
      assert PastGate(es, s.commands[id]);
    }
  }

  lemma {:induction false} GatesArePast(es: Catalog, only: set<string>, ss: seq<State>, k: nat)
    requires Behavior(es, only, ss) && k < |ss|
    ensures forall x | x in ss[k].commands :: PastGate(es, ss[k].commands[x])
  {
    if k > 0 {
      GatesArePast(es, only, ss, k - 1);
      assert Next(es, only, ss[k - 1], ss[k]);
      GateStep(es, only, ss[k - 1], ss[k]);
    }
  }

  lemma {:induction false} AlwaysBacked(es: Catalog, only: set<string>, ss: seq<State>, k: nat, id: nat, i: nat)
    returns (r: nat)
    requires Sorted(es) && Behavior(es, only, ss) && k < |ss|
    requires i < |es.list| && es.list[i].name == es.releaseException
    requires id in ss[k].commands && AboutToCommit(ss[k].commands[id], i)
    ensures Backed(es, ss, r, k, id, i)
    decreases k
  {
    assert k > 0;
    assert Next(es, only, ss[k - 1], ss[k]);
    GatesArePast(es, only, ss, k - 1);
    OneStep(es, only, ss[k - 1], ss[k], id, i);
    if AboutToCommit(ss[k - 1].commands[id], i) {
      r := AlwaysBacked(es, only, ss, k - 1, id, i);
    } else {
      r := k - 1;
    }
  }

  // The release exception is recorded by a commit, and by nothing else.
  lemma RecordedByCommit(es: Catalog, only: set<string>, ss: seq<State>, k: nat) returns (id: nat, i: nat)
    requires Sorted(es) && Behavior(es, only, ss) && k + 1 < |ss|
    requires es.releaseException !in ss[k].db.rows && es.releaseException in ss[k + 1].db.rows
    ensures CommitsException(es, ss, k, id, i)
  {
    var s, s' := ss[k], ss[k + 1];
    assert Next(es, only, s, s');
    AlwaysInv(es, only, ss, k);
    var c';
    id, c' :| id in s.commands && CommandStep(es, s, id, c', s');
    i := s.commands[id].at.i;
  }

  /** Every time the release exception is recorded, a command commits it that has read an
      effective approval of it before, and has stood before the commit ever since. */
  lemma CommitWasApproved(es: Catalog, only: set<string>, ss: seq<State>, k: nat) returns (r: nat, id: nat, i: nat)
    requires Sorted(es) && Behavior(es, only, ss) && k + 1 < |ss|
    requires es.releaseException !in ss[k].db.rows && es.releaseException in ss[k + 1].db.rows
    ensures CommitsException(es, ss, k, id, i) && Backed(es, ss, r, k, id, i)
    ensures var key, ledger := (es.releaseException, Remediation), ss[r].db.ledger;
            && key in ledger && ledger[key].hash == Some(OfText(es.list[i].sql))
            && ApprovalStatus in ledger[key].evidence && ledger[key].evidence[ApprovalStatus] == JStatus(Approved)
  {
    id, i := RecordedByCommit(es, only, ss, k);
    r := AlwaysBacked(es, only, ss, k, id, i);
  }

  // ---------- decisions in between ----------

  ghost predicate Revokes(es: Catalog, ss: seq<State>, j: nat, i: nat) {
    j + 1 < |ss| && i < |es.list| && DecidesOn(es, ss[j], ss[j + 1], i, false)
  }

  ghost predicate Approves(es: Catalog, ss: seq<State>, j: nat, i: nat) {
    j + 1 < |ss| && i < |es.list| && DecidesOn(es, ss[j], ss[j + 1], i, true)
  }

  // What each step decides about a migration, if anything.
  ghost function Decisions(es: Catalog, ss: seq<State>, i: nat): seq<Option<bool>>
    requires ss != []
  {
    seq(|ss| - 1, j requires 0 <= j < |ss| - 1 =>
      if Revokes(es, ss, j, i) then Some(false) else if Approves(es, ss, j, i) then Some(true) else None)
  }

  // Between r and k something is revoked and not approved again.
  predicate Standing(ds: seq<Option<bool>>, r: nat, k: nat)
    requires k <= |ds|
  {
    exists j | r <= j < k :: ds[j] == Some(false) && forall h | j < h < k :: ds[h] != Some(true)
  }

  // Between states r and k there is a revocation with no approval after it.
  ghost predicate RevokedSince(es: Catalog, ss: seq<State>, r: nat, k: nat, i: nat)
    requires k < |ss|
  {
    Standing(Decisions(es, ss, i), r, k)
  }

  // One more decision settles it; without one, nothing changes.
  lemma StandingStep(ds: seq<Option<bool>>, r: nat, p: nat, k: nat)
    requires r <= p && k == p + 1 <= |ds|
    ensures ds[p] == Some(false) ==> Standing(ds, r, k)
    ensures ds[p] == Some(true) ==> !Standing(ds, r, k)
    ensures ds[p] == None ==> (Standing(ds, r, k) <==> Standing(ds, r, p))
  {
    if ds[p] == None && Standing(ds, r, p) {
      var j :| r <= j < p && ds[j] == Some(false) && forall h | j < h < p :: ds[h] != Some(true);
      assert forall h | j < h < k :: ds[h] != Some(true);
    }
  }

  // A step that decides nothing about a migration leaves its approval effective and its last decision alone.
  lemma UndecidedStep(es: Catalog, only: set<string>, s: State, s': State, i: nat)
    requires Sorted(es) && Next(es, only, s, s') && i < |es.list|
    requires !DecidesOn(es, s, s', i, true) && !DecidesOn(es, s, s', i, false)
    ensures Effective(s.db, es.list[i]) ==> Effective(s'.db, es.list[i])
    ensures var n := es.list[i].name;
            (n in s.approved <==> n in s'.approved) && (n in s.approved ==> s'.approved[n] == s.approved[n])
  {
    if Starts(es, only, s, s') {
    } else if id, c' :| id in s.commands && CommandStep(es, s, id, c', s') {
      CommandEffective(es, s, id, c', s', i);
    } else {
      var x, flag :| 0 <= x < |es.list| && DecidesOn(es, s, s', x, flag);
      if es.list[x].name == es.list[i].name {
        NamesDistinct(es, i, x);
      }
    }
  }

  lemma CommandEffective(es: Catalog, s: State, id: nat, c': Command, s': State, i: nat)
    requires Sorted(es) && id in s.commands && CommandStep(es, s, id, c', s') && i < |es.list|
    ensures Effective(s.db, es.list[i]) ==> Effective(s'.db, es.list[i])
  {
    var c := s.commands[id];
    if Effective(s.db, es.list[i]) {
      if Commits(es, s.db, c, s'.db, c') {
        if es.list[c.at.i].name == es.list[i].name {
          NamesDistinct(es, c.at.i, i);
        }
        ApplyKeepsApproval(es, s.db, es.list[c.at.i], es.list[i]);
      } else if c.at.AttestCommit? && AttestTx(es, s.db, s'.db) {
        assert (es.list[i].name, Remediation) in s.db.ledger;
      }
    }
  }

  // Once decided upon in a run, a migration stays so.
  lemma {:induction false} DecidedStays(es: Catalog, only: set<string>, ss: seq<State>, j: nat, k: nat, n: string)
    requires Behavior(es, only, ss) && j <= k < |ss| && n in ss[j].approved
    ensures n in ss[k].approved
    decreases k - j
  {
    if j < k {
      assert Next(es, only, ss[j], ss[j + 1]);
      DecidedStays(es, only, ss, j + 1, k, n);
    }
  }

  lemma RevokedIsDecided(es: Catalog, only: set<string>, ss: seq<State>, r: nat, k: nat, i: nat)
    requires Behavior(es, only, ss) && r <= k < |ss| && i < |es.list| && RevokedSince(es, ss, r, k, i)
    ensures es.list[i].name in ss[k].approved
  {
    var j := LastRevocation(es, ss, r, k, i);
    DecisionShows(es, ss[j], ss[j + 1], i, false);
    DecidedStays(es, only, ss, j + 1, k, es.list[i].name);
  }

  lemma LastRevocation(es: Catalog, ss: seq<State>, r: nat, k: nat, i: nat) returns (j: nat)
    requires k < |ss| && RevokedSince(es, ss, r, k, i)
    ensures r <= j < k && Revokes(es, ss, j, i)
  {
    j := Revocation(Decisions(es, ss, i), r, k);
    assert Decisions(es, ss, i)[j] == Some(false);
  }

  lemma Revocation(ds: seq<Option<bool>>, r: nat, k: nat) returns (j: nat)
    requires k <= |ds| && Standing(ds, r, k)
    ensures r <= j < k && ds[j] == Some(false)
  {
    j :| r <= j < k && ds[j] == Some(false);
  }

  lemma DecisionShows(es: Catalog, s: State, s': State, i: nat, flag: bool)
    requires i < |es.list| && DecidesOn(es, s, s', i, flag)
    ensures es.list[i].name in s'.approved && s'.approved[es.list[i].name] == flag
  {
  }

  lemma EffectiveStep(es: Catalog, only: set<string>, ss: seq<State>, r: nat, p: nat, k: nat, i: nat)
    requires Sorted(es) && Behavior(es, only, ss) && r <= p && k == p + 1 < |ss| && i < |es.list|
    requires Effective(ss[p].db, es.list[i]) <==> !RevokedSince(es, ss, r, p, i)
    ensures Effective(ss[k].db, es.list[i]) <==> !RevokedSince(es, ss, r, k, i)
  {
    var ds := Decisions(es, ss, i);
    StandingStep(ds, r, p, k);
    if ds[p] == None {
      assert Next(es, only, ss[p], ss[k]);
      UndecidedStep(es, only, ss[p], ss[k], i);
      if RevokedSince(es, ss, r, p, i) {
        RevokedIsDecided(es, only, ss, r, p, i);
        LastDecisionCounts(es, only, ss, p, i);
        LastDecisionCounts(es, only, ss, k, i);
      }
    } else {
      DecisionShows(es, ss[p], ss[k], i, ds[p].value);
      LastDecisionCounts(es, only, ss, k, i);
    }
  }

  /** An approval that is effective in some state is effective in a later one exactly when no
      revocation stands between them - whatever was applied, attested or decided otherwise. */
  lemma {:induction false} EffectiveUntilRevoked(es: Catalog, only: set<string>, ss: seq<State>, r: nat, k: nat, i: nat)
    requires Sorted(es) && Behavior(es, only, ss) && r <= k < |ss| && i < |es.list|
    requires Effective(ss[r].db, es.list[i])
    ensures Effective(ss[k].db, es.list[i]) <==> !RevokedSince(es, ss, r, k, i)
    decreases k
  {
    if r < k {
      var p := k - 1;
      EffectiveUntilRevoked(es, only, ss, r, p, i);
      EffectiveStep(es, only, ss, r, p, k, i);
    }
  }

  /** So the release exception is committed under an approval in force exactly when no
      revocation came, and stood, between the command's read and its commit. */
  lemma CommitUnderApprovalExactly(es: Catalog, only: set<string>, ss: seq<State>, r: nat, k: nat, id: nat, i: nat)
    requires Sorted(es) && Behavior(es, only, ss)
    requires CommitsException(es, ss, k, id, i) && Backed(es, ss, r, k, id, i)
    ensures Effective(ss[k].db, es.list[i]) <==> !RevokedSince(es, ss, r, k, i)
    ensures es.releaseException in ss[k].approved ==>
              (ss[k].approved[es.releaseException] <==> !RevokedSince(es, ss, r, k, i))
  {
    EffectiveUntilRevoked(es, only, ss, r, k, i);
    if es.releaseException in ss[k].approved {
      LastDecisionCounts(es, only, ss, k, i);
    }
  }

  // ---------- one after the other ----------

  // No decision is taken while some command is running.
  ghost predicate OneAfterTheOther(es: Catalog, ss: seq<State>) {
    forall k, id | 0 <= k < |ss| - 1 && Decides(es, ss[k], ss[k + 1]) && id in ss[k].commands ::
        ss[k].commands[id].at.Stopped?
  }

  // A command that stands before its commit keeps decisions out.
  lemma NothingDecided(es: Catalog, ss: seq<State>, r: nat, k: nat, id: nat, i: nat)
    requires OneAfterTheOther(es, ss) && Backed(es, ss, r, k, id, i)
    ensures !RevokedSince(es, ss, r, k, i)
  {
    var ds := Decisions(es, ss, i);
    forall j | r <= j < k ensures ds[j] != Some(false) {
      assert id in ss[j].commands && !ss[j].commands[id].at.Stopped?;
      assert !Decides(es, ss[j], ss[j + 1]);
    }
  }

  /** When decisions and commands follow each other, every commit of the release exception finds
      an approval in force under the current hash, and that approval stays in force exactly
      until a revocation. */
  lemma SequentialRunsObeyDecisions(es: Catalog, only: set<string>, ss: seq<State>, k: nat) returns (i: nat)
    requires Sorted(es) && Behavior(es, only, ss) && OneAfterTheOther(es, ss) && k + 1 < |ss|
    requires es.releaseException !in ss[k].db.rows && es.releaseException in ss[k + 1].db.rows
    ensures i < |es.list| && es.list[i].name == es.releaseException && Effective(ss[k].db, es.list[i])
    ensures var key, ledger := (es.releaseException, Remediation), ss[k].db.ledger;
            && key in ledger && ledger[key].hash == Some(OfText(es.list[i].sql))
            && ApprovalStatus in ledger[key].evidence && ledger[key].evidence[ApprovalStatus] == JStatus(Approved)
    ensures forall h: nat | k <= h < |ss| :: Effective(ss[h].db, es.list[i]) <==> !RevokedSince(es, ss, k, h, i)
  {
    var r, id;
    r, id, i := CommitWasApproved(es, only, ss, k);
    NothingDecided(es, ss, r, k, id, i);
    EffectiveUntilRevoked(es, only, ss, r, k, i);
    forall h: nat | k <= h < |ss| ensures Effective(ss[h].db, es.list[i]) <==> !RevokedSince(es, ss, k, h, i) {
      EffectiveUntilRevoked(es, only, ss, k, h, i);
    }
  }
}
