/**
 The commands of the runner, run with nobody in between, are runs of the interleaved model: what
 `MigrateRunner` says a command does to the database, the steps of `MigrateConcurrent` do as well.
 */
module MigrateRefinement {
  import opened Wrappers
  import opened Text
  import opened MigrateModel
  import opened MigrateRunner
  import opened MigrateConcurrent

  // ---------- runs ----------

  ghost predicate Path<S>(next: (S, S) -> bool, ss: seq<S>) {
    ss != [] && forall i: nat | i + 1 < |ss| :: next(ss[i], ss[i + 1])
  }

  ghost predicate Joined<S(!new)>(next: (S, S) -> bool, s: S, s': S) {
    exists ss :: Path(next, ss) && ss[0] == s && ss[|ss| - 1] == s'
  }

  lemma Itself<S(!new)>(next: (S, S) -> bool, s: S)
    ensures Joined(next, s, s)
  {
    assert Path(next, [s]) && [s][0] == s;
  }

  lemma OneMore<S(!new)>(next: (S, S) -> bool, s: S, mid: S, s': S)
    requires Joined(next, s, mid) && next(mid, s')
    ensures Joined(next, s, s')
  {
    var ss :| Path(next, ss) && ss[0] == s && ss[|ss| - 1] == mid;
    var more := ss + [s'];
    assert Path(next, more) && more[0] == s && more[|more| - 1] == s';
  }

  ghost function Steps(es: Catalog, only: set<string>): (State, State) -> bool {
    (a, b) => Next(es, only, a, b)
  }

  // Some number of steps of the interleaved model lead from one state to the other.
  ghost predicate Leads(es: Catalog, only: set<string>, s: State, s': State) {
    Joined(Steps(es, only), s, s')
  }

  lemma Stay(es: Catalog, only: set<string>, s: State)
    ensures Leads(es, only, s, s)
  {
    Itself(Steps(es, only), s);
  }

  lemma Then(es: Catalog, only: set<string>, s: State, mid: State, s': State)
    requires Leads(es, only, s, mid) && Next(es, only, mid, s')
    ensures Leads(es, only, s, s')
  {
    OneMore(Steps(es, only), s, mid, s');
  }

  // From an initial state these are the behaviors that the laws are about.
  lemma LeadsIsBehavior(es: Catalog, only: set<string>, s: State, s': State) returns (ss: seq<State>)
    requires Init(es, s) && Leads(es, only, s, s')
    ensures Behavior(es, only, ss) && ss[0] == s && ss[|ss| - 1] == s'
  {
    ss :| Path(Steps(es, only), ss) && ss[0] == s && ss[|ss| - 1] == s';
    forall i | 0 <= i < |ss| - 1 ensures Next(es, only, ss[i], ss[i + 1]) {
      assert Steps(es, only)(ss[i], ss[i + 1]);
    }
  }

  // ---------- one command on the move ----------

  // Command `id` stands at `at`, has applied `done`, and the rest of the system is as it was in `s`.
  function At(s: State, id: nat, db: Database, at: Point, done: map<string, Digest>, names: seq<string>): State {
    s.(db := db, commands := s.commands[id := Command(at, done)], commits := s.commits + names)
  }

  // A step of the command that only reads, or gives up.
  lemma Read(es: Catalog, only: set<string>, s: State, id: nat, db: Database, at: Point, at': Point,
             done: map<string, Digest>, names: seq<string>)
    requires Leads(es, only, s, At(s, id, db, at, done, names))
    requires Reads(es, db, Command(at, done), Command(at', done)) || at' == Stopped
    ensures Leads(es, only, s, At(s, id, db, at', done, names))
  {
    var before, after, c' := At(s, id, db, at, done, names), At(s, id, db, at', done, names), Command(at', done);
    assert CommandStep(es, before, id, c', after);
    Then(es, only, s, before, after);
  }

  lemma Commit(es: Catalog, only: set<string>, s: State, id: nat, db: Database, i: nat, one: bool, at': Point,
               done: map<string, Digest>, names: seq<string>)
    requires i < |es.list| && es.list[i].name !in db.rows
    requires Leads(es, only, s, At(s, id, db, if one then OneCommit(i) else UpCommit(i), done, names))
    requires at' == if one then Stopped
                    else if es.list[i].name == es.checksum then UpFill(i, done.Keys + {es.list[i].name})
                    else UpCheck(i + 1)
    ensures var m := es.list[i];
            Leads(es, only, s, At(s, id, ApplyTx(es, db, m), at', done[m.name := m.Hash()], names + [m.name]))
  {
    var m, at := es.list[i], if one then OneCommit(i) else UpCommit(i);
    var before := At(s, id, db, at, done, names);
    var after := At(s, id, ApplyTx(es, db, m), at', done[m.name := m.Hash()], names + [m.name]);
    var c' := Command(at', done[m.name := m.Hash()]);
    assert done[m.name := m.Hash()].Keys == done.Keys + {m.name};
    assert after.commits == before.commits + [m.name];
    assert CommandStep(es, before, id, c', after);
    Then(es, only, s, before, after);
  }

  // ---------- scanning and filling ----------

  lemma {:induction false} UpScans(es: Catalog, only: set<string>, s: State, id: nat, db: Database, j: nat)
    requires j <= |es.list| && (forall h | 0 <= h < |es.list| :: Agrees(es, db, h))
    requires Leads(es, only, s, At(s, id, db, UpScan(j), map[], []))
    ensures Leads(es, only, s, At(s, id, db, UpCheck(0), map[], []))
    decreases |es.list| - j
  {
    if j < |es.list| {
      Read(es, only, s, id, db, UpScan(j), UpScan(j + 1), map[], []);
      UpScans(es, only, s, id, db, j + 1);
    } else {
      Read(es, only, s, id, db, UpScan(j), UpCheck(0), map[], []);
    }
  }

  lemma {:induction false} GateScans(es: Catalog, only: set<string>, s: State, id: nat, db: Database, i: nat, j: nat,
                                     done: map<string, Digest>, names: seq<string>)
    requires j <= |es.list| && (forall h | 0 <= h < |es.list| :: Agrees(es, db, h))
    requires Leads(es, only, s, At(s, id, db, GateScan(i, j), done, names))
    ensures Leads(es, only, s, At(s, id, db, GateCount(i), done, names))
    decreases |es.list| - j
  {
    if j < |es.list| {
      Read(es, only, s, id, db, GateScan(i, j), GateScan(i, j + 1), done, names);
      GateScans(es, only, s, id, db, i, j + 1, done, names);
    } else {
      Read(es, only, s, id, db, GateScan(i, j), GateCount(i), done, names);
    }
  }

  function Filled(rows: map<string, Option<Digest>>, done: map<string, Digest>, todo: set<string>):
    map<string, Option<Digest>>
  {
    map n | n in rows :: if n in todo && n in done && rows[n].None? then Some(done[n]) else rows[n]
  }

  lemma FillOne(es: Catalog, only: set<string>, s: State, id: nat, db: Database, i: nat, todo: set<string>, n: string,
                done: map<string, Digest>, names: seq<string>)
    requires n in todo && n in done && Leads(es, only, s, At(s, id, db, UpFill(i, todo), done, names))
    ensures Leads(es, only, s, At(s, id, FillTx(db, n, done[n]), UpFill(i, todo - {n}), done, names))
  {
    var before := At(s, id, db, UpFill(i, todo), done, names);
    var after := At(s, id, FillTx(db, n, done[n]), UpFill(i, todo - {n}), done, names);
    assert Fills(db, before.commands[id], after.db, after.commands[id]);
    assert CommandStep(es, before, id, after.commands[id], after);
    Then(es, only, s, before, after);
  }

  lemma FilledOnce(db: Database, done: map<string, Digest>, todo: set<string>, n: string)
    requires db.columns && n in todo && n in done
    ensures var db' := FillTx(db, n, done[n]);
            && db'.columns
            && db'.(rows := Filled(db'.rows, done, todo - {n})) == db.(rows := Filled(db.rows, done, todo))
  {
    var db' := FillTx(db, n, done[n]);
    assert Filled(db'.rows, done, todo - {n}) == Filled(db.rows, done, todo);
  }

  // However the hashes are filled in, the same rows result.
  lemma {:induction false} Fillings(es: Catalog, only: set<string>, s: State, id: nat, db: Database, i: nat,
                                    todo: set<string>, done: map<string, Digest>, names: seq<string>)
    requires db.columns && todo <= done.Keys
    requires Leads(es, only, s, At(s, id, db, UpFill(i, todo), done, names))
    ensures Leads(es, only, s, At(s, id, db.(rows := Filled(db.rows, done, todo)), UpCheck(i + 1), done, names))
    decreases |todo|
  {
    if todo == {} {
      assert Filled(db.rows, done, todo) == db.rows;
      Read(es, only, s, id, db, UpFill(i, todo), UpCheck(i + 1), done, names);
    } else {
      var n :| n in todo;
      FillOne(es, only, s, id, db, i, todo, n, done, names);
      FilledOnce(db, done, todo, n);
      Fillings(es, only, s, id, FillTx(db, n, done[n]), i, todo - {n}, done, names);
    }
  }

  // ---------- one round of `Up` ----------

  // Past the checksum migration, an open gate lets the command through to its commit.
  lemma GateRuns(es: Catalog, only: set<string>, s: State, id: nat, db: Database, i: nat, done: map<string, Digest>,
                 names: seq<string>)
    requires i < |es.list| && es.list[i].name !in db.rows && Less(es.checksum, es.list[i].name)
    requires db.columns && !Mismatched(es, db) && forall n | n in db.rows :: db.rows[n].Some?
    requires Leads(es, only, s, At(s, id, db, UpCheck(i), done, names))
    ensures Leads(es, only, s, At(s, id, db, UpCommit(i), done, names))
  {
    Read(es, only, s, id, db, UpCheck(i), GateColumns(i), done, names);
    Read(es, only, s, id, db, GateColumns(i), GateScan(i, 0), done, names);
    forall h | 0 <= h < |es.list| ensures Agrees(es, db, h) {
    }
    GateScans(es, only, s, id, db, i, 0, done, names);
    Read(es, only, s, id, db, GateCount(i), UpCommit(i), done, names);
  }

  // The command gets to the commit of a migration that is due.
  lemma DueRuns(es: Catalog, only: set<string>, start: Database, s: State, id: nat, db: Database, k: nat,
                done: map<string, Digest>, names: seq<string>)
    requires WellFormed(es) && k < |es.list| && Underway(es, start, k, db, names, done)
    requires Due(es, start, k) && !Stops(es, start, k)
    requires Leads(es, only, s, At(s, id, db, UpCheck(k), done, names))
    ensures es.list[k].name !in db.rows
    ensures Leads(es, only, s, At(s, id, db, UpCommit(k), done, names))
  {
    NotYet(es, start, k, db);
    SpecialNamesDistinct(es);
    if Less(es.checksum, es.list[k].name) {
      GateReads(es, start, k, db);
      GateRuns(es, only, s, id, db, k, done, names);
    } else {
      UngatedRuns(es, only, s, id, db, k, done, names);
    }
  }

  lemma UngatedRuns(es: Catalog, only: set<string>, s: State, id: nat, db: Database, k: nat,
                    done: map<string, Digest>, names: seq<string>)
    requires k < |es.list| && es.list[k].name !in db.rows && !Less(es.checksum, es.list[k].name)
    requires es.list[k].name == es.releaseException ==> Effective(db, es.list[k])
    requires Leads(es, only, s, At(s, id, db, UpCheck(k), done, names))
    ensures Leads(es, only, s, At(s, id, db, UpCommit(k), done, names))
  {
    if es.list[k].name == es.releaseException {
      Read(es, only, s, id, db, UpCheck(k), UpApproval(k), done, names);
      Read(es, only, s, id, db, UpApproval(k), UpCommit(k), done, names);
    } else {
      Read(es, only, s, id, db, UpCheck(k), UpCommit(k), done, names);
    }
  }

  // What the loop has in hand after one more round.
  ghost predicate Carries(es: Catalog, only: set<string>, start: Database, s: State, id: nat, k: nat, db: Database,
                          done: map<string, Digest>)
  {
    && k <= |es.list| && Underway(es, start, k, db, DueNames(es, start, k), done)
    && Leads(es, only, s, At(s, id, db, UpCheck(k), done, DueNames(es, start, k)))
  }

  lemma SkipRuns(es: Catalog, only: set<string>, start: Database, s: State, id: nat, k: nat, db: Database,
                 done: map<string, Digest>, names: seq<string>)
    requires k < |es.list| && Underway(es, start, k, db, names, done) && Sorted(es)
    requires !Stops(es, start, k) && !Due(es, start, k)
    requires Leads(es, only, s, At(s, id, db, UpCheck(k), done, names))
    ensures Leads(es, only, s, At(s, id, db, UpCheck(k + 1), done, names))
  {
    NotYet(es, start, k, db);
    if es.list[k].name in db.rows {
      Read(es, only, s, id, db, UpCheck(k), UpCheck(k + 1), done, names);
    } else {
      UnapprovedRuns(es, only, s, id, k, db, done, names);
    }
  }

  lemma UnapprovedRuns(es: Catalog, only: set<string>, s: State, id: nat, k: nat, db: Database,
                       done: map<string, Digest>, names: seq<string>)
    requires k < |es.list| && Sorted(es) && es.list[k].name == es.releaseException
    requires es.releaseException !in db.rows && !Effective(db, es.list[k])
    requires Leads(es, only, s, At(s, id, db, UpCheck(k), done, names))
    ensures Leads(es, only, s, At(s, id, db, UpCheck(k + 1), done, names))
  {
    SpecialNamesDistinct(es);
    Read(es, only, s, id, db, UpCheck(k), UpApproval(k), done, names);
    Read(es, only, s, id, db, UpApproval(k), UpCheck(k + 1), done, names);
  }

  lemma SkipCarries(es: Catalog, only: set<string>, start: Database, s: State, id: nat, k: nat, db: Database,
                    done: map<string, Digest>)
    requires WellFormed(es) && k < |es.list| && Carries(es, only, start, s, id, k, db, done)
    requires !Stops(es, start, k) && !Due(es, start, k)
    ensures Carries(es, only, start, s, id, k + 1, db, done)
  {
    var names := DueNames(es, start, k);
    SkipRuns(es, only, start, s, id, k, db, done, names);
    UnderwaySkip(es, start, k, db, names, done);
    assert DueNames(es, start, k + 1) == names;
  }

  lemma PlainRuns(es: Catalog, only: set<string>, start: Database, s: State, id: nat, k: nat, db: Database,
                  done: map<string, Digest>, names: seq<string>)
    requires WellFormed(es) && k < |es.list| && Underway(es, start, k, db, names, done)
    requires !Stops(es, start, k) && Due(es, start, k) && es.list[k].name != es.checksum
    requires Leads(es, only, s, At(s, id, db, UpCheck(k), done, names))
    ensures var m := es.list[k];
            var after := At(s, id, ApplyTx(es, db, m), UpCheck(k + 1), done[m.name := m.Hash()], names + [m.name]);
            Leads(es, only, s, after)
  {
    DueRuns(es, only, start, s, id, db, k, done, names);
    Commit(es, only, s, id, db, k, false, UpCheck(k + 1), done, names);
  }

  lemma PlainUnderway(es: Catalog, start: Database, k: nat, db: Database, done: map<string, Digest>, names: seq<string>)
    requires WellFormed(es) && k < |es.list| && Underway(es, start, k, db, names, done)
    requires !Stops(es, start, k) && Due(es, start, k) && es.list[k].name != es.checksum
    ensures var m := es.list[k];
            Underway(es, start, k + 1, ApplyTx(es, db, m), names + [m.name], done[m.name := m.Hash()])
  {
    RanPlain(es, start, k, db, done);
  }

  lemma PlainCarries(es: Catalog, only: set<string>, start: Database, s: State, id: nat, k: nat, db: Database,
                     done: map<string, Digest>)
    requires WellFormed(es) && k < |es.list| && Carries(es, only, start, s, id, k, db, done)
    requires !Stops(es, start, k) && Due(es, start, k) && es.list[k].name != es.checksum
    ensures var m := es.list[k];
            Carries(es, only, start, s, id, k + 1, ApplyTx(es, db, m), done[m.name := m.Hash()])
  {
    var names := DueNames(es, start, k);
    PlainRuns(es, only, start, s, id, k, db, done, names);
    PlainUnderway(es, start, k, db, done, names);
    assert DueNames(es, start, k + 1) == names + [es.list[k].name];
  }

  lemma ChecksumRuns(es: Catalog, only: set<string>, s: State, id: nat, k: nat, db: Database,
                     done: map<string, Digest>, names: seq<string>, all: map<string, Digest>)
    requires k < |es.list| && es.list[k].name == es.checksum && es.checksum !in db.rows
    requires all == done[es.checksum := es.list[k].Hash()]
    requires Leads(es, only, s, At(s, id, db, UpCommit(k), done, names))
    ensures var added := ApplyTx(es, db, es.list[k]);
            var after := added.(rows := Filled(added.rows, all, all.Keys));
            Leads(es, only, s, At(s, id, after, UpCheck(k + 1), all, names + [es.checksum]))
  {
    assert all.Keys == done.Keys + {es.checksum};
    Commit(es, only, s, id, db, k, false, UpFill(k, all.Keys), done, names);
    Fillings(es, only, s, id, ApplyTx(es, db, es.list[k]), k, all.Keys, all, names + [es.checksum]);
  }

  lemma ChecksumCarries(es: Catalog, only: set<string>, start: Database, s: State, id: nat, k: nat, db: Database,
                        done: map<string, Digest>)
    returns (db': Database, done': map<string, Digest>)
    requires WellFormed(es) && k < |es.list| && Carries(es, only, start, s, id, k, db, done)
    requires !Stops(es, start, k) && Due(es, start, k) && es.list[k].name == es.checksum
    ensures Carries(es, only, start, s, id, k + 1, db', done')
  {
    var names := DueNames(es, start, k);
    done' := done[es.checksum := es.list[k].Hash()];
    DueRuns(es, only, start, s, id, db, k, done, names);
    ChecksumRuns(es, only, s, id, k, db, done, names, done');
    db' := FilledDb(es, db, k, done');
    ChecksumUnderway(es, start, k, db, done, names);
    assert DueNames(es, start, k + 1) == names + [es.checksum];
  }

  lemma ChecksumUnderway(es: Catalog, start: Database, k: nat, db: Database, done: map<string, Digest>,
                         names: seq<string>)
    requires WellFormed(es) && k < |es.list| && Underway(es, start, k, db, names, done)
    requires !Stops(es, start, k) && Due(es, start, k) && es.list[k].name == es.checksum
    ensures var all := done[es.checksum := es.list[k].Hash()];
            Underway(es, start, k + 1, FilledDb(es, db, k, all), names + [es.checksum], all)
  {
    var all := done[es.checksum := es.list[k].Hash()];
    FilledFacts(es, db, k, all);
    RanChecksum(es, start, k, db, done, FilledDb(es, db, k, all));
  }

  lemma FilledFacts(es: Catalog, db: Database, k: nat, all: map<string, Digest>)
    requires k < |es.list|
    ensures var added, after := ApplyTx(es, db, es.list[k]), FilledDb(es, db, k, all);
            && after == added.(rows := after.rows) && after.rows.Keys == added.rows.Keys
            && (forall n | n in after.rows ::
                  after.rows[n] == if n in all && added.rows[n].None? then Some(all[n]) else added.rows[n])
  {
  }

  // The checksum migration, with the hashes of this run filled in.
  function FilledDb(es: Catalog, db: Database, k: nat, all: map<string, Digest>): Database
    requires k < |es.list|
  {
    var added := ApplyTx(es, db, es.list[k]);
    added.(rows := Filled(added.rows, all, all.Keys))
  }

  lemma RoundCarries(es: Catalog, only: set<string>, start: Database, s: State, id: nat, k: nat, db: Database,
                     done: map<string, Digest>)
    returns (db': Database, done': map<string, Digest>)
    requires WellFormed(es) && k < |es.list| && Carries(es, only, start, s, id, k, db, done) && !Stops(es, start, k)
    ensures Carries(es, only, start, s, id, k + 1, db', done')
  {
    var m := es.list[k];
    if !Due(es, start, k) {
      SkipCarries(es, only, start, s, id, k, db, done);
      db', done' := db, done;
    } else if m.name != es.checksum {
      PlainCarries(es, only, start, s, id, k, db, done);
      db', done' := ApplyTx(es, db, m), done[m.name := m.Hash()];
    } else {
      db', done' := ChecksumCarries(es, only, start, s, id, k, db, done);
    }
  }

  // ---------- the whole command ----------

  lemma Begin(es: Catalog, only: set<string>, s: State, id: nat, at: Point)
    requires id !in s.commands
    requires at == UpStart || at == AttestColumns || (at.OneCheck? && at.i < |es.list| && es.list[at.i].name in only)
    ensures Leads(es, only, s, At(s, id, s.db, at, map[], []))
  {
    Stay(es, only, s);
    var first := At(s, id, s.db, at, map[], []);
    assert first == s.(commands := s.commands[id := Command(at, map[])]);
    assert StartsAs(es, only, s, first, id, at);
    Then(es, only, s, s, first);
  }

  lemma StartCarries(es: Catalog, only: set<string>, s: State, id: nat)
    requires id !in s.commands && Valid(s.db) && !Mismatched(es, s.db)
    ensures Carries(es, only, s.db, s, id, 0, s.db, map[])
  {
    Begin(es, only, s, id, UpStart);
    if s.db.columns {
      Read(es, only, s, id, s.db, UpStart, UpScan(0), map[], []);
      UpScans(es, only, s, id, s.db, 0);
    } else {
      Read(es, only, s, id, s.db, UpStart, UpCheck(0), map[], []);
    }
    UnderwayStart(es, s.db);
  }

  lemma LoopCarries(es: Catalog, only: set<string>, s: State, id: nat, k: nat)
    returns (db: Database, done: map<string, Digest>)
    requires WellFormed(es) && id !in s.commands && Valid(s.db) && !Mismatched(es, s.db)
    requires k <= |es.list| && forall j | 0 <= j < k :: !Stops(es, s.db, j)
    ensures Carries(es, only, s.db, s, id, k, db, done)
  {
    StartCarries(es, only, s, id);
    db, done := LoopFrom(es, only, s.db, s, id, 0, k, s.db, map[]);
  }

  ghost predicate Clear(es: Catalog, db: Database, k: nat)
    requires k <= |es.list|
  {
    forall j | 0 <= j < k :: !Stops(es, db, j)
  }

  lemma ClearAt(es: Catalog, db: Database, k: nat, p: nat)
    requires p < k <= |es.list| && Clear(es, db, k)
    ensures !Stops(es, db, p)
  {
  }

  lemma Advance(es: Catalog, only: set<string>, start: Database, s: State, id: nat, p: nat, db: Database,
                done: map<string, Digest>)
    returns (next: nat, db': Database, done': map<string, Digest>)
    requires WellFormed(es) && p < |es.list| && Carries(es, only, start, s, id, p, db, done) && !Stops(es, start, p)
    ensures next == p + 1 && Carries(es, only, start, s, id, next, db', done')
  {
    next := p + 1;
    db', done' := RoundCarries(es, only, start, s, id, p, db, done);
  }

  lemma {:induction false} LoopFrom(es: Catalog, only: set<string>, start: Database, s: State, id: nat, p: nat, k: nat,
                                    db: Database, done: map<string, Digest>)
    returns (db': Database, done': map<string, Digest>)
    requires WellFormed(es) && p <= k <= |es.list| && Carries(es, only, start, s, id, p, db, done)
    requires Clear(es, start, k)
    ensures Carries(es, only, start, s, id, k, db', done')
    decreases k - p
  {
    if p == k {
      db', done' := db, done;
    } else {
      ClearAt(es, start, k, p);
      var next, mid, more := Advance(es, only, start, s, id, p, db, done);
      db', done' := LoopFrom(es, only, start, s, id, next, k, mid, more);
    }
  }

  // The closed form leaves no choice.
  lemma ReachedOnce(es: Catalog, db: Database, k: nat, a: Database, b: Database)
    requires Sorted(es) && k <= |es.list| && Reached(es, db, k, a) && Reached(es, db, k, b)
    ensures a == b
  {
    assert a.rows.Keys == b.rows.Keys;
    forall n | n in a.rows ensures a.rows[n] == b.rows[n] {
      if n !in db.rows {
        assert DueAmong(es, db, k, n);
      }
    }
  }

  /** `Up`, from any state in which nobody else moves, is a run of the interleaved model: it ends
      with the database and, if it went through, the commits that the runner's `Up` is proved to
      leave behind. */
  lemma UpIsARun(es: Catalog, only: set<string>, s: State, id: nat, r: UpResult, after: Database)
    requires WellFormed(es) && Valid(s.db) && id !in s.commands && UpDone(es, s.db, r, after)
    ensures exists done, names :: Leads(es, only, s, At(s, id, after, Stopped, done, names))
                                  && (r.Applied? ==> names == r.names)
  {
    if Mismatched(es, s.db) {
      Begin(es, only, s, id, UpStart);
      Read(es, only, s, id, s.db, UpStart, Stopped, map[], []);
    } else {
      var k := if r.Applied? then |es.list| else r.at;
      var db, done := LoopCarries(es, only, s, id, k);
      ReachedOnce(es, s.db, k, db, after);
      Read(es, only, s, id, db, UpCheck(k), Stopped, done, DueNames(es, s.db, k));
    }
  }

  lemma OneReads(es: Catalog, only: set<string>, s: State, id: nat, i: nat)
    requires i < |es.list| && es.list[i].name in only && id !in s.commands
    requires es.list[i].name !in s.db.rows && Effective(s.db, es.list[i])
    ensures Leads(es, only, s, At(s, id, s.db, OneCommit(i), map[], []))
  {
    Begin(es, only, s, id, OneCheck(i));
    Read(es, only, s, id, s.db, OneCheck(i), OneApproval(i), map[], []);
    Read(es, only, s, id, s.db, OneApproval(i), OneCommit(i), map[], []);
  }

  /** `ApplyApproved` on its own is a run of the interleaved model as well. */
  lemma ApplyApprovedIsARun(es: Catalog, only: set<string>, s: State, id: nat, i: nat)
    requires i < |es.list| && es.list[i].name in only && id !in s.commands
    requires es.list[i].name !in s.db.rows && Effective(s.db, es.list[i])
    ensures var m := es.list[i];
            Leads(es, only, s, At(s, id, ApplyTx(es, s.db, m), Stopped, map[][m.name := m.Hash()], [] + [m.name]))
  {
    OneReads(es, only, s, id, i);
    Commit(es, only, s, id, s.db, i, true, Stopped, map[], []);
  }

  // And so is an attestation.
  lemma AttestIsARun(es: Catalog, only: set<string>, s: State, id: nat, after: Database)
    requires id !in s.commands && AttestTx(es, s.db, after)
    ensures Leads(es, only, s, At(s, id, after, Stopped, map[], []))
  {
    Begin(es, only, s, id, AttestColumns);
    Read(es, only, s, id, s.db, AttestColumns, AttestCommit, map[], []);
    var before, done := At(s, id, s.db, AttestCommit, map[], []), At(s, id, after, Stopped, map[], []);
    assert CommandStep(es, before, id, Command(Stopped, map[]), done);
    Then(es, only, s, before, done);
  }
}
