/**
 Importing a project's metadata: one transaction that replaces the project's imported index by
 the rows of a snapshot, under an idempotency key.

 Row ids are drawn from one counter. `payload` stands for the columns that are copied as they are.
 */
module Importer {

  import opened Wrappers

  // ---------- rows ----------

  datatype Version = Version(project: nat, title: string, imported: bool, payload: string)

  datatype Residual = Residual(project: nat, version: Option<nat>, key: string, imported: bool, payload: string)

  datatype Artifact = Artifact(project: nat, version: Option<nat>, run: Option<nat>, external: bool, payload: string)

  datatype Result = Result(
    projectKey: string, versions: int, residuals: int, artifacts: int, activeTasks: int, done: int, total: int,
    sourceHash: string, runID: int, created: bool)

  // The request hash stands for what it digests.
  datatype Command = Command(request: Content, response: Option<Result>)

  datatype Content = Content(projectKey: string, root: string, sourceHash: string, summary: string, actor: string,
      reason: string)

  datatype Key = Key(project: nat, text: string)

  datatype Db = Db(
    versions: map<nat, Version>, residuals: map<nat, Residual>, artifacts: map<nat, Artifact>,
    commands: map<Key, Command>, next: nat,
    finishedRuns: set<nat>, statuses: seq<(nat, string)>, events: seq<nat>, audits: seq<nat>)

  // ---------- the snapshot ----------

  datatype VersionIn = VersionIn(title: string, payload: string)

  datatype ResidualIn = ResidualIn(key: string, versionTitle: string, payload: string)

  datatype ArtifactIn = ArtifactIn(versionTitle: string, payload: string)

  datatype Snapshot = Snapshot(
    versions: seq<VersionIn>, residuals: seq<ResidualIn>, artifacts: seq<ArtifactIn>,
    activeTasks: int, done: int, total: int, content: Content)

  // `key` is the caller's idempotency key, or one drawn for this call.
  datatype Request = Request(project: nat, key: string, snapshot: Snapshot)

  // ---------- clearing ----------

  predicate Removed(db: Db, project: nat, v: nat) {
    v in db.versions && db.versions[v].project == project && db.versions[v].imported
  }

  predicate PointsAtRemoved(db: Db, project: nat, version: Option<nat>) {
    version.Some? && Removed(db, project, version.value)
  }

  // The three DELETE statements, with the foreign keys: residuals cascade, artifacts lose the link.
  function Cleared(db: Db, project: nat): Db {
    db.(artifacts := map a | a in db.artifacts && !(db.artifacts[a].project == project && db.artifacts[a].external) ::
                       if PointsAtRemoved(db, project, db.artifacts[a].version)
                           then db.artifacts[a].(version := None) else db.artifacts[a],
        residuals := map r | r in db.residuals && !(db.residuals[r].project == project && db.residuals[r].imported)
                             && !PointsAtRemoved(db, project, db.residuals[r].version) :: db.residuals[r],
        versions := map v | v in db.versions && !Removed(db, project, v) :: db.versions[v])
  }

  // ---------- inserting ----------

  predicate TitleTaken(versions: map<nat, Version>, project: nat, title: string) {
    exists v | v in versions :: versions[v].project == project && versions[v].title == title
  }

  predicate KeyTaken(residuals: map<nat, Residual>, project: nat, key: string) {
    exists r | r in residuals :: residuals[r].project == project && residuals[r].key == key
  }

  function VersionRow(project: nat, v: VersionIn): Version {
    Version(project, v.title, true, v.payload)
  }

  // The rows with a row added for each version, numbered from `first`.
  function WithVersions(rows: map<nat, Version>, project: nat, vs: seq<VersionIn>, first: nat): map<nat, Version> {
    if vs == [] then rows
    else
      var n := |vs| - 1;
      WithVersions(rows, project, vs[..n], first)[first + n := VersionRow(project, vs[n])]
  }

  // The id of the version inserted for each title.
  function Ids(vs: seq<VersionIn>, first: nat): map<string, nat> {
    if vs == [] then map[] else Ids(vs[..|vs| - 1], first)[vs[|vs| - 1].title := first + |vs| - 1]
  }

  function Link(ids: map<string, nat>, title: string): Option<nat> {
    if title in ids then Some(ids[title]) else None
  }

  function ResidualRow(project: nat, r: ResidualIn, ids: map<string, nat>): Residual {
    Residual(project, Link(ids, r.versionTitle), r.key, true, r.payload)
  }

  function WithResiduals(rows: map<nat, Residual>, project: nat, rs: seq<ResidualIn>, ids: map<string, nat>,
                         first: nat): map<nat, Residual> {
    if rs == [] then rows
    else
      var n := |rs| - 1;
      WithResiduals(rows, project, rs[..n], ids, first)[first + n := ResidualRow(project, rs[n], ids)]
  }

  function ArtifactRow(project: nat, x: ArtifactIn, ids: map<string, nat>, run: nat): Artifact {
    Artifact(project, Link(ids, x.versionTitle), Some(run), true, x.payload)
  }

  function WithArtifacts(rows: map<nat, Artifact>, project: nat, xs: seq<ArtifactIn>, ids: map<string, nat>,
                         run: nat, first: nat): map<nat, Artifact> {
    if xs == [] then rows
    else
      var n := |xs| - 1;
      WithArtifacts(rows, project, xs[..n], ids, run, first)[first + n := ArtifactRow(project, xs[n], ids, run)]
  }

  // The unique indexes reject a title or key that is there already, or that comes twice.
  predicate TitlesFree(versions: map<nat, Version>, project: nat, vs: seq<VersionIn>) {
    && (forall i | 0 <= i < |vs| :: !TitleTaken(versions, project, vs[i].title))
    && (forall i, j | 0 <= i < j < |vs| :: vs[i].title != vs[j].title)
  }

  predicate KeysFree(residuals: map<nat, Residual>, project: nat, rs: seq<ResidualIn>) {
    && (forall i | 0 <= i < |rs| :: !KeyTaken(residuals, project, rs[i].key))
    && (forall i, j | 0 <= i < j < |rs| :: rs[i].key != rs[j].key)
  }

  predicate Fresh(db: Db) {
    && (forall v | v in db.versions :: v < db.next)
    && (forall r | r in db.residuals :: r < db.next)
    && (forall a | a in db.artifacts :: a < db.next)
  }

  // ---------- the transaction ----------

  predicate Importable(db: Db, r: Request) {
    var cleared := Cleared(db, r.project);
    TitlesFree(cleared.versions, r.project, r.snapshot.versions) &&
        KeysFree(cleared.residuals, r.project, r.snapshot.residuals)
  }

  function ResultOf(r: Request, run: nat): Result {
    var s := r.snapshot;
    Result(s.content.projectKey, |s.versions|, |s.residuals|, |s.artifacts|, s.activeTasks, s.done, s.total,
           s.content.sourceHash, run, true)
  }

  // The run takes the first id, then come versions, residuals and artifacts.
  function FirstVersion(db: Db): nat {
    db.next + 1
  }

  function FirstResidual(db: Db, s: Snapshot): nat {
    FirstVersion(db) + |s.versions|
  }

  function FirstArtifact(db: Db, s: Snapshot): nat {
    FirstResidual(db, s) + |s.residuals|
  }

  function Replaced(db: Db, r: Request): Db {
    var s, cleared, ids := r.snapshot, Cleared(db, r.project), Ids(r.snapshot.versions, FirstVersion(db));
    cleared.(
      versions := WithVersions(cleared.versions, r.project, s.versions, FirstVersion(db)),
      residuals := WithResiduals(cleared.residuals, r.project, s.residuals, ids, FirstResidual(db, s)),
      artifacts := WithArtifacts(cleared.artifacts, r.project, s.artifacts, ids, db.next, FirstArtifact(db, s)),
      next := FirstArtifact(db, s) + |s.artifacts|)
  }

  // The run is finished, the status, event and audit event are recorded and the command is answered.
  function Imported(db: Db, r: Request): Db {
    var run := db.next;
    Replaced(db, r).(
      finishedRuns := db.finishedRuns + {run},
      statuses := db.statuses + [(r.project, r.snapshot.content.sourceHash)],
      events := db.events + [run],
      audits := db.audits + [run],
      commands := db.commands[Key(r.project, r.key) := Command(r.snapshot.content, Some(ResultOf(r, run)))])
  }

  // ---------- numbers ----------

  const EXACT := 0x20_0000_0000_0000  // 2 to the 53

  // The distance between neighbouring doubles around n.
  function Spacing(n: nat): (s: nat)
    ensures s >= 1
  {
    if n < EXACT then 1 else 2 * Spacing(n / 2)
  }

  // The nearest double, halves to the even neighbour.
  function Nearest(n: nat): nat {
    var s := Spacing(n);
    var q, r := n / s, n % s;
    if 2 * r < s || (2 * r == s && q % 2 == 0) then q * s else (q + 1) * s
  }

  // A stored number read back through a double.
  function ReadBack(n: int): int {
    if n < 0 then 0 - Nearest(-n) else Nearest(n)
  }

  function Abs(n: int): nat {
    if n < 0 then -n else n
  }

  // A number survives exactly when it is a multiple of the spacing of doubles at its size.
  lemma ReadBackExactly(n: int)
    ensures ReadBack(n) == n <==> Abs(n) % Spacing(Abs(n)) == 0
  {
    var m := Abs(n);
    var s := Spacing(m);
    assert m == (m / s) * s + m % s;
    if m % s == 0 {
      assert Nearest(m) == m;
    } else {
      assert ((m / s) + 1) * s == (m / s) * s + s;
      assert Nearest(m) != m;
    }
  }

  // Between neighbouring doubles lies the power of two that leaves 53 bits of the number.
  lemma {:induction false} SpacingExactly(n: nat)
    ensures n / Spacing(n) < EXACT && (n >= EXACT ==> n / Spacing(n) >= EXACT / 2)
    ensures n < EXACT <==> Spacing(n) == 1
  {
    if n >= EXACT {
      var s := Spacing(n / 2);
      SpacingExactly(n / 2);
      HalfDivides(n, s);
    }
  }

  lemma HalfDivides(n: nat, s: nat)
    requires s >= 1
    ensures n / (2 * s) == (n / 2) / s
  {
    var q, r := (n / 2) / s, (n / 2) % s;
    assert n / 2 == q * s + r;
    assert n == 2 * (n / 2) + n % 2;
    var rest := 2 * r + n % 2;
    assert n == q * (2 * s) + rest && 0 <= rest < 2 * s;
    Quotient(n, 2 * s, q, rest);
  }

  lemma TimesGrows(a: nat, b: nat, d: nat)
    requires a <= b
    ensures a * d <= b * d
  {
  }

  lemma Quotient(n: nat, d: nat, q: nat, r: nat)
    requires d >= 1 && n == q * d + r && r < d
    ensures n / d == q && n % d == r
  {
    var p := n / d;
    assert n == p * d + n % d;
    if p < q {
      TimesGrows(p + 1, q, d);
    } else if p > q {
      TimesGrows(q + 1, p, d);
    }
  }

  // The multiple that rounding picks.
  function Step(q: nat, r: nat, s: nat): nat {
    if 2 * r < s || (2 * r == s && q % 2 == 0) then q else q + 1
  }

  lemma StepIsNearest(n: nat, q: nat, r: nat, s: nat)
    requires s >= 1 && n == q * s + r && r < s
    ensures 2 * Abs(Step(q, r, s) * s - n) <= s
    ensures 2 * Abs(Step(q, r, s) * s - n) == s ==> Step(q, r, s) % 2 == 0
  {
    assert (q + 1) * s == q * s + s;
  }

  /** Reading back yields a multiple of that spacing, none is nearer, and of two equally near ones
      it is the even one. The sign is kept. */
  lemma ReadBackIsNearest(n: nat)
    ensures ReadBack(n) % Spacing(n) == 0 && ReadBack(0 - n) == 0 - ReadBack(n)
    ensures 2 * Abs(ReadBack(n) - n) <= Spacing(n)
    ensures 2 * Abs(ReadBack(n) - n) == Spacing(n) ==> (ReadBack(n) / Spacing(n)) % 2 == 0
  {
    NearestSteps(n);
    Rounded(n, Spacing(n), Step(n / Spacing(n), n % Spacing(n), Spacing(n)), Nearest(n));
  }

  lemma NearestSteps(n: nat)
    ensures Nearest(n) == Step(n / Spacing(n), n % Spacing(n), Spacing(n)) * Spacing(n)
  {
  }

  lemma Rounded(n: nat, s: nat, m: nat, x: nat)
    requires s >= 1 && m == Step(n / s, n % s, s) && x == m * s
    ensures x % s == 0 && x / s == m && 2 * Abs(x - n) <= s && (2 * Abs(x - n) == s ==> m % 2 == 0)
  {
    StepIsNearest(n, n / s, n % s, s);
    Quotient(x, s, m, 0);
  }

  // So every number up to 2 to the 53 survives, and the next one does not.
  lemma SmallNumbersSurvive(n: int)
    requires -EXACT <= n <= EXACT
    ensures ReadBack(n) == n
  {
    ReadBackExactly(n);
    assert Spacing(EXACT / 2) == 1;
  }

  lemma FirstLostNumber()
    ensures ReadBack(EXACT + 1) == EXACT
  {
    assert Spacing((EXACT + 1) / 2) == 1;
    assert Spacing(EXACT + 1) == 2;
    assert (EXACT + 1) % 2 == 1 && (EXACT + 1) / 2 == EXACT / 2;
    assert (EXACT / 2) % 2 == 0;
  }

  function Replay(r: Result): Result {
    Result(r.projectKey, ReadBack(r.versions), ReadBack(r.residuals), ReadBack(r.artifacts), ReadBack(r.activeTasks),
           ReadBack(r.done), ReadBack(r.total), r.sourceHash, ReadBack(r.runID), false)
  }

  // ---------- outcomes ----------

  datatype Outcome = Conflict | Incomplete | ConstraintViolated | Answer(result: Result)

  function Import(db: Db, r: Request): (Db, Outcome) {
    var key := Key(r.project, r.key);
    if key in db.commands then
      if db.commands[key].request != r.snapshot.content then (db, Conflict)
      else if db.commands[key].response == None then (db, Incomplete)
      else (db, Answer(Replay(db.commands[key].response.value)))
    else if !Importable(db, r) then (db, ConstraintViolated)
    else (Imported(db, r), Answer(ResultOf(r, db.next)))
  }

  // ---------- the store ----------

  class Store {
    var db: Db

    method HasTitle(versions: map<nat, Version>, project: nat, title: string) returns (taken: bool)
      ensures taken <==> TitleTaken(versions, project, title)
    {
      var left := versions.Keys;
      while left != {}
        invariant left <= versions.Keys
        invariant forall v | v in versions && v !in left ::
                  !(versions[v].project == project && versions[v].title == title)
        decreases |left|
      {
        var v :| v in left;
        if versions[v].project == project && versions[v].title == title {
          return true;
        }
        left := left - {v};
      }
      return false;
    }

    method HasKey(residuals: map<nat, Residual>, project: nat, key: string) returns (taken: bool)
      ensures taken <==> KeyTaken(residuals, project, key)
    {
      var left := residuals.Keys;
      while left != {}
        invariant left <= residuals.Keys
        invariant forall r | r in residuals && r !in left ::
                  !(residuals[r].project == project && residuals[r].key == key)
        decreases |left|
      {
        var r :| r in left;
        if residuals[r].project == project && residuals[r].key == key {
          return true;
        }
        left := left - {r};
      }
      return false;
    }

    // The loop over versions, filling the map from titles to ids.
    method InsertVersions(start: map<nat, Version>, project: nat, vs: seq<VersionIn>, first: nat)
      returns (ok: bool, rows: map<nat, Version>, ids: map<string, nat>)
      requires forall v | v in start :: v < first
      ensures ok <==> TitlesFree(start, project, vs)
      ensures ok ==> rows == WithVersions(start, project, vs, first) && ids == Ids(vs, first)
    {
      ok, rows, ids := true, start, map[];
      for i := 0 to |vs|
        invariant TitlesFree(start, project, vs[..i])
        invariant rows == WithVersions(start, project, vs[..i], first)
        invariant ids == Ids(vs[..i], first)
      {
        assert vs[..i + 1][..i] == vs[..i];
        TitleAdded(start, project, vs[..i], first, vs[i].title);
        var taken := HasTitle(rows, project, vs[i].title);
        NextTitle(start, project, vs, i, taken);
        if taken {
          return false, rows, ids;
        }
        rows := rows[first + i := VersionRow(project, vs[i])];
        ids := ids[vs[i].title := first + i];
      }
      assert vs[..|vs|] == vs;
    }

    method InsertResiduals(start: map<nat, Residual>, project: nat, rs: seq<ResidualIn>, ids: map<string, nat>,
                           first: nat)
      returns (ok: bool, rows: map<nat, Residual>)
      requires forall r | r in start :: r < first
      ensures ok <==> KeysFree(start, project, rs)
      ensures ok ==> rows == WithResiduals(start, project, rs, ids, first)
    {
      ok, rows := true, start;
      for i := 0 to |rs|
        invariant KeysFree(start, project, rs[..i])
        invariant rows == WithResiduals(start, project, rs[..i], ids, first)
      {
        assert rs[..i + 1][..i] == rs[..i];
        KeyAdded(start, project, rs[..i], ids, first, rs[i].key);
        var taken := HasKey(rows, project, rs[i].key);
        NextKey(start, project, rs, i, taken);
        if taken {
          return false, rows;
        }
        rows := rows[first + i := ResidualRow(project, rs[i], ids)];
      }
      assert rs[..|rs|] == rs;
    }

    method InsertArtifacts(start: map<nat, Artifact>, project: nat, xs: seq<ArtifactIn>, ids: map<string, nat>,
                           run: nat, first: nat)
      returns (rows: map<nat, Artifact>)
      ensures rows == WithArtifacts(start, project, xs, ids, run, first)
    {
      rows := start;
      for i := 0 to |xs|
        invariant rows == WithArtifacts(start, project, xs[..i], ids, run, first)
      {
        assert xs[..i + 1][..i] == xs[..i];
        rows := rows[first + i := ArtifactRow(project, xs[i], ids, run)];
      }
      assert xs[..|xs|] == xs;
    }

    // Clearing the index and inserting the snapshot's rows.
    method Replace(r: Request) returns (ok: bool, work: Db)
      requires Fresh(db)
      ensures ok <==> Importable(db, r)
      ensures ok ==> work == Replaced(db, r)
    {
      var s, run := r.snapshot, db.next;
      work := Cleared(db, r.project);
      var versions, residuals, ids;
      ok, versions, ids := InsertVersions(work.versions, r.project, s.versions, run + 1);
      if !ok {
        return;
      }
      ok, residuals := InsertResiduals(work.residuals, r.project, s.residuals, ids, run + 1 + |s.versions|);
      if !ok {
        return;
      }
      var artifacts := InsertArtifacts(work.artifacts, r.project, s.artifacts, ids, run,
          run + 1 + |s.versions| + |s.residuals|);
      work := work.(versions := versions, residuals := residuals, artifacts := artifacts,
                    next := run + 1 + |s.versions| + |s.residuals| + |s.artifacts|);
    }

    // Nothing is kept of a transaction that fails.
    method ImportProject(r: Request) returns (out: Outcome)
      requires Fresh(db)
      modifies this
      ensures (db, out) == Import(old(db), r)
    {
      var key := Key(r.project, r.key);
      if key in db.commands {
        if db.commands[key].request != r.snapshot.content {
          return Conflict;
        }
        match db.commands[key].response
        case None => return Incomplete;
        case Some(stored) => return Answer(Replay(stored));
      }
      var run := db.next;
      var ok, work := Replace(r);
      if !ok {
        return ConstraintViolated;
      }
      var s := r.snapshot;
      var result := Result(s.content.projectKey, |s.versions|, |s.residuals|, |s.artifacts|, s.activeTasks, s.done,
                           s.total, s.content.sourceHash, run, true);
      db := work.(finishedRuns := work.finishedRuns + {run},
                  statuses := work.statuses + [(r.project, s.content.sourceHash)],
                  events := work.events + [run], audits := work.audits + [run],
                  commands := work.commands[key := Command(s.content, Some(result))]);
      return Answer(result);
    }
  }

  // ---------- the rows inserted ----------

  lemma {:induction false} VersionsAdded(rows: map<nat, Version>, project: nat, vs: seq<VersionIn>, first: nat, id: nat)
    requires forall v | v in rows :: v < first
    ensures id in WithVersions(rows, project, vs, first) <==> id in rows || first <= id < first + |vs|
    ensures id in rows ==> WithVersions(rows, project, vs, first)[id] == rows[id]
    ensures first <= id < first + |vs| ==>
              WithVersions(rows, project, vs, first)[id] == VersionRow(project, vs[id - first])
  {
    if vs != [] {
      VersionsAdded(rows, project, vs[..|vs| - 1], first, id);
    }
  }

  lemma {:induction false} ResidualsAdded(rows: map<nat, Residual>, project: nat, rs: seq<ResidualIn>,
                                          ids: map<string, nat>, first: nat, id: nat)
    requires forall r | r in rows :: r < first
    ensures id in WithResiduals(rows, project, rs, ids, first) <==> id in rows || first <= id < first + |rs|
    ensures id in rows ==> WithResiduals(rows, project, rs, ids, first)[id] == rows[id]
    ensures first <= id < first + |rs| ==>
              WithResiduals(rows, project, rs, ids, first)[id] == ResidualRow(project, rs[id - first], ids)
  {
    if rs != [] {
      ResidualsAdded(rows, project, rs[..|rs| - 1], ids, first, id);
    }
  }

  lemma {:induction false} ArtifactsAdded(rows: map<nat, Artifact>, project: nat, xs: seq<ArtifactIn>,
                                          ids: map<string, nat>, run: nat, first: nat, id: nat)
    requires forall a | a in rows :: a < first
    ensures id in WithArtifacts(rows, project, xs, ids, run, first) <==> id in rows || first <= id < first + |xs|
    ensures id in rows ==> WithArtifacts(rows, project, xs, ids, run, first)[id] == rows[id]
    ensures first <= id < first + |xs| ==>
              WithArtifacts(rows, project, xs, ids, run, first)[id] == ArtifactRow(project, xs[id - first], ids, run)
  {
    if xs != [] {
      ArtifactsAdded(rows, project, xs[..|xs| - 1], ids, run, first, id);
    }
  }

  // A title maps to the row inserted for it.
  lemma {:induction false} IdsFound(vs: seq<VersionIn>, first: nat, title: string)
    ensures title in Ids(vs, first) <==> exists i | 0 <= i < |vs| :: vs[i].title == title
    ensures title in Ids(vs, first) ==>
              var i := Ids(vs, first)[title] - first; 0 <= i < |vs| && vs[i].title == title
  {
    if vs != [] {
      var n := |vs| - 1;
      IdsFound(vs[..n], first, title);
      assert forall i | 0 <= i < n :: vs[..n][i] == vs[i];
    }
  }

  predicate TitleIn(vs: seq<VersionIn>, title: string) {
    exists j | 0 <= j < |vs| :: vs[j].title == title
  }

  lemma TitleAdded(start: map<nat, Version>, project: nat, vs: seq<VersionIn>, first: nat, title: string)
    requires forall v | v in start :: v < first
    ensures TitleTaken(WithVersions(start, project, vs, first), project, title) <==>
              TitleTaken(start, project, title) || TitleIn(vs, title)
  {
    var rows := WithVersions(start, project, vs, first);
    if v :| v in start && start[v].project == project && start[v].title == title {
      VersionsAdded(start, project, vs, first, v);
    }
    if j :| 0 <= j < |vs| && vs[j].title == title {
      VersionsAdded(start, project, vs, first, first + j);
    }
    if v :| v in rows && rows[v].project == project && rows[v].title == title {
      VersionsAdded(start, project, vs, first, v);
    }
  }

  lemma NextTitle(start: map<nat, Version>, project: nat, vs: seq<VersionIn>, i: nat, taken: bool)
    requires i < |vs| && TitlesFree(start, project, vs[..i])
    requires taken <==> TitleTaken(start, project, vs[i].title) || TitleIn(vs[..i], vs[i].title)
    ensures taken ==> !TitlesFree(start, project, vs)
    ensures !taken ==> TitlesFree(start, project, vs[..i + 1])
  {
    assert forall j | 0 <= j < i :: vs[..i][j] == vs[j];
  }

  predicate KeyIn(rs: seq<ResidualIn>, key: string) {
    exists j | 0 <= j < |rs| :: rs[j].key == key
  }

  lemma KeyAdded(start: map<nat, Residual>, project: nat, rs: seq<ResidualIn>, ids: map<string, nat>, first: nat,
                 key: string)
    requires forall r | r in start :: r < first
    ensures KeyTaken(WithResiduals(start, project, rs, ids, first), project, key) <==>
              KeyTaken(start, project, key) || KeyIn(rs, key)
  {
    var rows := WithResiduals(start, project, rs, ids, first);
    if r :| r in start && start[r].project == project && start[r].key == key {
      ResidualsAdded(start, project, rs, ids, first, r);
    }
    if j :| 0 <= j < |rs| && rs[j].key == key {
      ResidualsAdded(start, project, rs, ids, first, first + j);
    }
    if r :| r in rows && rows[r].project == project && rows[r].key == key {
      ResidualsAdded(start, project, rs, ids, first, r);
    }
  }

  lemma NextKey(start: map<nat, Residual>, project: nat, rs: seq<ResidualIn>, i: nat, taken: bool)
    requires i < |rs| && KeysFree(start, project, rs[..i])
    requires taken <==> KeyTaken(start, project, rs[i].key) || KeyIn(rs[..i], rs[i].key)
    ensures taken ==> !KeysFree(start, project, rs)
    ensures !taken ==> KeysFree(start, project, rs[..i + 1])
  {
    assert forall j | 0 <= j < i :: rs[..i][j] == rs[j];
  }

  // ---------- what an import replaces ----------

  predicate ImportedResidual(db: Db, project: nat, id: nat) {
    id in db.residuals && db.residuals[id].project == project && db.residuals[id].imported
  }

  predicate ImportedArtifact(db: Db, project: nat, id: nat) {
    id in db.artifacts && db.artifacts[id].project == project && db.artifacts[id].external
  }

  // The link leads to the imported version with this title, or there is none.
  predicate LinkedByTitle(db: Db, project: nat, version: Option<nat>, title: string) {
    match version
    case Some(v) => Removed(db, project, v) && db.versions[v].title == title
    case None => forall v | v in db.versions && Removed(db, project, v) :: db.versions[v].title != title
  }

  /** The project's imported versions are replaced by the snapshot's, one row each, and no
      other version is touched. */
  lemma VersionsReplaced(db: Db, r: Request, id: nat)
    requires Fresh(db)
    ensures var db', first := Imported(db, r), FirstVersion(db);
            && (Removed(db', r.project, id) <==> first <= id < first + |r.snapshot.versions|)
            && (Removed(db', r.project, id) ==>
                  var v := r.snapshot.versions[id - first];
                  db'.versions[id] == Version(r.project, v.title, true, v.payload))
            && (id in db'.versions && !Removed(db', r.project, id) <==>
                  id in db.versions && !Removed(db, r.project, id))
            && (id in db'.versions && !Removed(db', r.project, id) ==> db'.versions[id] == db.versions[id])
  {
    VersionsAdded(Cleared(db, r.project).versions, r.project, r.snapshot.versions, FirstVersion(db), id);
  }

  lemma LinksByTitle(db: Db, r: Request, title: string)
    requires Fresh(db)
    ensures LinkedByTitle(Imported(db, r), r.project, Link(Ids(r.snapshot.versions, FirstVersion(db)), title), title)
  {
    var vs, first, db' := r.snapshot.versions, FirstVersion(db), Imported(db, r);
    IdsFound(vs, first, title);
    if title in Ids(vs, first) {
      VersionsReplaced(db, r, Ids(vs, first)[title]);
    } else {
      forall v | v in db'.versions && Removed(db', r.project, v) ensures db'.versions[v].title != title {
        VersionsReplaced(db, r, v);
      }
    }
  }

  /** The project's imported residuals are replaced by the snapshot's, each linked to the
      version inserted for its title or to none. The others stay, unless a foreign key took
      them away with an imported version. */
  lemma ResidualsReplaced(db: Db, r: Request, id: nat)
    requires Fresh(db)
    ensures var db', first, rs := Imported(db, r), FirstResidual(db, r.snapshot), r.snapshot.residuals;
            && (ImportedResidual(db', r.project, id) <==> first <= id < first + |rs|)
            && (ImportedResidual(db', r.project, id) ==>
                  && db'.residuals[id].key == rs[id - first].key && db'.residuals[id].payload == rs[id - first].payload
                  && LinkedByTitle(db', r.project, db'.residuals[id].version, rs[id - first].versionTitle))
            && (id in db'.residuals && !ImportedResidual(db', r.project, id) <==>
                  id in db.residuals && !ImportedResidual(db, r.project, id) &&
                      !PointsAtRemoved(db, r.project, db.residuals[id].version))
            && (id in db'.residuals && !ImportedResidual(db', r.project, id) ==> db'.residuals[id] == db.residuals[id])
  {
    var ids, first, rs := Ids(r.snapshot.versions, FirstVersion(db)), FirstResidual(db, r.snapshot),
        r.snapshot.residuals;
    ResidualsAdded(Cleared(db, r.project).residuals, r.project, rs, ids, first, id);
    if first <= id < first + |rs| {
      LinksByTitle(db, r, rs[id - first].versionTitle);
    }
  }

  /** Likewise for external artifacts; the other artifacts stay and lose only a link to a version
      that is gone. */
  lemma ArtifactsReplaced(db: Db, r: Request, id: nat)
    requires Fresh(db)
    ensures var db', first, xs := Imported(db, r), FirstArtifact(db, r.snapshot), r.snapshot.artifacts;
            && (ImportedArtifact(db', r.project, id) <==> first <= id < first + |xs|)
            && (ImportedArtifact(db', r.project, id) ==>
                  && db'.artifacts[id].payload == xs[id - first].payload && db'.artifacts[id].run == Some(db.next)
                  && LinkedByTitle(db', r.project, db'.artifacts[id].version, xs[id - first].versionTitle))
            && (id in db'.artifacts && !ImportedArtifact(db', r.project, id) <==>
                  id in db.artifacts && !ImportedArtifact(db, r.project, id))
            && (id in db'.artifacts && !ImportedArtifact(db', r.project, id) ==>
                  db'.artifacts[id] == if PointsAtRemoved(db, r.project, db.artifacts[id].version)
                                       then db.artifacts[id].(version := None) else db.artifacts[id])
  {
    var ids, first, xs := Ids(r.snapshot.versions, FirstVersion(db)), FirstArtifact(db, r.snapshot),
        r.snapshot.artifacts;
    ArtifactsAdded(Cleared(db, r.project).artifacts, r.project, xs, ids, db.next, first, id);
    if first <= id < first + |xs| {
      LinksByTitle(db, r, xs[id - first].versionTitle);
    }
  }

  function ImportedVersions(db: Db, project: nat): set<nat> {
    set v | v in db.versions && Removed(db, project, v)
  }

  function ImportedResiduals(db: Db, project: nat): set<nat> {
    set v | v in db.residuals && ImportedResidual(db, project, v)
  }

  function ImportedArtifacts(db: Db, project: nat): set<nat> {
    set v | v in db.artifacts && ImportedArtifact(db, project, v)
  }

  lemma {:induction false} RangeSize(s: set<nat>, first: nat, n: nat)
    requires forall i :: i in s <==> first <= i < first + n
    ensures |s| == n
  {
    if n > 0 {
      var last := first + n - 1;
      RangeSize(s - {last}, first, n - 1);
    } else {
      assert s == {};
    }
  }

  /** The answer to a fresh import tells what is in the tables: as many imported versions, residuals
      and external artifacts as the project now has, and the run that is finished, with one
      status, one event and one audit event of it. Its task figures are the snapshot's. */
  lemma AnswerCountsRows(db: Db, r: Request)
    requires Fresh(db) && Key(r.project, r.key) !in db.commands && Import(db, r).1.Answer?
    ensures var (db', out) := Import(db, r);
            && out.result.versions == |ImportedVersions(db', r.project)|
            && out.result.residuals == |ImportedResiduals(db', r.project)|
            && out.result.artifacts == |ImportedArtifacts(db', r.project)|
            && out.result.created && out.result.projectKey == r.snapshot.content.projectKey
            && out.result.sourceHash == r.snapshot.content.sourceHash
            && out.result.activeTasks == r.snapshot.activeTasks
            && out.result.done == r.snapshot.done && out.result.total == r.snapshot.total
            && (forall id | ImportedArtifact(db', r.project, id) :: db'.artifacts[id].run == Some(out.result.runID))
            && db'.finishedRuns == db.finishedRuns + {out.result.runID}
            && db'.statuses == db.statuses + [(r.project, out.result.sourceHash)]
            && db'.events == db.events + [out.result.runID] && db'.audits == db.audits + [out.result.runID]
            && db'.commands == db.commands[Key(r.project, r.key) := Command(r.snapshot.content, Some(out.result))]
  {
    var db', s := Imported(db, r), r.snapshot;
    forall id: nat
      ensures id in ImportedVersions(db', r.project) <==> FirstVersion(db) <= id < FirstVersion(db) + |s.versions|
    {
      VersionsReplaced(db, r, id);
    }
    forall id: nat
      ensures id in ImportedResiduals(db', r.project) <==>
                FirstResidual(db, s) <= id < FirstResidual(db, s) + |s.residuals|
    {
      ResidualsReplaced(db, r, id);
    }
    forall id: nat
      ensures id in ImportedArtifacts(db', r.project) <==>
                FirstArtifact(db, s) <= id < FirstArtifact(db, s) + |s.artifacts|
      ensures ImportedArtifact(db', r.project, id) ==> db'.artifacts[id].run == Some(db.next)
    {
      ArtifactsReplaced(db, r, id);
    }
    RangeSize(ImportedVersions(db', r.project), FirstVersion(db), |s.versions|);
    RangeSize(ImportedResiduals(db', r.project), FirstResidual(db, s), |s.residuals|);
    RangeSize(ImportedArtifacts(db', r.project), FirstArtifact(db, s), |s.artifacts|);
  }

  /** A fresh import goes through exactly when the snapshot repeats no title and no key, and takes
      none that a version or residual of the project has which the import does not replace. */
  lemma ImportableExactly(db: Db, r: Request)
    requires Key(r.project, r.key) !in db.commands
    ensures Import(db, r).1 == ConstraintViolated <==> !Import(db, r).1.Answer?
    ensures Import(db, r).1.Answer? <==>
              && (forall i, j | 0 <= i < j < |r.snapshot.versions| ::
                    r.snapshot.versions[i].title != r.snapshot.versions[j].title)
              && (forall i, j | 0 <= i < j < |r.snapshot.residuals| ::
                    r.snapshot.residuals[i].key != r.snapshot.residuals[j].key)
              && (forall i, v | 0 <= i < |r.snapshot.versions| && v in db.versions ::
                    db.versions[v].project == r.project && db.versions[v].title == r.snapshot.versions[i].title ==>
                    db.versions[v].imported)
              && (forall i, d | 0 <= i < |r.snapshot.residuals| && d in db.residuals ::
                    db.residuals[d].project == r.project && db.residuals[d].key == r.snapshot.residuals[i].key ==>
                    db.residuals[d].imported || PointsAtRemoved(db, r.project, db.residuals[d].version))
    ensures !Import(db, r).1.Answer? ==> Import(db, r).0 == db
  {
    var cleared := Cleared(db, r.project);
    forall i | 0 <= i < |r.snapshot.versions|
      ensures TitleTaken(cleared.versions, r.project, r.snapshot.versions[i].title) <==>
                exists v | v in db.versions ::
                  db.versions[v].project == r.project && db.versions[v].title == r.snapshot.versions[i].title
                  && !db.versions[v].imported
    {
      if v :| v in db.versions && db.versions[v].project == r.project
              && db.versions[v].title == r.snapshot.versions[i].title && !db.versions[v].imported {
        assert v in cleared.versions;
      }
    }
    forall i | 0 <= i < |r.snapshot.residuals|
      ensures KeyTaken(cleared.residuals, r.project, r.snapshot.residuals[i].key) <==>
                exists d | d in db.residuals ::
                  db.residuals[d].project == r.project && db.residuals[d].key == r.snapshot.residuals[i].key
                  && !db.residuals[d].imported && !PointsAtRemoved(db, r.project, db.residuals[d].version)
    {
      if d :| d in db.residuals && db.residuals[d].project == r.project
              && db.residuals[d].key == r.snapshot.residuals[i].key && !db.residuals[d].imported
              && !PointsAtRemoved(db, r.project, db.residuals[d].version) {
        assert d in cleared.residuals;
      }
    }
  }

  /** Only imported residuals are lost exactly when no other residual hangs on an imported
      version of the project. */
  lemma OnlyImportedLostExactly(db: Db, r: Request)
    requires Fresh(db)
    ensures (forall id | id in db.residuals && !ImportedResidual(db, r.project, id) ::
              id in Imported(db, r).residuals) <==>
            (forall id | id in db.residuals && !ImportedResidual(db, r.project, id) ::
                !PointsAtRemoved(db, r.project, db.residuals[id].version))
  {
    forall id: nat | id in db.residuals && !ImportedResidual(db, r.project, id)
      ensures id in Imported(db, r).residuals <==> !PointsAtRemoved(db, r.project, db.residuals[id].version)
    {
      ResidualsReplaced(db, r, id);
    }
  }

  /** The condition can fail only for rows that something else has put there: no import inserts
      such a residual, but one entered directly in SQL on an imported version goes with it. */
  lemma AuthoredResidualCanBeLost(db: Db, r: Request)
    requires db.versions == map[0 := Version(r.project, "v1", true, "")] && db.next == 2
    requires db.residuals == map[1 := Residual(r.project, Some(0), "by hand", false, "")] && db.artifacts == map[]
    ensures Fresh(db) && !ImportedResidual(db, r.project, 1) && 1 !in Imported(db, r).residuals
  {
    ResidualsReplaced(db, r, 1);
  }

  // ---------- runs of imports ----------

  function After(db: Db, rs: seq<Request>): Db {
    if rs == [] then db else Import(After(db, rs[..|rs| - 1]), rs[|rs| - 1]).0
  }

  const EMPTY := Db(map[], map[], map[], map[], 0, {}, [], [], [])

  // A residual is imported, and its version, if any, is there and of the same project.
  predicate OwnLink(db: Db, id: nat)
    requires id in db.residuals
  {
    var r := db.residuals[id];
    r.imported && (r.version.Some? ==>
        r.version.value in db.versions && db.versions[r.version.value].project == r.project)
  }

  // What holds in every state that imports can reach.
  predicate Inv(db: Db) {
    && Fresh(db)
    && (forall id | id in db.residuals :: OwnLink(db, id))
    && (forall key | key in db.commands :: db.commands[key].response.Some?)
  }

  // Ids stay fresh, so imports can follow each other.
  lemma ImportKeepsFresh(db: Db, r: Request)
    requires Fresh(db)
    ensures Fresh(Imported(db, r))
  {
    var db' := Imported(db, r);
    forall id | id in db'.versions ensures id < db'.next {
      VersionsReplaced(db, r, id);
    }
    forall id | id in db'.residuals ensures id < db'.next {
      ResidualsReplaced(db, r, id);
    }
    forall id | id in db'.artifacts ensures id < db'.next {
      ArtifactsReplaced(db, r, id);
    }
  }

  lemma ImportKeepsLinks(db: Db, r: Request, id: nat)
    requires Inv(db) && id in Imported(db, r).residuals
    ensures OwnLink(Imported(db, r), id)
  {
    var db' := Imported(db, r);
    ResidualsReplaced(db, r, id);
    if ImportedResidual(db', r.project, id) {
      if db'.residuals[id].version.Some? {
        assert Removed(db', r.project, db'.residuals[id].version.value);
      }
    } else {
      assert OwnLink(db, id);
      if db.residuals[id].version.Some? {
        VersionsReplaced(db, r, db.residuals[id].version.value);
      }
    }
  }

  lemma ImportKeepsInv(db: Db, r: Request)
    requires Inv(db)
    ensures Inv(Import(db, r).0)
  {
    ImportKeepsFresh(db, r);
    var db' := Imported(db, r);
    forall id | id in db'.residuals ensures OwnLink(db', id) {
      ImportKeepsLinks(db, r, id);
    }
  }

  lemma {:induction false} AlwaysInv(db: Db, rs: seq<Request>)
    requires Inv(db)
    ensures Inv(After(db, rs))
  {
    if rs != [] {
      AlwaysInv(db, rs[..|rs| - 1]);
      ImportKeepsInv(After(db, rs[..|rs| - 1]), rs[|rs| - 1]);
    }
  }

  /** In every state that imports of any projects reach, the next import loses no residual but
      the project's own imported ones, and no command is left without an answer. */
  lemma RunsLoseOnlyImported(rs: seq<Request>, r: Request)
    ensures var db := After(EMPTY, rs);
            && (forall id | id in db.residuals && !ImportedResidual(db, r.project, id) ::
                  id in Imported(db, r).residuals && Imported(db, r).residuals[id] == db.residuals[id])
            && !Import(db, r).1.Incomplete?
  {
    var db := After(EMPTY, rs);
    AlwaysInv(EMPTY, rs);
    forall id: nat | id in db.residuals && !ImportedResidual(db, r.project, id)
      ensures id in Imported(db, r).residuals && Imported(db, r).residuals[id] == db.residuals[id]
    {
      assert OwnLink(db, id);
      ResidualsReplaced(db, r, id);
    }
  }

  // ---------- retries ----------

  predicate NumbersExact(r: Result) {
    && ReadBack(r.versions) == r.versions && ReadBack(r.residuals) == r.residuals &&
          ReadBack(r.artifacts) == r.artifacts
    && ReadBack(r.activeTasks) == r.activeTasks && ReadBack(r.done) == r.done && ReadBack(r.total) == r.total
    && ReadBack(r.runID) == r.runID
  }

  lemma NoCommandChanges(db: Db, r: Request, key: Key)
    requires key in db.commands
    ensures key in Import(db, r).0.commands && Import(db, r).0.commands[key] == db.commands[key]
  {
  }

  // A command outlives every run of imports.
  lemma {:induction false} CommandsSurvive(db: Db, rs: seq<Request>, key: Key)
    requires key in db.commands
    ensures key in After(db, rs).commands && After(db, rs).commands[key] == db.commands[key]
  {
    if rs != [] {
      CommandsSurvive(db, rs[..|rs| - 1], key);
      NoCommandChanges(After(db, rs[..|rs| - 1]), rs[|rs| - 1], key);
    }
  }

  /** After a fresh import and any number of imports of any projects: a request under the same
      key changes nothing; with the same hash it answers with the first result, marked as not
      created, exactly when that result's numbers survive storage; with another hash it is a
      conflict. */
  lemma RetryReplays(db: Db, r: Request, between: seq<Request>, again: Request)
    requires Key(r.project, r.key) !in db.commands && Import(db, r).1.Answer?
    requires again.project == r.project && again.key == r.key
    ensures var later := After(Import(db, r).0, between);
            && Import(later, again).0 == later
            && (again.snapshot.content != r.snapshot.content ==> Import(later, again).1 == Conflict)
            && (again.snapshot.content == r.snapshot.content ==>
                  && Import(later, again).1.Answer?
                  && (Import(later, again).1.result == Import(db, r).1.result.(created := false) <==>
                        NumbersExact(Import(db, r).1.result)))
  {
    CommandsSurvive(Import(db, r).0, between, Key(r.project, r.key));
  }

  // A count past 2 to the 53 is one that a replay gets wrong.
  lemma LargeCountsAreLost(r: Result)
    requires r.total == EXACT + 1
    ensures !NumbersExact(r) && Replay(r).total == EXACT
  {
    FirstLostNumber();
  }
}
