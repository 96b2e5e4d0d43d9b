/**
 Moving an artifact to another storage backend: copy, activate, observe.

 One artifact row and its location rows are modelled. Copy reads the artifact before it
 opens its transaction, so a copy can commit over an artifact that has moved since; each
 transaction is one step. Times are nanoseconds.
 */
module ArtifactMigration {

  import opened Wrappers

  datatype Progress = Unmigrated | Observing | Stable

  // `until` is the stored observation deadline, in whole seconds.
  datatype Artifact = Artifact(
    backend: string, uri: string, sha: string, size: int, contentType: string, status: Progress, until: Option<int>)

  datatype Role = Primary | Candidate | Source

  datatype Status = Unset | Retained | Copied | Watched | Settled

  datatype Location = Location(
    role: Role, backend: string, uri: string, sha: string, size: int, contentType: string,
    verified: bool, status: Status, deleteAllowed: Option<bool>)

  // Location rows by id.
  type Table = map<nat, Location>

  datatype Stored = Stored(backend: string, uri: string, sha: string, size: int, contentType: string)

  const SECOND := 1_000_000_000

  // ---------- rows ----------

  predicate SameKey(a: Location, b: Location) {
    a.role == b.role && a.uri == b.uri
  }

  // The unique index on (artifact_id, location_role, uri).
  predicate UniqueKeys(t: Table) {
    forall i, j | i in t && j in t && i != j :: !SameKey(t[i], t[j])
  }

  predicate Fresh(t: Table, next: nat) {
    forall i | i in t :: i < next
  }

  // A copy overwrites the content facts of a row already there; an activation merges metadata only.
  datatype Kind = ByCopy | ByActivation

  // Neither of them touches the role, the URI or the backend.
  function Merge(kind: Kind, row: Location, existing: Location): Location {
    match kind
    case ByCopy =>
      existing.(sha := row.sha, size := row.size, contentType := row.contentType,
                verified := row.verified || existing.verified, status := row.status,
                deleteAllowed := if row.deleteAllowed.Some? then row.deleteAllowed else existing.deleteAllowed)
    case ByActivation =>
      existing.(status := row.status, deleteAllowed := row.deleteAllowed)
  }

  predicate Taken(t: Table, row: Location) {
    exists id | id in t :: SameKey(t[id], row)
  }

  // INSERT ... ON CONFLICT (artifact_id, location_role, uri) DO UPDATE, landing on row `id`.
  predicate UpsertedAt(t: Table, next: nat, row: Location, kind: Kind, id: nat, t': Table, next': nat) {
    if Taken(t, row) then id in t && SameKey(t[id], row) && t' == t[id := Merge(kind, row, t[id])] && next' == next
    else id == next && t' == t[next := row] && next' == next + 1
  }

  function SourceRow(a: Artifact, verified: bool): Location {
    Location(Source, a.backend, a.uri, a.sha, a.size, a.contentType, verified, Retained, Some(false))
  }

  function CandidateRow(s: Stored): Location {
    Location(Candidate, s.backend, s.uri, s.sha, s.size, s.contentType, true, Copied, None)
  }

  // ---------- transactions ----------

  // verifyMigratedArtifact, and again on the content read back.
  predicate VerifiedCopy(a: Artifact, sha: string, size: int) {
    (a.sha != "" ==> a.sha == sha) && (a.size > 0 ==> a.size == size)
  }

  // The source row lands on `src`, the candidate on `cand`.
  ghost predicate CopyTx(a: Artifact, stored: Stored, t: Table, next: nat, src: nat, cand: nat, t': Table, next': nat) {
    exists mid, nextMid: nat ::
      && UpsertedAt(t, next, SourceRow(a, false), ByCopy, src, mid, nextMid)
      && UpsertedAt(mid, nextMid, CandidateRow(stored), ByCopy, cand, t', next')
  }

  // The UPDATE that promotes one row and demotes the primary one.
  function Promote(t: Table, target: nat): Table {
    map id | id in t ::
      if id == target then t[id].(role := Primary, status := Watched)
      else
        t[id].(role := if t[id].role == Primary then Source else t[id].role,
               status := Retained, deleteAllowed := Some(false))
  }

  predicate Activatable(a: Artifact, t: Table, target: nat) {
    target in t && t[target].verified && t[target].sha == a.sha && t[target].size == a.size
  }

  function Activated(row: Location, until: int): Artifact {
    Artifact(row.backend, row.uri, row.sha, row.size, row.contentType, Observing, Some(until / SECOND))
  }

  ghost predicate ActivateTx(a: Artifact, t: Table, next: nat, target: nat, until: int, src: nat, a': Artifact,
                             t': Table, next': nat) {
    && Activatable(a, t, target)
    && UniqueKeys(Promote(t, target))
    && UpsertedAt(Promote(t, target), next, SourceRow(a, true), ByActivation, src, t', next')
    && a' == Activated(t[target], until)
  }

  predicate Observed(a: Artifact, now: int) {
    a.until.Some? && now >= a.until.value * SECOND
  }

  function VerifiedPrimaries(t: Table): set<nat> {
    set id | id in t && t[id].role == Primary && t[id].verified
  }

  function Settle(t: Table): Table {
    map id | id in t :: if id in VerifiedPrimaries(t) then t[id].(status := Settled) else t[id]
  }

  // ---------- the store ----------

  class ArtifactStore {
    var artifact: Artifact
    var locations: Table
    var nextID: nat

    // The location with this role and URI, if there is one.
    method Find(row: Location) returns (found: bool, id: nat)
      ensures found <==> Taken(locations, row)
      ensures found ==> id in locations && SameKey(locations[id], row)
    {
      var pending := locations.Keys;
      id := 0;
      while pending != {}
        invariant pending <= locations.Keys
        invariant forall i | i in locations && i !in pending :: !SameKey(locations[i], row)
        decreases |pending|
      {
        id :| id in pending;
        if SameKey(locations[id], row) {
          return true, id;
        }
        pending := pending - {id};
      }
      return false, id;
    }

    method Upsert(row: Location, kind: Kind) returns (id: nat)
      modifies this`locations, this`nextID
      ensures UpsertedAt(old(locations), old(nextID), row, kind, id, locations, nextID)
    {
      var found;
      found, id := Find(row);
      if found {
        locations := locations[id := Merge(kind, row, locations[id])];
      } else {
        id := nextID;
        locations, nextID := locations[nextID := row], nextID + 1;
      }
    }

    // `source` is the artifact as it was read before the transaction.
    method CommitCopy(source: Artifact, stored: Stored, readSha: string, readSize: int)
      returns (ok: bool, src: nat, cand: nat)
      modifies this
      ensures artifact == old(artifact)
      ensures ok <==> VerifiedCopy(source, stored.sha, stored.size) && VerifiedCopy(source, readSha, readSize)
      ensures ok ==> CopyTx(source, stored, old(locations), old(nextID), src, cand, locations, nextID)
      ensures !ok ==> locations == old(locations) && nextID == old(nextID)
    {
      if !VerifiedCopy(source, stored.sha, stored.size) || !VerifiedCopy(source, readSha, readSize) {
        return false, 0, 0;
      }
      src := Upsert(SourceRow(source, false), ByCopy);
      cand := Upsert(CandidateRow(stored), ByCopy);
      ok := true;
    }

    // A demoted row that clashes with an existing one makes the transaction fail.
    method Activate(target: nat, until: int, now: int) returns (ok: bool, src: nat)
      modifies this
      ensures ok <==>
                && now < until && Activatable(old(artifact), old(locations), target)
                && UniqueKeys(Promote(old(locations), target))
      ensures ok ==> ActivateTx(old(artifact), old(locations), old(nextID), target, until, src, artifact, locations,
                nextID)
      ensures !ok ==> artifact == old(artifact) && locations == old(locations) && nextID == old(nextID)
    {
      if until <= now || !Activatable(artifact, locations, target) {
        return false, 0;
      }
      var row, source := locations[target], artifact;
      var promoted := Promote(locations, target);
      if !UniqueKeys(promoted) {
        return false, 0;
      }
      locations := promoted;
      src := Upsert(SourceRow(source, true), ByActivation);
      artifact := Activated(row, until);
      ok := true;
    }

    method CompleteObservation(now: int) returns (ok: bool)
      modifies this
      ensures old(artifact).status == Stable ==> ok && artifact == old(artifact) && locations == old(locations)
      ensures old(artifact).status != Stable ==>
                (ok <==> Observed(old(artifact), now) && |VerifiedPrimaries(old(locations))| == 1)
      ensures old(artifact).status != Stable && ok ==>
                artifact == old(artifact).(status := Stable) && locations == Settle(old(locations))
      ensures !ok ==> artifact == old(artifact) && locations == old(locations)
      ensures nextID == old(nextID)
    {
      if artifact.status == Stable {
        return true;
      }
      if !Observed(artifact, now) || |VerifiedPrimaries(locations)| != 1 {
        return false;
      }
      locations := Settle(locations);
      artifact := artifact.(status := Stable);
      return true;
    }
  }

  // ---------- runs ----------

  /** The rows, the copies that have read the artifact but not committed (with what they
      read), every URI that was ever active, and the deadline the last activation asked for. */
  datatype State = State(
    artifact: Artifact, table: Table, next: nat,
    copies: map<nat, Artifact>, past: set<string>, requested: Option<int>)

  ghost predicate Next(s: State, s': State) {
    || (exists id :: ReadStep(s, id, s'))
    || (exists id, stored, src, cand | id in s.copies :: CopyStep(s, id, stored, src, cand, s'))
    || (exists target, until, now, src :: ActivateStep(s, target, until, now, src, s'))
    || (exists now :: CompleteStep(s, now, s'))
  }

  predicate ReadStep(s: State, id: nat, s': State) {
    s' == s.(copies := s.copies[id := s.artifact])
  }

  ghost predicate CopyStep(s: State, id: nat, stored: Stored, src: nat, cand: nat, s': State)
    requires id in s.copies
  {
    && VerifiedCopy(s.copies[id], stored.sha, stored.size)
    && CopyTx(s.copies[id], stored, s.table, s.next, src, cand, s'.table, s'.next)
    && s' == s.(table := s'.table, next := s'.next, copies := s.copies - {id})
  }

  ghost predicate ActivateStep(s: State, target: nat, until: int, now: int, src: nat, s': State) {
    && now < until
    && ActivateTx(s.artifact, s.table, s.next, target, until, src, s'.artifact, s'.table, s'.next)
    && s' == s.(artifact := s'.artifact, table := s'.table, next := s'.next,
                past := s.past + {s.artifact.uri}, requested := Some(until))
  }

  predicate CompleteStep(s: State, now: int, s': State) {
    && s.artifact.status != Stable && Observed(s.artifact, now) && |VerifiedPrimaries(s.table)| == 1
    && s' == s.(artifact := s.artifact.(status := Stable), table := Settle(s.table))
  }

  // ---------- the invariant ----------

  predicate AtMostOnePrimary(t: Table) {
    forall i, j | i in t && j in t && t[i].role == Primary && t[j].role == Primary :: i == j
  }

  // The row is the verified primary location of the artifact and agrees with it.
  predicate Serves(a: Artifact, row: Location) {
    && row.role == Primary && row.verified
    && row.backend == a.backend && row.uri == a.uri && row.sha == a.sha && row.size == a.size
    && row.contentType == a.contentType
    && row.status == if a.status == Observing then Watched else Settled
  }

  predicate Served(a: Artifact, t: Table) {
    a.status != Unmigrated ==> exists id | id in t :: Serves(a, t[id])
  }

  predicate SameContent(a: Artifact, t: Table) {
    a.sha != "" && a.size > 0 ==> forall id | id in t :: t[id].sha == a.sha && t[id].size == a.size
  }

  predicate Keeps(row: Location, uri: string) {
    row.role == Source && row.uri == uri && row.deleteAllowed == Some(false)
  }

  // A URI that was active is active still, or kept as a source that must not be deleted.
  predicate PastKept(a: Artifact, t: Table, past: set<string>) {
    forall u | u in past && u != a.uri :: exists id | id in t :: Keeps(t[id], u)
  }

  predicate Inv(s: State) {
    && UniqueKeys(s.table) && Fresh(s.table, s.next)
    && AtMostOnePrimary(s.table)
    && Served(s.artifact, s.table)
    && SameContent(s.artifact, s.table)
    && PastKept(s.artifact, s.table, s.past)
    && (forall id | id in s.copies :: s.copies[id].sha == s.artifact.sha && s.copies[id].size == s.artifact.size)
    && (if s.artifact.status == Unmigrated then s.artifact.until == None
        else s.requested.Some? && s.artifact.until == Some(s.requested.value / SECOND))
  }

  // ---------- upserts ----------

  // What an upsert of a non-primary row leaves alone.
  lemma UpsertKeeps(t: Table, next: nat, row: Location, kind: Kind, id: nat, t': Table, next': nat)
    requires UniqueKeys(t) && Fresh(t, next) && UpsertedAt(t, next, row, kind, id, t', next')
    ensures UniqueKeys(t') && Fresh(t', next')
    ensures id in t' && SameKey(t'[id], row)
    ensures t'.Keys == t.Keys + {id}
    ensures forall i | i in t && i != id :: t'[i] == t[i]
    ensures id in t ==> t'[id] == Merge(kind, row, t[id])
    ensures id !in t ==> t'[id] == row
  {
    if !Taken(t, row) {
      assert id !in t;
    }
  }

  lemma UpsertFacts(a: Artifact, past: set<string>, t: Table, next: nat, row: Location, kind: Kind, id: nat,
                    t': Table, next': nat)
    requires UniqueKeys(t) && Fresh(t, next) && UpsertedAt(t, next, row, kind, id, t', next')
    requires row.role != Primary && (row.role == Source ==> row.deleteAllowed == Some(false))
    requires AtMostOnePrimary(t) && Served(a, t) && SameContent(a, t) && PastKept(a, t, past)
    requires a.sha != "" && a.size > 0 ==> row.sha == a.sha && row.size == a.size
    ensures UniqueKeys(t') && Fresh(t', next')
    ensures AtMostOnePrimary(t') && Served(a, t') && SameContent(a, t') && PastKept(a, t', past)
  {
    UpsertKeeps(t, next, row, kind, id, t', next');
    if a.status != Unmigrated {
      var p :| p in t && Serves(a, t[p]);
      assert Serves(a, t'[p]);
    }
    UpsertPast(a, past, t, next, row, kind, id, t', next');
  }

  lemma UpsertPast(a: Artifact, past: set<string>, t: Table, next: nat, row: Location, kind: Kind, id: nat,
                   t': Table, next': nat)
    requires UniqueKeys(t) && Fresh(t, next) && UpsertedAt(t, next, row, kind, id, t', next')
    requires (row.role == Source ==> row.deleteAllowed == Some(false)) && PastKept(a, t, past)
    ensures PastKept(a, t', past)
  {
    UpsertKeeps(t, next, row, kind, id, t', next');
    forall u | u in past && u != a.uri ensures exists i | i in t' :: Keeps(t'[i], u) {
      var i :| i in t && Keeps(t[i], u);
      assert Keeps(t'[i], u);
    }
  }

  // ---------- activation ----------

  // Demoting row p would give it the key of row q.
  predicate Blocks(t: Table, p: nat, q: nat) {
    p in t && q in t && t[p].role == Primary && t[q].role == Source && t[p].uri == t[q].uri
  }

  /** An activation is refused for a duplicate key exactly when another row than the target
      is primary and its URI already has a source row that is not the target either. */
  lemma PromoteClashesExactly(t: Table, target: nat)
    requires UniqueKeys(t)
    ensures !UniqueKeys(Promote(t, target))
            <==> exists p, q | p in t && q in t :: p != target && q != target && Blocks(t, p, q)
  {
    var t' := Promote(t, target);
    if p, q :| p in t && q in t && p != target && q != target && Blocks(t, p, q) {
      assert SameKey(t'[p], t'[q]);
    } else {
      forall i, j | i in t' && j in t' && i != j ensures !SameKey(t'[i], t'[j]) {
        assert !SameKey(t[i], t[j]);
      }
    }
  }

  lemma PromoteFacts(a: Artifact, past: set<string>, t: Table, target: nat, until: int)
    requires Activatable(a, t, target) && SameContent(a, t) && PastKept(a, t, past)
    ensures var t', a' := Promote(t, target), Activated(t[target], until);
            && AtMostOnePrimary(t') && Served(a', t') && SameContent(a', t')
            && PastKept(a', t', past - {a.uri})
            && a'.sha == a.sha && a'.size == a.size
  {
    var t', a' := Promote(t, target), Activated(t[target], until);
    assert Serves(a', t'[target]);
    forall u | u in past - {a.uri} && u != a'.uri ensures exists i | i in t' :: Keeps(t'[i], u) {
      var i :| i in t && Keeps(t[i], u);
      assert Keeps(t'[i], u);
    }
  }

  lemma ActivateKeeps(s: State, target: nat, until: int, now: int, src: nat, s': State)
    requires Inv(s) && ActivateStep(s, target, until, now, src, s')
    ensures Inv(s')
  {
    var a, a', mid := s.artifact, s'.artifact, Promote(s.table, target);
    PromoteFacts(a, s.past, s.table, target, until);
    assert Fresh(mid, s.next);
    UpsertFacts(a', s.past - {a.uri}, mid, s.next, SourceRow(a, true), ByActivation, src, s'.table, s'.next);
    UpsertKeeps(mid, s.next, SourceRow(a, true), ByActivation, src, s'.table, s'.next);
    assert Keeps(s'.table[src], a.uri);
    PastGrows(a', s'.table, s.past, a.uri);
  }

  lemma PastGrows(a: Artifact, t: Table, past: set<string>, uri: string)
    requires PastKept(a, t, past - {uri}) && exists id | id in t :: Keeps(t[id], uri)
    ensures PastKept(a, t, past + {uri})
  {
    forall u | u in past + {uri} && u != a.uri ensures exists id | id in t :: Keeps(t[id], u) {
      if u != uri {
        assert u in past - {uri};
      }
    }
  }

  lemma CopyKeeps(s: State, id: nat, stored: Stored, src: nat, cand: nat, s': State)
    requires Inv(s) && id in s.copies && CopyStep(s, id, stored, src, cand, s')
    ensures Inv(s')
  {
    var a, row := s.artifact, SourceRow(s.copies[id], false);
    var mid, nextMid: nat :|
      && UpsertedAt(s.table, s.next, row, ByCopy, src, mid, nextMid)
      && UpsertedAt(mid, nextMid, CandidateRow(stored), ByCopy, cand, s'.table, s'.next);
    UpsertFacts(a, s.past, s.table, s.next, row, ByCopy, src, mid, nextMid);
    UpsertFacts(a, s.past, mid, nextMid, CandidateRow(stored), ByCopy, cand, s'.table, s'.next);
  }

  lemma CompleteKeeps(s: State, now: int, s': State)
    requires Inv(s) && CompleteStep(s, now, s')
    ensures Inv(s')
  {
    var t, t' := s.table, s'.table;
    var p :| p in t && Serves(s.artifact, t[p]);
    assert p in VerifiedPrimaries(t) && Serves(s'.artifact, t'[p]);
    forall u | u in s.past && u != s.artifact.uri ensures exists i | i in t' :: Keeps(t'[i], u) {
      var i :| i in t && Keeps(t[i], u);
      assert Keeps(t'[i], u);
    }
  }

  lemma NextKeeps(s: State, s': State)
    requires Inv(s) && Next(s, s')
    ensures Inv(s')
  {
    if id :| ReadStep(s, id, s') {
    } else if id, stored, src, cand :| id in s.copies && CopyStep(s, id, stored, src, cand, s') {
      CopyKeeps(s, id, stored, src, cand, s');
    } else if target, until, now, src :| ActivateStep(s, target, until, now, src, s') {
      ActivateKeeps(s, target, until, now, src, s');
    } else {
      var now :| CompleteStep(s, now, s');
      CompleteKeeps(s, now, s');
    }
  }

  // ---------- whole runs ----------

  // Nobody has copied, activated or observed anything yet.
  predicate Init(s: State) {
    Inv(s) && s.artifact.status == Unmigrated && s.copies == map[] && s.past == {}
  }

  ghost predicate Behavior(ss: seq<State>) {
    ss != [] && Init(ss[0]) && forall i | 0 <= i < |ss| - 1 :: Next(ss[i], ss[i + 1])
  }

  lemma {:induction false} AlwaysInv(ss: seq<State>, k: nat)
    requires Behavior(ss) && k < |ss|
    ensures Inv(ss[k])
  {
    if k > 0 {
      AlwaysInv(ss, k - 1);
      assert Next(ss[k - 1], ss[k]);
      NextKeeps(ss[k - 1], ss[k]);
    }
  }

  /** In every reachable state at most one location is primary; once the artifact is observed
      or stable exactly one is, it is verified, and it agrees with the artifact on backend, URI,
      hash, size, content type and status. With a recorded hash and size, every location carries
      them. */
  lemma PrimaryAgrees(ss: seq<State>, k: nat)
    requires Behavior(ss) && k < |ss|
    ensures var a, t := ss[k].artifact, ss[k].table;
            && AtMostOnePrimary(t)
            && (a.status != Unmigrated ==> exists id | id in t :: Serves(a, t[id]))
            && (a.sha != "" && a.size > 0 ==> forall id | id in t :: t[id].sha == a.sha && t[id].size == a.size)
  {
    AlwaysInv(ss, k);
  }

  // The rows of `t` are still there, at the same URI and backend.
  predicate RowsKept(t: Table, t': Table) {
    forall id | id in t :: id in t' && t'[id].uri == t[id].uri && t'[id].backend == t[id].backend
  }

  lemma UpsertRowsKept(t: Table, next: nat, row: Location, kind: Kind, id: nat, t': Table, next': nat)
    requires UniqueKeys(t) && Fresh(t, next) && UpsertedAt(t, next, row, kind, id, t', next')
    ensures RowsKept(t, t') && UniqueKeys(t') && Fresh(t', next')
  {
    UpsertKeeps(t, next, row, kind, id, t', next');
  }

  lemma CopyRowsKept(s: State, id: nat, stored: Stored, src: nat, cand: nat, s': State)
    requires Inv(s) && id in s.copies && CopyStep(s, id, stored, src, cand, s')
    ensures RowsKept(s.table, s'.table)
  {
    var row := SourceRow(s.copies[id], false);
    var mid, nextMid: nat :|
      && UpsertedAt(s.table, s.next, row, ByCopy, src, mid, nextMid)
      && UpsertedAt(mid, nextMid, CandidateRow(stored), ByCopy, cand, s'.table, s'.next);
    UpsertRowsKept(s.table, s.next, row, ByCopy, src, mid, nextMid);
    UpsertRowsKept(mid, nextMid, CandidateRow(stored), ByCopy, cand, s'.table, s'.next);
  }

  lemma ActivateRowsKept(s: State, target: nat, until: int, now: int, src: nat, s': State)
    requires Inv(s) && ActivateStep(s, target, until, now, src, s')
    ensures RowsKept(s.table, s'.table)
  {
    var mid := Promote(s.table, target);
    assert RowsKept(s.table, mid);
    UpsertRowsKept(mid, s.next, SourceRow(s.artifact, true), ByActivation, src, s'.table, s'.next);
  }

  // One step never loses a row, nor the artifact's hash and size.
  lemma StepPreserves(s: State, s': State)
    requires Inv(s) && Next(s, s')
    ensures s'.artifact.sha == s.artifact.sha && s'.artifact.size == s.artifact.size
    ensures RowsKept(s.table, s'.table)
    ensures s.past <= s'.past
    ensures s'.artifact.uri != s.artifact.uri ==> s.artifact.uri in s'.past
  {
    if id :| ReadStep(s, id, s') {
    } else if id, stored, src, cand :| id in s.copies && CopyStep(s, id, stored, src, cand, s') {
      CopyRowsKept(s, id, stored, src, cand, s');
    } else if target, until, now, src :| ActivateStep(s, target, until, now, src, s') {
      ActivateRowsKept(s, target, until, now, src, s');
    }
  }

  /** Over any run the artifact's hash and size stay what they were, no location row is lost,
      and every URI that was active at some point and no longer is has a source row that must
      not be deleted. */
  lemma {:induction false} NothingIsLost(ss: seq<State>, i: nat, k: nat)
    requires Behavior(ss) && i <= k < |ss|
    ensures ss[k].artifact.sha == ss[i].artifact.sha && ss[k].artifact.size == ss[i].artifact.size
    ensures RowsKept(ss[i].table, ss[k].table)
    ensures ss[i].past <= ss[k].past
    ensures ss[i].artifact.uri == ss[k].artifact.uri || exists id | id in ss[k].table ::
              Keeps(ss[k].table[id], ss[i].artifact.uri)
    decreases k - i
  {
    if i < k {
      assert Next(ss[i], ss[i + 1]);
      AlwaysInv(ss, i);
      StepPreserves(ss[i], ss[i + 1]);
      NothingIsLost(ss, i + 1, k);
      AlwaysInv(ss, k);
    }
  }

  /** The artifact becomes stable no earlier than one second before the deadline the last
      activation asked for; the second comes from storing whole seconds. */
  lemma StableAfterDeadline(ss: seq<State>, k: nat, now: int)
    requires Behavior(ss) && k + 1 < |ss| && CompleteStep(ss[k], now, ss[k + 1])
    ensures ss[k].requested.Some? && now > ss[k].requested.value - SECOND
    ensures ss[k + 1].artifact.status == Stable
  {
    AlwaysInv(ss, k);
  }

  // ---------- a second move ----------

  // The primary location is filed as a source as well.
  predicate Stuck(t: Table) {
    exists p, q | p in t && q in t :: Blocks(t, p, q)
  }

  /** Once an artifact has been activated at a new location, a fresh copy files a source row for
      that location, and an activation of any other row than those two is refused. */
  lemma SecondMoveIsRefused(s: State, a: Artifact, stored: Stored, src: nat, cand: nat, t': Table, next': nat)
    requires Inv(s) && s.artifact.status != Unmigrated && a.uri == s.artifact.uri
    requires CopyTx(a, stored, s.table, s.next, src, cand, t', next')
    ensures Stuck(t')
    ensures forall target | target in t' && target != src && t'[target].role != Primary ::
              !UniqueKeys(Promote(t', target))
  {
    var row := SourceRow(a, false);
    var mid, nextMid: nat :|
      && UpsertedAt(s.table, s.next, row, ByCopy, src, mid, nextMid)
      && UpsertedAt(mid, nextMid, CandidateRow(stored), ByCopy, cand, t', next');
    UpsertKeeps(s.table, s.next, row, ByCopy, src, mid, nextMid);
    UpsertKeeps(mid, nextMid, CandidateRow(stored), ByCopy, cand, t', next');
    var p :| p in s.table && Serves(s.artifact, s.table[p]);
    assert Blocks(t', p, src);
    forall target | target in t' && target != src && t'[target].role != Primary
      ensures !UniqueKeys(Promote(t', target))
    {
      PromoteClashesExactly(t', target);
    }
  }

  // An upsert leaves the role and the URI of every row alone.
  lemma UpsertStuck(t: Table, next: nat, row: Location, kind: Kind, id: nat, t': Table, next': nat)
    requires UniqueKeys(t) && Fresh(t, next) && UpsertedAt(t, next, row, kind, id, t', next') && Stuck(t)
    ensures Stuck(t')
  {
    UpsertKeeps(t, next, row, kind, id, t', next');
    var p, q :| p in t && q in t && Blocks(t, p, q);
    assert Blocks(t', p, q);
  }

  lemma CopyStuck(s: State, id: nat, stored: Stored, src: nat, cand: nat, s': State)
    requires Inv(s) && id in s.copies && CopyStep(s, id, stored, src, cand, s') && Stuck(s.table)
    ensures Stuck(s'.table)
  {
    var row := SourceRow(s.copies[id], false);
    var mid, nextMid: nat :|
      && UpsertedAt(s.table, s.next, row, ByCopy, src, mid, nextMid)
      && UpsertedAt(mid, nextMid, CandidateRow(stored), ByCopy, cand, s'.table, s'.next);
    UpsertKeeps(s.table, s.next, row, ByCopy, src, mid, nextMid);
    UpsertStuck(s.table, s.next, row, ByCopy, src, mid, nextMid);
    UpsertStuck(mid, nextMid, CandidateRow(stored), ByCopy, cand, s'.table, s'.next);
  }

  // An activation that goes through can only exchange the two rows.
  lemma ActivateStuck(s: State, target: nat, until: int, now: int, src: nat, s': State)
    requires Inv(s) && s.artifact.status != Unmigrated && ActivateStep(s, target, until, now, src, s') && Stuck(s.table)
    ensures Stuck(s'.table) && s'.artifact.uri == s.artifact.uri
  {
    var t, mid := s.table, Promote(s.table, target);
    var p, q :| p in t && q in t && Blocks(t, p, q);
    PromoteClashesExactly(t, target);
    assert target == p || target == q;
    var a :| a in t && Serves(s.artifact, t[a]);
    assert a == p;
    if target == p {
      assert Blocks(mid, p, q);
    } else {
      assert Blocks(mid, q, p);
    }
    UpsertStuck(mid, s.next, SourceRow(s.artifact, true), ByActivation, src, s'.table, s'.next);
  }

  lemma StuckStep(s: State, s': State)
    requires Inv(s) && s.artifact.status != Unmigrated && Next(s, s') && Stuck(s.table)
    ensures Stuck(s'.table) && s'.artifact.uri == s.artifact.uri && s'.artifact.status != Unmigrated
  {
    if id :| ReadStep(s, id, s') {
    } else if id, stored, src, cand :| id in s.copies && CopyStep(s, id, stored, src, cand, s') {
      CopyStuck(s, id, stored, src, cand, s');
    } else if target, until, now, src :| ActivateStep(s, target, until, now, src, s') {
      ActivateStuck(s, target, until, now, src, s');
    } else {
      var p, q :| p in s.table && q in s.table && Blocks(s.table, p, q);
      assert Blocks(s'.table, p, q);
    }
  }

  lemma StuckNext(ss: seq<State>, i: nat)
    requires Behavior(ss) && i + 1 < |ss| && ss[i].artifact.status != Unmigrated && Stuck(ss[i].table)
    ensures ss[i + 1].artifact.uri == ss[i].artifact.uri && ss[i + 1].artifact.status != Unmigrated
    ensures Stuck(ss[i + 1].table)
  {
    AlwaysInv(ss, i);
    assert Next(ss[i], ss[i + 1]);
    StuckStep(ss[i], ss[i + 1]);
  }

  lemma {:induction false} StuckForEver(ss: seq<State>, i: nat, k: nat)
    requires Behavior(ss) && i <= k < |ss| && ss[i].artifact.status != Unmigrated && Stuck(ss[i].table)
    ensures ss[k].artifact.uri == ss[i].artifact.uri
    decreases k - i
  {
    if i < k {
      StuckNext(ss, i);
      StuckForEver(ss, i + 1, k);
    }
  }

  /** So an artifact that has moved once and is then copied from where it is never moves again:
      in no run does its URI change after such a copy. */
  lemma SecondCopyIsFinal(ss: seq<State>, i: nat, id: nat, stored: Stored, src: nat, cand: nat, k: nat)
    requires Behavior(ss) && i < k < |ss| && ss[i].artifact.status != Unmigrated && id in ss[i].copies
    requires ss[i].copies[id].uri == ss[i].artifact.uri && CopyStep(ss[i], id, stored, src, cand, ss[i + 1])
    ensures ss[k].artifact.uri == ss[i].artifact.uri
  {
    AlwaysInv(ss, i);
    var s' := ss[i + 1];
    SecondMoveIsRefused(ss[i], ss[i].copies[id], stored, src, cand, s'.table, s'.next);
    StuckForEver(ss, i + 1, k);
  }
}
