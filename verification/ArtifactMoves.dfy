/**
 Where an artifact's moves lead: a copy that is activated is served from where it was stored, and
 every place the artifact was ever served from is kept as it was.
 */
module ArtifactMoves {
  import opened Wrappers
  import opened ArtifactMigration

  // ---------- one move ----------

  /** What a copy files. The source row tells where the artifact was read from, the candidate what
      was stored; only the backend of a row that was there before stays what it was. */
  lemma CopyFiles(a: Artifact, stored: Stored, t: Table, next: nat, src: nat, cand: nat, t': Table, next': nat)
    requires UniqueKeys(t) && Fresh(t, next) && CopyTx(a, stored, t, next, src, cand, t', next')
    ensures UniqueKeys(t') && Fresh(t', next') && src != cand && t'.Keys == t.Keys + {src, cand}
    ensures var row := t'[src];
            && row.role == Source && row.uri == a.uri && row.sha == a.sha && row.size == a.size
            && row.contentType == a.contentType && row.deleteAllowed == Some(false)
            && row.backend == if src in t then t[src].backend else a.backend
    ensures var row := t'[cand];
            && row.role == Candidate && row.verified && row.uri == stored.uri && row.sha == stored.sha
            && row.size == stored.size && row.contentType == stored.contentType
            && row.backend == if cand in t then t[cand].backend else stored.backend
    ensures forall i | i in t && i != src && i != cand :: t'[i] == t[i]
  {
    var mid, nextMid: nat :|
      && UpsertedAt(t, next, SourceRow(a, false), ByCopy, src, mid, nextMid)
      && UpsertedAt(mid, nextMid, CandidateRow(stored), ByCopy, cand, t', next');
    UpsertKeeps(t, next, SourceRow(a, false), ByCopy, src, mid, nextMid);
    UpsertKeeps(mid, nextMid, CandidateRow(stored), ByCopy, cand, t', next');
  }

  /** A copy whose candidate is new, activated: the artifact is now what was stored, observed until
      the second of the deadline, and the candidate is its primary location. */
  lemma MoveLands(a: Artifact, stored: Stored, t: Table, next: nat, src: nat, cand: nat, copied: Table, nextCopied: nat,
                  until: int, kept: nat, a': Artifact, t': Table, next': nat)
    requires UniqueKeys(t) && Fresh(t, next) && cand !in t
    requires CopyTx(a, stored, t, next, src, cand, copied, nextCopied)
    requires ActivateTx(a, copied, nextCopied, cand, until, kept, a', t', next')
    ensures a'.backend == stored.backend && a'.uri == stored.uri && a'.contentType == stored.contentType
    ensures a'.sha == stored.sha && a'.size == stored.size && a'.status == Observing
    ensures a'.until.Some? && a'.until.value * SECOND <= until < (a'.until.value + 1) * SECOND
    ensures cand in t' && t'[cand].role == Primary && t'[cand].backend == stored.backend && t'[cand].uri == stored.uri
  {
    CopyFiles(a, stored, t, next, src, cand, copied, nextCopied);
    assert Fresh(Promote(copied, cand), nextCopied);
    UpsertKeeps(Promote(copied, cand), nextCopied, SourceRow(a, true), ByActivation, kept, t', next');
  }

  /** Whatever happens in between: when the candidate of a copy is activated later on, the artifact
      is served from the backend and URI the copy was stored under. */
  lemma MoveLandsInRuns(ss: seq<State>, i: nat, id: nat, stored: Stored, src: nat, cand: nat, k: nat, until: int,
                        now: int, kept: nat)
    requires Behavior(ss) && i < k && k + 1 < |ss| && id in ss[i].copies && cand !in ss[i].table
    requires CopyStep(ss[i], id, stored, src, cand, ss[i + 1]) && ActivateStep(ss[k], cand, until, now, kept, ss[k + 1])
    ensures ss[k + 1].artifact.backend == stored.backend && ss[k + 1].artifact.uri == stored.uri
  {
    AlwaysInv(ss, i);
    CopyFiles(ss[i].copies[id], stored, ss[i].table, ss[i].next, src, cand, ss[i + 1].table, ss[i + 1].next);
    NothingIsLost(ss, i + 1, k);
  }

  /** A first move goes through: with a recorded hash and size, a copy of an artifact that has no
      primary location yet can be activated. */
  lemma FirstMoveSucceeds(s: State, stored: Stored, src: nat, cand: nat, copied: Table, next: nat)
    requires Inv(s) && s.artifact.sha != "" && s.artifact.size > 0
    requires forall p | p in s.table :: s.table[p].role != Primary
    requires VerifiedCopy(s.artifact, stored.sha, stored.size)
    requires CopyTx(s.artifact, stored, s.table, s.next, src, cand, copied, next)
    ensures Activatable(s.artifact, copied, cand) && UniqueKeys(Promote(copied, cand))
  {
    CopyFiles(s.artifact, stored, s.table, s.next, src, cand, copied, next);
    PromoteClashesExactly(copied, cand);
  }

  /** And it can be completed: from the requested deadline on, an observed artifact becomes
      stable. */
  lemma ObservationEnds(ss: seq<State>, k: nat, now: int)
    requires Behavior(ss) && k < |ss| && ss[k].artifact.status == Observing
    requires ss[k].requested.Some? && now >= ss[k].requested.value
    ensures Observed(ss[k].artifact, now) && |VerifiedPrimaries(ss[k].table)| == 1
  {
    AlwaysInv(ss, k);
    var t := ss[k].table;
    var p :| p in t && Serves(ss[k].artifact, t[p]);
    assert VerifiedPrimaries(t) == {p};
  }

  // ---------- the places an artifact was served from ----------

  datatype Place = Place(uri: string, backend: string, contentType: string)

  function PlaceOf(a: Artifact): Place {
    Place(a.uri, a.backend, a.contentType)
  }

  // A source row that tells the place and must not be deleted.
  predicate Tells(row: Location, p: Place) {
    && row.role == Source && row.deleteAllowed == Some(false)
    && row.uri == p.uri && row.backend == p.backend && row.contentType == p.contentType
  }

  predicate Held(t: Table, p: Place) {
    exists id | id in t :: Tells(t[id], p)
  }

  /** Rows filed under the artifact's URI describe the artifact. Only copies and activations write
      location rows, so an artifact starts without any. */
  predicate Consistent(t: Table, a: Artifact) {
    forall id | id in t && t[id].uri == a.uri && t[id].role != Candidate ::
        t[id].backend == a.backend && t[id].contentType == a.contentType
  }

  predicate Known(s: State, p: Place) {
    if p.uri != s.artifact.uri then Held(s.table, p)
    else p == PlaceOf(s.artifact) || (s.artifact.status != Unmigrated && Stuck(s.table))
  }

  // `past` is every place so far, the present one included.
  ghost predicate Remembers(s: State, past: set<Place>) {
    && PlaceOf(s.artifact) in past
    && (forall p | p in past :: Known(s, p))
    && (s.artifact.status == Unmigrated ==> past == {PlaceOf(s.artifact)} && Consistent(s.table, s.artifact))
    && (forall id | id in s.copies :: PlaceOf(s.copies[id]) in past)
  }

  // ---------- every step remembers ----------

  // A source row merged by a copy tells the same place as before.
  lemma SourceHeld(t: Table, next: nat, a: Artifact, id: nat, t': Table, next': nat, p: Place)
    requires UniqueKeys(t) && Fresh(t, next) && UpsertedAt(t, next, SourceRow(a, false), ByCopy, id, t', next')
    requires Held(t, p) && (a.uri == p.uri ==> PlaceOf(a) == p)
    ensures Held(t', p)
  {
    UpsertKeeps(t, next, SourceRow(a, false), ByCopy, id, t', next');
    var row :| row in t && Tells(t[row], p);
    assert Tells(t'[row], p);
  }

  lemma CandidateHeld(t: Table, next: nat, stored: Stored, id: nat, t': Table, next': nat, p: Place)
    requires UniqueKeys(t) && Fresh(t, next) && UpsertedAt(t, next, CandidateRow(stored), ByCopy, id, t', next')
    requires Held(t, p)
    ensures Held(t', p)
  {
    UpsertKeeps(t, next, CandidateRow(stored), ByCopy, id, t', next');
    var row :| row in t && Tells(t[row], p);
    assert Tells(t'[row], p);
  }

  // Two places with one URI cannot both be held under different facts.
  lemma HeldOnce(t: Table, p: Place, q: Place)
    requires UniqueKeys(t) && Held(t, p) && Held(t, q) && p.uri == q.uri
    ensures p == q
  {
    var i :| i in t && Tells(t[i], p);
    var j :| j in t && Tells(t[j], q);
    assert SameKey(t[i], t[j]);
  }

  lemma CopyHolds(s: State, past: set<Place>, id: nat, stored: Stored, src: nat, cand: nat, s': State, p: Place)
    requires Inv(s) && Remembers(s, past) && id in s.copies && CopyStep(s, id, stored, src, cand, s')
    requires p in past && p.uri != s.artifact.uri
    ensures Held(s'.table, p)
  {
    var c := s.copies[id];
    var mid, nextMid: nat :|
      && UpsertedAt(s.table, s.next, SourceRow(c, false), ByCopy, src, mid, nextMid)
      && UpsertedAt(mid, nextMid, CandidateRow(stored), ByCopy, cand, s'.table, s'.next);
    assert Known(s, p) && Known(s, PlaceOf(c));
    if c.uri == p.uri {
      HeldOnce(s.table, p, PlaceOf(c));
    }
    UpsertKeeps(s.table, s.next, SourceRow(c, false), ByCopy, src, mid, nextMid);
    SourceHeld(s.table, s.next, c, src, mid, nextMid, p);
    CandidateHeld(mid, nextMid, stored, cand, s'.table, s'.next, p);
  }

  lemma CopyRemembers(s: State, past: set<Place>, id: nat, stored: Stored, src: nat, cand: nat, s': State)
    requires Inv(s) && Remembers(s, past) && id in s.copies && CopyStep(s, id, stored, src, cand, s')
    ensures Remembers(s', past)
  {
    forall p | p in past ensures Known(s', p) {
      assert Known(s, p);
      if p.uri != s.artifact.uri {
        CopyHolds(s, past, id, stored, src, cand, s', p);
      } else if p != PlaceOf(s.artifact) {
        CopyStuck(s, id, stored, src, cand, s');
      }
    }
    if s.artifact.status == Unmigrated {
      assert PlaceOf(s.copies[id]) == PlaceOf(s.artifact);
      CopyFiles(s.copies[id], stored, s.table, s.next, src, cand, s'.table, s'.next);
    }
  }

  // What an activation does to the rows.
  lemma ActivateFiles(s: State, target: nat, until: int, now: int, src: nat, s': State)
    requires Inv(s) && ActivateStep(s, target, until, now, src, s')
    ensures var t, t' := s.table, s'.table;
            && UniqueKeys(t') && target in t && target in t' && src in t'
            && t'[target].role == Primary && t'[target].uri == t[target].uri
            && t'[src].role == Source && t'[src].uri == s.artifact.uri && t'[src].deleteAllowed == Some(false)
            && (src in t ==> t[src].role != Candidate && t[src].uri == s.artifact.uri
                             && t'[src].backend == t[src].backend && t'[src].contentType == t[src].contentType)
            && (src !in t ==> t'[src].backend == s.artifact.backend && t'[src].contentType == s.artifact.contentType)
            && (forall i | i in t && i != target && t[i].role == Source && t[i].uri != s.artifact.uri ::
                  i in t' && t'[i] == t[i].(status := Retained, deleteAllowed := Some(false)))
    ensures PlaceOf(s'.artifact) == Place(s.table[target].uri, s.table[target].backend, s.table[target].contentType)
    ensures s'.artifact.status != Unmigrated
  {
    var mid := Promote(s.table, target);
    assert Fresh(mid, s.next);
    UpsertKeeps(mid, s.next, SourceRow(s.artifact, true), ByActivation, src, s'.table, s'.next);
  }

  // A source row under the URI of the new primary location keeps the artifact there.
  lemma Blocked(t: Table, p: nat, q: nat)
    requires p in t && q in t && t[p].role == Primary && t[q].role == Source && t[p].uri == t[q].uri
    ensures Stuck(t)
  {
    assert Blocks(t, p, q);
  }

  // The place that is left is filed.
  lemma LeftIsHeld(s: State, past: set<Place>, target: nat, until: int, now: int, src: nat, s': State)
    requires Inv(s) && Remembers(s, past) && ActivateStep(s, target, until, now, src, s')
    requires s'.artifact.uri != s.artifact.uri
    ensures Held(s'.table, PlaceOf(s.artifact))
  {
    ActivateFiles(s, target, until, now, src, s');
    if src in s.table && s.artifact.status != Unmigrated {
      var p :| p in s.table && Serves(s.artifact, s.table[p]);
      if src != p {
        Blocked(s.table, p, src);
        ActivateStuck(s, target, until, now, src, s');
      }
    }
    assert Tells(s'.table[src], PlaceOf(s.artifact));
  }

  lemma ActivateKnows(s: State, past: set<Place>, target: nat, until: int, now: int, src: nat, s': State, p: Place)
    requires Inv(s) && Remembers(s, past) && ActivateStep(s, target, until, now, src, s') && p in past
    ensures Known(s', p)
  {
    ActivateFiles(s, target, until, now, src, s');
    assert Known(s, p);
    if p.uri == s.artifact.uri {
      LeavesKnown(s, past, target, until, now, src, s', p);
    } else {
      var id :| id in s.table && Tells(s.table[id], p);
      if id != target {
        assert Tells(s'.table[id], p);
        if p.uri == s'.artifact.uri {
          Blocked(s'.table, target, id);
        }
      }
    }
  }

  // A place under the URI the artifact has now.
  lemma LeavesKnown(s: State, past: set<Place>, target: nat, until: int, now: int, src: nat, s': State, p: Place)
    requires Inv(s) && Remembers(s, past) && ActivateStep(s, target, until, now, src, s') && p in past
    requires p.uri == s.artifact.uri
    ensures Known(s', p)
  {
    ActivateFiles(s, target, until, now, src, s');
    assert Known(s, p);
    if s'.artifact.uri == s.artifact.uri {
      Blocked(s'.table, target, src);
    } else if p != PlaceOf(s.artifact) {
      ActivateStuck(s, target, until, now, src, s');
    } else {
      LeftIsHeld(s, past, target, until, now, src, s');
    }
  }

  lemma ActivateRemembers(s: State, past: set<Place>, target: nat, until: int, now: int, src: nat, s': State)
    requires Inv(s) && Remembers(s, past) && ActivateStep(s, target, until, now, src, s')
    ensures Remembers(s', past + {PlaceOf(s'.artifact)})
  {
    forall p | p in past ensures Known(s', p) {
      ActivateKnows(s, past, target, until, now, src, s', p);
    }
    ActivateFiles(s, target, until, now, src, s');
  }

  lemma CompleteRemembers(s: State, past: set<Place>, now: int, s': State)
    requires Inv(s) && Remembers(s, past) && CompleteStep(s, now, s')
    ensures Remembers(s', past)
  {
    forall p | p in past ensures Known(s', p) {
      assert Known(s, p);
      if p.uri != s.artifact.uri {
        var id :| id in s.table && Tells(s.table[id], p);
        assert Tells(s'.table[id], p);
      } else if p != PlaceOf(s.artifact) {
        StuckStep(s, s');
      }
    }
  }

  lemma NextRemembers(s: State, past: set<Place>, s': State)
    requires Inv(s) && Remembers(s, past) && Next(s, s')
    ensures Remembers(s', past + {PlaceOf(s'.artifact)})
  {
    var same := past + {PlaceOf(s.artifact)};
    assert same == past;
    if id :| ReadStep(s, id, s') {
    } else if id, stored, src, cand :| id in s.copies && CopyStep(s, id, stored, src, cand, s') {
      CopyRemembers(s, past, id, stored, src, cand, s');
    } else if target, until, now, src :| ActivateStep(s, target, until, now, src, s') {
      ActivateRemembers(s, past, target, until, now, src, s');
    } else {
      var now :| CompleteStep(s, now, s');
      CompleteRemembers(s, past, now, s');
    }
  }

  lemma {:induction false} AlwaysRemembers(ss: seq<State>, k: nat) returns (past: set<Place>)
    requires Behavior(ss) && k < |ss| && Consistent(ss[0].table, ss[0].artifact)
    ensures Remembers(ss[k], past) && forall i | 0 <= i <= k :: PlaceOf(ss[i].artifact) in past
  {
    if k == 0 {
      past := {PlaceOf(ss[0].artifact)};
    } else {
      var before := AlwaysRemembers(ss, k - 1);
      AlwaysInv(ss, k - 1);
      assert Next(ss[k - 1], ss[k]);
      NextRemembers(ss[k - 1], before, ss[k]);
      past := before + {PlaceOf(ss[k].artifact)};
    }
  }

  /** Every place an artifact was served from, and no longer is, has a source row with the backend
      and content type it had there, which must not be deleted. */
  lemma PlacesAreKept(ss: seq<State>, i: nat, k: nat)
    requires Behavior(ss) && i <= k < |ss| && Consistent(ss[0].table, ss[0].artifact)
    requires ss[i].artifact.uri != ss[k].artifact.uri
    ensures var a := ss[i].artifact;
            exists id | id in ss[k].table ::
              var row := ss[k].table[id];
              && Keeps(row, a.uri) && row.backend == a.backend && row.contentType == a.contentType
  {
    var past := AlwaysRemembers(ss, k);
    assert Known(ss[k], PlaceOf(ss[i].artifact));
    var id :| id in ss[k].table && Tells(ss[k].table[id], PlaceOf(ss[i].artifact));
    assert Keeps(ss[k].table[id], ss[i].artifact.uri);
  }
}
