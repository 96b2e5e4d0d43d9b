/**
 Recording a snapshot, checking it, and what the two guarantee together.
 */
module AuditSealing {

  import opened Wrappers
  import Text
  import opened CompletionAudit
  import opened AuditEvidence
  import opened AuditSnapshot
  import opened Sorting

  // ---------- recording ----------

  method AnyMissing(p: Profile, items: seq<Item>) returns (missing: bool)
    ensures missing <==> !NothingMissing(p, items)
  {
    missing := false;
    var seen: set<string> := {};
    for i := 0 to |items|
      invariant missing <==> exists j, k | 0 <= j < i && k in KeysFor(p.uriKeys, items[j].key) ::
                ValuesOf(items[j], k) == []
      invariant forall name :: name in seen <==>
                KeysFor(p.uriKeys, name) != [] && exists j | 0 <= j < i :: items[j].key == name
    {
      var keys := KeysFor(p.uriKeys, items[i].key);
      var lacking := AnyLacking(items[i], keys);
      missing := missing || lacking;
      if keys != [] {
        seen := seen + {items[i].key};
      }
    }
    ghost var values := missing;
    for n := 0 to |p.items|
      invariant missing <==> values || exists m | 0 <= m < n :: p.items[m] !in seen
    {
      if p.items[n] !in seen {
        missing := true;
      }
    }
  }

  method AnyLacking(item: Item, keys: seq<string>) returns (lacking: bool)
    ensures lacking <==> exists k | k in keys :: ValuesOf(item, k) == []
  {
    for j := 0 to |keys|
      invariant forall m | 0 <= m < j :: ValuesOf(item, keys[m]) != []
    {
      if ValuesOf(item, keys[j]) == [] {
        return true;
      }
    }
    return false;
  }

  method AnyMechanism(rules: Rules, uris: seq<string>) returns (found: bool)
    ensures found <==> !NoMechanism(rules, uris)
  {
    for i := 0 to |uris|
      invariant forall j | 0 <= j < i :: !rules.marked(uris[j]) && !rules.mechanism(uris[j])
    {
      if rules.marked(uris[i]) || rules.mechanism(uris[i]) {
        return true;
      }
    }
    return false;
  }

  method AnyEventMissing(refs: seq<Ref>, ids: map<Ref, int>) returns (missing: bool)
    ensures missing <==> exists i | 0 <= i < |refs| :: Id(ids, refs[i]) == 0
  {
    for i := 0 to |refs|
      invariant forall j | 0 <= j < i :: Id(ids, refs[j]) != 0
    {
      if Id(ids, refs[i]) == 0 {
        return true;
      }
    }
    return false;
  }

  method CheckProofs(p: Profile, rules: Rules, audit: Audit, uris: seq<string>) returns (ok: bool)
    ensures ok <==> ProofsSealable(p, rules, audit, uris)
  {
    var mechanism := AnyMechanism(rules, uris);
    var missing := AnyMissing(p, audit.items);
    var ids := CollectEventIds(audit.items);
    var unseen := AnyEventMissing(Required(p.eventKeys, p.items), ids);
    var uriMap := CollectUriMap(p, audit.items);
    var bound := CheckUris(p, rules, uris, uriMap);
    var events := CheckEvents(p, ids);
    var provenanceMap := CollectProvenance(p, audit.items);
    var provenance := CheckProvenance(p, rules, provenanceMap);
    ok := !mechanism && !missing && !unseen && bound && events && provenance;
  }

  // A fixture snapshot carries neither review nor bundle nor file audit.
  function FixtureSnapshot(p: Profile, audit: Audit, o: Options, uris: seq<string>): Snapshot {
    Snapshot(o.evidenceClass, audit.status, audit.scope, Some(Stable(p, audit)), o.title, o.uri, o.summary,
             Review("", "", ""), 0,
             EventIds(audit.items), EventIds(audit.items), uris, |uris|, UriMap(p, audit.items),
             Provenance(p, audit.items),
             "", false, false, false, 0, false, [], 0)
  }

  // buildCompletionAuditSnapshot.
  method Build(p: Profile, k: Keys, rules: Rules, record: Record, audit: Audit, o: Options, bundle: Bundle,
               files: Files)
    returns (snapshot: Option<Snapshot>, uris: seq<string>)
    ensures ListOf(uris, Uris(audit.items))
    ensures snapshot == match o.evidenceClass
                        case ReleaseCandidate =>
                          if Sealable(p, k, rules, record, audit, o, bundle, files, uris)
                          then Some(Sealed(p, audit, o, bundle, files, uris))
                          else None
                        case Fixture =>
                          if rules.target(record) && audit.status == Complete
                          then Some(FixtureSnapshot(p, audit, o, uris))
                          else None
                        case OtherClass => None
  {
    uris := CollectUris(audit.items);
    if !rules.target(record) || audit.status != Complete || o.evidenceClass == OtherClass {
      return None, uris;
    }
    if o.evidenceClass == Fixture {
      return Some(FixtureSnapshot(p, audit, o, uris)), uris;
    }
    if !OptionsValid(rules, o) || !rules.genuine(record) {
      return None, uris;
    }
    var ready := CheckBundle(k, rules, bundle);
    if !ready {
      return None, uris;
    }
    var proofs := CheckProofs(p, rules, audit, uris);
    if !proofs {
      return None, uris;
    }
    var entries, passed := AuditFiles(files, o.uri, uris);
    if !passed {
      return None, uris;
    }
    snapshot := Some(Snapshot(
      o.evidenceClass, audit.status, audit.scope, Some(Stable(p, audit)), o.title, o.uri, o.summary,
      StoredReview(o.review), 0,
      EventIds(audit.items), EventIds(audit.items), uris, |uris|, UriMap(p, audit.items), Provenance(p, audit.items),
      bundle.hash, bundle.ready, bundle.readOnly, true, |bundle.items|, true, entries, |entries|));
  }

  // ---------- checking ----------

  method CheckMetadata(p: Profile, s: Snapshot) returns (agrees: bool)
    ensures agrees <==> MetadataAgrees(p, s)
  {
    if |s.metadataEventIds| == 0 {
      return true;
    }
    var refs := Required(p.eventKeys, p.items);
    for i := 0 to |refs|
      invariant forall j | 0 <= j < i ::
                  Id(s.eventIds, refs[j]) == 0 || Id(s.metadataEventIds, refs[j]) == 0
                  || Id(s.eventIds, refs[j]) == Id(s.metadataEventIds, refs[j])
    {
      var top, stored := Id(s.eventIds, refs[i]), Id(s.metadataEventIds, refs[i]);
      if top != 0 && stored != 0 && top != stored {
        return false;
      }
    }
    return true;
  }

  method CheckHeader(rules: Rules, s: Snapshot, hash: Option<Audit>) returns (v: Verdict)
    ensures v == HeaderVerdict(rules, s, hash)
  {
    if s.evidenceClass != ReleaseCandidate { return FixtureOnly; }
    if s.status != Complete || s.scope != SCOPE || s.hash == None { return AuditIdentityInvalid; }
    if hash != None && s.hash != hash { return AuditHashMismatch; }
    if s.unsafe > 0 { return UnsafeSideEffects; }
    if s.uri == "" { return EvidenceUriMissing; }
    if s.summary == "" { return SummaryMissing; }
    if rules.marked(s.title) || rules.marked(s.uri) || rules.marked(s.summary) { return FixtureLabeled; }
    if rules.mechanism(s.uri) { return MechanismUri; }
    if !rules.candidate(s.uri) { return GenericUri; }
    if !ReviewApproved(rules, s.review) { return ReviewMissing; }
    return Ready;
  }

  method CheckStoredProofs(p: Profile, rules: Rules, s: Snapshot) returns (v: Verdict)
    ensures v == ProofVerdict(p, rules, s)
  {
    var mechanism := AnyMechanism(rules, NonBlank(s.uris));
    if mechanism {
      return MechanismProofUri;
    }
    var uris := CheckUris(p, rules, NonBlank(s.uris), s.uriMap);
    if !uris || s.uriCount != |NonBlank(s.uris)| {
      return ProofUriMissing;
    }
    var events := CheckEvents(p, s.eventIds);
    var metadata := CheckMetadata(p, s);
    if !events || !metadata {
      return ProofEventMissing;
    }
    var provenance := CheckProvenance(p, rules, s.provenance);
    v := if provenance then Ready else ProofProvenanceMissing;
  }

  method CheckPresent(p: Profile, k: Keys, rules: Rules, s: Snapshot, bundle: Bundle, c: Current, files: Files)
    returns (v: Verdict)
    ensures v == PresentVerdict(p, k, rules, s, bundle, c, files)
  {
    var current := CheckCurrent(p, s, c);
    if !current {
      return CurrentBindingMismatch;
    }
    var same := CheckFiles(s, files);
    if !same {
      return FileMismatch;
    }
    var bound := CheckBundleBinding(k, rules, s, bundle);
    if !bound {
      return BundleMismatch;
    }
    var blockers := PackageABlockers(c.package);
    v := if blockers == [] then Ready else PackageAUnbound;
  }

  // buildCompletionAuditSnapshotReadiness.
  method Check(p: Profile, k: Keys, rules: Rules, record: Record, latest: Option<Snapshot>, bundle: Bundle,
               c: Current, files: Files)
    returns (v: Verdict)
    ensures v == Readiness(p, k, rules, record, latest, bundle, c, files)
  {
    if !rules.target(record) { return ProjectMismatch; }
    if !rules.genuine(record) { return IdentityMissing; }
    if latest.None? { return SnapshotMissing; }
    v := CheckHeader(rules, latest.value, c.hash);
    if v != Ready { return v; }
    v := CheckStoredProofs(p, rules, latest.value);
    if v != Ready { return v; }
    v := CheckPresent(p, k, rules, latest.value, bundle, c, files);
  }

  // ---------- file audits ----------

  function UriOf(r: Reference): string {
    Text.TrimSpace(r.uri)
  }

  // The first reference to its URI.
  predicate FirstUse(refs: seq<Reference>, i: int) {
    && 0 <= i < |refs| && UriOf(refs[i]) != ""
    && forall j | 0 <= j < i :: UriOf(refs[j]) != UriOf(refs[i])
  }

  // Each URI was looked up at its first reference, and nothing else was.
  ghost predicate Visited(refs: seq<Reference>, seen: set<string>) {
    && (forall i | 0 <= i < |refs| && UriOf(refs[i]) != "" :: UriOf(refs[i]) in seen)
    && (forall u | u in seen :: exists i :: FirstUse(refs, i) && UriOf(refs[i]) == u)
  }

  ghost predicate Passed(files: Files, refs: seq<Reference>) {
    forall i | FirstUse(refs, i) :: files(refs[i]).Some?
  }

  // The index holds, for each URI, what was found at its first reference.
  ghost predicate Holds(files: Files, refs: seq<Reference>, index: map<string, Entry>) {
    forall i | FirstUse(refs, i) && files(refs[i]).Some? ::
      UriOf(refs[i]) in index && index[UriOf(refs[i])] == files(refs[i]).value.(uri := UriOf(refs[i]))
  }

  ghost predicate HoldsOnly(files: Files, refs: seq<Reference>, index: map<string, Entry>) {
    forall u | u in index :: exists i :: FirstUse(refs, i) && UriOf(refs[i]) == u && files(refs[i]).Some?
  }

  lemma FirstUseExtends(refs: seq<Reference>, seen: set<string>)
    requires refs != [] && Visited(refs[..|refs| - 1], seen)
    ensures forall i | 0 <= i < |refs| - 1 :: FirstUse(refs, i) <==> FirstUse(refs[..|refs| - 1], i)
    ensures FirstUse(refs, |refs| - 1) <==> UriOf(refs[|refs| - 1]) != "" && UriOf(refs[|refs| - 1]) !in seen
  {
    var n := |refs| - 1;
    var init := refs[..n];
    if UriOf(refs[n]) in seen {
      var i :| FirstUse(init, i) && UriOf(init[i]) == UriOf(refs[n]);
      assert refs[i] == init[i];
    }
    if UriOf(refs[n]) != "" && UriOf(refs[n]) !in seen {
      forall j | 0 <= j < n ensures UriOf(refs[j]) != UriOf(refs[n]) {
        assert UriOf(init[j]) == UriOf(refs[j]);
      }
    }
  }

  lemma IndexExtends(entries: seq<Entry>, e: Entry)
    requires Text.TrimSpace(e.uri) == e.uri != ""
    ensures ByUri(entries + [e]) == ByUri(entries)[e.uri := e]
  {
    assert (entries + [e])[..|entries|] == entries;
  }

  lemma {:induction false} WalkVisits(files: Files, refs: seq<Reference>)
    ensures Visited(refs, Walked(files, refs).seen)
  {
    if refs != [] {
      var n := |refs| - 1;
      var init := refs[..n];
      WalkVisits(files, init);
      var w := Walked(files, init);
      FirstUseExtends(refs, w.seen);
      var seen := Walked(files, refs).seen;
      forall u | u in seen ensures exists i :: FirstUse(refs, i) && UriOf(refs[i]) == u {
        if u in w.seen {
          var i :| FirstUse(init, i) && UriOf(init[i]) == u;
          assert FirstUse(refs, i) && UriOf(refs[i]) == u;
        } else {
          assert FirstUse(refs, n) && UriOf(refs[n]) == u;
        }
      }
      forall i | 0 <= i < |refs| && UriOf(refs[i]) != "" ensures UriOf(refs[i]) in seen {
        if i < n {
          assert init[i] == refs[i];
        }
      }
    }
  }

  lemma {:induction false} WalkPasses(files: Files, refs: seq<Reference>)
    ensures Walked(files, refs).ok <==> Passed(files, refs)
  {
    if refs != [] {
      var n := |refs| - 1;
      var init := refs[..n];
      WalkPasses(files, init);
      WalkVisits(files, init);
      FirstUseExtends(refs, Walked(files, init).seen);
      if Passed(files, refs) {
        forall i | FirstUse(init, i) ensures files(init[i]).Some? {
          assert FirstUse(refs, i) && refs[i] == init[i];
        }
      }
      if Walked(files, refs).ok {
        forall i | FirstUse(refs, i) ensures files(refs[i]).Some? {
          if i < n {
            assert FirstUse(init, i) && refs[i] == init[i];
          }
        }
      }
    }
  }

  // What one more reference does to the index.
  lemma WalkStep(files: Files, refs: seq<Reference>)
    requires refs != [] && Visited(refs[..|refs| - 1], Walked(files, refs[..|refs| - 1]).seen)
    ensures var n := |refs| - 1;
            var before, after := ByUri(Walked(files, refs[..n]).entries), ByUri(Walked(files, refs).entries);
            if FirstUse(refs, n) && files(refs[n]).Some?
            then after == before[UriOf(refs[n]) := files(refs[n]).value.(uri := UriOf(refs[n]))]
            else after == before
  {
    var n := |refs| - 1;
    var w := Walked(files, refs[..n]);
    FirstUseExtends(refs, w.seen);
    Text.TrimIsTrimmed(refs[n].uri);
    if FirstUse(refs, n) && files(refs[n]).Some? {
      IndexExtends(w.entries, files(refs[n]).value.(uri := UriOf(refs[n])));
    }
  }

  lemma HoldsMore(files: Files, refs: seq<Reference>, before: map<string, Entry>, after: map<string, Entry>)
    requires refs != [] && Holds(files, refs[..|refs| - 1], before)
    requires forall i | 0 <= i < |refs| - 1 :: FirstUse(refs, i) <==> FirstUse(refs[..|refs| - 1], i)
    requires var n := |refs| - 1;
             if FirstUse(refs, n) && files(refs[n]).Some?
             then after == before[UriOf(refs[n]) := files(refs[n]).value.(uri := UriOf(refs[n]))]
             else after == before
    ensures Holds(files, refs, after)
  {
    var n := |refs| - 1;
    forall i | FirstUse(refs, i) && files(refs[i]).Some?
      ensures UriOf(refs[i]) in after && after[UriOf(refs[i])] == files(refs[i]).value.(uri := UriOf(refs[i]))
    {
      if i < n {
        var u := UriOf(refs[i]);
        assert FirstUse(refs[..n], i) && refs[..n][i] == refs[i];
        assert u in before && before[u] == files(refs[i]).value.(uri := u);
      }
    }
  }

  lemma HoldsOnlyStep(files: Files, refs: seq<Reference>, u: string)
    requires refs != [] && Visited(refs[..|refs| - 1], Walked(files, refs[..|refs| - 1]).seen)
    requires HoldsOnly(files, refs[..|refs| - 1], ByUri(Walked(files, refs[..|refs| - 1]).entries))
    requires u in ByUri(Walked(files, refs).entries)
    ensures exists i :: FirstUse(refs, i) && UriOf(refs[i]) == u && files(refs[i]).Some?
  {
    var n := |refs| - 1;
    var init := refs[..n];
    WalkStep(files, refs);
    FirstUseExtends(refs, Walked(files, init).seen);
    if u in ByUri(Walked(files, init).entries) {
      var i :| FirstUse(init, i) && UriOf(init[i]) == u && files(init[i]).Some?;
      assert FirstUse(refs, i) && UriOf(refs[i]) == u && files(refs[i]).Some?;
    } else {
      assert FirstUse(refs, n) && UriOf(refs[n]) == u && files(refs[n]).Some?;
    }
  }

  lemma {:induction false} WalkIndexes(files: Files, refs: seq<Reference>)
    ensures Holds(files, refs, ByUri(Walked(files, refs).entries))
    ensures HoldsOnly(files, refs, ByUri(Walked(files, refs).entries))
  {
    if refs != [] {
      var init := refs[..|refs| - 1];
      WalkIndexes(files, init);
      WalkVisits(files, init);
      WalkStep(files, refs);
      FirstUseExtends(refs, Walked(files, init).seen);
      HoldsMore(files, refs, ByUri(Walked(files, init).entries), ByUri(Walked(files, refs).entries));
      forall u | u in ByUri(Walked(files, refs).entries)
        ensures exists i :: FirstUse(refs, i) && UriOf(refs[i]) == u && files(refs[i]).Some?
      {
        HoldsOnlyStep(files, refs, u);
      }
    }
  }

  // Every reference finds the file it found before.
  ghost predicate FilesUnchanged(before: Files, after: Files, refs: seq<Reference>) {
    forall i | FirstUse(refs, i) ::
      before(refs[i]).Some? && after(refs[i]).Some? && SameFile(before(refs[i]).value, after(refs[i]).value)
  }

  lemma UnchangedItself(files: Files, refs: seq<Reference>)
    requires Walked(files, refs).ok
    ensures FilesUnchanged(files, files, refs)
  {
    WalkPasses(files, refs);
  }

  lemma AgreeExactly(before: Files, after: Files, refs: seq<Reference>)
    requires Passed(before, refs) && Passed(after, refs)
    ensures Agree(ByUri(Walked(before, refs).entries), ByUri(Walked(after, refs).entries)) <==>
              FilesUnchanged(before, after, refs)
  {
    WalkIndexes(before, refs);
    WalkIndexes(after, refs);
    var x, y := ByUri(Walked(before, refs).entries), ByUri(Walked(after, refs).entries);
    if Agree(x, y) {
      forall i | FirstUse(refs, i)
        ensures before(refs[i]).Some? && after(refs[i]).Some? && SameFile(before(refs[i]).value, after(refs[i]).value)
      {
        assert before(refs[i]).Some? && after(refs[i]).Some?;
        assert UriOf(refs[i]) in x && SameFile(x[UriOf(refs[i])], y[UriOf(refs[i])]);
      }
    }
    if FilesUnchanged(before, after, refs) {
      forall u | u in x ensures u in y && SameFile(x[u], y[u]) {
        var i :| FirstUse(refs, i) && UriOf(refs[i]) == u && before(refs[i]).Some?;
        assert after(refs[i]).Some?;
      }
      forall u | u in y ensures u in x {
        var i :| FirstUse(refs, i) && UriOf(refs[i]) == u && after(refs[i]).Some?;
        assert before(refs[i]).Some?;
      }
    }
  }

  lemma ProofPasses(files: Files, uri: string, uris: seq<string>, i: nat)
    requires i < |uris| && FirstUse(References(uri, uris), i + 1) && FilesPass(Walked(files, References(uri, uris)))
    ensures files(Reference(uris[i], true)).Some?
  {
    var refs := References(uri, uris);
    WalkPasses(files, refs);
    assert refs[i + 1] == Reference(uris[i], true);
  }

  lemma ProofReference(uri: string, uris: seq<string>, j: nat)
    requires j < |uris| && Clean(uris[j])
    ensures UriOf(References(uri, uris)[j + 1]) == uris[j] != ""
  {
  }

  lemma ProofIsFirstUse(uri: string, uris: seq<string>, i: nat)
    requires (forall n | 0 <= n < |uris| :: Clean(uris[n])) && i < |uris| && uris[i] != Text.TrimSpace(uri)
    requires forall n | 0 <= n < i :: uris[n] != uris[i]
    ensures FirstUse(References(uri, uris), i + 1)
  {
    var refs := References(uri, uris);
    ProofReference(uri, uris, i);
    forall j | 0 <= j < i + 1 ensures UriOf(refs[j]) != UriOf(refs[i + 1]) {
      if j > 0 {
        ProofReference(uri, uris, j - 1);
        assert uris[j - 1] != uris[i];
      }
    }
  }

  lemma ListedOnce(uris: seq<string>, all: set<string>, i: nat)
    requires ListOf(uris, all) && (forall u | u in all :: Clean(u)) && i < |uris|
    ensures (forall n | 0 <= n < |uris| :: Clean(uris[n])) && forall n | 0 <= n < i :: uris[n] != uris[i]
  {
    forall n | 0 <= n < |uris| ensures Clean(uris[n]) {
      assert uris[n] in uris;
    }
    forall n | 0 <= n < i ensures uris[n] != uris[i] {
      assert Text.Less(uris[n], uris[i]);
      Text.LessIrreflexive(uris[i]);
    }
  }

  // ---------- lists and sets ----------

  predicate NoRepeats(values: seq<string>) {
    forall i, j | 0 <= i < j < |values| :: Text.TrimSpace(values[i]) != Text.TrimSpace(values[j])
  }

  ghost function Elements<T>(list: seq<T>): set<T> {
    set u | u in list
  }

  ghost predicate Distinct<T>(list: seq<T>) {
    forall i, j | 0 <= i < j < |list| :: list[i] != list[j]
  }

  lemma {:induction false} ElementsCount<T>(list: seq<T>)
    ensures |Elements(list)| <= |list|
    ensures |Elements(list)| == |list| <==> Distinct(list)
  {
    if list != [] {
      var n := |list| - 1;
      ElementsCount(list[..n]);
      assert list == list[..n] + [list[n]];
      assert Elements(list) == Elements(list[..n]) + {list[n]};
      if list[n] in list[..n] {
        assert Elements(list) == Elements(list[..n]);
      } else {
        assert Distinct(list) <==> Distinct(list[..n]);
      }
    }
  }

  // A list is no shorter than the set of its trimmed values, and as long only without repeats.
  lemma TrimsCount(values: seq<string>)
    ensures |Trims(values)| <= |values|
    ensures |Trims(values)| == |values| <==> NoRepeats(values)
  {
    var list := seq(|values|, i requires 0 <= i < |values| => Text.TrimSpace(values[i]));
    ElementsCount(list);
    forall i, j | 0 <= i < j < |values|
      ensures list[i] != list[j] <==> Text.TrimSpace(values[i]) != Text.TrimSpace(values[j])
    {
    }
    assert Trims(values) == Elements(list) by {
      forall u | u in Trims(values) ensures u in list {
        var i :| 0 <= i < |values| && Text.TrimSpace(values[i]) == u;
        assert list[i] == u;
      }
    }
  }

  lemma SubsetNotLarger<T>(a: set<T>, b: set<T>)
    requires a <= b
    ensures |a| <= |b|
  {
    assert b == a + (b - a);
  }

  lemma SubsetOfSize<T>(a: set<T>, b: set<T>)
    requires a <= b && |a| == |b|
    ensures a == b
  {
    assert b == a + (b - a);
    assert |b - a| == |b| - |a|;
  }

  /** The set check compares one direction and a length. It establishes that the stored and the
      current URIs are the same set exactly when the stored list repeats nothing. */
  lemma SetCheckExactly(stored: seq<string>, current: seq<string>)
    requires SetChecked(stored, current)
    ensures Trims(stored) == Trims(current) <==> NoRepeats(stored)
  {
    TrimsCount(stored);
    if NoRepeats(stored) {
      SubsetOfSize(Trims(stored), Trims(current));
    }
  }

  // A stored list that repeats a URI can pass without naming every current one.
  lemma SetCheckIsLoose()
    ensures SetChecked(["a", "a"], ["a", "b"]) && Trims(["a", "a"]) != Trims(["a", "b"])
  {
    assert Text.TrimSpace("a") == "a" && Text.TrimSpace("b") == "b";
    assert Trims(["a", "b"]) == {"a", "b"} by {
      assert Text.TrimSpace(["a", "b"][0]) == "a" && Text.TrimSpace(["a", "b"][1]) == "b";
    }
    assert "b" !in Trims(["a", "a"]);
  }

  // A sorted list of clean values is its own set check.
  lemma OwnSetCheck(uris: seq<string>, s: set<string>)
    requires ListOf(uris, s) && forall u | u in s :: Clean(u)
    ensures NonBlank(uris) == uris && SetChecked(uris, uris)
  {
    assert forall u | u in uris :: Clean(u);
    NonBlankOfClean(uris);
    forall i, j | 0 <= i < j < |uris| ensures Text.TrimSpace(uris[i]) != Text.TrimSpace(uris[j]) {
      assert Text.Less(uris[i], uris[j]) && Clean(uris[i]) && Clean(uris[j]);
      Text.LessIrreflexive(uris[i]);
    }
    TrimsCount(uris);
  }

  // ---------- sealing is exact ----------

  // The profile asks for some URI and some provenance, and no volatile value is among them.
  ghost predicate Meaningful(p: Profile) {
    Steady(p) && Required(p.uriKeys, p.items) != [] && Required(p.provenanceKeys, p.items) != []
  }

  function CurrentOf(p: Profile, audit: Audit, uris: seq<string>, package: Binding): Current {
    Current(Some(Stable(p, audit)), uris, UriMap(p, audit.items), EventIds(audit.items), Provenance(p, audit.items),
        package)
  }

  // The checks of a snapshot that look at nothing else.
  predicate HeaderSound(rules: Rules, s: Snapshot) {
    && s.evidenceClass == ReleaseCandidate && s.status == Complete && s.scope == SCOPE && s.hash.Some? && s.unsafe == 0
    && s.uri != "" && s.summary != ""
    && !rules.marked(s.title) && !rules.marked(s.uri) && !rules.marked(s.summary)
    && !rules.mechanism(s.uri) && rules.candidate(s.uri) && ReviewApproved(rules, s.review)
  }

  predicate ProofsSound(p: Profile, rules: Rules, s: Snapshot) {
    && NoMechanism(rules, NonBlank(s.uris)) && UrisBound(p, rules, NonBlank(s.uris), s.uriMap) &&
          s.uriCount == |NonBlank(s.uris)|
    && EventsBound(p, s.eventIds) && MetadataAgrees(p, s) && ProvenanceBound(p, rules, s.provenance)
  }

  lemma HeaderExactly(rules: Rules, s: Snapshot, hash: Option<Audit>)
    ensures HeaderVerdict(rules, s, hash) == Ready <==> HeaderSound(rules, s) && (hash == None || s.hash == hash)
  {
  }

  lemma ProofsExactly(p: Profile, rules: Rules, s: Snapshot)
    ensures ProofVerdict(p, rules, s) == Ready <==> ProofsSound(p, rules, s)
  {
  }

  lemma PresentExactly(p: Profile, k: Keys, rules: Rules, s: Snapshot, bundle: Bundle, c: Current, files: Files)
    ensures PresentVerdict(p, k, rules, s, bundle, c, files) == Ready <==>
              CurrentBound(p, s, c) && FilesMatch(s, files) && BundleBound(k, rules, s, bundle) && Bound(c.package)
  {
  }

  // What was checked when the snapshot was recorded is true of what was stored.
  lemma SealedPassesSelf(p: Profile, k: Keys, rules: Rules, record: Record, audit: Audit, o: Options, bundle: Bundle,
                         files: Files, uris: seq<string>)
    requires ListOf(uris, Uris(audit.items)) && Sealable(p, k, rules, record, audit, o, bundle, files, uris)
    ensures var s := Sealed(p, audit, o, bundle, files, uris);
            && NonBlank(s.uris) == uris && ProofsSound(p, rules, s)
            && (o.evidenceClass == ReleaseCandidate ==> (HeaderSound(rules, s) <==> audit.scope == SCOPE))
  {
    UrisAreClean(audit.items);
    OwnSetCheck(uris, Uris(audit.items));
    Text.LowerTrimTwice(o.review.decision);
    Text.TrimIsTrimmed(o.review.signedBy);
    Text.TrimIsTrimmed(o.review.at);
  }

  lemma NonEmptyMaps(p: Profile, rules: Rules, values: seq<string>, uriMap: map<Ref, string>, provenance: map<Ref,
                     string>)
    requires Meaningful(p) && UrisBound(p, rules, values, uriMap) && ProvenanceBound(p, rules, provenance)
    ensures |uriMap| > 0 && |provenance| > 0
  {
    var u, v := Required(p.uriKeys, p.items)[0], Required(p.provenanceKeys, p.items)[0];
    assert UriFits(rules, values, Look(uriMap, u));
    assert u in uriMap && v in provenance;
  }

  // A snapshot whose proofs are bound is bound to a current audit with the same proofs.
  lemma SameProofsAreBound(p: Profile, rules: Rules, s: Snapshot, c: Current)
    requires Meaningful(p) && NonBlank(s.uris) == s.uris && SetChecked(s.uris, s.uris)
    requires UrisBound(p, rules, s.uris, s.uriMap) && EventsBound(p, s.eventIds) &&
              ProvenanceBound(p, rules, s.provenance)
    requires c.uris == s.uris && c.uriMap == s.uriMap && c.eventIds == s.eventIds && c.provenance == s.provenance
    ensures CurrentBound(p, s, c)
  {
    NonEmptyMaps(p, rules, s.uris, s.uriMap, s.provenance);
    var refs := Required(p.uriKeys, p.items);
    forall i | 0 <= i < |refs| ensures SameText(s.uriMap, c.uriMap, refs[i]) {
      assert UriFits(rules, s.uris, Look(s.uriMap, refs[i]));
    }
  }

  // With the same hash, the snapshot is bound to the current audit.
  lemma SameHashIsBound(p: Profile, rules: Rules, s: Snapshot, audit: Audit, audit': Audit, uris': seq<string>,
                        package: Binding)
    requires Meaningful(p) && Stable(p, audit) == Stable(p, audit')
    requires ListOf(s.uris, Uris(audit.items)) && ListOf(uris', Uris(audit'.items))
    requires s.uriMap == UriMap(p, audit.items) && s.eventIds == EventIds(audit.items) &&
              s.provenance == Provenance(p, audit.items)
    requires ProofsSealable(p, rules, audit, s.uris)
    ensures CurrentBound(p, s, CurrentOf(p, audit', uris', package))
  {
    SameHashSameProofs(p, audit, audit');
    ListUnique(s.uris, uris', Uris(audit.items));
    UrisAreClean(audit.items);
    OwnSetCheck(s.uris, Uris(audit.items));
    SameProofsAreBound(p, rules, s, CurrentOf(p, audit', uris', package));
  }

  // The stored file audit matches exactly when every reference still finds the same file.
  lemma FilesMatchExactly(s: Snapshot, uris: seq<string>, before: Files, after: Files)
    requires NonBlank(s.uris) == uris && s.filesPassed && s.entryCount == |s.entries|
    requires FilesPass(Walked(before, References(s.uri, uris))) &&
              s.entries == Walked(before, References(s.uri, uris)).entries
    ensures FilesMatch(s, after) <==> FilesUnchanged(before, after, References(s.uri, uris))
  {
    var refs := References(s.uri, uris);
    WalkPasses(before, refs);
    WalkPasses(after, refs);
    if FilesUnchanged(before, after, refs) {
      assert Passed(after, refs);
    }
    if Passed(after, refs) {
      AgreeExactly(before, after, refs);
      if FilesUnchanged(before, after, refs) {
        IndexNotEmpty(before, refs);
        WalkIndexes(before, refs);
        var u :| u in ByUri(s.entries);
        assert u in ByUri(Walked(after, refs).entries);
      }
    }
  }

  lemma {:induction false} IndexNotEmpty(files: Files, refs: seq<Reference>)
    requires Walked(files, refs).entries != []
    ensures ByUri(Walked(files, refs).entries) != map[]
    decreases |refs|
  {
    var n := |refs| - 1;
    var w, all := Walked(files, refs[..n]), Walked(files, refs);
    if all.entries == w.entries {
      IndexNotEmpty(files, refs[..n]);
    } else {
      Text.TrimIsTrimmed(refs[n].uri);
      var e := all.entries[|all.entries| - 1];
      IndexExtends(w.entries, e);
      assert e.uri in ByUri(all.entries);
    }
  }

  // The verdict from the separate findings, when the current hash is known.
  lemma VerdictFrom(p: Profile, k: Keys, rules: Rules, record: Record, s: Snapshot, bundle: Bundle, c: Current,
                    files: Files,
                    scoped: bool, sameHash: bool, sameFiles: bool, sameBundle: bool)
    requires ProofsSound(p, rules, s) && (HeaderSound(rules, s) <==> scoped)
    requires c.hash.Some? && (s.hash == c.hash <==> sameHash) && (sameHash ==> CurrentBound(p, s, c))
    requires FilesMatch(s, files) <==> sameFiles
    requires BundleBound(k, rules, s, bundle) <==> sameBundle
    ensures Readiness(p, k, rules, record, Some(s), bundle, c, files) == Ready <==>
              rules.target(record) && rules.genuine(record) && scoped && sameHash && sameFiles && sameBundle &&
                  Bound(c.package)
  {
    HeaderExactly(rules, s, c.hash);
    ProofsExactly(p, rules, s);
    PresentExactly(p, k, rules, s, bundle, c, files);
  }

  lemma SealedFiles(p: Profile, k: Keys, rules: Rules, record: Record, audit: Audit, o: Options, bundle: Bundle,
                    files: Files, uris: seq<string>, files': Files)
    requires ListOf(uris, Uris(audit.items)) && Sealable(p, k, rules, record, audit, o, bundle, files, uris)
    ensures FilesMatch(Sealed(p, audit, o, bundle, files, uris), files') <==>
              FilesUnchanged(files, files', References(o.uri, uris))
  {
    UrisAreClean(audit.items);
    OwnSetCheck(uris, Uris(audit.items));
    FilesMatchExactly(Sealed(p, audit, o, bundle, files, uris), uris, files, files');
  }

  /** A recorded release-candidate snapshot is ready exactly as long as the project is the real
      one, the audit was a v1.0 audit and still says the same, every evidence reference finds the
      same file, the bundle is ready and has kept its hash and size, and Package A is bound. */
  lemma SealingExact(p: Profile, k: Keys, rules: Rules, record: Record, audit: Audit, o: Options, bundle: Bundle,
                     files: Files, uris: seq<string>,
                     record': Record, audit': Audit, bundle': Bundle, files': Files, uris': seq<string>,
                     package: Binding)
    requires Meaningful(p) && o.evidenceClass == ReleaseCandidate
    requires ListOf(uris, Uris(audit.items)) && Sealable(p, k, rules, record, audit, o, bundle, files, uris)
    requires ListOf(uris', Uris(audit'.items))
    ensures var s := Sealed(p, audit, o, bundle, files, uris);
            var c := CurrentOf(p, audit', uris', package);
            Readiness(p, k, rules, record', Some(s), bundle', c, files') == Ready <==>
              && rules.target(record') && rules.genuine(record')
              && audit.scope == SCOPE && SameAudit(p, audit, audit')
              && FilesUnchanged(files, files', References(o.uri, uris))
              && BundleReady(k, rules, bundle') && bundle'.hash == bundle.hash && |bundle'.items| == |bundle.items|
              && Bound(package)
  {
    var s := Sealed(p, audit, o, bundle, files, uris);
    var c := CurrentOf(p, audit', uris', package);
    var sameHash := Stable(p, audit) == Stable(p, audit');
    HashExactly(p, audit, audit');
    SealedPassesSelf(p, k, rules, record, audit, o, bundle, files, uris);
    SealedFiles(p, k, rules, record, audit, o, bundle, files, uris, files');
    if sameHash {
      assert s.uris == uris && s.uriMap == UriMap(p, audit.items);
      assert s.eventIds == EventIds(audit.items) && s.provenance == Provenance(p, audit.items);
      SameHashIsBound(p, rules, s, audit, audit', uris', package);
    }
    VerdictFrom(p, k, rules, record', s, bundle', c, files', audit.scope == SCOPE, sameHash,
                FilesMatch(s, files'), BundleBound(k, rules, s, bundle'));
  }

  // The verdict from the separate findings, whatever it is.
  lemma VerdictNamed(p: Profile, k: Keys, rules: Rules, record: Record, s: Snapshot, bundle: Bundle, c: Current,
                     files: Files)
    requires ProofsSound(p, rules, s) && s.evidenceClass == ReleaseCandidate && s.status == Complete && s.hash.Some?
    requires HeaderSound(rules, s) <==> s.scope == SCOPE
    requires c.hash.Some? && (s.hash == c.hash ==> CurrentBound(p, s, c))
    ensures Readiness(p, k, rules, record, Some(s), bundle, c, files) ==
            if !rules.target(record) then ProjectMismatch
            else if !rules.genuine(record) then IdentityMissing
            else if s.scope != SCOPE then AuditIdentityInvalid
            else if s.hash != c.hash then AuditHashMismatch
            else if !FilesMatch(s, files) then FileMismatch
            else if !BundleBound(k, rules, s, bundle) then BundleMismatch
            else if !Bound(c.package) then PackageAUnbound
            else Ready
  {
    HeaderExactly(rules, s, c.hash);
    ProofsExactly(p, rules, s);
  }

  /** And whatever has changed is named: the check reports the first of these that is so - another
      project, one that is not genuine, an audit of another scope, an audit that says something
      else, a file that is not the same, a bundle that is not, a Package A that is not bound. */
  lemma DriftIsNamed(p: Profile, k: Keys, rules: Rules, record: Record, audit: Audit, o: Options, bundle: Bundle,
                     files: Files, uris: seq<string>,
                     record': Record, audit': Audit, bundle': Bundle, files': Files, uris': seq<string>,
                     package: Binding)
    requires Meaningful(p) && o.evidenceClass == ReleaseCandidate
    requires ListOf(uris, Uris(audit.items)) && Sealable(p, k, rules, record, audit, o, bundle, files, uris)
    requires ListOf(uris', Uris(audit'.items))
    ensures Readiness(p, k, rules, record', Some(Sealed(p, audit, o, bundle, files, uris)), bundle',
                      CurrentOf(p, audit', uris', package), files') ==
            if !rules.target(record') then ProjectMismatch
            else if !rules.genuine(record') then IdentityMissing
            else if audit.scope != "v1.0" then AuditIdentityInvalid
            else if !SameAudit(p, audit, audit') then AuditHashMismatch
            else if !FilesUnchanged(files, files', References(o.uri, uris)) then FileMismatch
            else if !(BundleReady(k, rules, bundle') && bundle'.hash == bundle.hash
                      && |bundle'.items| == |bundle.items|) then BundleMismatch
            else if !Bound(package) then PackageAUnbound
            else Ready
  {
    var s := Sealed(p, audit, o, bundle, files, uris);
    var c := CurrentOf(p, audit', uris', package);
    HashExactly(p, audit, audit');
    SealedPassesSelf(p, k, rules, record, audit, o, bundle, files, uris);
    SealedFiles(p, k, rules, record, audit, o, bundle, files, uris, files');
    if Stable(p, audit) == Stable(p, audit') {
      assert s.uris == uris && s.uriMap == UriMap(p, audit.items);
      assert s.eventIds == EventIds(audit.items) && s.provenance == Provenance(p, audit.items);
      SameHashIsBound(p, rules, s, audit, audit', uris', package);
    }
    VerdictNamed(p, k, rules, record', s, bundle', c, files');
  }

  // So a snapshot is ready as soon as it is recorded, when nothing has changed since its audit.
  lemma RecordedIsReady(p: Profile, k: Keys, rules: Rules, record: Record, audit: Audit, o: Options, bundle: Bundle,
                        files: Files, uris: seq<string>, package: Binding)
    requires Meaningful(p) && o.evidenceClass == ReleaseCandidate
    requires ListOf(uris, Uris(audit.items)) && Sealable(p, k, rules, record, audit, o, bundle, files, uris)
    requires AssembledWith(audit, package)
    ensures Readiness(p, k, rules, record, Some(Sealed(p, audit, o, bundle, files, uris)), bundle,
                      CurrentOf(p, audit, uris, package), files) == Ready
  {
    CompleteAuditIsBound(audit, package);
    HashExactly(p, audit, audit);
    UnchangedItself(files, References(o.uri, uris));
    SealingExact(p, k, rules, record, audit, o, bundle, files, uris, record, audit, bundle, files, uris, package);
  }

  /** Conversely, whatever snapshot is stored: if it is ready and the current hash is known, it
      agrees with the present on the hash, on every required URI, event and provenance, on every
      evidence file both ways, and on the bundle. */
  lemma ReadyMeansUnchanged(p: Profile, k: Keys, rules: Rules, record: Record, latest: Option<Snapshot>,
                            bundle: Bundle, c: Current, files: Files)
    requires Readiness(p, k, rules, record, latest, bundle, c, files) == Ready && c.hash.Some?
    ensures latest.Some?
    ensures var s := latest.value;
            && s.hash == c.hash && s.bundleHash == bundle.hash && s.bundleCount == |bundle.items|
            && (forall r | r in Required(p.uriKeys, p.items) :: SameText(s.uriMap, c.uriMap, r))
            && (forall r | r in Required(p.eventKeys, p.items) :: SameId(s.eventIds, c.eventIds, r))
            && (forall r | r in Required(p.provenanceKeys, p.items) :: SameText(s.provenance, c.provenance, r))
            && Agree(ByUri(s.entries), ByUri(Walked(files, References(s.uri, NonBlank(s.uris))).entries))
            && (Trims(NonBlank(s.uris)) == Trims(c.uris) <==> NoRepeats(NonBlank(s.uris)))
            && Bound(c.package)
  {
    SetCheckExactly(NonBlank(latest.value.uris), c.uris);
  }
}
