/**
 Sealing a completion audit in a release-candidate snapshot, and deciding later whether the
 snapshot still stands for the audit, the evidence files, the release bundle and the status
 projection as they are by then.

 The file system is a function: what auditing one evidence reference yields, if it passes.
 Stored values are read back as they were written.
 */
module AuditSnapshot {

  import opened Wrappers
  import Text
  import opened CompletionAudit
  import opened AuditEvidence

  datatype Record = Record(key: string, kind: string, adapter: string, profile: string, branch: string, root: string)

  // The checks on one string or one project record, which record time and check time share.
  datatype Rules = Rules(
    target: Record -> bool, genuine: Record -> bool, marked: string -> bool, mechanism: string -> bool,
    candidate: string -> bool, isTime: string -> bool)

  datatype Class = Fixture | ReleaseCandidate | OtherClass

  datatype Review = Review(decision: string, signedBy: string, at: string)

  datatype Options = Options(evidenceClass: Class, title: string, uri: string, summary: string, review: Review)

  datatype BundleItem = BundleItem(key: string, ready: bool, record: Record)

  datatype Bundle = Bundle(hash: string, ready: bool, readOnly: bool, items: seq<BundleItem>)

  datatype Entry = Entry(uri: string, path: string, anchor: string, sha: string, size: int)

  // A reference and whether it must name an anchor.
  datatype Reference = Reference(uri: string, anchored: bool)

  type Files = Reference -> Option<Entry>

  /** A stored snapshot. `hash` stands for the digest of a stable audit; `unsafe` counts the
      side effects it reports; `bundleCount`, `uriCount` and `entryCount` are stored counts. */
  datatype Snapshot = Snapshot(
    evidenceClass: Class, status: Status, scope: string, hash: Option<Audit>, title: string, uri: string,
    summary: string,
    review: Review, unsafe: nat,
    eventIds: map<Ref, int>, metadataEventIds: map<Ref, int>, uris: seq<string>, uriCount: int,
    uriMap: map<Ref, string>,
    provenance: map<Ref, string>,
    bundleHash: string, bundleReady: bool, bundleReadOnly: bool, bundleFlag: bool, bundleCount: int,
    filesPassed: bool, entries: seq<Entry>, entryCount: int)

  // What the check derives from the current audit; the hash may be unknown.
  datatype Current = Current(
    hash: Option<Audit>, uris: seq<string>, uriMap: map<Ref, string>, eventIds: map<Ref, int>,
    provenance: map<Ref, string>, package: Binding)

  datatype Keys = Keys(bundle: seq<string>, inventory: string)

  function Look(m: map<Ref, string>, r: Ref): string {
    if r in m then Text.TrimSpace(m[r]) else ""
  }

  function Id(m: map<Ref, int>, r: Ref): int {
    if r in m then m[r] else 0
  }

  // ---------- evidence files ----------

  datatype Walk = Walk(seen: set<string>, entries: seq<Entry>, ok: bool)

  // The references in order, each URI once.
  function Walked(files: Files, refs: seq<Reference>): Walk {
    if refs == [] then Walk({}, [], true)
    else
      var w, ref := Walked(files, refs[..|refs| - 1]), refs[|refs| - 1];
      var uri := Text.TrimSpace(ref.uri);
      if uri == "" || uri in w.seen then w
      else
        match files(ref)
        case None => w.(seen := w.seen + {uri}, ok := false)
        case Some(e) => w.(seen := w.seen + {uri}, entries := w.entries + [e.(uri := uri)])
  }

  // The snapshot's own reference needs no anchor, the proofs' do.
  function References(uri: string, uris: seq<string>): seq<Reference> {
    [Reference(uri, false)] + seq(|uris|, i requires 0 <= i < |uris| => Reference(uris[i], true))
  }

  predicate FilesPass(w: Walk) {
    w.ok && w.entries != []
  }

  // completionAuditSnapshotAuditEvidenceURIRefs.
  method AuditFiles(files: Files, uri: string, uris: seq<string>) returns (entries: seq<Entry>, ok: bool)
    ensures entries == Walked(files, References(uri, uris)).entries
    ensures ok <==> FilesPass(Walked(files, References(uri, uris)))
  {
    var refs := References(uri, uris);
    var seen: set<string> := {};
    entries, ok := [], true;
    for i := 0 to |refs|
      invariant Walk(seen, entries, ok) == Walked(files, refs[..i])
    {
      assert refs[..i + 1][..i] == refs[..i];
      var u := Text.TrimSpace(refs[i].uri);
      if u != "" && u !in seen {
        seen := seen + {u};
        match files(refs[i]) {
          case None => ok := false;
          case Some(e) => entries := entries + [e.(uri := u)];
        }
      }
    }
    assert refs[..|refs|] == refs;
    if entries == [] {
      ok := false;
    }
  }

  function ByUri(entries: seq<Entry>): map<string, Entry> {
    if entries == [] then map[]
    else
      var done, e := ByUri(entries[..|entries| - 1]), entries[|entries| - 1];
      if Text.TrimSpace(e.uri) == "" then done else done[Text.TrimSpace(e.uri) := e]
  }

  predicate SameFile(a: Entry, b: Entry) {
    a.path == b.path && a.anchor == b.anchor && a.sha == b.sha && a.size == b.size
  }

  predicate Agree(stored: map<string, Entry>, current: map<string, Entry>) {
    && (forall u | u in stored :: u in current && SameFile(stored[u], current[u]))
    && (forall u | u in current :: u in stored)
  }

  predicate FilesMatch(s: Snapshot, files: Files) {
    var w := Walked(files, References(s.uri, NonBlank(s.uris)));
    && s.filesPassed && s.entries != [] && s.entryCount == |s.entries|
    && FilesPass(w) && Agree(ByUri(s.entries), ByUri(w.entries))
  }

  method IndexByUri(entries: seq<Entry>) returns (index: map<string, Entry>)
    ensures index == ByUri(entries)
  {
    index := map[];
    for i := 0 to |entries|
      invariant index == ByUri(entries[..i])
    {
      assert entries[..i + 1][..i] == entries[..i];
      if Text.TrimSpace(entries[i].uri) != "" {
        index := index[Text.TrimSpace(entries[i].uri) := entries[i]];
      }
    }
    assert entries[..|entries|] == entries;
  }

  // The two loops over the stored and the current index.
  method Compare(stored: map<string, Entry>, current: map<string, Entry>) returns (mismatches: nat)
    ensures mismatches == 0 <==> Agree(stored, current)
  {
    mismatches := 0;
    var left := stored.Keys;
    while left != {}
      invariant left <= stored.Keys
      invariant mismatches == 0 <==> forall u | u in stored && u !in left ::
                u in current && SameFile(stored[u], current[u])
      decreases |left|
    {
      var u :| u in left;
      if u !in current || !SameFile(stored[u], current[u]) {
        mismatches := mismatches + 1;
      }
      left := left - {u};
    }
    left := current.Keys;
    ghost var first := mismatches;
    while left != {}
      invariant left <= current.Keys
      invariant mismatches == 0 <==> first == 0 && forall u | u in current && u !in left :: u in stored
      decreases |left|
    {
      var u :| u in left;
      if u !in stored {
        mismatches := mismatches + 1;
      }
      left := left - {u};
    }
  }

  // completionAuditSnapshotEvidenceURIFileAuditBindingBlockers.
  method CheckFiles(s: Snapshot, files: Files) returns (clean: bool)
    ensures clean <==> FilesMatch(s, files)
  {
    var entries, ok := AuditFiles(files, s.uri, NonBlank(s.uris));
    var stored := IndexByUri(s.entries);
    var current := IndexByUri(entries);
    var mismatches := Compare(stored, current);
    clean := s.filesPassed && s.entries != [] && s.entryCount == |s.entries| && ok && mismatches == 0;
  }

  // ---------- proofs ----------

  function RequiredValues(refs: seq<Ref>, m: map<Ref, string>): set<string> {
    if refs == [] then {}
    else
      var v := Look(m, refs[|refs| - 1]);
      RequiredValues(refs[..|refs| - 1], m) + if v == "" then {} else {v}
  }

  predicate UriFits(rules: Rules, values: seq<string>, v: string) {
    v != "" && !rules.marked(v) && !rules.mechanism(v) && rules.candidate(v) && v in values
  }

  predicate AllFit(rules: Rules, values: seq<string>, refs: seq<Ref>, m: map<Ref, string>) {
    forall i | 0 <= i < |refs| :: UriFits(rules, values, Look(m, refs[i]))
  }

  // Every required proof has a fitting URI of its own.
  predicate UrisBound(p: Profile, rules: Rules, values: seq<string>, m: map<Ref, string>) {
    var refs := Required(p.uriKeys, p.items);
    && AllFit(rules, values, refs, m)
    && values != [] && |values| >= |refs| && |RequiredValues(refs, m)| >= |refs|
  }

  method CheckUri(rules: Rules, values: seq<string>, v: string) returns (clean: bool)
    ensures clean <==> UriFits(rules, values, v)
  {
    if v == "" {
      return false;
    }
    clean := true;
    if rules.marked(v) || rules.mechanism(v) {
      clean := false;
    }
    if !rules.candidate(v) {
      clean := false;
    }
    if v !in values {
      clean := false;
    }
  }

  method CheckEachUri(rules: Rules, values: seq<string>, refs: seq<Ref>, m: map<Ref, string>) returns (clean: bool)
    ensures clean <==> AllFit(rules, values, refs, m)
  {
    clean := true;
    for i := 0 to |refs|
      invariant clean <==> forall j | 0 <= j < i :: UriFits(rules, values, Look(m, refs[j]))
    {
      var fits := CheckUri(rules, values, Look(m, refs[i]));
      clean := clean && fits;
    }
  }

  method DistinctValues(refs: seq<Ref>, m: map<Ref, string>) returns (distinct: set<string>)
    ensures distinct == RequiredValues(refs, m)
  {
    distinct := {};
    for i := 0 to |refs|
      invariant distinct == RequiredValues(refs[..i], m)
    {
      assert refs[..i + 1][..i] == refs[..i];
      var v := Look(m, refs[i]);
      if v != "" {
        distinct := distinct + {v};
      }
    }
    assert refs[..|refs|] == refs;
  }

  method CheckUris(p: Profile, rules: Rules, values: seq<string>, m: map<Ref, string>) returns (clean: bool)
    ensures clean <==> UrisBound(p, rules, values, m)
  {
    var refs := Required(p.uriKeys, p.items);
    clean := CheckEachUri(rules, values, refs, m);
    var distinct := DistinctValues(refs, m);
    if values == [] || |values| < |refs| || |distinct| < |refs| {
      clean := false;
    }
  }

  function RequiredIds(refs: seq<Ref>, ids: map<Ref, int>): set<int> {
    set i | 0 <= i < |refs| && Id(ids, refs[i]) > 0 :: Id(ids, refs[i])
  }

  // Every required proof has an event of its own.
  predicate EventsBound(p: Profile, ids: map<Ref, int>) {
    var refs := Required(p.eventKeys, p.items);
    && (forall i | 0 <= i < |refs| :: Id(ids, refs[i]) > 0)
    && |ids| > 0 && |ids| >= |refs| && |RequiredIds(refs, ids)| >= |refs|
  }

  method CheckEvents(p: Profile, ids: map<Ref, int>) returns (clean: bool)
    ensures clean <==> EventsBound(p, ids)
  {
    var refs := Required(p.eventKeys, p.items);
    clean := true;
    var distinct: set<int> := {};
    for i := 0 to |refs|
      invariant clean <==> forall j | 0 <= j < i :: Id(ids, refs[j]) > 0
      invariant distinct == set j | 0 <= j < i && Id(ids, refs[j]) > 0 :: Id(ids, refs[j])
    {
      if Id(ids, refs[i]) <= 0 {
        clean := false;
      } else {
        distinct := distinct + {Id(ids, refs[i])};
      }
    }
    if |ids| == 0 || |ids| < |refs| || |distinct| < |refs| {
      clean := false;
    }
  }

  predicate ProvenanceBound(p: Profile, rules: Rules, m: map<Ref, string>) {
    var refs := Required(p.provenanceKeys, p.items);
    forall i | 0 <= i < |refs| :: Look(m, refs[i]) != "" && !rules.marked(Look(m, refs[i]))
  }

  method CheckProvenance(p: Profile, rules: Rules, m: map<Ref, string>) returns (clean: bool)
    ensures clean <==> ProvenanceBound(p, rules, m)
  {
    var refs := Required(p.provenanceKeys, p.items);
    clean := true;
    for i := 0 to |refs|
      invariant clean <==> forall j | 0 <= j < i :: Look(m, refs[j]) != "" && !rules.marked(Look(m, refs[j]))
    {
      var v := Look(m, refs[i]);
      if v == "" || rules.marked(v) {
        clean := false;
      }
    }
  }

  // Where the event IDs stored in the metadata say something, they agree with the others.
  predicate MetadataAgrees(p: Profile, s: Snapshot) {
    var refs := Required(p.eventKeys, p.items);
    |s.metadataEventIds| == 0 ||
    forall i | 0 <= i < |refs| ::
      Id(s.eventIds, refs[i]) == 0 || Id(s.metadataEventIds, refs[i]) == 0 ||
          Id(s.eventIds, refs[i]) == Id(s.metadataEventIds, refs[i])
  }

  // ---------- the binding to the current audit ----------

  function Trims(values: seq<string>): set<string> {
    set i | 0 <= i < |values| :: Text.TrimSpace(values[i])
  }

  predicate SameText(a: map<Ref, string>, b: map<Ref, string>, r: Ref) {
    Look(a, r) != "" && Look(a, r) == Look(b, r)
  }

  predicate SameId(a: map<Ref, int>, b: map<Ref, int>, r: Ref) {
    Id(a, r) > 0 && Id(a, r) == Id(b, r)
  }

  predicate SetChecked(stored: seq<string>, current: seq<string>) {
    && (forall i | 0 <= i < |stored| :: Text.TrimSpace(stored[i]) in Trims(current))
    && |stored| == |Trims(current)|
  }

  predicate TextsSame(refs: seq<Ref>, a: map<Ref, string>, b: map<Ref, string>) {
    forall i | 0 <= i < |refs| :: SameText(a, b, refs[i])
  }

  predicate IdsSame(refs: seq<Ref>, a: map<Ref, int>, b: map<Ref, int>) {
    forall i | 0 <= i < |refs| :: SameId(a, b, refs[i])
  }

  predicate CurrentBound(p: Profile, s: Snapshot, c: Current) {
    && |c.uriMap| > 0 && c.uris != [] && |c.eventIds| > 0 && |c.provenance| > 0
    && SetChecked(NonBlank(s.uris), c.uris)
    && TextsSame(Required(p.uriKeys, p.items), s.uriMap, c.uriMap)
    && IdsSame(Required(p.eventKeys, p.items), s.eventIds, c.eventIds)
    && TextsSame(Required(p.provenanceKeys, p.items), s.provenance, c.provenance)
  }

  method CheckTexts(refs: seq<Ref>, a: map<Ref, string>, b: map<Ref, string>) returns (clean: bool)
    ensures clean <==> TextsSame(refs, a, b)
  {
    clean := true;
    for i := 0 to |refs|
      invariant clean <==> forall j | 0 <= j < i :: SameText(a, b, refs[j])
    {
      var stored, current := Look(a, refs[i]), Look(b, refs[i]);
      if stored == "" {
        clean := false;
      } else if current == "" {
        clean := false;
      } else if stored != current {
        clean := false;
      }
    }
  }

  method CheckIds(refs: seq<Ref>, a: map<Ref, int>, b: map<Ref, int>) returns (clean: bool)
    ensures clean <==> IdsSame(refs, a, b)
  {
    clean := true;
    for i := 0 to |refs|
      invariant clean <==> forall j | 0 <= j < i :: SameId(a, b, refs[j])
    {
      if Id(a, refs[i]) <= 0 || Id(b, refs[i]) <= 0 || Id(a, refs[i]) != Id(b, refs[i]) {
        clean := false;
      }
    }
  }

  method CheckSet(stored: seq<string>, current: seq<string>) returns (clean: bool)
    ensures clean <==> SetChecked(stored, current)
  {
    var known: set<string> := {};
    for i := 0 to |current|
      invariant known == set j | 0 <= j < i :: Text.TrimSpace(current[j])
    {
      known := known + {Text.TrimSpace(current[i])};
    }
    assert known == Trims(current);
    clean := |stored| == |known|;
    for i := 0 to |stored|
      invariant clean <==> |stored| == |known| && forall j | 0 <= j < i :: Text.TrimSpace(stored[j]) in known
    {
      if Text.TrimSpace(stored[i]) !in known {
        clean := false;
      }
    }
  }

  // completionAuditSnapshotCurrentProofBindingBlockers.
  method CheckCurrent(p: Profile, s: Snapshot, c: Current) returns (clean: bool)
    ensures clean <==> CurrentBound(p, s, c)
  {
    var sets := CheckSet(NonBlank(s.uris), c.uris);
    var uris := CheckTexts(Required(p.uriKeys, p.items), s.uriMap, c.uriMap);
    var ids := CheckIds(Required(p.eventKeys, p.items), s.eventIds, c.eventIds);
    var provenance := CheckTexts(Required(p.provenanceKeys, p.items), s.provenance, c.provenance);
    clean := |c.uriMap| > 0 && c.uris != [] && |c.eventIds| > 0 && |c.provenance| > 0 && sets && uris && ids &&
        provenance;
  }

  // ---------- the release bundle ----------

  predicate FirstWith(items: seq<BundleItem>, key: string, i: nat) {
    i < |items| && items[i].key == key && forall j | 0 <= j < i :: items[j].key != key
  }

  predicate ReadyItem(items: seq<BundleItem>, key: string) {
    exists i | 0 <= i < |items| :: FirstWith(items, key, i) && items[i].ready
  }

  predicate GenuineInventory(rules: Rules, items: seq<BundleItem>, key: string) {
    exists i | 0 <= i < |items| :: FirstWith(items, key, i) && rules.genuine(items[i].record)
  }

  predicate BundleReady(k: Keys, rules: Rules, b: Bundle) {
    && Text.TrimSpace(b.hash) != "" && b.ready && b.readOnly && b.items != []
    && (forall i | 0 <= i < |k.bundle| :: ReadyItem(b.items, k.bundle[i]))
    && GenuineInventory(rules, b.items, k.inventory)
  }

  predicate BundleBound(k: Keys, rules: Rules, s: Snapshot, b: Bundle) {
    && BundleReady(k, rules, b)
    && s.bundleHash == b.hash && s.bundleReady && s.bundleReadOnly && s.bundleFlag && s.bundleCount == |b.items|
  }

  method FindItem(items: seq<BundleItem>, key: string) returns (found: bool, i: nat)
    ensures found ==> FirstWith(items, key, i)
    ensures !found ==> forall j | 0 <= j < |items| :: items[j].key != key
  {
    for j := 0 to |items|
      invariant forall k | 0 <= k < j :: items[k].key != key
    {
      if items[j].key == key {
        return true, j;
      }
    }
    return false, 0;
  }

  // completionAuditSnapshotReleaseEvidenceBundleBlockers.
  method CheckBundle(k: Keys, rules: Rules, b: Bundle) returns (clean: bool)
    ensures clean <==> BundleReady(k, rules, b)
  {
    clean := Text.TrimSpace(b.hash) != "" && b.ready && b.readOnly && b.items != [];
    ghost var header := clean;
    for n := 0 to |k.bundle|
      invariant clean <==> header && forall j | 0 <= j < n :: ReadyItem(b.items, k.bundle[j])
    {
      var found, i := FindItem(b.items, k.bundle[n]);
      if !found || !b.items[i].ready {
        clean := false;
      }
    }
    var found, i := FindItem(b.items, k.inventory);
    if !found || !rules.genuine(b.items[i].record) {
      clean := false;
    }
  }

  // completionAuditSnapshotReleaseEvidenceBundleBindingBlockers; a missing count or hash is a blocker too.
  method CheckBundleBinding(k: Keys, rules: Rules, s: Snapshot, b: Bundle) returns (clean: bool)
    ensures clean <==> BundleBound(k, rules, s, b)
  {
    clean := CheckBundle(k, rules, b);
    if s.bundleHash == "" {
      clean := false;
    }
    if b.hash != "" && s.bundleHash != "" && s.bundleHash != b.hash {
      clean := false;
    }
    if !s.bundleReady || !s.bundleReadOnly || !s.bundleFlag || s.bundleCount == 0 {
      clean := false;
    }
    if s.bundleCount != 0 && |b.items| > 0 && s.bundleCount != |b.items| {
      clean := false;
    }
  }

  // ---------- record time ----------

  predicate ReviewApproved(rules: Rules, r: Review) {
    && Text.Lower(Text.TrimSpace(r.decision)) == "approved"
    && Text.TrimSpace(r.signedBy) != "" && Text.TrimSpace(r.at) != "" && rules.isTime(Text.TrimSpace(r.at))
  }

  function StoredReview(r: Review): Review {
    Review(Text.Lower(Text.TrimSpace(r.decision)), Text.TrimSpace(r.signedBy), Text.TrimSpace(r.at))
  }

  predicate OptionsValid(rules: Rules, o: Options) {
    && o.uri != "" && o.summary != ""
    && !rules.marked(o.title) && !rules.marked(o.uri) && !rules.marked(o.summary)
    && !rules.mechanism(o.uri) && rules.candidate(o.uri)
    && ReviewApproved(rules, o.review)
  }

  predicate NoMechanism(rules: Rules, uris: seq<string>) {
    forall i | 0 <= i < |uris| :: !rules.marked(uris[i]) && !rules.mechanism(uris[i])
  }

  predicate ProofsSealable(p: Profile, rules: Rules, audit: Audit, uris: seq<string>) {
    var events := Required(p.eventKeys, p.items);
    && NoMechanism(rules, uris) && NothingMissing(p, audit.items)
    && (forall i | 0 <= i < |events| :: Id(EventIds(audit.items), events[i]) != 0)
    && UrisBound(p, rules, uris, UriMap(p, audit.items))
    && EventsBound(p, EventIds(audit.items))
    && ProvenanceBound(p, rules, Provenance(p, audit.items))
  }

  /** When a release-candidate snapshot may be recorded; `uris` is the sorted list of the
      audit's evidence URIs. */
  predicate Sealable(p: Profile, k: Keys, rules: Rules, record: Record, audit: Audit, o: Options, bundle: Bundle,
                     files: Files, uris: seq<string>) {
    && rules.target(record) && audit.status == Complete && OptionsValid(rules, o)
    && rules.genuine(record) && BundleReady(k, rules, bundle)
    && ProofsSealable(p, rules, audit, uris)
    && FilesPass(Walked(files, References(o.uri, uris)))
  }

  function Sealed(p: Profile, audit: Audit, o: Options, bundle: Bundle, files: Files, uris: seq<string>): Snapshot {
    var entries := Walked(files, References(o.uri, uris)).entries;
    Snapshot(o.evidenceClass, audit.status, audit.scope, Some(Stable(p, audit)), o.title, o.uri, o.summary,
             StoredReview(o.review), 0,
             EventIds(audit.items), EventIds(audit.items), uris, |uris|, UriMap(p, audit.items),
             Provenance(p, audit.items),
             bundle.hash, bundle.ready, bundle.readOnly, true, |bundle.items|,
             true, entries, |entries|)
  }

  // ---------- check time ----------

  datatype Verdict =
    | Ready | ProjectMismatch | IdentityMissing | SnapshotMissing | FixtureOnly | AuditIdentityInvalid
    | AuditHashMismatch | UnsafeSideEffects | EvidenceUriMissing | SummaryMissing | FixtureLabeled
    | MechanismUri | GenericUri | ReviewMissing
    | MechanismProofUri | ProofUriMissing | ProofEventMissing | ProofProvenanceMissing
    | CurrentBindingMismatch | FileMismatch | BundleMismatch | PackageAUnbound

  // The checks on the snapshot itself and its hash: the first that fails, in the order they are made.
  function HeaderVerdict(rules: Rules, s: Snapshot, hash: Option<Audit>): Verdict {
    if s.evidenceClass != ReleaseCandidate then FixtureOnly
    else if s.status != Complete || s.scope != SCOPE || s.hash == None then AuditIdentityInvalid
    else if hash != None && s.hash != hash then AuditHashMismatch
    else if s.unsafe > 0 then UnsafeSideEffects
    else if s.uri == "" then EvidenceUriMissing
    else if s.summary == "" then SummaryMissing
    else if rules.marked(s.title) || rules.marked(s.uri) || rules.marked(s.summary) then FixtureLabeled
    else if rules.mechanism(s.uri) then MechanismUri
    else if !rules.candidate(s.uri) then GenericUri
    else if !ReviewApproved(rules, s.review) then ReviewMissing
    else Ready
  }

  // The checks on the proofs it stores.
  function ProofVerdict(p: Profile, rules: Rules, s: Snapshot): Verdict {
    if !NoMechanism(rules, NonBlank(s.uris)) then MechanismProofUri
    else if !UrisBound(p, rules, NonBlank(s.uris), s.uriMap) || s.uriCount != |NonBlank(s.uris)| then ProofUriMissing
    else if !EventsBound(p, s.eventIds) || !MetadataAgrees(p, s) then ProofEventMissing
    else if !ProvenanceBound(p, rules, s.provenance) then ProofProvenanceMissing
    else Ready
  }

  // The checks against the present.
  function PresentVerdict(p: Profile, k: Keys, rules: Rules, s: Snapshot, bundle: Bundle, c: Current,
                          files: Files): Verdict {
    if !CurrentBound(p, s, c) then CurrentBindingMismatch
    else if !FilesMatch(s, files) then FileMismatch
    else if !BundleBound(k, rules, s, bundle) then BundleMismatch
    else if !Bound(c.package) then PackageAUnbound
    else Ready
  }

  function Readiness(p: Profile, k: Keys, rules: Rules, record: Record, latest: Option<Snapshot>, bundle: Bundle,
                     c: Current, files: Files): Verdict {
    if !rules.target(record) then ProjectMismatch
    else if !rules.genuine(record) then IdentityMissing
    else if latest.None? then SnapshotMissing
    else
      var header := HeaderVerdict(rules, latest.value, c.hash);
      var proofs := ProofVerdict(p, rules, latest.value);
      if header != Ready then header
      else if proofs != Ready then proofs
      else PresentVerdict(p, k, rules, latest.value, bundle, c, files)
  }
}
