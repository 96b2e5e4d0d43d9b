/**
 The v1.0 profile: which proofs each audit item must carry, and the rules by which evidence
 text is judged.
 */
module AuditProfile {

  import Text
  import MarkerScan
  import opened Wrappers
  import opened Sorting
  import opened CompletionAudit
  import opened AuditEvidence
  import opened AuditSnapshot
  import opened AuditSealing
  import opened EvidenceFiles
  import opened AuditProofs

  const E1 := "E1_design_source_alignment"
  const E2 := "E2_phase_task_matrix"
  const E3 := "E3_command_api_smoke_evidence"
  const E4 := "E4_areamatrix_dogfood_completion"
  const E5 := "E5_release_packaging_preview"
  const E6 := "E6_backup_restore_artifact_retention"
  const E7 := "E7_operations_readiness"
  const E8 := "E8_security_permission_isolation"
  const E9 := "E9_areamatrix_protected_path_proof"

  // Every proof is stored under the latest_ keys of its name.
  function UriKey(name: string): string {
    "latest_" + name + "proof_evidence_uri"
  }

  function EventKey(name: string): string {
    "latest_" + name + "proof_event_id"
  }

  const ITEMS: seq<string> := [E1, E2, E3, E4, E5, E6, E7, E8, E9]

  // The proofs of each item.
  const NAMES := map[
    E1 := ["source_alignment_"], E2 := ["task_matrix_"], E3 := ["validation_"],
    E4 := ["archive_", "shim_retirement_", "execution_cutover_"],
    E5 := ["release_packaging_"], E6 := ["backup_restore_"], E7 := ["operations_smoke_"],
    E8 := ["security_closure_"], E9 := [""]]

  function UriKeys(names: seq<string>): seq<string> {
    seq(|names|, i requires 0 <= i < |names| => UriKey(names[i]))
  }

  function EventKeys(names: seq<string>): seq<string> {
    seq(|names|, i requires 0 <= i < |names| => EventKey(names[i]))
  }

  const V1 := Profile(
    ITEMS,
    map item | item in NAMES :: UriKeys(NAMES[item]),
    map item | item in NAMES :: EventKeys(NAMES[item]),
    map[E7 := ["latest_operations_smoke_proof_key"]],
    map[E6 := VOLATILE_BACKUP, E7 := VOLATILE_OPERATIONS])

  const VOLATILE_BACKUP: seq<string> := ["current_backup_manifest_hash", "current_restore_plan_manifest_hash"]
  const VOLATILE_OPERATIONS: seq<string> := ["latest_operations_smoke_proof_age_seconds"]

  // ---------- the hash leaves out no proof ----------

  lemma ContainsKeepsChar(s: string, part: string, c: char)
    requires c in part
    ensures Contains(s, part) ==> c in s
  {
    if Contains(s, part) {
      var i :| 0 <= i <= |s| && MarkerScan.OccursAt(s, part, i);
      var j :| 0 <= j < |part| && part[j] == c;
      assert s[i..i + |part|][j] == s[i + j];
    }
  }

  // A key without the letter v names neither an evidence URI nor a proof event.
  lemma NamesNothing(key: string)
    requires 'v' !in key && 'V' !in key
    ensures !NamesUri(key) && !NamesEvent(key)
  {
    assert "evidence_uri"[1] == 'v' && "proof_event_id"[7] == 'v';
    ContainsKeepsChar(Text.Lower(key), "evidence_uri", 'v');
    ContainsKeepsChar(key, "proof_event_id", 'v');
    assert 'v' !in Text.Lower(key) by {
      forall i | 0 <= i < |key| ensures Text.Lower(key)[i] != 'v' {
        assert key[i] in key;
      }
    }
  }

  lemma UriKeyNamesUri(name: string)
    ensures 'v' in UriKey(name)
  {
    var n := |"latest_" + name|;
    assert UriKey(name)[n..] == "proof_evidence_uri";
    assert UriKey(name)[n..][7] == UriKey(name)[n + 7] == 'v';
  }

  // No v in it, and not as long as the provenance key.
  predicate Plain(k: string) {
    'v' !in k && 'V' !in k && |k| != 33
  }

  lemma ManifestKeyIsPlain()
    ensures Plain("current_backup_manifest_hash")
  {
  }

  lemma PlanKeyIsPlain()
    ensures Plain("current_restore_plan_manifest_hash")
  {
  }

  lemma AgeKeyIsPlain()
    ensures Plain("latest_operations_smoke_proof_age_seconds")
  {
  }

  lemma BackupKeysArePlain(k: string)
    requires k in VOLATILE_BACKUP
    ensures Plain(k)
  {
    ManifestKeyIsPlain();
    PlanKeyIsPlain();
  }

  lemma OperationsKeyIsPlain(k: string)
    requires k in VOLATILE_OPERATIONS
    ensures Plain(k)
  {
    AgeKeyIsPlain();
  }

  lemma OneOf(a: string, x: seq<string>, b: string, y: seq<string>, item: string, k: string)
    requires k in KeysFor(map[a := x, b := y], item)
    ensures k in x || k in y
  {
  }

  lemma VolatileKey(item: string, k: string)
    requires k in KeysFor(V1.volatileKeys, item)
    ensures Plain(k)
  {
    OneOf(E6, VOLATILE_BACKUP, E7, VOLATILE_OPERATIONS, item, k);
    if k in VOLATILE_BACKUP {
      BackupKeysArePlain(k);
    } else {
      OperationsKeyIsPlain(k);
    }
  }

  lemma RequiredUriKey(item: string, k: string)
    requires k in KeysFor(V1.uriKeys, item)
    ensures 'v' in k
  {
    var i :| 0 <= i < |NAMES[item]| && k == UriKey(NAMES[item][i]);
    UriKeyNamesUri(NAMES[item][i]);
  }

  lemma ProvenanceKey(item: string, k: string)
    requires k in KeysFor(V1.provenanceKeys, item)
    ensures |k| == 33
  {
  }

  lemma {:induction false} SomeRequired(keys: map<string, seq<string>>, items: seq<string>, i: nat)
    requires i < |items| && KeysFor(keys, items[i]) != []
    ensures Required(keys, items) != []
  {
    if i < |items| - 1 {
      SomeRequired(keys, items[..|items| - 1], i);
    }
  }

  lemma VolatileIsHarmless(item: string, k: string)
    requires k in KeysFor(V1.volatileKeys, item)
    ensures Harmless(V1, item, k)
  {
    VolatileKey(item, k);
    NamesNothing(k);
    if k in KeysFor(V1.uriKeys, item) {
      RequiredUriKey(item, k);
    }
    if k in KeysFor(V1.provenanceKeys, item) {
      ProvenanceKey(item, k);
    }
  }

  lemma LastItem()
    ensures |ITEMS| == 9 && ITEMS[8] == E9 && ITEMS[6] == E7
  {
  }

  lemma LastItemHasUri()
    ensures KeysFor(V1.uriKeys, E9) != []
  {
    assert E9 in NAMES && |NAMES[E9]| == 1;
  }

  lemma V1Requires()
    ensures Required(V1.uriKeys, V1.items) != [] && Required(V1.provenanceKeys, V1.items) != []
  {
    LastItem();
    LastItemHasUri();
    SomeRequired(V1.uriKeys, ITEMS, 8);
    SomeRequired(V1.provenanceKeys, ITEMS, 6);
  }

  // The profile meets what the sealing theorems ask of one.
  lemma V1IsMeaningful()
    ensures Meaningful(V1)
  {
    V1Requires();
    forall item, k | k in KeysFor(V1.volatileKeys, item) ensures Harmless(V1, item, k) {
      VolatileIsHarmless(item, k);
    }
  }

  // ---------- the required proofs, by name ----------

  lemma {:induction false} RequiredExactly(keys: map<string, seq<string>>, items: seq<string>, r: Ref)
    ensures r in Required(keys, items) <==> r.item in items && r.key in KeysFor(keys, r.item)
  {
    if items != [] {
      var n := |items| - 1;
      var names := KeysFor(keys, items[n]);
      RequiredExactly(keys, items[..n], r);
      var more := seq(|names|, i requires 0 <= i < |names| => Ref(items[n], names[i]));
      assert r in more <==> r.item == items[n] && r.key in names by {
        if r.item == items[n] && r.key in names {
          var i :| 0 <= i < |names| && names[i] == r.key;
          assert more[i] == r;
        }
      }
    }
  }

  lemma UriKeyIsNamed(name: string)
    ensures NamesUri(UriKey(name))
  {
    var key, n := Text.Lower(UriKey(name)), |"latest_" + name| + 6;
    assert UriKey(name)[n - 6..] == "proof_evidence_uri";
    assert UriKey(name)[n..] == UriKey(name)[n - 6..][6..] == "evidence_uri";
    assert key[n..n + 12] == "evidence_uri";
    assert MarkerScan.OccursAt(key, "evidence_uri", n);
  }

  lemma EventKeyIsNamed(name: string)
    ensures NamesEvent(EventKey(name))
  {
    var n := |"latest_" + name|;
    assert EventKey(name)[n..n + 14] == "proof_event_id";
    assert MarkerScan.OccursAt(EventKey(name), "proof_event_id", n);
  }

  lemma {:induction false} LatestIsEvidence(items: seq<Item>, r: Ref)
    requires NamesUri(r.key) && Latest(items, r, FirstText).Some?
    ensures Latest(items, r, FirstText).value in Uris(items)
  {
    var n := |items| - 1;
    if items[n].key == r.item && FirstText(items[n], r.key).Some? {
      var values := ValuesOf(items[n], r.key);
      assert values[0] in Values(items[n].metadata[r.key]);
    } else {
      LatestIsEvidence(items[..n], r);
      assert forall i | 0 <= i < n :: items[..n][i] == items[i];
    }
  }

  /** Every URI that is bound to a required proof of the shipped profile is one of the audit's
      evidence URIs, so the check that it is listed asks for nothing that recording does not
      provide. */
  lemma V1UrisAreEvidence(items: seq<Item>, r: Ref)
    requires r in UriMap(V1, items)
    ensures UriMap(V1, items)[r] in Uris(items)
  {
    UriMapIsLatest(V1, items, r);
    V1UriIsNamed(r.item, r.key);
    LatestIsEvidence(items, r);
  }

  lemma V1UriIsNamed(item: string, k: string)
    requires k in KeysFor(V1.uriKeys, item)
    ensures NamesUri(k)
  {
    var i :| 0 <= i < |NAMES[item]| && k == UriKey(NAMES[item][i]);
    UriKeyIsNamed(NAMES[item][i]);
  }

  // And every required proof event is one the collection looks for.
  lemma V1EventsAreCollected(item: string, k: string)
    requires k in KeysFor(V1.eventKeys, item)
    ensures NamesEvent(k)
  {
    var i :| 0 <= i < |NAMES[item]| && k == EventKey(NAMES[item][i]);
    EventKeyIsNamed(NAMES[item][i]);
  }

  // ---------- the rules ----------

  predicate Mechanism(value: string) {
    var s := Text.Lower(Text.TrimSpace(value));
    || StartsWith(s, "local:") || StartsWith(s, "fixture:") || StartsWith(s, "script:") || StartsWith(s, "scripts/")
    || Contains(s, "/scripts/") || Contains(s, "smoke-")
  }

  predicate Candidate(value: string) {
    var path := Until(Until(Text.Lower(Text.TrimSpace(value)), '#'), '?');
    Contains(path, "release-candidate") || Contains(path, "release_candidate")
  }

  // Only the project identity and the time format are left open.
  function ReleaseRules(target: Record -> bool, genuine: Record -> bool, isTime: string -> bool): Rules {
    Rules(target, genuine, MarkerScan.NonRelease, Mechanism, Candidate, isTime)
  }

  // ---------- what the shipped hash covers ----------

  // The three values that change without the audit changing.
  predicate Volatile(item: string, k: string) {
    || (item == "E6_backup_restore_artifact_retention" &&
          (k == "current_backup_manifest_hash" || k == "current_restore_plan_manifest_hash"))
    || (item == "E7_operations_readiness" && k == "latest_operations_smoke_proof_age_seconds")
  }

  lemma TwoKeys(a: string, x: seq<string>, b: string, y: seq<string>, item: string, k: string)
    requires a != b
    ensures k in KeysFor(map[a := x, b := y], item) <==> (item == a && k in x) || (item == b && k in y)
  {
  }

  lemma InPair(x: string, y: string, k: string)
    ensures k in [x, y] <==> k == x || k == y
  {
  }

  lemma E6IsNotE7()
    ensures E6 != E7
  {
    assert E6[1] == '6' && E7[1] == '7';
  }

  lemma VolatileExactly(item: string, k: string)
    ensures VolatileIn(V1)(item, k) <==> Volatile(item, k)
  {
    E6IsNotE7();
    InPair("current_backup_manifest_hash", "current_restore_plan_manifest_hash", k);
    TwoKeys(E6, VOLATILE_BACKUP, E7, VOLATILE_OPERATIONS, item, k);
  }

  /** For the shipped profile, two audits have the same hash exactly when they agree on status,
      scope, mode, and each item's key, status and value under every key but those three. */
  lemma V1HashExactly(a: Audit, b: Audit)
    ensures Stable(V1, a) == Stable(V1, b) <==> SameUpTo(Volatile, a, b)
    ensures SameAudit(V1, a, b) <==> SameUpTo(Volatile, a, b)
  {
    HashExactly(V1, a, b);
    forall item, k ensures VolatileIn(V1)(item, k) == Volatile(item, k) {
      VolatileExactly(item, k);
    }
    SameEitherWay(VolatileIn(V1), Volatile, a, b);
  }

  const INVENTORY := "evidence:project_inventory:areamatrix"
  const BUNDLE_KEYS := Keys(
    ["evidence:release_final_gate", "evidence:backup_manifest", "evidence:audit_coverage", INVENTORY], INVENTORY)

  /** Sealing is exact for the shipped profile and rules: whatever the project identity and time
      format checks are, a recorded v1.0 release-candidate snapshot stays ready exactly as long as
      nothing it seals changes. */
  lemma V1SealingExact(rules: Rules, record: Record, audit: Audit, o: Options, bundle: Bundle, files: Files,
                       uris: seq<string>, record': Record, audit': Audit, bundle': Bundle, files': Files,
                       uris': seq<string>, package: Binding)
    requires rules == ReleaseRules(rules.target, rules.genuine, rules.isTime) && o.evidenceClass == ReleaseCandidate
    requires ListOf(uris, Uris(audit.items)) && Sealable(V1, BUNDLE_KEYS, rules, record, audit, o, bundle, files, uris)
    requires ListOf(uris', Uris(audit'.items))
    ensures var s := Sealed(V1, audit, o, bundle, files, uris);
            var c := CurrentOf(V1, audit', uris', package);
            Readiness(V1, BUNDLE_KEYS, rules, record', Some(s), bundle', c, files') == Ready <==>
              && rules.target(record') && rules.genuine(record')
              && audit.scope == SCOPE && SameUpTo(Volatile, audit, audit')
              && FilesUnchanged(files, files', References(o.uri, uris))
              && BundleReady(BUNDLE_KEYS, rules, bundle') && bundle'.hash == bundle.hash &&
                    |bundle'.items| == |bundle.items|
              && Bound(package)
  {
    V1IsMeaningful();
    V1HashExactly(audit, audit');
    SealingExact(V1, BUNDLE_KEYS, rules, record, audit, o, bundle, files, uris,
                 record', audit', bundle', files', uris', package);
  }

  // And none of its evidence carries a marker or points at a script.
  lemma V1EvidenceIsClean(rules: Rules, record: Record, audit: Audit, o: Options, bundle: Bundle, files: Files,
                          uris: seq<string>, u: string)
    requires rules == ReleaseRules(rules.target, rules.genuine, rules.isTime)
    requires ListOf(uris, Uris(audit.items)) && Sealable(V1, BUNDLE_KEYS, rules, record, audit, o, bundle, files, uris)
    requires u in Uris(audit.items) || u == o.uri
    ensures !MarkerScan.NonRelease(u) && !Mechanism(u)
    ensures var s := Text.Lower(Text.TrimSpace(u));
            && !StartsWith(s, "local:") && !StartsWith(s, "fixture:") && !StartsWith(s, "script:")
            && !StartsWith(s, "scripts/") && !Contains(s, "/scripts/") && !Contains(s, "smoke-")
    ensures u == o.uri ==> var path := Until(Until(Text.Lower(Text.TrimSpace(u)), '#'), '?');
              Contains(path, "release-candidate") || Contains(path, "release_candidate")
  {
    if u in Uris(audit.items) {
      var i :| 0 <= i < |uris| && uris[i] == u;
      assert !rules.marked(uris[i]) && !rules.mechanism(uris[i]);
    }
  }

  /** Every evidence URI of a recorded v1.0 snapshot points into a markdown document under docs that
      can be read, and at one of its headings; only the snapshot's own URI may name none. */
  lemma V1EvidenceIsInPlace(rules: Rules, platform: Platform, record: Record, audit: Audit, o: Options, bundle: Bundle,
                            files: Contents, uris: seq<string>, i: nat)
    requires ListOf(uris, Uris(audit.items)) && i < |uris| && uris[i] != Text.TrimSpace(o.uri)
    requires Sealable(V1, BUNDLE_KEYS, rules, record, audit, o, bundle, FilesOf(platform, files), uris)
    ensures var path := PathOf(platform, uris[i]);
            && StartsWith(path, "docs/") && EndsWith(Text.Lower(path), ".md") && files(path).Some? && HasAnchor(uris[i])
            && Headed(platform, files(path).value, AnchorOf(uris[i]))
  {
    UrisAreClean(audit.items);
    ListedOnce(uris, Uris(audit.items), i);
    ProofIsFirstUse(o.uri, uris, i);
    ProofPasses(FilesOf(platform, files), o.uri, uris, i);
    AnchoredReference(platform, files, uris[i]);
  }

  /** With the evidence files themselves in place of their audits: the snapshot stays ready only if
      every document it refers to keeps its content, and that is all it needs of the files. */
  lemma V1SealsContent(rules: Rules, platform: Platform, record: Record, audit: Audit, o: Options, bundle: Bundle,
                       files: Contents, uris: seq<string>, record': Record, audit': Audit, bundle': Bundle,
                       files': Contents, uris': seq<string>, package: Binding)
    requires rules == ReleaseRules(rules.target, rules.genuine, rules.isTime) && o.evidenceClass == ReleaseCandidate
    requires ListOf(uris, Uris(audit.items)) && ListOf(uris', Uris(audit'.items))
    requires Sealable(V1, BUNDLE_KEYS, rules, record, audit, o, bundle, FilesOf(platform, files), uris)
    ensures var s := Sealed(V1, audit, o, bundle, FilesOf(platform, files), uris);
            var c := CurrentOf(V1, audit', uris', package);
            Readiness(V1, BUNDLE_KEYS, rules, record', Some(s), bundle', c, FilesOf(platform, files')) == Ready <==>
              && rules.target(record') && rules.genuine(record')
              && audit.scope == SCOPE && SameUpTo(Volatile, audit, audit')
              && SameContents(platform, files, files', References(o.uri, uris))
              && BundleReady(BUNDLE_KEYS, rules, bundle') && bundle'.hash == bundle.hash
              && |bundle'.items| == |bundle.items|
              && Bound(package)
  {
    var refs := References(o.uri, uris);
    V1SealingExact(rules, record, audit, o, bundle, FilesOf(platform, files), uris,
                   record', audit', bundle', FilesOf(platform, files'), uris', package);
    WalkPasses(FilesOf(platform, files), refs);
    ContentDecides(platform, files, files', refs);
  }
}
