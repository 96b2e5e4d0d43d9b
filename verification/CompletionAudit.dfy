/**
 The completion audit: how item statuses combine, and how the dogfood item is tied to the
 status projection written into the managed project ("Package A").
 */
module CompletionAudit {

  import opened Wrappers
  import Text

  // ---------- the Package A binding ----------

  // The latest written status projection, with the facts its apply recorded.
  datatype Projection = Projection(
    targetKind: string, targetURI: string, writeState: string, sourceHash: string,
    allowed: bool, byApplyCommand: bool, postWriteVerified: bool, stableValidated: bool, protectedPathsVerified: bool,
    rootContained: bool, gatePassed: bool, gateGo: bool, eligible: bool,
    projectWriteRecorded: bool, executionWrite: bool, engineCall: bool,
    postWriteHash: string, writeHash: string)

  // The status file as it is now.
  datatype Preimage = Preimage(stable: bool, sourceHash: string, sha: string)

  datatype Binding = Binding(
    importError: bool, importHash: string, queryError: bool,
    written: Option<Projection>, current: Option<Preimage>)

  datatype PackageBlocker =
    | NotStable | ImportHashMissing | QueryFailed | ProvenanceMissing | NotApplied | NotWritten
    | TargetKindMismatch | TargetUriMismatch | SourceHashStale | DecisionNotAllowed | NotBoundToApply
    | PostWriteNotVerified | NotValidated | PathsNotVerified | RootNotContained | GateNotPassed
    | WriteNotRecorded | ExecutionWriteAttempted | EngineCallAttempted
    | PreimageMissing | CurrentNotStable | CurrentSourceMissing | CurrentSourceStale | HashMissing | HashMismatch

  function ExpectedHash(p: Projection): string {
    if p.postWriteHash == "" then p.writeHash else p.postWriteHash
  }

  // The projection was applied, with every safety fact, for this import.
  predicate Applied(p: Projection, importHash: string) {
    && Text.TrimSpace(p.targetKind) == "project_status_json" && Text.TrimSpace(p.targetURI) == ".areaflow/status.json"
    && Text.TrimSpace(p.writeState) == "written"
    && Text.TrimSpace(p.sourceHash) == Text.TrimSpace(importHash)
    && p.allowed && p.byApplyCommand && p.postWriteVerified && p.stableValidated && p.protectedPathsVerified
    && p.rootContained && p.gatePassed && p.gateGo && p.eligible && p.projectWriteRecorded
    && !p.executionWrite && !p.engineCall
  }

  // The file in place is what the projection wrote, for this import.
  predicate InPlace(current: Preimage, p: Projection, importHash: string) {
    && current.stable
    && Text.TrimSpace(current.sourceHash) == Text.TrimSpace(importHash)
    && ExpectedHash(p) != ""
    && (current.sha == "" || current.sha == ExpectedHash(p))
  }

  // One import hash runs through the import, the applied projection and the file in place.
  predicate Bound(b: Binding) {
    && !b.importError && Text.TrimSpace(b.importHash) != "" && !b.queryError
    && b.written.Some? && Applied(b.written.value, b.importHash)
    && b.current.Some? && InPlace(b.current.value, b.written.value, b.importHash)
  }

  /** Every recorded fact counts: turning any one of them over unbinds a projection that was
      applied for this import. */
  lemma EveryFactCounts(p: Projection, importHash: string, other: string)
    requires Applied(p, importHash)
    ensures !Applied(p.(allowed := false), importHash) && !Applied(p.(byApplyCommand := false), importHash)
    ensures !Applied(p.(postWriteVerified := false), importHash) && !Applied(p.(stableValidated := false), importHash)
    ensures !Applied(p.(protectedPathsVerified := false), importHash)
    ensures !Applied(p.(rootContained := false), importHash)
    ensures !Applied(p.(gatePassed := false), importHash) && !Applied(p.(gateGo := false), importHash)
    ensures !Applied(p.(eligible := false), importHash) && !Applied(p.(projectWriteRecorded := false), importHash)
    ensures !Applied(p.(executionWrite := true), importHash) && !Applied(p.(engineCall := true), importHash)
    ensures Applied(p.(targetKind := other), importHash) <==> Text.TrimSpace(other) == "project_status_json"
    ensures Applied(p.(targetURI := other), importHash) <==> Text.TrimSpace(other) == ".areaflow/status.json"
    ensures Applied(p.(writeState := other), importHash) <==> Text.TrimSpace(other) == "written"
    ensures Applied(p.(sourceHash := other), importHash) <==> Text.TrimSpace(other) == Text.TrimSpace(importHash)
  {
  }

  /** One hash through the chain: with Package A bound, the import, the projection and the file in
      place carry the same source hash, and the file is the one that was written. Another import,
      or another file, unbinds it. */
  lemma BoundChain(b: Binding, other: string)
    requires Bound(b)
    ensures var h := Text.TrimSpace(b.importHash);
            && h != "" && Text.TrimSpace(b.written.value.sourceHash) == h
            && Text.TrimSpace(b.current.value.sourceHash) == h && b.current.value.stable
    ensures var p, c := b.written.value, b.current.value;
            c.sha != "" ==> c.sha == if p.postWriteHash != "" then p.postWriteHash else p.writeHash
    ensures Bound(b.(importHash := other)) <==> Text.TrimSpace(other) == Text.TrimSpace(b.importHash)
    ensures var c := b.current.value;
            && (Bound(b.(current := Some(c.(sourceHash := other)))) <==>
                  Text.TrimSpace(other) == Text.TrimSpace(b.importHash))
            && (Bound(b.(current := Some(c.(sha := other)))) <==> other == "" || other == ExpectedHash(b.written.value))
            && !Bound(b.(current := Some(c.(stable := false)))) && !Bound(b.(current := None))
    ensures !Bound(b.(importError := true)) && !Bound(b.(queryError := true)) && !Bound(b.(written := None))
  {
  }

  // Blockers are collected in one list.
  class Collector {
    var blockers: seq<PackageBlocker>

    constructor ()
      ensures blockers == []
    {
      blockers := [];
    }

    method When(bad: bool, blocker: PackageBlocker)
      modifies this
      ensures blockers == [] <==> old(blockers) == [] && !bad
    {
      if bad {
        blockers := blockers + [blocker];
      }
    }
  }

  method ProjectionBlockers(c: Collector, p: Projection, importHash: string)
    modifies c
    ensures c.blockers == [] ==> old(c.blockers) == []
    ensures Text.TrimSpace(importHash) != "" ==> (c.blockers == [] <==> old(c.blockers) == [] && Applied(p, importHash))
  {
    var source, imported := Text.TrimSpace(p.sourceHash), Text.TrimSpace(importHash);
    c.When(Text.TrimSpace(p.targetKind) != "project_status_json", TargetKindMismatch);
    c.When(Text.TrimSpace(p.targetURI) != ".areaflow/status.json", TargetUriMismatch);
    c.When(Text.TrimSpace(p.writeState) != "written", NotWritten);
    c.When(source == "" || (imported != "" && source != imported), SourceHashStale);
    c.When(!p.allowed, DecisionNotAllowed);
    c.When(!p.byApplyCommand, NotBoundToApply);
    c.When(!p.postWriteVerified, PostWriteNotVerified);
    c.When(!p.stableValidated, NotValidated);
    c.When(!p.protectedPathsVerified, PathsNotVerified);
    c.When(!p.rootContained, RootNotContained);
    c.When(!p.gatePassed || !p.gateGo || !p.eligible, GateNotPassed);
    c.When(!p.projectWriteRecorded, WriteNotRecorded);
    c.When(p.executionWrite, ExecutionWriteAttempted);
    c.When(p.engineCall, EngineCallAttempted);
  }

  method CurrentBlockers(c: Collector, current: Option<Preimage>, written: Option<Projection>, importHash: string)
    modifies c
    ensures c.blockers == [] ==> old(c.blockers) == []
    ensures written.Some? && Text.TrimSpace(importHash) != "" ==>
              (c.blockers == [] <==>
                 old(c.blockers) == [] && current.Some? && InPlace(current.value, written.value, importHash))
  {
    c.When(current.None?, PreimageMissing);
    if current.None? {
      return;
    }
    var source, imported := Text.TrimSpace(current.value.sourceHash), Text.TrimSpace(importHash);
    if !current.value.stable {
      c.When(true, CurrentNotStable);
    } else if imported != "" {
      c.When(source == "", CurrentSourceMissing);
      c.When(source != "" && source != imported, CurrentSourceStale);
    }
    if written.Some? {
      var expected := ExpectedHash(written.value);
      c.When(expected == "", HashMissing);
      c.When(expected != "" && current.value.sha != "" && current.value.sha != expected, HashMismatch);
    }
  }

  // The list is empty exactly when the binding holds.
  method PackageABlockers(b: Binding) returns (blockers: seq<PackageBlocker>)
    ensures blockers == [] <==> Bound(b)
  {
    var c := new Collector();
    var stableShape := b.current.Some? && b.current.value.stable;
    c.When(b.importError || Text.TrimSpace(b.importHash) == "", ImportHashMissing);
    c.When(b.queryError, QueryFailed);
    match b.written {
      case None =>
        if stableShape {
          c.When(true, ProvenanceMissing);
        } else {
          c.When(true, NotApplied);
          c.When(true, NotWritten);
        }
      case Some(p) => ProjectionBlockers(c, p, b.importHash);
    }
    CurrentBlockers(c, b.current, b.written, b.importHash);
    blockers := c.blockers;
    if blockers != [] && !stableShape {
      blockers := [NotStable] + blockers;
    }
  }

  // ---------- items and statuses ----------

  datatype Status = Complete | NotApplicable | Deferred | Incomplete | Blocked | Unknown

  // Metadata values, as far as the audit's readers look at them.
  datatype Value = Words(text: string) | List(texts: seq<string>) | Number(number: int) | Other(json: string)

  // `detail` stands for the fields of an item or an audit that only its hash looks at.
  datatype Item = Item(key: string, status: Status, metadata: map<string, Value>, detail: string)

  datatype Audit = Audit(status: Status, scope: string, mode: string, items: seq<Item>, detail: string,
                         generatedAt: int, guardrail: string)

  // A status the rank table does not know counts as zero.
  function Rank(s: Status): nat {
    match s
    case Incomplete => 1
    case Blocked => 2
    case _ => 0
  }

  function Combine(current: Status, next: Status): Status {
    if Rank(next) > Rank(current) then next else current
  }

  // The status an audit starts with and ends with, over these items.
  function Combined(items: seq<Item>): Status {
    if items == [] then Complete else Combine(Combined(items[..|items| - 1]), items[|items| - 1].status)
  }

  // The combined status is the worst one met, and the audit is complete exactly when none is bad.
  lemma {:induction false} CombinedIsWorst(items: seq<Item>)
    ensures forall i | 0 <= i < |items| :: Rank(items[i].status) <= Rank(Combined(items))
    ensures Combined(items) == Complete || exists i | 0 <= i < |items| :: Combined(items) == items[i].status
    ensures Combined(items) == Complete <==> forall i | 0 <= i < |items| :: Rank(items[i].status) == 0
    ensures Combined(items) == Blocked <==> exists i | 0 <= i < |items| :: items[i].status == Blocked
    ensures Combined(items) == Complete <==>
              forall i | 0 <= i < |items| :: items[i].status != Blocked && items[i].status != Incomplete
    ensures Combined(items) in {Complete, Incomplete, Blocked}
  {
    if items != [] {
      var n := |items| - 1;
      CombinedIsWorst(items[..n]);
      forall i | 0 <= i < |items| ensures Rank(items[i].status) <= Rank(Combined(items)) {
        if i < n {
          assert items[..n][i] == items[i];
        }
      }
      if Combined(items) != Complete && Combined(items) != items[n].status {
        var i :| 0 <= i < n && Combined(items[..n]) == items[..n][i].status;
        assert Combined(items) == items[i].status;
      }
      if forall i | 0 <= i < |items| :: Rank(items[i].status) == 0 {
        assert forall i | 0 <= i < n :: items[..n][i] == items[i];
      }
      if Combined(items) == Complete {
        assert forall i | 0 <= i < |items| :: Rank(items[i].status) <= Rank(Complete);
      }
      if i :| 0 <= i < |items| && items[i].status == Blocked {
        assert Rank(items[i].status) <= Rank(Combined(items));
      }
    }
  }

  const SCOPE := "v1.0"
  const MODE := "read_only_completion_audit"
  const DOGFOOD := "E4_areamatrix_dogfood_completion"

  class AuditBuilder {
    var status: Status
    var items: seq<Item>

    ghost predicate Valid()
      reads this
    {
      status == Combined(items)
    }

    constructor ()
      ensures Valid() && items == []
    {
      status, items := Complete, [];
    }

    method AddItem(item: Item)
      requires Valid()
      modifies this
      ensures Valid() && items == old(items) + [item]
    {
      assert (items + [item])[..|items|] == items;
      items := items + [item];
      status := Combine(status, item.status);
    }

    // The dogfood item is complete only when neither Package A nor the other proofs block it.
    method AddDogfood(b: Binding, identityBlocked: bool, otherBlockers: nat, metadata: map<string, Value>,
                      detail: string)
      requires Valid()
      modifies this
      ensures Valid() && |items| == |old(items)| + 1 && items[..|old(items)|] == old(items)
      ensures items[|old(items)|] == Item(DOGFOOD, DogfoodStatus(b, identityBlocked, otherBlockers), metadata, detail)
      ensures items[|old(items)|].status == Complete <==> Bound(b) && !identityBlocked && otherBlockers == 0
      ensures items[|old(items)|].status == Blocked <==> identityBlocked
    {
      var package := PackageABlockers(b);
      var blocked := |package| + otherBlockers + if identityBlocked then 1 else 0;
      var verdict := Incomplete;
      if blocked == 0 {
        verdict := Complete;
      } else if identityBlocked {
        verdict := Blocked;
      }
      AddItem(Item(DOGFOOD, verdict, metadata, detail));
    }
  }

  function DogfoodStatus(b: Binding, identityBlocked: bool, otherBlockers: nat): Status {
    if identityBlocked then Blocked else if Bound(b) && otherBlockers == 0 then Complete else Incomplete
  }

  // The audit was assembled from items of which one is the dogfood item for this binding.
  ghost predicate AssembledWith(audit: Audit, b: Binding) {
    && audit.scope == SCOPE && audit.mode == MODE && audit.status == Combined(audit.items)
    && exists i, identityBlocked, others: nat | 0 <= i < |audit.items| ::
         audit.items[i].key == DOGFOOD && audit.items[i].status == DogfoodStatus(b, identityBlocked, others)
  }

  // So a complete audit guarantees that Package A is bound.
  lemma CompleteAuditIsBound(audit: Audit, b: Binding)
    requires AssembledWith(audit, b) && audit.status == Complete
    ensures Bound(b)
  {
    CombinedIsWorst(audit.items);
  }
}
