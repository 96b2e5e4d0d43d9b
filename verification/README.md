# AreaFlow: a verified model of its stateful protocols

AreaFlow keeps workflow state for managed projects in PostgreSQL: it migrates its own schema, moves
artifacts between storage backends, lets approved runs write artifacts, imports project metadata and
seals completion audits for release. This project models those protocols in Dafny and proves what
they keep over every run and every interleaving. `dafny verify dfyconfig.toml` checks all of it.

How the model reads the system:

- A database transaction is one atomic step; tables are maps or sequences of rows with their unique
  indexes and foreign keys. Reads made before a transaction are steps of their own, so other commands
  can act in between. A command may stop after any step.
- SHA-256 and JSON encoding are injective: a digest stands for what it was computed from. The clock,
  random values, the file system, other commands' row locks and row ids are parameters. Times are
  integers in nanoseconds.
- Code that updates rows in place is a class with methods (`Runner`, `ArtifactStore`, `IpRateLimiter`,
  `Store`, `Session`, ...), proved against specification functions; the theorems are about those.

The modules:

| module | what it holds |
|---|---|
| `MigrateModel`, `MigrateRunner`, `MigrateLedger`, `MigrateConcurrent`, `MigrateRefinement`, `MigrateApproval` | the schema migration runner: its transactions, its commands run alone, the ledger they leave, all interleavings, the commands as runs of those, and the approvals behind the commits |
| `ArtifactMigration`, `ArtifactMoves` | copying, activating and observing an artifact's locations, and where its moves lead |
| `RateLimiter`, `RateHistory` | the fixed-window limiter, its bounds over request sequences, and its answers read off the history |
| `ApprovedWrite`, `ApprovalGate`, `ApprovedWriteRuns`, `ApprovedWriteFlow` | the approved artifact write, its gate, all interleavings, and the way from the queue to the artifact |
| `CompletionAudit`, `AuditEvidence`, `AuditSnapshot`, `AuditSealing`, `AuditProofs`, `EvidenceFiles`, `AuditProfile`, `MarkerScan` | the completion audit, what a snapshot seals and its hash covers, the evidence documents behind it, and the later readiness check |
| `Importer` | the import-as-replacement transaction |
| `Sessions`, `Tokens` | session expiry; printing and parsing of tokens and session values |
| `BackupManifest`, `ArtifactLabel` | the order-independent manifest hash, the label normaliser |
| `Wrappers`, `Sorting`, `Text` | options, sorting and sorted lists of distinct strings, characters and strings |

Where a natural law turned out not to hold, the code is modelled as it is; a lemma exhibits the
failing case and another one states exactly when the law holds:

- `ApplyApproved` does not ask for verified checksums. Both history laws hold as long as it is used only
  for the release exception; for every migration past the checksum one there is a run that breaks both
  (`ApplyGatedExactly`, `ApplyPrefixExactly`, `ApplyApprovedBypassesGate`).
- The approval is read before the migration is committed, so a revocation in between is not noticed
  (`RevocationCanComeTooLate`). Every commit of the release exception follows a read of an effective approval
  by the same command (`CommitWasApproved`), and the approval is still in force if and only if no revocation
  stands between the two (`CommitUnderApprovalExactly`). When no decision is taken while a command runs, it
  always is (`SequentialRunsObeyDecisions`).
- The limiter lets a key through at most `2 * limit - 1` times in any interval of window length, and that
  bound is reached. The retry time of a denial for a full table is not a promise (`RetryIsPromise`,
  `RetryIsPromiseInRuns`).
- After one activation, a fresh copy makes every activation of a third location fail on the unique index
  (`SecondMoveIsRefused`), and in no run does the artifact move again (`SecondCopyIsFinal`).
- A session can be accepted later than its idle lifetime after the last acceptance, when an admitted request
  extends it late (`LateExtensionOutlasts`, `LastAcceptanceExactly`). Counted from the last extension the bound
  always holds (`AcceptedWithinLifetimes`).
- A session turned away as idle can be accepted later if a request admitted earlier extends it in the
  meantime (`IdleRejectionCanBeUndone`, `DeadExactly`).
- The readiness check compares the sets of evidence URIs by inclusion and length, which is equality exactly
  when the stored list repeats nothing (`SetCheckExactly`). What `Build` records never repeats.
- The marker scan jumps past an occurrence that does not stand alone. That is complete for all values if and
  only if the marker does not overlap itself after a character that is neither letter nor digit
  (`ScanExactly`); the nine shipped markers are words and never missed (`WordsAreFound`).
- A request denied an approved write is denied again when it is repeated unchanged, whatever the gate says by
  then: the default idempotency key is derived from the request (`RetryReplays`).
- An import removes every residual on an imported version, whoever wrote it (`OnlyImportedLostExactly`). Imports
  alone never lead there (`RunsLoseOnlyImported`); a row entered directly in SQL does
  (`AuthoredResidualCanBeLost`).
- The numbers of a replayed import pass through a double (`ReadBackExactly`, `LargeCountsAreLost`).

## Model

| member | source | states |
|---|---|---|
| MigrateModel.ShippedNamesOrdered | internal/migrate/migrate.go:34-36 | the ledger, release-exception and checksum migrations sort in this order, from the numbers their names begin with |
| MigrateModel.ApplyGatedExactly | internal/migrate/migrate.go:453-508 | one more apply keeps "past the checksum migration implies all history verified" if and only if it is not past it or the history was verified already |
| MigrateModel.ApplyPrefixExactly | internal/migrate/migrate.go:453-508 | one more apply keeps the recorded migrations a prefix if and only if it is the release exception or everything before it is recorded |
| MigrateModel.LedgerKept | internal/migrate/migrate.go:592-624 | recording phases leaves other migrations' ledger rows alone and merges evidence into the shared remediation row without losing a decision |
| MigrateModel.ApplyKeepsApproval | internal/migrate/migrate.go:223-260 | applying any migration leaves an approval's status, actor and reason, so an effective approval stays effective |
| MigrateModel.ApplyApprovesNothing | internal/migrate/migrate.go:592-624 | applying another migration never approves one that is not recorded |
| MigrateModel.EffectiveExactly | internal/migrate/migrate.go:291-293 | an approval is effective if and only if the remediation row says approved and carries the hash of the SQL embedded now |
| MigrateModel.DecisionIsReadBack | internal/migrate/migrate.go:123-260 | a decision is read back as it was made, with trimmed actor and reason and under the hash of the embedded SQL; nothing but the remediation row changes |
| MigrateRunner.Runner.HasMismatch | internal/migrate/migrate.go:537-556 | true exactly when some embedded migration's recorded hash differs from the embedded one |
| MigrateRunner.Runner.GatePasses | internal/migrate/migrate.go:558-573 | passes exactly when the columns exist, nothing mismatches and every row has a hash |
| MigrateRunner.Runner.RecordRunHashes | internal/migrate/migrate.go:575-582 | in whatever order the map is visited, fills exactly the missing hashes of this run's migrations |
| MigrateRunner.Runner.Up | internal/migrate/migrate.go:73-121 | the outcome, the names applied and the resulting rows, hashes and whole ledger are the closed form read off the starting database, on success and on every failure |
| MigrateRunner.Runner.Approve | internal/migrate/migrate.go:123-162 | succeeds exactly for an embedded name with actor, reason and ledger table, and then the approval is effective; otherwise nothing changes |
| MigrateRunner.Runner.Revoke | internal/migrate/migrate.go:164-196 | fails exactly when there is nothing to revoke or an argument is missing, changing nothing; otherwise the approval is no longer effective |
| MigrateRunner.Runner.MigrationByName | internal/migrate/migrate.go:262-273 | finds the embedded migration with the name exactly when there is one |
| MigrateRunner.Runner.ApplyApproved | internal/migrate/migrate.go:198-221 | applies exactly when the migration is missing and its approval is effective; with an approval of other SQL it is an error; otherwise nothing changes |
| MigrateRunner.Runner.AttestLegacyHashes | internal/migrate/migrate.go:349-430 | succeeds exactly when its checks pass, reports the number of rows without a hash, leaves every row embedded and verified and every approval as it was, marks exactly the verify rows of the migrations it filled, and is the attestation step of the interleaved model |
| MigrateRunner.SetDigestExactly | internal/migrate/migrate.go:337-347 | the digest of the set tells any two lists of migrations apart |
| MigrateRunner.FreshUp | internal/migrate/migrate.go:73-121 | whatever Up reports from an empty database, it went through: every migration but the release exception is recorded, all verified |
| MigrateLedger.FreshLedger | internal/migrate/migrate.go:592-624 | a first Up leaves four ledger rows for every migration it recorded, each with the status, hash and evidence it should have, and no others |
| MigrateRunner.StopNamesCause | internal/migrate/migrate.go:73-121 | an Up that stops names its cause: a differing hash, history without a hash before a migration past the checksum one, or an approval row without a hash |
| MigrateRunner.SecondUpIsIdle | internal/migrate/migrate.go:73-121 | after an Up that went through, the next one succeeds, applies nothing and leaves the whole database as it is |
| MigrateRunner.ReleaseExceptionNeedsApproval | internal/migrate/migrate.go:100-108 | run alone, Up applies the release exception only under an approval of its very SQL that was there before, and which is still effective after it |
| MigrateRunner.OtherSqlIsNotApplied | internal/migrate/migrate.go:100-108 | an approval of other SQL counts for nothing: however Up ends, the release exception is not recorded and the row stays |
| MigrateRunner.AttestationOpensGate | internal/migrate/migrate.go:558-573 | with verified history Up can stop only at an unreadable approval |
| MigrateRunner.LegacyHistoryStops | internal/migrate/migrate.go:85-119 | history without checksum columns always stops Up at the first missing migration past the checksum one |
| MigrateConcurrent.HistoryStaysVerified | internal/migrate/migrate.go:73-121 | in every state of every interleaving, crashes included: a recorded migration past the checksum one implies columns, a hash on every row and the embedded hash on every embedded row |
| MigrateConcurrent.HistoryStaysPrefix | internal/migrate/migrate.go:85-119 | with any number of runners the recorded migrations other than the release exception are a prefix, and none is committed twice |
| MigrateConcurrent.LastDecisionCounts | internal/migrate/migrate.go:123-260 | in every interleaving an approval is effective if and only if the last decision approved |
| MigrateConcurrent.ApplyApprovedBypassesGate | internal/migrate/migrate.go:198-221 | for every migration past the checksum one, a run of approve and apply-approved that breaks both history laws |
| MigrateConcurrent.RevocationCanComeTooLate | internal/migrate/migrate.go:100-108 | a run in which the release exception is applied although the last decision revoked it |
| MigrateRefinement.UpIsARun | internal/migrate/migrate.go:73-121 | Up run alone is a run of the interleaved model: its steps lead to exactly the database and the commits that the runner's Up is proved to leave |
| MigrateRefinement.ApplyApprovedIsARun | internal/migrate/migrate.go:198-221 | ApplyApproved run alone is a run of the interleaved model with the same result |
| MigrateRefinement.AttestIsARun | internal/migrate/migrate.go:349-430 | an attestation run alone is a run of the interleaved model |
| MigrateApproval.CommitWasApproved | internal/migrate/migrate.go:100-119 | in every interleaving, a step that records the release exception is the commit of a command that earlier read a ledger row saying approved under the hash of the embedded SQL, and has stood before that commit ever since |
| MigrateApproval.EffectiveUntilRevoked | internal/migrate/migrate.go:223-260 | over any stretch of any interleaving an effective approval stays effective if and only if no revocation stands, whatever is applied, attested or decided otherwise |
| MigrateApproval.CommitUnderApprovalExactly | internal/migrate/migrate.go:100-108 | at such a commit the approval is in force, and the last decision approves, if and only if no revocation without a later approval came between the read and the commit |
| MigrateApproval.SequentialRunsObeyDecisions | internal/migrate/migrate.go:123-260 | in every run in which no decision is taken while a command runs, each commit of the release exception finds a ledger row saying approved under the hash of the embedded SQL, which stays effective exactly until a revocation |
| ArtifactMigration.ArtifactStore.Upsert | internal/project/artifact_migration.go:460-473 | inserts, or merges into the one row with the same role and URI |
| ArtifactMigration.ArtifactStore.CommitCopy | internal/project/artifact_migration.go:237-303 | succeeds exactly when the stored and the read-back content agree with what was recorded, and then files source and candidate rows |
| ArtifactMigration.ArtifactStore.Activate | internal/project/artifact_migration.go:305-369 | succeeds exactly for a verified row that agrees with the artifact and clashes with nothing; a failure changes nothing |
| ArtifactMigration.ArtifactStore.CompleteObservation | internal/project/artifact_migration.go:177-235 | settles exactly after the deadline with one verified primary; a stable artifact is left as it is |
| ArtifactMigration.PromoteClashesExactly | internal/migrate/migrations/000009_v1_boundary_foundation.sql:120-121 | an activation violates the unique index if and only if another primary row's URI already has a source row |
| ArtifactMigration.PrimaryAgrees | internal/project/artifact_migration.go:177-369 | in every reachable state at most one location is primary; once observing or stable one is, verified and in agreement with the artifact, and all rows carry the recorded hash and size |
| ArtifactMigration.NothingIsLost | internal/project/artifact_migration.go:280-358 | over any run hash and size stay, no location row is removed, and a URI once active is active or kept as a source that must not be deleted |
| ArtifactMoves.CopyFiles | internal/project/artifact_migration.go:237-303 | a copy files where the artifact was read from and what was stored, and touches no other row |
| ArtifactMoves.MoveLands | internal/project/artifact_migration.go:286-358 | a new copy, activated: backend, URI, content type, hash and size of the artifact are those that were stored |
| ArtifactMoves.MoveLandsInRuns | internal/project/artifact_migration.go:237-369 | over any run, activating the candidate of a copy serves the artifact from the backend and URI the copy was stored under |
| ArtifactMoves.FirstMoveSucceeds | internal/project/artifact_migration.go:305-369 | a verified copy of an artifact without a primary location can be activated |
| ArtifactMoves.PlacesAreKept | internal/project/artifact_migration.go:280-358 | every place an artifact was served from and no longer is has a source row with the backend and content type it had there, which must not be deleted |
| ArtifactMigration.StableAfterDeadline | internal/project/artifact_migration.go:193-218 | an artifact becomes stable only later than the requested deadline minus one second |
| ArtifactMoves.ObservationEnds | internal/project/artifact_migration.go:193-218 | from the requested deadline on an observed artifact can be completed |
| ArtifactMigration.SecondMoveIsRefused | internal/project/artifact_migration.go:329-358 | after an activation, a fresh copy leaves the primary row blocked by a source row, and every activation of a location other than those two is refused |
| ArtifactMigration.SecondCopyIsFinal | internal/project/artifact_migration.go:329-358 | in no run does the artifact change its URI after such a copy |
| RateLimiter.IpRateLimiter.Allow | internal/api/security_middleware.go:33-57 | table and verdict are the specified step, sweeping included |
| RateLimiter.TableStaysBounded | internal/api/security_middleware.go:37-46 | no sequence of requests makes the table exceed its bound |
| RateLimiter.SlidingBound | internal/api/security_middleware.go:33-57 | in any interval of window length a key is allowed at most 2 * limit - 1 times, whatever other keys do |
| RateLimiter.SlidingBoundIsSharp | internal/api/security_middleware.go:33-57 | a run that reaches that bound |
| RateLimiter.WindowBound | internal/api/security_middleware.go:51-56 | an opened window admits at most limit requests in all |
| RateLimiter.RetryIsPromise | internal/api/security_middleware.go:37-53 | a denial's retry time is kept whatever follows if and only if the key used up its own window, the table has no capacity, or every live window opened at that instant |
| RateLimiter.TablesAreSound | internal/api/security_middleware.go:33-57 | every table that ordered requests lead to has positive counts and windows opened in the past |
| RateLimiter.RetryIsPromiseInRuns | internal/api/security_middleware.go:29-57 | the same condition for every denial after any sequence of requests on an empty table |
| RateHistory.VerdictExactly | internal/api/security_middleware.go:33-57 | the answer and the retry time after any ordered requests are determined by who was let through when |
| RateHistory.DenialsAreEarned | internal/api/security_middleware.go:33-57 | in every run of any keys a request is denied only if its key was let through limit times in a window still open, or it has no open window and as many keys as the table holds have one |
| ApprovedWrite.NormalizedMeaning | internal/project/worker.go:2166-2178 | normalising keeps exactly the trimmed non-blank capabilities, once each |
| ApprovedWrite.NormalizedGrows | internal/project/worker.go:2166-2178 | capabilities stay in order of first appearance |
| ApprovedWrite.MissingCapabilities | internal/project/worker.go:2180-2195 | lists exactly the wanted capabilities a worker lacks, once each; empty exactly when it is capable |
| ApprovedWrite.CanProject | internal/project/approved_artifact_write.go:820-856 | allowed exactly when some matching permission allows and none denies |
| ApprovedWrite.Store.NextTask | internal/project/approved_artifact_write.go:601-634 | finds the first claimable task by sequence and id, exactly when there is one |
| ApprovedWrite.Store.UpdateRun | internal/project/approved_artifact_write.go:737-818 | the run finishes exactly when no approved-write task of it is open, counts its written and open tasks, and names the artifact and the attempt |
| ApprovedWrite.Store.Reserve | internal/project/workflow.go:1544-1579 | a new key is reserved; a known one is answered, or refused for another request hash |
| ApprovedWrite.Store.FinishDenied | internal/project/approved_artifact_write.go:973-985 | adds one event, one audit event and one answered command and nothing else |
| ApprovedWrite.Store.Claim | internal/project/approved_artifact_write.go:299-338 | the lease ends completed and the run task written, and lease, artifact and attempt name each other |
| ApprovedWrite.Store.Write | internal/project/approved_artifact_write.go:183-388 | the whole transaction: not found, conflict, replay, denial for the first failing check, or the write of the next task |
| ApprovedWrite.Store.Queue | internal/project/approved_artifact_write.go:99-181 | an authored version gets one queued run with one task, once per key |
| ApprovalGate.Build | internal/project/execution_approval_gate.go:103-262 | the gate passes exactly when every check holds and lists exactly those that fail |
| ApprovalGate.WorkerWithCapabilities | internal/project/execution_approval_gate.go:289-296 | true exactly when some worker has all required capabilities |
| ApprovedWriteRuns.OneWritePerTask | internal/project/approved_artifact_write.go:183-388 | in every interleaving with stale gates: at most one artifact, attempt and write lease per task, no write lease active, and the run finished, naming them and counting one task written and none open |
| ApprovedWriteRuns.FinishedMeansWritten | internal/project/approved_artifact_write.go:737-818 | an approved-write run is finished if and only if it left the queue if and only if its task was written |
| ApprovedWriteRuns.RetryReplays | internal/project/approved_artifact_write.go:227-241 | a request answered once is answered the same for ever and changes nothing; another request under its key is a conflict |
| ApprovedWriteRuns.OneRecordPerCommand | internal/project/approved_artifact_write.go:973-985 | every command has exactly one event and one audit event, and there are no others |
| ApprovedWriteRuns.OutcomeExactly | internal/project/approved_artifact_write.go:243-388 | a new request is denied exactly for the first reason against it, changing no run, task, lease, attempt or artifact; a write takes the first claimable task, changes that task and its run and adds one row everywhere; the event names key and run |
| ApprovedWriteRuns.FreshGateWrites | internal/project/execution_approval_gate.go:168-262 | with a gate that passed and is still current, the write happens if and only if the worker is capable, the project permits it and nothing holds the run's task |
| ApprovedWriteFlow.QueueOutcome | internal/project/approved_artifact_write.go:99-181 | queueing answers as created exactly for an authored version and a new key; the answer names a new queued run with one task under the given title, and nothing else changes |
| ApprovedWriteFlow.WaitingGate | internal/project/execution_approval_gate.go:103-262 | on a queued run the gate passes if and only if version, approvals, mapping and engine preview are in order and an online worker has what is required |
| ApprovedWriteFlow.WaitingIsWritten | internal/project/approved_artifact_write.go:243-388 | a new request for a queued run is carried out if and only if gate, capabilities, permission and lock allow it, else denied for the first that does not; what is carried out bears the queued title |
| ApprovedWriteFlow.QueuedIsWritten | internal/project/approved_artifact_write.go:99-388 | queued and then requested with nothing against it, the artifact is there under the queued title |
| ApprovedWriteFlow.EndedLeaseFreesTask | internal/project/approved_artifact_write.go:601-634 | a lease that is given back or expires leaves its task claimable |
| ApprovedWriteFlow.KeysExactly | internal/project/approved_artifact_write.go:410-521 | two write requests share a key exactly when they name the same one, or none and ask for the same; and what counts as the same |
| ApprovedWriteFlow.QueueKeysExactly | internal/project/approved_artifact_write.go:390-517 | likewise for queue requests, and the two kinds never share one |
| ApprovedWriteFlow.DefaultCapability | internal/project/approved_artifact_write.go:415-418 | a request that names no capability asks for writing artifacts |
| ApprovedWriteFlow.DefaultRequirement | internal/project/execution_approval_gate.go:103-262 | a gate asked for none requires four |
| CompletionAudit.PackageABlockers | internal/project/completion_audit_snapshot.go:1820-1917 | no blocker exactly when one import hash runs through the import, the applied projection and the file in place |
| CompletionAudit.EveryFactCounts | internal/project/completion_audit_snapshot.go:1820-1917 | turning over any one recorded fact of the projection unbinds it |
| CompletionAudit.BoundChain | internal/project/completion_audit_snapshot.go:1820-1917 | with Package A bound one hash runs through import, projection and file, and another import or file unbinds it |
| CompletionAudit.CombinedIsWorst | internal/project/completion_audit.go:357-369 | the audit is blocked exactly when some item is, complete exactly when none is incomplete or blocked, and otherwise has the worst status met |
| CompletionAudit.AuditBuilder.AddItem | internal/project/completion_audit.go:324-330 | appends the item and keeps the status the combined one |
| CompletionAudit.AuditBuilder.AddDogfood | internal/project/completion_audit.go:697-963 | the dogfood item is complete exactly when Package A is bound and nothing else blocks it |
| CompletionAudit.CompleteAuditIsBound | internal/project/completion_audit.go:954-963 | a complete audit implies a bound Package A |
| AuditEvidence.CollectUris | internal/project/completion_audit_snapshot.go:959-972 | the sorted list of exactly the audit's evidence URIs, in whatever order the metadata is visited |
| Sorting.ListUnique | internal/project/completion_audit_snapshot.go:959-972 | a set of strings has one such list |
| Sorting.Unique | internal/project/completion_audit.go:1370-1381 | the distinct non-empty values, and no others |
| AuditEvidence.CollectUriMap | internal/project/completion_audit_snapshot.go:974-986 | the first URI under each required key, later items overriding earlier ones |
| AuditEvidence.CollectEventIds | internal/project/completion_audit_snapshot.go:1589-1602 | in whatever order the metadata is visited, the non-zero IDs under proof event keys, later items overriding earlier ones |
| AuditEvidence.CollectProvenance | internal/project/completion_audit_snapshot.go:988-1000 | the trimmed non-blank provenance under each required key |
| AuditEvidence.SameHashSameProofs | internal/project/completion_audit_snapshot.go:1557-1607 | audits with the same hash agree on all URIs, event IDs and provenance, although the hash leaves out volatile values |
| AuditEvidence.HashExactly | internal/project/completion_audit_snapshot.go:1557-1587 | two audits have the same hash if and only if they agree field by field on everything that is not volatile |
| AuditProofs.UriMapIsLatest | internal/project/completion_audit_snapshot.go:974-986 | the URI bound to a required proof is the first value of the latest item that has one |
| AuditProofs.EventIdsAreLatest | internal/project/completion_audit_snapshot.go:1589-1602 | the event bound to a proof is the latest non-zero one |
| AuditProofs.ProvenanceIsLatest | internal/project/completion_audit_snapshot.go:988-1000 | the provenance bound to a proof is the latest that is not blank |
| AuditProofs.LastWordCounts | internal/project/completion_audit_snapshot.go:959-1000 | what an item says is bound once it is the last to say something |
| AuditProofs.ValuesExactly | internal/project/completion_audit_snapshot.go:1531-1555 | the values of a text or list are its trimmed texts that are not blank |
| AuditSnapshot.AuditFiles | internal/project/completion_audit_snapshot.go:799-841 | every URI is audited once, at its first reference; ok exactly when all pass and there is one |
| EvidenceFiles.HeadingAnchor | internal/project/completion_audit_snapshot.go:929-957 | the builder loop computes the slug of the heading between its number signs |
| EvidenceFiles.FindHeading | internal/project/completion_audit_snapshot.go:918-927 | true exactly when the anchor names the heading of some line |
| EvidenceFiles.Audit | internal/project/completion_audit_snapshot.go:843-908 | an entry exactly for a readable markdown document under docs whose reference is well formed and whose anchor, required or given, names one of its headings |
| EvidenceFiles.HeadingSpells | internal/project/completion_audit_snapshot.go:929-957 | the anchor of a heading is its words in lower case, letters and digits only, joined by single dashes |
| EvidenceFiles.TitleIsInside | internal/project/completion_audit_snapshot.go:929-940 | a title is the line without number signs and white space around it |
| EvidenceFiles.LinesExactly | internal/project/completion_audit_snapshot.go:918-927 | the lines are the document cut at its line feeds |
| EvidenceFiles.ReferenceParts | internal/project/completion_audit_snapshot.go:904-908 | a reference is a path, a query and an anchor |
| EvidenceFiles.WantedExactly | internal/project/completion_audit_snapshot.go:918-920 | an anchor is looked for in lower case, with or without its number sign |
| EvidenceFiles.ReferenceExactly | internal/project/completion_audit_snapshot.go:843-902 | when a reference passes, and what is recorded of it |
| EvidenceFiles.ContentDecides | internal/project/completion_audit_snapshot.go:843-902 | for references that passed, the file audits agree if and only if every referenced document has the same content; nothing else in the file system matters |
| AuditSnapshot.CheckFiles | internal/project/completion_audit_snapshot.go:1196-1241 | clean exactly when stored and current file audits agree on path, anchor, hash and size in both directions |
| AuditSnapshot.CheckUris | internal/project/completion_audit_snapshot.go:1275-1310 | clean exactly when every required proof has a fitting URI and they are distinct |
| AuditProofs.BoundUrisAreDistinct | internal/project/completion_audit_snapshot.go:1275-1310 | no two required proofs share a URI, and each fits |
| AuditSnapshot.CheckEvents | internal/project/completion_audit_snapshot.go:1312-1334 | clean exactly when every required proof has a positive event ID and they are distinct |
| AuditProofs.BoundEventsAreDistinct | internal/project/completion_audit_snapshot.go:1312-1334 | no two required proofs share an event |
| AuditSnapshot.CheckProvenance | internal/project/completion_audit_snapshot.go:1177-1190 | clean exactly when every required provenance is there and unmarked |
| AuditSnapshot.CheckCurrent | internal/project/completion_audit_snapshot.go:1435-1519 | clean exactly when the stored proofs are those of the current audit |
| AuditSnapshot.CheckBundle | internal/project/completion_audit_snapshot.go:574-620 | clean exactly when the bundle is ready, with its required items and a genuine inventory |
| AuditSnapshot.CheckBundleBinding | internal/project/completion_audit_snapshot.go:622-648 | clean exactly when a ready bundle has the stored hash and item count |
| AuditSealing.AnyMissing | internal/project/completion_audit_snapshot.go:1006-1027 | true exactly when a required key has no value or a required item is absent |
| AuditSealing.Build | internal/project/completion_audit_snapshot.go:401-533 | a snapshot is recorded exactly when it may be sealed, and holds what was checked |
| AuditSealing.Check | internal/project/completion_audit_snapshot.go:1965-2315 | the verdict is the first check that fails, or ready |
| AuditSealing.AgreeExactly | internal/project/completion_audit_snapshot.go:1196-1241 | two passing file audits agree if and only if every first reference finds the same file |
| AuditSealing.SetCheckExactly | internal/project/completion_audit_snapshot.go:1447-1460 | the set check means set equality if and only if the stored list repeats nothing |
| AuditSealing.SetCheckIsLoose | internal/project/completion_audit_snapshot.go:1447-1460 | a stored list with a repetition that passes and names less |
| AuditSealing.SealingExact | internal/project/completion_audit_snapshot.go:1965-2315 | a recorded release-candidate snapshot is ready if and only if the project is genuine, the audit a v1.0 one that still says the same in every field but the volatile ones, every evidence file unchanged, the bundle ready with unchanged hash and size, and Package A bound |
| AuditSealing.DriftIsNamed | internal/project/completion_audit_snapshot.go:1965-2315 | for a recorded release-candidate snapshot the verdict names the first thing that changed |
| AuditProofs.ReadyIsReviewed | internal/project/completion_audit_snapshot.go:1965-2315 | a snapshot found ready is of a complete v1.0 audit without side effects, described, approved, signed and dated |
| AuditProofs.ReadyHasProofs | internal/project/completion_audit_snapshot.go:1965-2315 | its required proofs have URIs and events of their own, and no evidence carries a marker |
| AuditProofs.ReadyHasBundle | internal/project/completion_audit_snapshot.go:574-620 | its bundle has every required item ready and a genuine inventory |
| AuditProofs.FixtureIsNeverReady | internal/project/completion_audit_snapshot.go:2116-2124 | a fixture snapshot is never ready |
| AuditProofs.IdentityFaults | internal/project/completion_audit_snapshot.go:2116-2150 | a fault in the identity of a sound snapshot is reported as that |
| AuditProofs.DescriptionFaults | internal/project/completion_audit_snapshot.go:1965-2315 | likewise a fault in title or summary |
| AuditProofs.UriFaults | internal/project/completion_audit_snapshot.go:1965-2315 | likewise a fault in its URI |
| AuditProofs.ReviewFaults | internal/project/completion_audit_snapshot.go:1965-2315 | likewise a fault in its review |
| AuditProofs.UriMapFaults | internal/project/completion_audit_snapshot.go:1965-2315 | likewise a fault in its stored URIs |
| AuditProofs.EventFaults | internal/project/completion_audit_snapshot.go:1965-2315 | likewise a fault in its stored events |
| AuditProofs.ProvenanceFaults | internal/project/completion_audit_snapshot.go:1965-2315 | likewise a fault in its stored provenance |
| AuditSealing.RecordedIsReady | internal/project/completion_audit_snapshot.go:401-533 | a release-candidate snapshot of a complete audit is ready as long as nothing has changed |
| AuditSealing.ReadyMeansUnchanged | internal/project/completion_audit_snapshot.go:1965-2315 | for any stored snapshot: ready with a known current hash implies equal hash, required URIs, event IDs, provenance, evidence files both ways and bundle hash |
| AuditProfile.V1IsMeaningful | internal/project/completion_audit_snapshot.go:1040-1149 | the v1.0 profile meets what the sealing theorems ask: proofs are required, and no value left out of the hash is one of them |
| AuditProfile.V1HashExactly | internal/project/completion_audit_snapshot.go:1557-1587 | for the shipped profile two audits have the same hash if and only if they agree on status, scope, mode, and every item's key, status and value under every key but three |
| AuditProfile.V1UrisAreEvidence | internal/project/completion_audit_snapshot.go:974-986 | every URI bound to a required v1.0 proof is one of the audit's evidence URIs |
| AuditProfile.V1EventsAreCollected | internal/project/completion_audit_snapshot.go:1589-1602 | every required v1.0 proof event is one that is collected |
| AuditProfile.V1SealingExact | internal/project/completion_audit_snapshot.go:1040-1149 | sealing is exact for the shipped profile, bundle items and evidence rules, with the three volatile values written out |
| AuditProfile.V1EvidenceIsClean | internal/project/completion_audit_snapshot.go:727-782 | no evidence of a recorded v1.0 snapshot carries a non-release marker or points at a script or a local mechanism |
| AuditProfile.V1EvidenceIsInPlace | internal/project/completion_audit_snapshot.go:799-927 | every evidence URI of a recorded v1.0 snapshot but its own points at a heading of a readable markdown document under docs |
| AuditProfile.V1SealsContent | internal/project/completion_audit_snapshot.go:1965-2315 | the same with the evidence documents themselves: of the files, readiness depends on exactly the content of the referenced ones |
| MarkerScan.HasMarkerToken | internal/project/completion_audit_snapshot.go:747-772 | the loop with its jump computes the specified scan |
| MarkerScan.ScanExactly | internal/project/completion_audit_snapshot.go:747-772 | what the scan reports always stands alone; it misses nothing in any value if and only if no self-overlap of the marker starts after a character that is neither letter nor digit |
| MarkerScan.WordsAreFound | internal/project/completion_audit_snapshot.go:747-772 | for a marker of letters and digits the scan is true exactly when it stands alone somewhere |
| MarkerScan.NeighboursDecide | internal/project/completion_audit_snapshot.go:766-772 | exactly a letter or digit next to a marker keeps it from standing alone |
| MarkerScan.ContainsNonReleaseMarker | internal/project/completion_audit_snapshot.go:727-745 | true exactly when some marker stands alone in the trimmed lower-case value |
| MarkerScan.NonReleaseWords | internal/project/completion_audit_snapshot.go:727-745 | the nine words, by name |
| Importer.Store.ImportProject | internal/importer/importer.go:44-187 | tables and answer are the specified transaction; a failure keeps nothing |
| Importer.Store.InsertVersions | internal/importer/importer.go:100-107 | fails exactly on a title taken or repeated, and maps every title to its row |
| Importer.ImportableExactly | internal/importer/importer.go:100-113 | a fresh import goes through if and only if the snapshot repeats no title or key and takes none that the import does not replace |
| Importer.VersionsReplaced | internal/importer/importer.go:362-374 | the project's imported versions become exactly the snapshot's, and no other version is touched |
| Importer.ResidualsReplaced | internal/importer/importer.go:109-113 | imported residuals become exactly the snapshot's, each linked to the version inserted for its title or to none; others stay unless a removed version took them along |
| Importer.ArtifactsReplaced | internal/importer/importer.go:114-118 | external artifacts become exactly the snapshot's, linked likewise; others lose at most a link to a removed version |
| Importer.AnswerCountsRows | internal/importer/importer.go:120-186 | the answer to a fresh import counts the imported versions, residuals and external artifacts the project now has, and names the run they belong to |
| Importer.OnlyImportedLostExactly | internal/migrate/migrations/000001_v0_1_core.sql:94-97 | only imported residuals are lost if and only if no other one hangs on an imported version |
| Importer.AuthoredResidualCanBeLost | internal/migrate/migrations/000001_v0_1_core.sql:94-97 | a residual entered directly in SQL on an imported version, which an import removes |
| Importer.RunsLoseOnlyImported | internal/importer/importer.go:362-374 | in every state that imports of any projects reach, the next import loses no residual but the project's own imported ones |
| Importer.ReadBackExactly | internal/importer/importer.go:328-339 | a stored number is read back unchanged if and only if it is a multiple of the spacing of doubles at its size |
| Importer.SpacingExactly | internal/importer/importer.go:328-339 | the spacing of doubles leaves 53 bits of the number |
| Importer.ReadBackIsNearest | internal/importer/importer.go:328-339 | a number read back is the nearest double, the even one of two |
| Importer.SmallNumbersSurvive | internal/importer/importer.go:328-339 | every number up to 2 to the 53 is read back unchanged |
| Importer.LargeCountsAreLost | internal/importer/importer.go:328-339 | the first count past 2 to the 53 comes back wrong from a replay |
| Importer.RetryReplays | internal/importer/importer.go:75-93 | after a fresh import and any number of imports of any projects: the same request changes nothing and returns the first result, marked not created, exactly when its numbers survive; another hash is a conflict and changes nothing |
| Importer.NoCommandChanges | internal/importer/importer.go:226-261 | no import changes an existing command |
| Importer.CommandsSurvive | internal/importer/importer.go:226-261 | a command row outlives every run of imports unchanged |
| Sessions.Session.Authenticate | internal/auth/session.go:74-109 | a request nobody disturbs is the run of its check followed by its extension or the loss of it, and its answer is that check's, so the laws about runs are laws about the method |
| Sessions.AcceptedWithinLifetimes | internal/auth/session.go:33-109 | after any run, interleaved requests included: idle expiry never exceeds the absolute one, and acceptance is within the absolute lifetime and within the idle lifetime of creation or last extension |
| Sessions.AcceptedExactly | internal/auth/session.go:33-109 | after any run a request is accepted if and only if it has the right value, the session was not revoked, and it comes within the absolute lifetime and the idle lifetime since creation or, in whole seconds, since the last extension |
| Sessions.LastAcceptanceExactly | internal/auth/session.go:74-109 | after any run, every next acceptance is within the idle lifetime of creation or last acceptance if and only if the last extension did not run late or nothing can be accepted any more |
| Sessions.LateExtensionOutlasts | internal/auth/session.go:95-107 | a run in which a session is accepted eleven seconds after its last acceptance under an idle lifetime of ten |
| Sessions.DeadExactly | internal/auth/session.go:74-145 | no later request can be accepted if and only if the session is revoked, past its absolute lifetime, or past its idle one with no admitted request still to extend it |
| Sessions.UseKeepsAlive | internal/auth/session.go:74-109 | an undisturbed request keeps the session alive for exactly the stored idle lifetime or until the absolute expiry |
| Sessions.UndisturbedRejectionIsFinal | internal/auth/session.go:74-109 | when requests do not interleave, a session whose own value is turned away is never accepted again |
| Sessions.IdleRejectionCanBeUndone | internal/auth/session.go:95-107 | a run in which an idle rejection is followed by an acceptance |
| Tokens.HexRoundTrip | internal/auth/token.go:268-278 | decoding undoes encoding for all bytes, with twice the length and no underscore |
| Tokens.DecodesHexExactly | internal/auth/token.go:280-293 | a text decodes as base16 if and only if it is pairs of digits |
| Tokens.Base64RoundTrip | internal/auth/token.go:268-278 | decoding undoes encoding for all bytes |
| Tokens.Base64Length | internal/auth/token.go:268-278 | the number of digits written for n bytes |
| Tokens.Decodes64Exactly | internal/auth/token.go:280-293 | a text decodes if and only if it has, line breaks aside, only digits and no single one left over; and how many bytes it gives |
| Tokens.DigitsAreStandard | internal/auth/token.go:280-293 | reading a digit gives its place in the alphabet, base16 in either case |
| Tokens.GroupIsNumber | internal/auth/token.go:268-278 | three bytes and their four digits are the same number |
| Tokens.AlphabetsAreStandard | internal/auth/token.go:268-278 | the digits are those of the base16 and URL-safe base64 alphabets, in order |
| Tokens.SplitExactly | internal/auth/token.go:281-281 | splitting finds exactly the three joined parts, underscores in the last one included |
| Tokens.ParsePrinted | internal/auth/session.go:147-176 | for every key and secret, parsing a printed token or session value returns the printed key, and neither parses as the other |
| Tokens.NeverBoth | internal/auth/session.go:164-176 | no text parses both as a token and as a session value |
| Tokens.TokenExactly | internal/auth/token.go:280-293 | a text is accepted for a key if and only if it is the prefix, that key and a secret of 32 bytes |
| Tokens.SessionExactly | internal/auth/session.go:164-176 | a text is accepted as a session value for a key if and only if it is the prefix, that key and a decodable secret of at least 40 characters |
| Tokens.NormalizeScope | internal/auth/token.go:305-318 | the sorted list of exactly the trimmed non-blank values |
| Sorting.SortSlice | internal/project/backup.go:312-314 | in place, a sorted permutation, for any strict weak order |
| BackupManifest.Hash | internal/project/backup.go:302-337 | digests sorted copies of the lists, and leaves the manifest's own slices alone |
| BackupManifest.HashExactly | internal/project/backup.go:302-337 | with distinct names, keys and ids, two manifests have the same hash if and only if they are the same up to the order of tables, projects and each project's artifacts |
| BackupManifest.ManifestHashExactly | internal/project/backup.go:302-337 | on the manifests themselves the hash covers schema, table counts, and of each project key, inventory, count and artifacts, and nothing else |
| BackupManifest.HashIgnoresTime | internal/project/backup.go:302-311 | the hash is determined by the manifest and does not depend on its generation time |
| ArtifactLabel.Normalize | internal/project/approved_artifact_write.go:434-471 | the loop computes the specified normal form |
| ArtifactLabel.NormalIsWellFormed | internal/project/approved_artifact_write.go:434-471 | for every label: not empty, at most 80 characters of letters, digits, underscore, dot and single dashes, no dash or dot at the ends |
| ArtifactLabel.NormalSpellsWords | internal/project/approved_artifact_write.go:434-471 | for every label: its words joined by single dashes, trimmed, cut after 80 characters, or the default |
| ArtifactLabel.NormalStaysExactly | internal/project/approved_artifact_write.go:434-471 | a label is left alone if and only if it is well formed |
| ArtifactLabel.NormalIsIdempotent | internal/project/approved_artifact_write.go:434-471 | normalising twice is normalising once |
| ArtifactLabel.LettersSurvive | internal/project/approved_artifact_write.go:441-463 | a label without letters becomes the default; otherwise the result spells the same letters, cut only by the limit |

## Left out

- The SQL text of migrations: only the effects of the ledger and checksum migrations on the modelled tables are.
- All migration runners embed the same list; two builds with different lists against one database are not modelled.
- A schema change committed by another runner in the middle of an apply transaction is not modelled.
- The migration status listing, the artifact inventory counters and the artifact read path: easy folds over rows.
- ArtifactMoves.PlacesAreKept: starts from location rows that describe the artifact, as only copies and activations write them; rows entered directly in SQL are not covered.
- The artifact store and its backends; a copy's stored and re-read facts are parameters, and one artifact is modelled.
- Transient unique-index violations inside one UPDATE: PostgreSQL may refuse activations the model admits.
- Saturation of time differences, and the microsecond precision of stored timestamps.
- The metadata columns of runs, attempts, leases and artifacts beyond the ids and task counts they name.
- Operations on other kinds of tasks and runs are one step that leaves approved-write rows alone.
- The idempotency key derived from a request hash is injective; the shipped one uses a prefix of the hash.
- CompletionAudit.AuditBuilder.AddDogfood: the dogfood item's blockers other than Package A are a count, because each is one test of one readiness field.
- The audit items other than the dogfood one; fields of items and audits that only the hash reads are one text.
- Metadata values that are nested lists, and proof references whose joined item and key names coincide.
- The project identity checks and the time format are predicates handed to the sealing theorems.
- AuditSnapshot.AuditFiles: takes the audit of one reference as a function; `EvidenceFiles.Audit` computes it, with path cleaning, the letters of unicode, the release-candidate naming rule and the reading of files as parameters.
- The text of blockers: the model keeps whether there are any and which check reports them.
- Storing a snapshot and reading it back is the identity; event IDs beyond 2 to the 53 are not considered there.
- Items of workflow versions removed by an import, and the loading of the snapshot from the project's files.
- Lower-casing beyond ASCII, and byte lengths of text that is not ASCII.
- Cookie, OIDC, RBAC, HTTP, CLI, desktop and web code, and package-level backup and restore.
