# Release, migration and scheduling logic of dotmac_sub, modelled and proved

This project models the parts of dotmac_sub that decide things: whether a
production backup may be skipped, which migrations are still to run, what the
beat scheduler fires, what guarded schema operations do to a database, and what
several audits and data migrations compute. Each module states what the code
does and proves what its documentation and tests promise it is for.

| Files | What they model |
|---|---|
| Basics, LexOrder, Decimal, Json | result types, code-point order and `sorted`, numerals, JSON values |
| Framing, Utf8 | the byte stream that the migration fingerprint hashes |
| MigrationGraph, MigrationTree | revision graphs, heads, pending work; `describe_migration_tree` |
| ReleaseContract, BackupPolicy | typed release evidence; the production backup decision and its documents |
| NewMigration | allocating the next revision on the same directories |
| BeatScheduler, BeatObjects | `DbScheduler` as a state machine over runs, and as mutable objects refining it |
| SchemaModel, SchemaOps, SchemaWrappers | guarded DDL, its guarantees over chains, and the nine wrappers |
| ClassOrder, ReadConstraints | the inheritance walk and the audit of read models |
| ActorCalls | the audit-actor visitor, stable ids and the inventory |
| CandidateEvidence, ReleaseGate | the production authorization document; the workflow-run gate |
| Identity, IdentityIndex | identity normalisation and the index of migration 109 |
| OntConfig | the layered configuration backfill of migrations 084 and 085 |

Hashing and parsing are function parameters: facts about the fingerprint are
facts about the byte stream, and equality of trees is concluded from equal
digests only where the two streams do not collide. Clocks, builds, inspector
answers and workflow runs are inputs that may fail.

Where the code differs from its own documentation, or from what one might
expect, the model follows the code:

- `app/migration_schema_ops.py:39-42` says every inspector failure makes the
  wrapper delegate. The drop wrappers skip instead (`InspectorFailure`), and a
  chain then completes with the object still there (`UninspectableDropDiverges`).
- Unnamed constraints are never guarded, so replaying them is not idempotent
  (`ReplayableIffNamed`).
- The overwrite refusal of `scripts/new_migration.py:117-118` can never trigger
  (`AllocatedPathIsFresh`). A clash of revision ids can: a file may declare
  another number than its own (`ClashIsReachable`). The starting directory and
  the slugs tell whether a run meets one (`AllocationsLoadableIffIdsFresh`).
- On a graph with a cycle the computed heads need not cover every revision
  (`HeadsMayMissACycle`), and a skipped backup may leave one pending;
  `HeadsCoverExactly` and `SkippedBackupEndToEnd` say exactly when.
- The first schedule refresh may load nothing (`FirstRefreshMayBeSkipped`).
- Evidence documents accept `true` and `1.0` as schema version 1, because
  Python compares them equal (`scripts/release_backup_policy.py:114`).
- The phone number `00` normalises to a bare plus sign, which is not a fixpoint
  (`TwoZerosGiveBarePlus`, and `PhoneIsFixpointExactly` for all inputs); a trunk
  zero is only replaced from ten digits on (`SpellingsAgree`).
- Migration 085 drops the legacy columns without any backfill when
  `lan_gateway_ip` is missing (`LegacyValueGetsLost`; `PrecedenceExactly` says
  when nothing is lost), and a section that is a JSON null turns into an array
  (`SectionStaysObjectIff`).

## Model

| member | source | states |
|---|---|---|
| LexOrder.SortedSetCanonical | scripts/release_artifact_contract.py:336 | the canonical form is idempotent and equal for two sequences exactly when they hold the same set |
| LexOrder.SortOnOrderFree | scripts/release_backup_policy.py:37 | sorting records with distinct keys forgets the order of enumeration |
| LexOrder.LessExactly | scripts/release_artifact_contract.py:336 | a text sorts before another if it is a proper prefix of it or holds the smaller code point where they first differ |
| Framing.EntryLayout | scripts/release_backup_policy.py:71-74 | for each file eight bytes of length, most significant first, the name, eight bytes of length, and the content |
| Framing.DecodeStream | scripts/release_backup_policy.py:68-74 | an independent reader recovers the exact list of (name, content) pairs from the length-framed stream, for all lengths below 2^64 |
| Framing.StreamInjective | scripts/release_backup_policy.py:68-74 | different lists of files never feed the hash the same bytes |
| Utf8.EncodeInjective | scripts/release_backup_policy.py:69 | different file names have different encodings |
| Utf8.EncodeCharExactly | scripts/release_backup_policy.py:69 | each character is encoded by its row of the table in section 3 of RFC 3629 |
| Utf8.EncodeConcat | scripts/release_backup_policy.py:69 | a text is encoded character by character, from left to right |
| MigrationGraph.HeadOrCycleAbove | scripts/release_backup_policy.py:66-96 | in any tree every revision is an ancestor-or-self of a head or of a revision on a cycle |
| MigrationGraph.HeadsCoverAcyclic | scripts/release_backup_policy.py:91-96 | in an acyclic tree the computed heads cover every revision |
| MigrationGraph.HeadsCoverExactly | scripts/release_backup_policy.py:91-96 | in any tree: the computed heads cover every revision exactly under that same condition |
| MigrationGraph.NoHeadsMeansCycle | scripts/release_backup_policy.py:91-93 | the "no heads" rejection of a non-empty tree needs a cycle, and then every revision is at or below one |
| MigrationGraph.NoPendingWorkIffAllHeadsStamped | scripts/release_artifact_contract.py:435-436 | in a tree whose cycles all hang below heads, a database has nothing left to migrate exactly when it is stamped with every head |
| MigrationGraph.NoPendingWorkIffAtHeads | scripts/release_artifact_contract.py:435-436 | in such a tree, for a database without superseded stamps, being at the heads is necessary and sufficient for having no work left |
| MigrationGraph.NoPendingWorkAtHeadsExactly | scripts/release_backup_policy.py:91-96 | in any tree: a database at the heads has no work left exactly when every revision on a cycle hangs below a head |
| MigrationGraph.HeadsMayMissACycle | scripts/release_backup_policy.py:91-96 | a tree with one head in which a database stamped with that head still has a revision pending |
| MigrationTree.DescribeMigrationTree | scripts/release_backup_policy.py:60-96 | the loop, in the source's order of checks, computes the specified description, whose heads are exactly the revisions that some file names as its own and none as a parent |
| MigrationTree.FirstAssignmentDecides | scripts/release_backup_policy.py:43-57 | the first statement assigning a name decides its declaration |
| MigrationTree.RevisionExactly | scripts/release_backup_policy.py:76-78 | a file's revision is the non-empty text that its first assignment of `revision` holds |
| MigrationTree.ParentsExactly | scripts/release_backup_policy.py:82-90 | a file's parents are the one text, or all items of the tuple or list, of its first assignment of `down_revision`; None names no parent, and anything else, an empty text included, is refused |
| MigrationTree.FileLayout | scripts/release_backup_policy.py:69-74 | a file adds to the stream its encoded name and its bytes, each behind its length |
| MigrationTree.ScanMeaning | scripts/release_backup_policy.py:66-90 | the scan accepts exactly readable files with distinct revision ids, and then holds the stream, the revisions and the parents of the declared graph |
| MigrationTree.ScanPrefixFails | scripts/release_backup_policy.py:68-90 | the first bad file in sorted order decides the error |
| MigrationTree.DescribeMeaning | scripts/release_backup_policy.py:60-96 | when a directory is described, and that the description names exactly the declared graph's heads and the digest of its stream |
| MigrationTree.DescribedHeads | scripts/release_backup_policy.py:60-96 | a revision is a described head exactly if some file's literal is it and no file's literal names it as a parent |
| MigrationTree.DirectoryOrderIrrelevant | scripts/release_backup_policy.py:36-40 | the order in which the directory lists its files does not matter |
| MigrationTree.SameStreamSameFiles | scripts/release_backup_policy.py:68-74 | two described directories with the same stream hold the same files and declare the same graph |
| ReleaseContract.MakeHeads | scripts/release_artifact_contract.py:327-345 | heads are accepted exactly when non-empty with valid identifiers, and keep the set of revisions |
| ReleaseContract.HeadsCanonical | scripts/release_artifact_contract.py:321-345 | heads are equal exactly when their revision sets are, and building is idempotent |
| ReleaseContract.PatternsExactly | scripts/release_artifact_contract.py:14-16 | commit ids, digests and revision ids, character by character |
| ReleaseContract.SkipExactly | scripts/release_artifact_contract.py:407-447 | a production backup is skipped exactly for a hotfix with equal graph digests and equal head sets of both images and the database; every issue is raised for its own reason |
| ReleaseContract.ApprovedExactly | scripts/release_artifact_contract.py:241-289 | what a production approval establishes, in both directions |
| ReleaseContract.BlockersExactly | scripts/release_artifact_contract.py:241-289 | a refusal lists exactly the blockers whose own condition holds, each once |
| BackupPolicy.ImageStateRoundTrip | scripts/release_backup_policy.py:119-129 | a described image state is read back unchanged |
| BackupPolicy.ImageStateExactly | scripts/release_backup_policy.py:119-129 | which image documents are accepted, and that digest and heads are the stated ones |
| BackupPolicy.WrittenDecisionIsAccepted | scripts/release_backup_policy.py:142-202 | a written decision is always accepted on reading, as the decision it was written for |
| BackupPolicy.WrittenDecisionStates | scripts/release_backup_policy.py:225-276 | a decision is written exactly for a well-formed request; its mode text is skip exactly if digests and head sets agree, each issue text stands exactly for its own inequality, and its evidence fields are the given ones |
| BackupPolicy.AcceptedExactly | scripts/release_backup_policy.py:142-202 | a document is accepted exactly if its fields are well formed and its mode and issue texts are what its own digests and head lists call for |
| BackupPolicy.EvidenceFixesVerdict | scripts/release_backup_policy.py:195-202 | two accepted documents with the same evidence carry the same mode and issues |
| BackupPolicy.TamperedVerdictIsRejected | scripts/release_backup_policy.py:195-202 | changing mode, issues or both of an accepted document gets it rejected |
| BackupPolicy.ModeTellsPendingWork | scripts/release_artifact_contract.py:426-447 | for any candidate tree, skip means no pending work exactly if every cycle hangs below a head; then, with an ordinary stamp, the database issue is raised exactly when work is pending |
| BackupPolicy.SkipMeansNoPendingWork | scripts/release_backup_policy.py:142-202 | an accepted skip decision about an image leaves the listed database heads nothing to migrate in that image's tree, exactly if every cycle of it hangs below a head |
| BackupPolicy.SkippedBackupEndToEnd | scripts/release_backup_policy.py:225-276 | from any two described directories through writing and reading: skip means no pending work exactly if every cycle of the candidate hangs below a head, and identical files unless the hash collides |
| BackupPolicy.SameDigestSameFiles | scripts/release_backup_policy.py:94 | without a collision of the two streams, equal digests mean equal files and graphs |
| NewMigration.AllocatedPathIsFresh | scripts/new_migration.py:87-95 | the number is beyond every file's, so the path never exists and the overwrite refusal never triggers |
| NewMigration.SlugExactly | scripts/new_migration.py:36 | a slug is accepted exactly if its parts between underscores are non-empty words of small letters and digits |
| NewMigration.AllocateExactly | scripts/new_migration.py:75-127 | what the command does with any directory and slug: its three refusals in order, or a file named by the next number and the slug, made from that id and the one head |
| NewMigration.AllocationStep | scripts/new_migration.py:112-127 | one allocation keeps the directory loadable, acyclic and single-headed exactly when its id is declared nowhere yet |
| NewMigration.FreshRevision | scripts/new_migration.py:114 | ids bounded by the greatest file number make the new id fresh |
| NewMigration.SerialAllocations | scripts/new_migration.py:112-127 | any number of serial allocations succeeds and leaves the directory loadable and single-headed |
| NewMigration.AllocationsLoadableIffIdsFresh | scripts/new_migration.py:112-127 | without that bound, a run of allocations succeeds and leaves a loadable single-headed directory exactly if none of the ids it will form is declared in the directory it starts from |
| NewMigration.ClashIsReachable | scripts/new_migration.py:112-127 | a loadable single-headed directory in which the very next id is already declared |
| NewMigration.ReadyDirectoryIsDescribed | scripts/release_backup_policy.py:91-96 | the fingerprinting script accepts such a directory and finds the one head |
| NewMigration.ParallelAllocationsFork | scripts/new_migration.py:75-84 | two allocations from the same head leave exactly two heads, after which every allocation is refused |
| BeatScheduler.StepKeepsSound | app/celery_scheduler.py:93-131 | every step keeps live and remembered keys disjoint and the heap equal to the live entries' events |
| BeatScheduler.RefreshTiming | app/celery_scheduler.py:78-98 | a refresh acts exactly when both one second and the interval have passed since the last; then it moves the timer and a non-empty successful build becomes the live schedule |
| BeatScheduler.RefreshWithoutNews | app/celery_scheduler.py:81-92 | failed, empty and unchanged builds change nothing but the timer |
| BeatScheduler.LiveIsLastBuild | app/celery_scheduler.py:73-98 | after any run the live specs are exactly those of the last non-empty successful build |
| BeatScheduler.FiringIsCurrent | app/celery_scheduler.py:93-98 | in any run no removed key and no stale spec ever fires |
| BeatScheduler.CadenceIsConserved | app/celery_scheduler.py:58-64 | over any run each key's run count is its number of firings and its last run that of its last firing or first creation, however often it vanished and returned |
| BeatScheduler.KnownKeysAreEverBuilt | app/celery_scheduler.py:108-123 | live and remembered keys are disjoint and together exactly the keys ever built |
| BeatScheduler.AttemptedExactly | app/celery_scheduler.py:78-84 | a run attempts a build at a step exactly when both bounds have passed |
| BeatScheduler.AttemptsSpread | app/celery_scheduler.py:78-84 | consecutive build attempts lie at least max(refresh_seconds, 1) apart |
| BeatScheduler.AttemptRate | app/celery_scheduler.py:78-84 | build attempts in a window of length T number at most floor(T/max(refresh_seconds, 1))+1 |
| BeatScheduler.FirstRefreshMayBeSkipped | app/celery_scheduler.py:59 | the first refresh loads nothing exactly while the clock is below one second or below the interval |
| BeatObjects.DbScheduler.MergeSchedule | app/celery_scheduler.py:100-131 | returns true exactly when the key-to-spec view changed; false leaves every entry the same object with the same fields |
| BeatObjects.DbScheduler.RefreshSchedule | app/celery_scheduler.py:73-98 | acts exactly when one second and the interval have passed, as the abstract refresh step does; entries that stay keep their identity |
| BeatObjects.DbScheduler.ReconcileKey | app/celery_scheduler.py:116-130 | creates, revives, updates in place or leaves alone one key |
| BeatObjects.DbScheduler.Retire | app/celery_scheduler.py:108-114 | drops a vanished key and remembers its run state |
| BeatObjects.DbScheduler.FireEvent | app/celery_scheduler.py:69-71 | the library's firing replaces entry and event by the same successor object |
| BeatObjects.DbScheduler.Tick | app/celery_scheduler.py:69-71 | refresh followed by the library's steps, as the abstract machine takes them |
| SchemaOps.InspectorFailure | app/migration_schema_ops.py:142-205 | with a failing inspector, creates and adds delegate while drops skip, save an index dropped without its table |
| SchemaOps.GuardedExactly | app/migration_schema_ops.py:142-205 | with a working inspector a create of what is there and a drop of what is not change nothing and never raise; everything else is done as without a guard |
| SchemaOps.CreatedTable | app/migration_schema_ops.py:152-155 | a completed create leaves the given layout, or the table that was there and everything else untouched |
| SchemaOps.AddedColumn | app/migration_schema_ops.py:142-145 | a completed add leaves the column with the given definition and the rest of the table as it was, or everything untouched |
| SchemaOps.CreatedIndex | app/migration_schema_ops.py:162-165 | a completed create leaves the table with a listed index of that name: the one it had, untouched, or its own on the given columns |
| SchemaOps.AddedConstraint | app/migration_schema_ops.py:176-205 | a completed add leaves the table with the named constraint: the one it had, untouched, or the given one |
| SchemaOps.DroppedIndex | app/migration_schema_ops.py:167-174 | a completed drop that could inspect, or names no table, leaves no such index |
| SchemaOps.OtherTablesUntouched | app/migration_schema_ops.py:142-205 | an operation on one table leaves every other table as it was, save an index drop |
| SchemaOps.GuardReadsOwnSchema | app/migration_schema_ops.py:121-125 | a guard's answer depends only on the schema its operation names |
| SchemaOps.NonInterference | app/migration_schema_ops.py:18-27 | the operations aimed at a schema, run on it alone, end where the completed chain left that schema, or raise exactly if one that was executed created a foreign key out of it |
| SchemaOps.ChainDecides | app/migration_schema_ops.py:142-160 | after a completed chain a table is where the chain says or else where it was, and a column the chain has a say on is where the chain says |
| SchemaOps.ChainDecidesIndexes | app/migration_schema_ops.py:142-174 | after a completed chain every listed index the chain has a say on is where the chain says |
| SchemaOps.ChainDecidesConstraints | app/migration_schema_ops.py:142-205 | after a completed chain every named constraint the chain has a say on is where the chain says |
| SchemaOps.Convergence | app/migration_schema_ops.py:142-160 | two databases in which the same chain completes agree on a table exactly if the chain has a say on it or they agreed before, and agree on every column it has a say on |
| SchemaOps.AgreementPersists | app/migration_schema_ops.py:142-160 | two databases that agree on a table and a column still agree on both after the same completed chain |
| SchemaOps.UninspectableDropDiverges | app/migration_schema_ops.py:157-160 | a drop decides the table with a working inspector and says nothing without one: the chain completes with the table in place |
| SchemaOps.AdditiveReplay | app/migration_schema_ops.py:142-205 | a purely additive chain of named objects, replayed on its own result, raises nowhere and changes nothing, however its first run was inspected |
| SchemaOps.ReplayableIffNamed | app/migration_schema_ops.py:142-205 | a completed chain without drops can be replayed on its own result without effect exactly if all its additions are named |
| SchemaWrappers.Operations.SafeAddColumn | app/migration_schema_ops.py:142-145 | adds the column unless the table is seen to have it |
| SchemaWrappers.Operations.SafeDropColumn | app/migration_schema_ops.py:147-150 | drops the column only if the table is seen to have it |
| SchemaWrappers.Operations.SafeCreateTable | app/migration_schema_ops.py:152-155 | creates the table unless its name is seen as a table |
| SchemaWrappers.Operations.SafeDropTable | app/migration_schema_ops.py:157-160 | drops the table only if it is seen |
| SchemaWrappers.Operations.SafeCreateIndex | app/migration_schema_ops.py:162-165 | creates the index unless the table is seen to own one of that name, unique constraints included |
| SchemaWrappers.Operations.SafeDropIndex | app/migration_schema_ops.py:167-174 | drops the index only if the named table is seen to own it; without a table name it never looks and never skips |
| SchemaWrappers.Operations.SafeCreateUniqueConstraint | app/migration_schema_ops.py:176-183 | adds the constraint unless the table is seen to have one of that name; without a name always |
| SchemaWrappers.Operations.SafeCreateCheckConstraint | app/migration_schema_ops.py:185-192 | as for unique constraints, for a check |
| SchemaWrappers.Operations.SafeCreateForeignKey | app/migration_schema_ops.py:194-205 | looks for the name on the source table in the source schema only, whatever schema is referred to |
| SchemaWrappers.Operations.Migrate | app/migration_schema_ops.py:207-215 | a chain of wrapper calls completes exactly when its specification does, in the specified database; a call that raises leaves the state of the calls before it |
| ClassOrder.ComputeMro | scripts/audit_read_constraints.py:85-93 | the recursion over a shared mutable set terminates on every class table and computes the specified walk |
| ClassOrder.MroIsReachableClasses | scripts/audit_read_constraints.py:85-93 | the walk lists each known class reachable from the start exactly once, the start first, cycles included |
| ClassOrder.MroIsReachableUnseen | scripts/audit_read_constraints.py:85-93 | a walk with classes already seen lists exactly what it reaches without entering them |
| ClassOrder.EarlierBaseFirst | scripts/audit_read_constraints.py:85-93 | what is reached through an earlier base comes before what only later bases reach |
| ReadConstraints.EffectiveFields | scripts/audit_read_constraints.py:96-102 | the dict maps exactly the effective fields to their first definer |
| ReadConstraints.EffectiveFieldMeaning | scripts/audit_read_constraints.py:96-102 | a field is effective exactly if some reachable class declares it, comes from one, and is the class's own if it declares it |
| ReadConstraints.EffectiveIsFirst | scripts/audit_read_constraints.py:96-102 | the effective field is that of the first class of the walk that declares it |
| ReadConstraints.Audit | scripts/audit_read_constraints.py:121-173 | every finding is filed once, in the list of its kind, nothing else is, and the exit code says whether a Decimal finding exists |
| ReadConstraints.ReportedExactly | scripts/audit_read_constraints.py:121-156 | the three lists hold exactly the inherited ge and gt bounds of classes ending in Read, by Decimal annotation and money hint |
| ReadConstraints.RedeclaredIsNeverReported | scripts/audit_read_constraints.py:128-136 | a field redeclared in the read model is never reported; what is reported is inherited from a reachable proper ancestor |
| ActorCalls.EachCallOnce | scripts/audit_actor_provenance_report.py:120-169 | the recorded list is in bijection with the positions of the tree that hold a call of either facade, in source order, each entry with the facade and kind of its position and the definitions around it |
| ActorCalls.RecordedScopes | scripts/audit_actor_provenance_report.py:153 | a recorded scope splits at its dots into the names of the definitions around the call, outermost first; two calls share a scope exactly if these are the same |
| ActorCalls.Visitor.Visit | scripts/audit_actor_provenance_report.py:129-169 | visiting appends the tree's calls in order, numbered per scope and facade, and restores the scope stack |
| ActorCalls.Visitor.VisitCall | scripts/audit_actor_provenance_report.py:150-168 | one call gets the next ordinal of its scope and facade |
| ActorCalls.OrdinalsAreGapless | scripts/audit_actor_provenance_report.py:154-156 | the ordinals of each scope and facade are exactly 1..n |
| ActorCalls.NumbersAreUnique | scripts/audit_actor_provenance_report.py:154-156 | later calls of the same scope and facade get greater ordinals |
| ActorCalls.StableIdInjective | scripts/audit_actor_provenance_report.py:37-39 | a stable id determines path, scope, facade and ordinal, whatever characters the path holds |
| ActorCalls.StableIdParts | scripts/audit_actor_provenance_report.py:37-39 | read at its bars, an id ends in scope, facade and ordinal behind the path |
| ActorCalls.AllIdsDistinct | scripts/audit_actor_provenance_report.py:172-189 | all stable ids over files with distinct paths differ |
| ActorCalls.CollectCalls | scripts/audit_actor_provenance_report.py:172-189 | the collection is the sorted list of all sites of the files that parse |
| ActorCalls.CollectedIsCall | scripts/audit_actor_provenance_report.py:172-189 | every collected site is a facade call of one of the files, with its path, facade, kind and definition path |
| ActorCalls.CallIsCollected | scripts/audit_actor_provenance_report.py:172-189 | every facade call of every parsed file is collected |
| ActorCalls.ReportIsExact | scripts/audit_actor_provenance_report.py:46-64 | the report is strictly increasing in stable ids and its total, typed and legacy counts are those of the trees |
| ActorCalls.KindsExactly | scripts/audit_actor_provenance_report.py:46-64 | the typed and the legacy list hold exactly the sites of their kind, in order |
| CandidateEvidence.WriteThenRead | scripts/release_candidate_evidence.py:233-328 | exactly approved candidates can be written, and reading gives the identical candidate back |
| CandidateEvidence.ReadThenWrite | scripts/release_candidate_evidence.py:266-328 | an accepted document states an approved candidate whose writing is the identical document |
| CandidateEvidence.DocumentsAreFaithful | scripts/release_candidate_evidence.py:233-328 | accepted documents and approved candidates are in bijection |
| ReleaseGate.FindLatest | scripts/verify_github_release.py:239-255 | the filter and the maximum find a matching run that no matching run is later than |
| ReleaseGate.EvaluateReleaseGate | scripts/verify_github_release.py:232-263 | every required workflow is decided from its latest matching run |
| ReleaseGate.OutcomeExactly | scripts/verify_github_release.py:232-263 | every required workflow is answered from the run of greatest number, attempt and id among its push runs for this revision and branch, approved exactly if completed with success, with the evidence text of its status |
| ReleaseGate.NewestIsUnique | scripts/verify_github_release.py:239-255 | with distinct run ids only one run is the newest, so the answer is determined |
| ReleaseGate.ApprovedIffLatestGreen | scripts/verify_github_release.py:110-112 | the gate approves exactly when the greatest matching run of every required workflow is green |
| ReleaseGate.OutcomeIsStable | scripts/verify_github_release.py:238-263 | the outcome is invariant under reordering and under adding non-matching or older runs |
| Identity.PhoneShape | alembic/versions/109_add_customer_identity_index.py:33-52 | every normalised number is a plus sign followed by digits |
| Identity.PhoneExactly | alembic/versions/109_add_customer_identity_index.py:33-52 | the number from the characters of the input: blanks and one channel prefix off, all digits kept in order, exit code and trunk zero replaced |
| Identity.PhoneIsFixpointExactly | alembic/versions/109_add_customer_identity_index.py:33-52 | for every value, normalising again changes nothing unless the text holds exactly two digits, both zero, and no leading plus sign |
| Identity.TwoZerosGiveBarePlus | alembic/versions/109_add_customer_identity_index.py:46-47 | `00` normalises to a bare plus sign, and that to nothing |
| Identity.SpellingsAgree | alembic/versions/109_add_customer_identity_index.py:44-52 | the country-code, exit-code and plus spellings of a number agree always, the trunk spelling exactly from nine digits on |
| Identity.ChannelPrefixIgnored | alembic/versions/109_add_customer_identity_index.py:37-39 | one whatsapp prefix in any letter case is ignored before every text, blanks and separators included, that carries no prefix itself |
| Identity.EmailIsFixpoint | alembic/versions/109_add_customer_identity_index.py:28-30 | normalising an address twice is normalising it once |
| Identity.EmailExactly | alembic/versions/109_add_customer_identity_index.py:28-30 | the address without the blanks around it, in small letters |
| IdentityIndex.GroupBy | alembic/versions/109_add_customer_identity_index.py:116-129 | rows are grouped by owner in table order |
| IdentityIndex.OwnedExactly | alembic/versions/109_add_customer_identity_index.py:116-129 | an owner's group is exactly its rows, in table order |
| IdentityIndex.Builder.AppendRow | alembic/versions/109_add_customer_identity_index.py:135-170 | empty values and seen keys are skipped, the first row of every key is kept |
| IdentityIndex.DedupedExactly | alembic/versions/109_add_customer_identity_index.py:135-170 | a row is kept exactly if no earlier one has its key, and the kept rows stay in order |
| IdentityIndex.BuildIndex | alembic/versions/109_add_customer_identity_index.py:113-228 | the nested loops build the deduplicated list of everything the sources offer |
| IdentityIndex.IndexIsExact | alembic/versions/109_add_customer_identity_index.py:172-228 | with unique ids and no orphans the index holds exactly one row per source with a value |
| IdentityIndex.RowsExactly | alembic/versions/109_add_customer_identity_index.py:172-228 | type, value, owner, source and field of every row are those of a source field that normalises to something, and each such field has its row |
| IdentityIndex.EveryLookupAgrees | alembic/versions/109_add_customer_identity_index.py:113-228 | a lookup in the index agrees with a full scan of the three tables |
| IdentityIndex.StandardNeverEmpty | alembic/versions/109_add_customer_identity_index.py:28-52 | the migration's own normalisers never yield an empty value |
| IdentityIndex.StandardKindExactly | alembic/versions/109_add_customer_identity_index.py:214 | channel kinds are compared without blanks and in small letters |
| OntConfig.MergedSetting | alembic/versions/084_backfill_ont_desired_config_from_assignments.py:80-94 | an existing setting survives and a missing one is taken from the assignment |
| OntConfig.SectionStaysObjectIff | alembic/versions/084_backfill_ont_desired_config_from_assignments.py:85-91 | a section stays an object exactly if it was absent or an object |
| OntConfig.ActiveChoiceExists | alembic/versions/084_backfill_ont_desired_config_from_assignments.py:22-28 | every table has a selection of one first-ranked active assignment per unit |
| OntConfig.ChosenIsLatest | alembic/versions/084_backfill_ont_desired_config_from_assignments.py:22-28 | no active assignment of the unit was updated later than the chosen one, or at the same time and created later; missing dates come last |
| OntConfig.LanAddressSources | alembic/versions/084_backfill_ont_desired_config_from_assignments.py:59-67 | the address, subnet and DHCP switch read their own columns |
| OntConfig.LanRangeSources | alembic/versions/084_backfill_ont_desired_config_from_assignments.py:59-67 | the DHCP range reads its own columns |
| OntConfig.WanSources | alembic/versions/084_backfill_ont_desired_config_from_assignments.py:33-50 | every WAN key reads its own column |
| OntConfig.ManagementSources | alembic/versions/084_backfill_ont_desired_config_from_assignments.py:51-58 | every management key reads its own column |
| OntConfig.WifiSources | alembic/versions/084_backfill_ont_desired_config_from_assignments.py:68-76 | every WiFi key reads its own column |
| OntConfig.ModeExactly | alembic/versions/084_backfill_ont_desired_config_from_assignments.py:36-42 | the WAN mode comes from credentials, then a static address, then bridging, then the stored IP mode |
| OntConfig.TrimmedExactly | alembic/versions/084_backfill_ont_desired_config_from_assignments.py:43-48 | a text column counts if it holds anything but blanks, and is taken without those around it |
| OntConfig.PlainExactly | alembic/versions/084_backfill_ont_desired_config_from_assignments.py:35-70 | enumeration and boolean columns are taken as they are, and NULL gives no key |
| OntConfig.BackfillPrecedence | alembic/versions/084_backfill_ont_desired_config_from_assignments.py:22-100 | settings of a unit with an active assignment are filled up from it; other units stay as they were |
| OntConfig.BackfillTwice | alembic/versions/084_backfill_ont_desired_config_from_assignments.py:18-152 | running 084 again changes nothing, whichever assignment it chooses |
| OntConfig.ClearedExactly | alembic/versions/084_backfill_ont_desired_config_from_assignments.py:102-152 | 084 empties the copied columns of every assignment and changes nothing else of it |
| OntConfig.LegacyPrecedence | alembic/versions/085_drop_ont_unit_legacy_lan_wifi_fields.py:33-59 | 085 fills LAN settings up from the legacy columns and touches no other section |
| OntConfig.WithoutGatewayNothingIsBackfilled | alembic/versions/085_drop_ont_unit_legacy_lan_wifi_fields.py:33-70 | without the gateway column nothing is backfilled, yet the legacy columns are dropped |
| OntConfig.DroppedExactly | alembic/versions/085_drop_ont_unit_legacy_lan_wifi_fields.py:29-70 | 085 drops the seven legacy columns with their values, and raises exactly if the gateway column is there and another source column is not |
| OntConfig.PrecedenceExactly | alembic/versions/085_drop_ont_unit_legacy_lan_wifi_fields.py:29-70 | 085 completes with the layered value for every unit and key exactly if all source columns exist, or the gateway column is missing and no unit holds a legacy value its configuration lacks |
| OntConfig.LegacyValueGetsLost | alembic/versions/085_drop_ont_unit_legacy_lan_wifi_fields.py:29-70 | a table without the gateway column whose one legacy subnet disappears with its column |
| OntConfig.LayeredPrecedence | alembic/versions/085_drop_ont_unit_legacy_lan_wifi_fields.py:29-70 | after both, each LAN setting comes from the first source that has it and no existing setting of the four sections changed |
| OntConfig.OtherKeysUntouched | alembic/versions/085_drop_ont_unit_legacy_lan_wifi_fields.py:29-70 | no top-level key outside the four sections is touched, and 085 leaves a unit without legacy LAN values as it was |
| OntConfig.Migration.Upgrade084 | alembic/versions/084_backfill_ont_desired_config_from_assignments.py:18-152 | the fill-up and then the clearing of every assignment |
| OntConfig.Migration.Upgrade085 | alembic/versions/085_drop_ont_unit_legacy_lan_wifi_fields.py:29-70 | the conditional update and then the loop over the dropped columns |

## Left out

- DescribeMigrationTree: file reads and their errors are not modelled; SHA-256 and Python's parser are arbitrary functions of the bytes, and a directory is a list of distinct names.
- NewMigration.LeadingNumber: only ASCII digits count as digits in file names; Python's `\d` accepts other decimal digits.
- NewMigration.Allocate: heads are those of the declared graph; Alembic's own loading errors for dangling or cyclic graphs are hypotheses (`IsLoadable`), and the docstring and date of the written file are part of an arbitrary template.
- BeatObjects.DbScheduler.Tick: which event is due and when is the library's choice; the heap is indexed by entry name and its order in time is not modelled.
- BeatObjects.DbScheduler.MergeSchedule: exceptions raised by the entry constructor halfway through a merge are not modelled.
- SchemaModel.Original: the DDL semantics cover names, columns, references and the shared relation namespace of one default search-path schema; types, generated names, primary keys and privileges are not modelled.
- ReadConstraints.Audit: the money-name pattern is a parameter, rows are compared as sets without their order, and reading and parsing the schema files is an input.
- ActorCalls.CollectCalls: a file that does not parse is an input without a tree; the SHA-256 over the legacy ids and the three comparisons with the stored baseline (`scripts/audit_actor_provenance_report.py:210-214`) are not modelled, because they hash and compare the list and the counts that `ReportIsExact` fixes.
- CandidateEvidence.ReadAuthorization: the candidate and staging documents (`scripts/release_candidate_evidence.py:101-211`) are not modelled, because each of their fields is written and read back one for one through the readers modelled here and no verdict is recomputed from them; the command line around them is not modelled either.
- ReleaseGate.EvaluateReleaseGate: the HTTP request and the parsing of its response are not modelled.
- Identity.NormalizePhone: only ASCII digits and ASCII letter case are recognised; other decimal digits and Unicode case folding are not modelled.
- OntConfig.BackfillPrecedence: nothing is claimed for inactive assignments, whose columns 084 clears without a backfill; a configuration is assumed to be an object at the top level.
- OntConfig.LegacyPrecedence: the legacy WiFi columns are dropped by 085 without any backfill, so nothing is claimed for them.
- JSON text, command-line parsing, printing, logging and network access are outside the model throughout.
