# BiddingFlow: verified core

BiddingFlow manages public procurement packages. This project models the parts of it whose correctness spans
whole runs, histories or unbounded inputs, and proves the facts that the code itself checks only step by step.

| files | part of the system |
|---|---|
| `LotPolicy`, `LotService`, `LotStore` | lot-scoped processing of a package: the batch policy, the commands on the tables, and the same commands statement by statement |
| `LotInvariant`, `LotRuns`, `LotLedger`, `LotTermination`, `LotLiveness`, `LotExamples` | what holds in every state of every run of those commands, and concrete runs |
| `LotColumns` | what each accepted command writes and answers, column by column |
| `AssetCompat`, `AssetStore`, `AssetColumns`, `AssetPrepared`, `AssetHistory`, `AssetExamples` | keeping the previous release's frontend assets in a staged release: the procedure, what its validators accept field by field, what any successful one leaves, deploy and rollback histories, and concrete releases |
| `BackupRestore`, `BackupSnapshot`, `BackupColumns`, `BackupCycle` | the multi-directory restore with compensation, the snapshot round trip, what verification accepts name by name, and restore and snapshot joined |
| `TombstonePurge` | retention of sync tombstones against incremental readers |
| `RawSnapshots`, `RawReading`, `RawLoader`, `RawRoundTrip`, `RawExamples` | the deduplicated store of raw procurement responses, how a response is read, the plan loader, saving what was loaded, and a concrete history |
| `RawOrder`, `RawSearch`, `RawColumns` | the order of revisions on their text, which list and which fields of a response are read, and what is stored and loaded column by column |
| `ModuleGrammar`, `ModuleForms`, `ModuleEnds`, `ModuleScanner`, `ModuleGraph` | what the static import scanner recognises, the same written out on characters and single tokens, where its units end, the scanner itself, and the two preload worklists |
| `AsgiFilters`, `AsgiColumns` | response framing and the request body limit, and both message by message |
| `Wrappers`, `Collections` | shared result types, sizes of sets and sequences without repeats |

Conventions of the model:

- SHA-256 is injective, so a digest is represented by what it digests. JSON is represented by its decoded value,
  and the file system by a map from path to content.
- One package of one organization is modelled. A detail row is kept with the batch it references, which the schema's
  unique constraint on batch and lot allows. The package row lock serialises commands, so a run is a sequence of
  committed transactions; a refused command rolls back.
- Commands carry text that is already stripped; the empty string is a blank value. All `LotLifecycleInputError`
  messages are one error value.
- Session, authorization and mutability checks are one boolean guard. Generated record ids, clocks and the existing
  contractors are inputs.
- In `BackupRestore` every fallible operation asks an arbitrary oracle whether it raises, so each statement covers a
  failure at any point. Rollback and the removal of stages do not fail.
- In the raw loader the ordered query result is a parameter constrained by its `ORDER BY`, with ties in any order; the
  lot tables compute their ordered join themselves.

Where the code does less than its wording suggests:

- Resubmitting an accepted result for a closed batch changes no award, but it does overwrite the package's decision
  number and date and raises the version counters (`LotInvariant.ResubmissionKeepsAwards`); a repeated older result
  sets the decision back (`LotExamples.OlderResultAccepted`). It is accepted exactly when it repeats the stored
  artifact, package status included, so a complete package refuses to repeat a result that was stored while it was
  partial (`LotLedger.ResubmissionAcceptedIff`, `LotLedger.CompletionRefusesPartial`).
- The package total also counts what lots without an official result already carried when the first batch was
  created. It is the sum of the artifacts exactly when none of these lots carried a price
  (`LotLedger.TotalIsArtifacts`; `LotExamples.PricedLotIsCounted` is a run in which the two differ).
- A prepared release can be prepared again exactly when its package holds no unhashed file directly below
  `dist/assets`, what it retained agrees with what its package records, and the other release is usable
  (`AssetPrepared.PreparableAgain`, and for the same pair `AssetPrepared.PrepareTwice`). Otherwise it is refused
  for ever, and either condition can fail. An unhashed file is deleted by the first preparation
  (`AssetExamples.LooseExamplePreparedOnce`). A packaged hashed file outside the graph is deleted too, and a later
  preparation may retain another content under its name (`AssetExamples.StaleExamplePreparedTwice`). This repository's
  packager accepts no tree with an unhashed file (`AssetHistory.PackagedHasNoLoose`), and with consistent content
  addressing its packages are good releases (`AssetHistory.PackagedIsGood`).
- The backup re-check compares file maps only, so a directory that was missing when it was copied and is empty at the
  re-check still passes. Presence survives exactly when the directory did not come or go in between
  (`BackupSnapshot.PresenceIsKept`).
- `create` renames the snapshot into place before it verifies it. A file name the manifest's path check refuses makes
  the command report failure while the snapshot stays (`BackupSnapshot.ColonNameIsCommittedButRefused`). Success is
  reported exactly when nothing changed, pruning worked, all paths are safe and the files are few enough, and then
  every root that was present can be staged (`BackupSnapshot.Create`, `BackupSnapshot.VerifiedIsStageable`).
- A revision stored without an id is loaded under an empty one, so saving it again inserts new rows
  (`RawExamples.AnonymousRevisionInserts`). When the rows of each revision agree on their id, nothing is inserted
  exactly when every revision has one (`RawRoundTrip.ReSaveInsertsNothingIffIdentified`).
- The source worklist reads only the first 512 entry keys, even when they repeat, so completeness is stated for those.

## Model

| member | source | states |
|---|---|---|
| LotPolicy.AssessScope | backend/lot_selection_lifecycle.py:144-221 | the reported blockers are exactly the specified ones, and there are none exactly when the declarative policy allows the scope |
| LotPolicy.SplitBlockersExact | backend/lot_selection_lifecycle.py:196-219 | the group blockers are the blockers of exactly the must-move-together groups the scope splits, with their code, lots and group |
| LotPolicy.BlockerMeaning | backend/lot_selection_lifecycle.py:150-219 | for every possible blocker, exactly when it is reported: which code goes with which lots and which group |
| LotPolicy.BlockersDecideScope | backend/lot_selection_lifecycle.py:150-221 | no blocker if and only if the scope is non-empty, known, unclaimed by others, unfinished and splits no group |
| LotPolicy.StatusMeaning | backend/lot_selection_lifecycle.py:254-271 | what COMPLETED, PARTIALLY_COMPLETED and NOT_STARTED say about the individual lots |
| LotInvariant.LatestIsOnly | backend/lot_lifecycle_service.py:72-103 | the latest detail of a lot is the only detail it ever had |
| LotInvariant.MaxIsLength | backend/lot_lifecycle_service.py:245-251 | the next sequence number is the number of batches plus one |
| LotInvariant.ProgressMeaning | backend/lot_lifecycle_service.py:88-103 | stage, active batch and completion of a lot as decided by the one batch that holds it |
| LotInvariant.NewBatchJoins | backend/lot_lifecycle_service.py:240-298 | an allowed batch takes only unclaimed lots and whole dependency groups |
| LotInvariant.CreateKeepsInvariant | backend/lot_lifecycle_service.py:219-309 | creating a batch keeps the whole invariant |
| LotInvariant.PublicationAllowed | backend/lot_lifecycle_service.py:356-363 | the publication re-check of an active batch always passes |
| LotInvariant.CloseKeepsStructure | backend/lot_lifecycle_service.py:374-396 | closing a batch approves exactly its lots and keeps the structure |
| LotInvariant.AwardKeepsInvariant | backend/lot_lifecycle_service.py:439-680 | an accepted award keeps structure, ledger, package summary and closes the batch it names |
| LotInvariant.ResubmissionKeepsAwards | backend/lot_lifecycle_service.py:333-334 | an accepted resubmission for a closed batch changes nothing but the decision reference and the version counters |
| LotInvariant.StepKeepsInvariant | backend/lot_lifecycle_routes.py:387-519 | create, finalize, replay, purge and outside edits all keep the invariant |
| LotInvariant.RunKeepsInvariant | backend/lot_lifecycle_service.py:219-707 | every state of every run from a fresh package satisfies the invariant |
| LotRuns.LinkedLotsMoveTogether | backend/lot_selection_lifecycle.py:196-219 | in every reachable state lots linked by any chain of overlapping groups are all unclaimed or all in one batch, and approved together |
| LotRuns.LinkedLotsApprovedTogether | backend/lot_lifecycle_service.py:374-389 | linked lots become approved in the same step |
| LotRuns.LotsClaimedOnce | backend/lot_lifecycle_service.py:245-298 | in every reachable state sequence numbers are 1..k and a lot belongs to at most one batch, as its only detail |
| LotRuns.StepKeepsScope | backend/lot_lifecycle_service.py:577-601 | versions never fall, and a committed finalize matched the version it expected and raised it |
| LotRuns.FinalizeTakesEffectOnce | backend/lot_lifecycle_service.py:445-449 | over any run with retries, key reuse and purged rows, two effective finalizes carry strictly increasing expected versions |
| LotRuns.RetriesAreReplayed | backend/lot_lifecycle_routes.py:70-135 | until its row is purged, a same-key same-body retry gets the stored answer and another body is refused, both without change |
| LotLedger.TotalOf | backend/lot_lifecycle_service.py:571-571 | the computed total is the sum of all lot prices |
| LotLedger.LotPricesAreArtifacts | backend/lot_lifecycle_service.py:556-680 | the prices of the approved lots add up to the stored artifacts of the closed batches |
| LotLedger.UnapprovedLotsUntouched | backend/lot_lifecycle_service.py:532-554 | over any run a lot without an official result keeps the award columns it started with |
| LotLedger.PackageRowAddsUp | backend/lot_lifecycle_service.py:563-601 | in every reachable state with a result, the total is the sum of all lot prices and of the artifacts plus what untouched lots started with; winner and status of the package agree with the lots |
| LotLedger.TotalIsArtifacts | backend/lot_lifecycle_service.py:571-680 | the total is the sum of the artifacts if and only if no lot without a result started with a price |
| LotExamples.PricedLotIsCounted | backend/lot_lifecycle_service.py:556-571 | a concrete run of one create and one finalize after which the total exceeds the artifacts |
| LotLedger.CommitNamesDecision | backend/lot_lifecycle_service.py:577-601 | a committed finalize, also of an older batch, makes the package name that batch's decision |
| LotLedger.DecisionIsRecorded | backend/lot_lifecycle_service.py:577-680 | in every reachable state the package names the decision of the finalize that took effect last, which its closed batch's artifact stores |
| LotLedger.ResubmissionAcceptedIff | backend/lot_lifecycle_service.py:614-680 | a resubmission for a closed batch is accepted if and only if it expects the current version and repeats the stored artifact |
| LotLedger.CompletionRefusesPartial | backend/lot_lifecycle_service.py:572-576 | a complete package refuses to repeat a result that was stored while it was partial |
| LotExamples.OlderResultAccepted | backend/lot_lifecycle_service.py:577-601 | on any fresh package with three lots, after two creates and two finalizes repeating the older result is accepted and sets the decision back |
| LotExamples.OlderResultOfThree | backend/lot_lifecycle_service.py:577-601 | there is such a run, of a package of three lots |
| LotLedger.ResubmissionChangesNoAward | backend/lot_lifecycle_service.py:614-680 | over any run, an accepted resubmission leaves lots, batches, artifacts, total, winner and status unchanged |
| LotLedger.WinnersAreAwarded | backend/lot_lifecycle_service.py:482-521 | in every reachable state an approved lot has a winner exactly when its outcome is AWARDED, and the winner is a known contractor; other lots keep their starting row |
| LotTermination.StepMovesForward | backend/lot_lifecycle_service.py:219-400 | twice the unclaimed lots plus the lots in work never rises and strictly falls on every create and first finalize; the status never falls |
| LotTermination.AdvancesAreBounded | backend/lot_lifecycle_service.py:219-400 | a package of n lots sees at most 2n such steps and n batches over any run |
| LotTermination.StatusNeverFalls | backend/lot_selection_lifecycle.py:254-271 | along a run the projected status never moves backwards |
| LotTermination.RunPersists | backend/lot_lifecycle_service.py:245-396 | over any run batches are only appended and closed: each keeps its place, id, number and lots, and a closed one never changes |
| LotTermination.LotStaysInItsBatch | backend/lot_lifecycle_service.py:374-396 | a lot of a batch is in that batch and in no other in every later state, and an approved detail never changes |
| LotLiveness.PublicationNeverBlocked | backend/lot_lifecycle_service.py:356-363 | in every reachable state the re-check of an active batch reports no blocker |
| LotLiveness.RestNeverBlocked | backend/lot_selection_lifecycle.py:224-230 | in every reachable state a batch of all unclaimed lots meets no blocker |
| LotLiveness.StartRest | backend/lot_lifecycle_service.py:230-298 | a create command for all unclaimed lots succeeds |
| LotLiveness.FinishBatch | backend/lot_lifecycle_service.py:415-601 | some finalize command succeeds for any active batch |
| LotLiveness.EveryRunCanComplete | backend/lot_lifecycle_service.py:219-601 | from every reachable state creates and finalizes alone reach COMPLETED |
| LotStore.ReadProgress | backend/lot_lifecycle_service.py:63-103 | keeping the first row of each lot of the descending query yields the progress by highest sequence number |
| LotStore.QueryDetails | backend/lot_lifecycle_service.py:73-86 | the join lists exactly the details of the batches, each lot's by descending sequence number |
| LotStore.LotTables.ReadContext | backend/lot_lifecycle_service.py:139-153 | the context read back from the detail rows is the specified one |
| LotStore.ReadResults | backend/lot_lifecycle_service.py:451-477 | the loop reads the specified results, exactly when each lot is named once with a non-negative price (`LotColumns.ResultsMeaning` says what they are) |
| LotStore.CheckOutcomes | backend/lot_lifecycle_service.py:478-521 | outcomes and results cover the same lots, awarded lots and only they name a winner, and every winner exists |
| LotStore.LotTables.CreateBatch | backend/lot_lifecycle_service.py:219-298 | the statements realise the specified new tables or error (`LotColumns.CreateAppends` and `CreateDecides` say what they are) |
| LotStore.LotTables.ApproveDetails | backend/lot_lifecycle_service.py:374-396 | the per-lot updates close exactly the active details |
| LotStore.LotTables.FinalizeBatch | backend/lot_lifecycle_service.py:312-400 | as specified, including the closed-batch shortcut and every error |
| LotStore.LotTables.WriteAwards | backend/lot_lifecycle_service.py:532-554 | all results are written, or some lot is not a lot of the package |
| LotStore.LotTables.StoreArtifact | backend/lot_lifecycle_service.py:634-680 | the artifact is inserted once; a different one is refused |
| LotStore.LotTables.FinalizeAward | backend/lot_lifecycle_service.py:403-707 | the statements realise the specified award or error (`LotColumns.CommitWritesResults`, `FirstResultWrites` and `CommitWritesPackage` say what is written) |
| LotStore.LotTables.CreateRoute | backend/lot_lifecycle_routes.py:189-326 | one step of a run: committed as a whole or rolled back |
| LotStore.LotTables.FinalizeRoute | backend/lot_lifecycle_routes.py:387-557 | replay, refusal, rollback or commit with the remembered answer |
| LotColumns.CreateAppends | backend/lot_lifecycle_service.py:245-298 | an accepted create appends one batch: the command's id and mode, the package's procedure, the next number, and for each selected lot an active detail of revision 1 without outcome, at TECHNICAL_DRAFT for two envelopes and EVALUATION_DRAFT for one |
| LotColumns.CreateDecides | backend/lot_lifecycle_service.py:219-253 | when a create succeeds and which error it reports otherwise |
| LotColumns.ResultsMeaning | backend/lot_lifecycle_service.py:451-477 | lot results are readable exactly when each names a lot of its own and no price is negative; each lot then gets the winner, price and both durations of its own result |
| LotColumns.CommitWritesResults | backend/lot_lifecycle_service.py:532-554 | after a committed finalize the row of every named lot has exactly the winner, price, package duration and contract duration of its result, and every other row is as before |
| LotColumns.ApprovedRowsAreStored | backend/lot_lifecycle_service.py:532-680 | in every reachable state the rows of a closed batch's lots are the raw results stored in its artifact, column by column, and its outcomes those of the details |
| LotColumns.FirstResultAcceptedIff | backend/lot_lifecycle_service.py:415-521 | when a first result for an active batch is accepted, as conditions on the command and the tables |
| LotColumns.RepetitionAcceptedIff | backend/lot_lifecycle_service.py:614-680 | when a repeated result for a closed batch is accepted, as conditions on the command and the stored artifact |
| LotColumns.UnknownIsNotFound | backend/lot_lifecycle_service.py:323-332 | an unknown batch is reported as not found |
| LotColumns.FirstResultWrites | backend/lot_lifecycle_service.py:374-680 | a first result closes its batch, each lot with its own outcome, and stores the whole body with the package status as the artifact |
| LotColumns.CommitWritesPackage | backend/lot_lifecycle_service.py:563-601 | the package row after a committed finalize: decision, total, sole winner, status and version |
| LotColumns.CommitAnswers | backend/lot_lifecycle_routes.py:440-519 | a committed finalize is answered with the state it leaves, and that answer is remembered with its body under its own key only |
| LotColumns.ReplyMeaning | backend/lot_lifecycle_service.py:683-707 | the totals, completed lots and package columns of an answer |
| LotColumns.KeysSeparate | backend/lot_lifecycle_routes.py:60-68 | two commands share an idempotency row exactly when actor, batch and key agree |
| LotColumns.KeyShape | backend/lot_lifecycle_routes.py:41-41 | an idempotency key has 8 to 128 letters, digits, dots, underscores, colons and hyphens |
| AssetStore.CheckAssets | scripts/prepare_frontend_asset_compatibility.py:241-266 | journal records are accepted exactly when distinct, outside the current graph and matching the files |
| AssetStore.ValidateArtifacts | scripts/package_production.py:179-308 | the packager accepts exactly the described dist trees without source maps |
| AssetColumns.ArtifactsMeaning | scripts/package_production.py:179-308 | which dist trees the packager lets through, field by field: graph, journal, nothing else below the assets, no source map named |
| AssetStore.StagedRelease.VerifyJournal | scripts/prepare_frontend_asset_compatibility.py:203-266 | accepts exactly the verified journals and returns the retained paths |
| AssetStore.StagedRelease.VerifyInventory | scripts/prepare_frontend_asset_compatibility.py:135-200 | accepts exactly the inventories that match the package and the changes an earlier preparation owns |
| AssetColumns.RecordMeaning | scripts/prepare_frontend_asset_compatibility.py:105-132 | a record of size and digest tells any two files apart |
| AssetColumns.MetadataMeaning | scripts/prepare_frontend_asset_compatibility.py:269-310 | when a release has metadata, and that they are the marker's id, both digests and the manifest's assets |
| AssetColumns.JournalMeaning | scripts/prepare_frontend_asset_compatibility.py:203-266 | which journals are accepted, field by field |
| AssetColumns.InventoryMeaning | scripts/prepare_frontend_asset_compatibility.py:135-200 | which files may be missing, which must be intact and which may be there besides the recorded ones |
| AssetStore.StagedRelease.CopyRetained | scripts/prepare_frontend_asset_compatibility.py:479-488 | copies exactly the previous assets the current graph lacks, or finds a content collision |
| AssetStore.StagedRelease.Prune | scripts/prepare_frontend_asset_compatibility.py:357-368 | keeps exactly the allowed assets, or finds a directory |
| AssetStore.StagedRelease.PrepareAssets | scripts/prepare_frontend_asset_compatibility.py:395-507 | succeeds exactly when specified, with the specified files and journal |
| AssetColumns.PreparationMeaning | scripts/prepare_frontend_asset_compatibility.py:395-478 | when a preparation succeeds, as conditions on both releases |
| AssetColumns.JournalWritten | scripts/prepare_frontend_asset_compatibility.py:489-507 | the journal it leaves: both origins, and a record of each previous asset the current graph lacks |
| AssetPrepared.PreparedAssetAt | scripts/prepare_frontend_asset_compatibility.py:479-488 | any successful preparation leaves exactly the assets of both graphs, the current release's own ones unchanged and the others as the previous release holds them |
| AssetPrepared.PackagerAgrees | scripts/package_production.py:210-308 | the packager's separate validator accepts what any successful preparation leaves |
| AssetPrepared.InventoryAgain | scripts/prepare_frontend_asset_compatibility.py:135-200 | after any successful preparation the next inventory check passes if and only if the package holds only hashed files and agrees with what was retained |
| AssetPrepared.PrepareTwice | scripts/prepare_frontend_asset_compatibility.py:479-502 | after any successful preparation a second identical one succeeds under exactly that condition, and then changes nothing |
| AssetPrepared.PreparableAgain | scripts/prepare_frontend_asset_compatibility.py:395-502 | after any successful preparation one against any release and for any expected id succeeds if and only if that condition holds and the release and id are usable |
| AssetPrepared.RefusedForever | scripts/prepare_frontend_asset_compatibility.py:159-200 | without that condition every later preparation is refused |
| AssetExamples.LooseExamplePreparedOnce | scripts/prepare_frontend_asset_compatibility.py:357-368 | a concrete release with an unhashed file, prepared once and then refused |
| AssetExamples.StaleExamplePreparedTwice | scripts/prepare_frontend_asset_compatibility.py:301-310 | a concrete release of hashed files only, prepared twice and then refused |
| AssetHistory.PrepareSucceeds | scripts/prepare_frontend_asset_compatibility.py:395-502 | preparing a good release against none or another good release succeeds |
| AssetHistory.PreparedStaysGood | scripts/prepare_frontend_asset_compatibility.py:135-200 | a prepared release passes the inventory check and can be current or previous again |
| AssetHistory.GoodPreparedTwice | scripts/prepare_frontend_asset_compatibility.py:479-502 | a second identical preparation of good releases succeeds and changes nothing |
| AssetHistory.PackagedHasNoLoose | scripts/package_production.py:285-308 | a tree the packager accepts holds no unhashed file or directory below the assets |
| AssetHistory.PackagedIsGood | scripts/package_production.py:179-308 | a tree the packager accepts, recorded as it is and with one content per hashed name, is a good release |
| AssetHistory.EveryPreparationSucceeds | scripts/prepare_frontend_asset_compatibility.py:395-507 | after any history the next preparation succeeds |
| AssetHistory.HoldsOwnAndLatestPrevious | scripts/prepare_frontend_asset_compatibility.py:479-502 | after any history a release holds exactly its own assets and those of its latest previous release |
| AssetHistory.PreparableAgainIffHashed | scripts/prepare_frontend_asset_compatibility.py:357-368 | with one content per hashed name, a prepared release can be prepared again, against nothing or any good release with another id, if and only if it packages only hashed assets |
| BackupRestore.RollbackAt | scripts/backup.py:371-382 | rollback undoes each swap on its own |
| BackupRestore.RollbackTwice | scripts/backup.py:371-382 | rollback is idempotent |
| BackupRestore.CompensationRestores | scripts/backup.py:363-368 | compensating any half-done activation gives back the original files |
| BackupRestore.RestoreRun.StageAssets | scripts/backup.py:278-322 | stages every tree, or leaves the files as they were |
| BackupRestore.RestoreRun.Activate | scripts/backup.py:345-368 | swaps every destination, or leaves the files as before staging |
| BackupRestore.RestoreRun.Rollback | scripts/backup.py:371-382 | the loop realises the specified rollback |
| BackupRestore.RestoreRun.Finalize | scripts/backup.py:385-390 | removes the previous trees and touches nothing else |
| BackupRestore.RestoreRun.Restore | scripts/backup.py:564-614 | whatever fails, a failed restore changes neither directories nor database; a successful one installs every snapshot tree and leaves no stage or previous tree; without a fault, a missing tree or a missing target it succeeds |
| BackupSnapshot.SplitJoin | scripts/backup.py:257-275 | splitting a manifest path gives back its components |
| BackupSnapshot.CopyDirectory | scripts/backup.py:193-217 | the staged tree equals the live one, missing stays missing, and the entries are exactly its files |
| BackupSnapshot.CheckedSnapshotIsLive | scripts/backup.py:220-254 | the re-check passes if and only if the live files equal the staged files |
| BackupSnapshot.StageRoot | scripts/backup.py:285-318 | staging one root realises the specified rebuild, with every refusal |
| BackupSnapshot.Commit | scripts/backup.py:495-516 | a snapshot is committed if and only if no asset directory's files changed, and then captures exactly the live trees and their file list |
| BackupColumns.CapturedMeaning | scripts/backup.py:217-254 | the manifest lists the dump first and then each file of the three asset directories once, with its size and digest |
| BackupSnapshot.VerifySnapshot | backend/observability/backup_validation.py:79-121 | accepts exactly the snapshots whose listed files are there under safe, distinct paths with their sizes and digests |
| BackupColumns.SafeMeaning | scripts/backup.py:257-275 | which names are refused: the empty one, the two dot names, and any with a colon, a backslash or a control character |
| BackupColumns.OrdinaryNames | scripts/backup.py:257-275 | names of letters, digits and the usual marks are accepted |
| BackupColumns.PathMeaning | scripts/backup.py:257-275 | a manifest path is accepted exactly when each of its components is |
| BackupColumns.SnapshotMeaning | backend/observability/backup_validation.py:79-108 | a snapshot is accepted when it lists at most 500000 files, each on its own safe path and with the size and digest of what lies there |
| BackupColumns.TamperedIsRefused | backend/observability/backup_validation.py:92-108 | a snapshot one of whose files, or whose dump, is changed or missing does not verify |
| BackupSnapshot.CommittedVerifiesIffSafe | scripts/backup.py:516-527 | a committed snapshot verifies if and only if its paths are safe and few enough |
| BackupSnapshot.Create | scripts/backup.py:488-535 | commits exactly when nothing changed; reports success exactly when pruning and verification also succeed |
| BackupSnapshot.VerifiedIsStageable | scripts/backup.py:525-530 | a snapshot reported as made gives back every root that was present |
| BackupSnapshot.ColonNameIsCommittedButRefused | scripts/backup.py:516-535 | a file named with a colon is committed, fails verification and cannot be staged |
| BackupSnapshot.SnapshotRoundTrip | scripts/backup.py:285-318 | staging a committed snapshot rebuilds the files that were live at the re-check, and is refused exactly when the root was missing or some path is unsafe |
| BackupSnapshot.PresenceIsKept | scripts/backup.py:408-412 | missing and empty stay apart if and only if the directory did not come or go between copy and re-check |
| BackupSnapshot.AppearedDirectoryIsMissing | scripts/backup.py:220-254 | a directory that appears empty after the copy passes the re-check but cannot be restored |
| BackupCycle.RestoreSnapshot | scripts/backup.py:537-614 | verification and restore of a snapshot: everything it stages and its dump, or nothing; without a fault it succeeds when every destination can be staged |
| BackupCycle.DestinationsMeaning | scripts/backup.py:560-580 | a restore replaces uploads and templates, and the catalog when it is required or in the snapshot |
| BackupCycle.RestoredIsLive | scripts/backup.py:488-614 | after a reported backup and its restore every directory has the files of the re-check |
| BackupCycle.SuccessIsRestorable | scripts/backup.py:285-318 | a destination of a reported backup can be staged if and only if its directory was present |
| BackupCycle.BackUpAndRestore | scripts/backup.py:440-614 | create and a restore of what it made, joined: the re-checked files and the dump, or no change |
| TombstonePurge.TraceKeepsInvariant | backend/lifecycle.py:164-197 | at every commit point of any interleaving every deletion is readable or below the watermark |
| TombstonePurge.NoMissedDelete | backend/lifecycle.py:164-197 | a client whose cursor is still accepted reads every newer deletion |
| TombstonePurge.StepColumns | backend/sync/repository.py:14-48 | what a deletion, a restore and a write leave in the tables: the version goes up by one and the tombstone carries it |
| TombstonePurge.ReadMeaning | backend/sync/read_service.py:60-200 | a cursor is refused exactly below the watermark, and reads the tombstones newer than it |
| TombstonePurge.PurgedStaysBelowWatermark | backend/lifecycle.py:189-197 | every purged tombstone stays at or below its organization's watermark, which never falls |
| TombstonePurge.SyncTables.PurgeBatch | backend/lifecycle.py:166-197 | one batch deletes its rows and raises each watermark to exactly the highest purged version |
| TombstonePurge.SyncTables.PurgeTombstones | backend/lifecycle.py:164-197 | in the end every row older than the cutoff is gone unless locked; all others are as they were; each watermark covers what is gone, and rises only to the version of such a row |
| RawSnapshots.SanitizeCleans | backend/procurement_raw.py:14-26 | no secret value survives at any depth |
| RawSnapshots.SanitizeTwice | backend/procurement_raw.py:14-26 | sanitizing is idempotent over all nested JSON |
| RawColumns.SecretMeaning | backend/procurement_raw.py:11-26 | a key is secret exactly when authorization, cookie, token, captcha or secret stands in it, in any letter case |
| RawColumns.SanitizeMeaning | backend/procurement_raw.py:14-26 | only values under secret keys change, at every level |
| RawSnapshots.RawSourcesMeaning | backend/procurement_raw.py:130-151 | the traversal yields exactly the named sources, each under its owner |
| RawSnapshots.SaveKeepsConsistent | backend/procurement_raw.py:177-235 | saving is append-only, keeps dedup keys unique and stores every source |
| RawSnapshots.SaveTwice | backend/procurement_raw.py:160-245 | saving a bundle again inserts nothing |
| RawSnapshots.RawStore.SaveBundle | backend/procurement_raw.py:160-245 | the loop realises the specified store and counts insertions and duplicates |
| RawColumns.SavedColumns | backend/procurement_raw.py:177-235 | every source is stored under its own context, and every added row has, column by column, what some source captured |
| RawColumns.EnvelopeMeaning | backend/procurement_raw.py:324-341 | reading a stored row gives back what was captured, sanitized |
| RawReading.VisitFindsLongest | backend/procurement_raw.py:63-83 | the nested visit ends with the rows of a list within twelve levels, and no such list has more rows |
| RawReading.PackageKeysMeaning | backend/procurement_raw.py:63-88 | the listed packages are those of a longest list of identified rows, and none only if there is no such row |
| RawReading.ReadRevisionNumbers | backend/procurement_raw.py:91-127 | the worklist realises the specified exploration |
| RawReading.ExploreFindsLongest | backend/procurement_raw.py:94-114 | a budget that covers every value misses no list |
| RawReading.RevisionNumbersMeaning | backend/procurement_raw.py:91-127 | the advertised revisions are those of one list inside the response, a longest one when it has at most 100000 values |
| RawReading.LatestOf | backend/procurement_raw.py:58-60 | a revision of the set that every other one precedes (`RawOrder.LatestMeaning` says in which order) |
| RawOrder.LessMeaning | backend/procurement_raw.py:58-60 | text order: the smaller character at the first difference, or the shorter text |
| RawOrder.LargerMeaning | backend/procurement_raw.py:58-60 | numbers compare by length and then as text once leading zeros are dropped |
| RawOrder.LatestMeaning | backend/procurement_raw.py:305-308 | the latest revision is the one that comes after all others: by number, text that is no number first, and by text where numbers are equal |
| RawOrder.LatestOfThree | backend/procurement_raw.py:58-60 | of 00 and 01 the latest is 01; of draft, 2 and 10 it is 10 |
| RawSearch.IdentityMeaning | backend/procurement_raw.py:63-88 | a package row is identified by idDetail, else id, else bidNo, whichever is the first that Python takes for true |
| RawSearch.VersionMeaning | backend/procurement_raw.py:94-124 | a version row has an id and carries its revision as planVersion, else notifyVersion, else revisionNumber |
| RawSearch.FilledMeaning | backend/procurement_raw.py:118-126 | a number of fewer than two characters is filled with zeros, after its sign if it has one |
| RawSearch.ChildrenMeaning | backend/procurement_raw.py:81-82 | a list is visited in order, an object in the order of its keys |
| RawSearch.RowsMeaning | backend/procurement_raw.py:70-76 | the rows of a list are its passing objects, in order |
| RawSearch.PackagesRead | backend/procurement_raw.py:63-88 | the packages are read from the first list, from left to right and at most twelve levels down, that has the most identified rows |
| RawSearch.RevisionsRead | backend/procurement_raw.py:91-127 | the revisions are read from the first list, among the first 100000 values from right to left, that has the most versioned rows |
| RawLoader.ReadNewest | backend/procurement_raw.py:268-298 | the first listed row of each key is chosen, and the whole store holds none newer, whatever the row limit cuts off and however ties are ordered |
| RawLoader.CollectSources | backend/procurement_raw.py:343-350 | top-level sources by name; of several operations with one name the last listed is kept |
| RawLoader.NamedSourcesMeaning | backend/procurement_raw.py:343-350 | a name is present if and only if some newest top-level row goes by it, and the last such row listed is kept |
| RawLoader.EveryOperationNamed | backend/procurement_raw.py:343-350 | every newest top-level operation appears under its name |
| RawLoader.LoadPlan | backend/procurement_raw.py:300-403 | a plan is returned exactly when loadable, with the specified rows |
| RawLoader.PlanIsNewest | backend/procurement_raw.py:268-298 | every row of a loaded plan is the newest of its key |
| RawLoader.PlanIsComplete | backend/procurement_raw.py:360-403 | ALL mode holds every advertised revision, LATEST the one advertised revision that comes after all others, SELECTED those asked for, each with exactly the packages its detail lists |
| RawColumns.NewestMeaning | backend/procurement_raw.py:268-298 | a row is chosen when no fresh row of the plan with the same revision, package and operation was retrieved, or else created, later |
| RawColumns.FirstFiveThousand | backend/procurement_raw.py:283-298 | each of the first 5000 listed rows has its place filled with such a row |
| RawColumns.PlanColumns | backend/procurement_raw.py:300-403 | each row of a plan carries the revision, package and operation it stands for, and none is outdated |
| RawColumns.SourceNames | backend/procurement_raw.py:343-350 | SEARCH and PLAN_VERSION_LIST have names of their own, any other operation goes by itself in lower case |
| RawColumns.LoadableMeaning | backend/procurement_raw.py:300-403 | when a plan is loaded: both top-level sources succeeded, the selection of the mode is complete and matches what is advertised |
| RawColumns.FailureMeaning | backend/procurement_raw.py:384-427 | which failures are reported, each with its operation, revision and package |
| RawColumns.BundleMeaning | backend/procurement_raw.py:342-427 | the bundle lists exactly the chosen rows, each under its name, revision and package |
| RawColumns.EnvelopesMeaning | backend/procurement_raw.py:369-420 | every source of the bundle is counted, and nothing else |
| RawColumns.SuccessesMeaning | backend/procurement_raw.py:421-459 | the success count is the number of sources that succeeded |
| RawColumns.SourceCount | backend/procurement_raw.py:369-420 | each revision counts as one source and one more for each of its packages |
| RawLoader.FailuresShow | backend/procurement_raw.py:384-427 | a failure is reported exactly when some detail or package source failed |
| RawLoader.Assemble | backend/procurement_raw.py:370-459 | the bundle holds exactly the plan's rows; successes and failures add up to the sources, and complete means no failure |
| RawLoader.LoadFreshPlan | backend/procurement_raw.py:247-467 | the whole loader: newest rows, refusal or bundle, counters |
| RawRoundTrip.BundleOwns | backend/procurement_raw.py:130-151 | the ownership traversal of a loaded bundle meets only chosen rows, each under its own key |
| RawRoundTrip.SavingLoadedInsertsNothing | backend/procurement_raw.py:342-427 | saving a loaded bundle finds every row already stored when each revision's rows carry one id |
| RawRoundTrip.ReSaveInsertsNothingIffIdentified | backend/procurement_raw.py:375-380 | with uniform ids, saving a loaded bundle inserts nothing if and only if every revision has an id |
| RawExamples.AnonymousRevisionInserts | backend/procurement_raw.py:372-380 | a concrete history whose plan loads and whose second save inserts rows |
| RawRoundTrip.SaveLoadSave | backend/procurement_raw.py:177-427 | for every history of saves, save after load adds no row |
| ModuleGrammar.SpecifierUnique | backend/source_module_preloads.py:156-189 | a declaration names at most one module |
| ModuleGrammar.DeclaredMeaning | backend/source_module_preloads.py:192-211 | the declared modules are exactly those some top-level declaration names, each once |
| ModuleForms.CommentMeaning | backend/source_module_preloads.py:40-45 | a line comment ends before its line feed, a block comment past its first closing mark |
| ModuleForms.MarksMeaning | backend/source_module_preloads.py:82-102 | the two marks that open a comment, and the one that opens a template expression |
| ModuleForms.KindMeaning | backend/source_module_preloads.py:114-142 | the kind of a token follows from its first character; a slash opens a regular expression only if one closes on its line |
| ModuleForms.TextMeaning | backend/source_module_preloads.py:114-142 | the text of each token: one character of punctuation, the longest run of name characters, none for an opaque one |
| ModuleForms.NestingMeaning | backend/source_module_preloads.py:74-77 | templates are followed through 32 levels; a deeper one gives up the rest of the source |
| ModuleForms.FormsMeaning | backend/source_module_preloads.py:156-189 | the three declaration forms, written out token by token |
| ModuleForms.ClosedMeaning | backend/source_module_preloads.py:194-209 | no bracket is open exactly when every tail of the tokens closes at least what it opens |
| ModuleForms.DeclarationMeaning | backend/source_module_preloads.py:192-205 | a declaration is the word import or export where all three kinds of brackets are closed, and not after a dot |
| ModuleEnds.StringEndMeaning | backend/source_module_preloads.py:22-37 | a literal ends past its first unescaped quote, or where its line or the source ends; it is usable only in the first case and without any escape |
| ModuleEnds.RegexEndMeaning | backend/source_module_preloads.py:48-71 | a regular expression ends past the flags of the first unescaped slash outside a class on its line, or at its own slash if there is none |
| ModuleEnds.TemplateRestMeaning | backend/source_module_preloads.py:74-87 | a template ends past the first backquote that no escape or expression covers |
| ModuleEnds.ExpressionEndMeaning | backend/source_module_preloads.py:90-111 | an expression ends past the first brace that closes its last open one, outside strings, templates, comments and regular expressions |
| ModuleScanner.SkipString | backend/source_module_preloads.py:22-37 | stops where specified, and returns a literal exactly when it closes on its line without an escape |
| ModuleScanner.SkipComment | backend/source_module_preloads.py:40-45 | ends at the first line end or just past the first closing mark |
| ModuleScanner.SkipRegex | backend/source_module_preloads.py:48-71 | past the closing slash outside a class and all its flags, or just past the opening slash |
| ModuleScanner.SkipTemplate | backend/source_module_preloads.py:74-87 | terminates for every text, nesting at most 32 deep, at the specified end of the template |
| ModuleScanner.SkipTemplateExpression | backend/source_module_preloads.py:90-111 | terminates for every text at the brace that closes the expression |
| ModuleScanner.Tokens | backend/source_module_preloads.py:114-142 | the specified tokens; spans are ordered and disjoint and each token is what its span says |
| ModuleScanner.TokensCover | backend/source_module_preloads.py:114-142 | every position belongs to a token, is a space or lies in a comment |
| ModuleScanner.AfterNamedClause | backend/source_module_preloads.py:145-153 | finds the end of a named clause if and only if there is one within 256 tokens |
| ModuleScanner.StaticSpecifier | backend/source_module_preloads.py:156-189 | the literal that the grammar of import and export declarations designates, or nothing |
| ModuleScanner.CollectSpecifiers | backend/source_module_preloads.py:192-211 | the first 512 declared modules in order of appearance |
| ModuleScanner.StaticSpecifiers | backend/source_module_preloads.py:192-211 | the first 512 declared modules, all of them if fewer; each occurs verbatim between equal quotes without that quote, a backslash or a line break |
| ModuleGraph.ResolveSources | backend/source_module_preloads.py:252-294 | no repeats, at most 512; each of the first 512 entries is queued and, if valid, a source; exactly the valid queued names are sources; all are reachable from those entries, and unless 512 names were queued every valid reachable file is there |
| ModuleGraph.SourceEdgesMeaning | backend/source_module_preloads.py:272-294 | only valid files are followed, to exactly the modules they import |
| ModuleGraph.ValidateManifest | backend/frontend_assets.py:214-232 | accepts exactly the manifests whose entries are all usable (`ModuleGraph.AcceptedMeaning` says when they are) |
| ModuleGraph.AcceptedMeaning | backend/frontend_assets.py:214-232 | an accepted manifest, entry by entry: valid file, css and assets, and imports that are all keys |
| ModuleGraph.ResolvePreloads | backend/frontend_assets.py:182-211 | terminates; fails exactly when a reachable key is unusable, else returns exactly the files of the reachable keys |
| ModuleGraph.ImportEdgesMeaning | backend/frontend_assets.py:190-207 | a key is followed to exactly the keys its entry imports |
| ModuleGraph.AcceptedManifestResolves | backend/frontend_assets.py:214-232 | every key reachable in an accepted manifest is usable, so resolution cannot fail |
| AsgiFilters.ResponseIntegrity.SendAll | backend/http_middleware.py:161-194 | the per-message filter realises the specified transducer |
| AsgiFilters.HeadHasNoBody | backend/http_middleware.py:166-191 | a HEAD response carries at most one body message, empty and final |
| AsgiFilters.BodilessStatusHasNoBody | backend/http_middleware.py:171-191 | so does everything after the start of a 204 or 304 response |
| AsgiFilters.OpenRunKeepsBodies | backend/http_middleware.py:186-192 | other responses keep every body message |
| AsgiColumns.HeadsSent | backend/http_middleware.py:161-194 | every start and every other message is sent once and in order, starts with their status; a content length goes unless the path is fixed or the response has no body |
| AsgiColumns.BodiesSent | backend/http_middleware.py:171-192 | bodies before a 204 or 304 start are kept, those after it become one empty final body |
| AsgiColumns.SuppressedBodies | backend/http_middleware.py:166-191 | a response without a body sends exactly one empty final body if any comes |
| AsgiFilters.IntegrityTwice | backend/http_middleware.py:161-194 | filtering twice equals filtering once |
| AsgiFilters.StackFramesLikeOne | backend/http_middleware.py:203-228 | the stack of both filters frames exactly like the outer one, up to the length header of a 204 |
| AsgiFilters.StackTwice | backend/http_middleware.py:161-228 | applying the stack twice equals applying it once |
| AsgiFilters.StackHeadHasNoBody | backend/http_middleware.py:166-210 | a HEAD response leaves the stack with at most one body message, empty and final |
| AsgiFilters.StackBodilessHasNoBody | backend/http_middleware.py:171-225 | so does everything after the start of a 204 or 304 response |
| AsgiColumns.StackHeadsSent | backend/http_middleware.py:161-228 | through both filters every start and every other message is sent once and in order; a 204 never has a content length, other starts keep or lose it as through the outer filter |
| AsgiFilters.BodyLimiter.Handle | backend/http_middleware.py:372-412 | the limiter realises the specified exchange, also with an application that catches the signals and goes on |
| AsgiFilters.LimitHolds | backend/http_middleware.py:359-412 | at most limit bytes are delivered whatever the application catches, and the limiter answers itself exactly when a signal propagates before a response started |
| AsgiFilters.ClosedForGood | backend/http_middleware.py:379-390 | once the limit is passed no chunk is delivered any more |
| AsgiColumns.ReceiveMeaning | backend/http_middleware.py:372-391 | what one request message does: a chunk counts and is refused beyond the limit, a disconnect is refused before the start |
| AsgiColumns.SignalMeaning | backend/http_middleware.py:359-412 | the limiter ends a request as too large only beyond the limit, and as incomplete only after a disconnect before the response |
| AsgiFilters.SmallRequestsPass | backend/http_middleware.py:372-396 | a request within the limit passes through untouched |

## Left out

- Several packages and organizations at once, archiving lots, adding lots or editing dependency groups during a run.
- Lot stages between the draft and the approved result: no command of the modelled code advances a lot through them.
- JSON values of the wrong type in request bodies: commands are typed, so only value errors are modelled.
- Evaluation metadata saved by `save_child_payloads`, audit rows and websocket events.
- LotService: bodies that differ only in surrounding white space are the same body here, while their request digests differ.
- BackupSnapshot.VerifySnapshot: does not limit the size of the manifest file itself, because the manifest is its decoded value.
- Names of hashed assets: the regular expressions for asset paths are the constructors of a path type.
- Symbolic links, file modes, temporary files and partly written copies of an interrupted asset preparation.
- Failures inside rollback or stage removal, and interrupts between two statements of the restore.
- The notice loader, which repeats the plan loader with other operations.
- RawReading: the text of a JSON value that is not a string is an arbitrary function, and only ASCII digits and letters
  are classified.
- RawLoader.Assemble: the order of dictionary entries in the returned bundle is by key.
- RawSnapshots: letter case is folded for ASCII letters only.
- Path normalisation, file lookup and file caching of the preload graph: they are arbitrary functions of a name.
- Security headers other than the content length, and the refusals of the body limiter that only look at request headers.
- Retention of the other tables, and the advisory lock around the retention pass.
