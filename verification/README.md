# Conduit Control Center: a verified model

This project models the parts of Conduit Control Center whose correctness rests on
an argument, and proves that argument:

* **The runtime store and its recovery** (`StoreModel`, `StoreSafety`, `StoreConversion`,
  `StorePublication`, `StoreRetention`, `StoreAnswers`, `RuntimeHost`). A node selects one of several
  immutable runtimes through `venv`, a real directory before the one-time conversion
  and a one-hop link `.venvs/<id>` after it. Every operation is a sequence of durable
  writes, and the process may die before any of them.
* **The update journal and the rollback reserve** (`UpdateJournal`, `BootstrapReserve`,
  `LedgerAnswers`, `LedgerHost`). A per-attempt transaction with 27 phases and 8 facts, and the reserve
  of a first transition, accepted after a success or discarded after an early failure.
* **Ownership records of work trees** (`AttemptModel`, `AttemptHost`).
* **Encodings, parsers and normalisers** (`LogicalTree`, `Capability`, `RyveFrame`,
  `Sha256Sums`, `CanonicalTree`, `LineEndings`, `EnvFile`, `EnvMerge`), over unbounded
  bytes and text (`Utf8`, `Text`, `Splitting`, `Order`).
* **Algorithms and bounds** (`QuietWindow`, `Advisor`, `Lockout`, `LockoutOverlap`, `Restore`).

## How an interruption is modelled

`Durable.Run` is one call of an operation: the disk after each of its durable writes and
how the call ends. `CutAfter(disk, run, n)` is what a process leaves that dies once it has
made n writes. A `...Run` function gives the Run of an operation for the disk it finds.
The classes `RuntimeHost.Host`, `LedgerHost.Journal` and `AttemptHost.PrivateDir` change
their fields one write at a time and are proved to leave exactly what `CutAfter` says, for
every number of writes; the theorems are about the Runs, about every disk on their way
(`Throughout`), and about whole schedules of calls that are each cut off anywhere (`After`).
`Restore.ConfigDir` uses the same Runs for a different event: a write that fails and hands
over to the rollback. Removing a tree is two writes, so that a half-removed tree is a state
of its own.

`StoreAnswers` and `LedgerAnswers`, and lemmas like them in the other modules, say for every
operation on which states it succeeds, spelled out on the state itself, what it then leaves,
and that a refusal leaves the state alone.

## What was found

* `rollback_conversion` does not look at whether the legacy runtime is still in the store
  when it drops the selector. After a conversion that was cut off before its last write, two
  activations, a collection and a rollback, the next conversion can publish a link to a
  runtime that no longer exists (`UnguardedRollbackDangles`). `RollbackSafeIffGuarded` says
  exactly when links stay safe after every cut of the rollback and every schedule of other
  calls: the selector is neither a link nor absent, or the legacy runtime is there to move
  back, or nothing substituted would be moved and
  no recorded conversion can publish (none is recorded, its manifest cannot be read as the
  legacy runtime's, or a gate refuses it). All other operations keep links safe on their own.
* Recovery of a publication decides the attempt, and a second recovery writes nothing, except
  in one case: the first kept the runtime because the live check passed, the check now fails,
  the manifest is this attempt's and the selector does not resolve to the runtime
  (`SecondReconcileWritesNothing`).
* A collection that is cut off leaves at most one entry half removed (`AtMostOneIsHalfRemoved`).
  If that is a manifest without its tree, staging the id is refused, and only the attempt named
  in the manifest can reconcile it; it can happen to every candidate a collection removes
  (`CutCollectionLeavesAnOrphan`). Where no manifest stops it, a later collection ends on the disk
  of the undisturbed one if and only if the cut did not fall there (`CollectingAgainIsEnough`).
* A rollback that is cut off once it has removed the link of a finished conversion leaves no
  selector and no record; from there, and only from there, a conversion cannot finish
  (`FinishedConversionCanBeStranded`, `OneWayToStrand`, `ConversionCompletesUnlessStranded`).
  While the record of a conversion is still there, no cut of a rollback strands the node.
* `restore_backup` reports "the previous state was restored" also when a file that was
  absent before stays behind; `RollbackIsExactIffNoTraces` says exactly when the report is
  true of every failure.
* A failed attempt can give up its staged reserve only between a complete backup and the
  start of downtime (`DiscardAuthority`), because the discard needs the recorded previous
  version; a failure before the backup is complete keeps its reserve.
* The lockout's rate bound holds on the stored clock of whole seconds. On the exact clock it
  holds of all runs whose first failure falls at a given instant if and only if that instant is
  a whole second, or the lockout is zero (`ExactBoundIffWholeSecond`).
* A login checks the lock, reads the count and writes it in separate accesses, and logins are
  not kept apart. With logins that overlap the bound fails: n wrong passwords at one instant
  count as one failure (`OverlappingFailuresCountOnce`). It holds of all runs with at most m
  logins in flight if and only if m is at most one (`RateBoundIffOneInFlight`).
* Line-ending variants of files without a declaration canonicalise differently when one of
  them is taken for binary (`SniffedVariants` is exact).
* The module documentation of the capability decoder, the Logical Tree and the Ryve frame
  agrees with the code in every point modelled.

## Model

| member | source | states |
|---|---|---|
| RuntimeHost.Host.Stage | backend/runtime_store.py:1177-1206 | Staging a candidate, cut after any number of writes, leaves the disk and the answer of its step sequence: the store directory, then the attempt's staging tree. |
| RuntimeHost.Host.Finalize | backend/runtime_store.py:1209-1269 | Publication writes the manifest before it renames the staging tree into the store; every refusal clears the staging tree and retracts a manifest without a runtime. |
| RuntimeHost.Host.Install | backend/runtime_store.py:1272-1301 | Filling the staging tree between staging and publication changes only that tree. |
| RuntimeHost.Host.Discard | backend/runtime_store.py:1304-1332 | Removes exactly the attempt's own real staging tree, and says whether there was one. |
| RuntimeHost.Host.Reconcile | backend/runtime_store.py:1370-1421 | Recovery of a publication: staging first, then the final runtime and its manifest, removing only what this attempt's manifest owns. |
| RuntimeHost.Host.Convert | backend/runtime_store.py:1431-1493 | Conversion writes its record first and then resumes from whatever the disk shows: move, manifest, link, end of record. |
| RuntimeHost.Host.RollbackConversion | backend/runtime_store.py:1496-1514 | Undoes a conversion in its own order of writes. |
| RuntimeHost.Host.Activate | backend/runtime_store.py:1520-1539 | Records the current runtime as previous before it flips the link, and flips back when the check after the flip fails. |
| RuntimeHost.Host.ActivateInitial | backend/runtime_store.py:1542-1564 | A first selector is only created where there is none. |
| RuntimeHost.Host.RollbackActivation | backend/runtime_store.py:1567-1583 | Flips back to the recorded previous runtime after validating it. |
| RuntimeHost.Host.Gc | backend/runtime_store.py:1586-1611 | The loop removes tree, then manifest, of one collectable runtime after the other and reports what it removed. |
| RuntimeHost.Host.Live | backend/runtime_store.py:1177-1611 | Any schedule of interrupted calls leaves what the schedule function says, and a safe disk safe if rollbacks of the conversion meet their guard. |
| StoreSafety.EveryRunIsSafe | backend/runtime_store.py:1023-1083 | In every state reachable by interrupted calls, a selector that is a link names a real store directory whose manifest is bound to its id and validated. |
| StoreSafety.UnguardedRunsAreSafe | backend/runtime_store.py:1023-1083 | The same without any condition for schedules without `rollback_conversion`. |
| StoreSafety.RollbackSafeIffGuarded | backend/runtime_store.py:1431-1514 | From a safe disk: links stay safe after every cut of a rollback of the conversion and every later schedule without another rollback if and only if the guard holds of the disk before it. |
| StoreSafety.UnguardedRollbackDangles | backend/runtime_store.py:1431-1514 | A schedule that ends with a link to a missing runtime, for all ids and trees. |
| StoreSafety.FinalizeKeepsSafe | backend/runtime_store.py:1209-1269 | No write of a publication endangers the selector. |
| StoreSafety.ConvertKeepsSafe | backend/runtime_store.py:1431-1493 | No write of a conversion endangers the selector, from wherever it resumes. |
| StoreSafety.ReconcileKeepsSafe | backend/runtime_store.py:1370-1421 | No write of a recovery endangers the selector. |
| StoreSafety.ActivateKeepsSafe | backend/runtime_store.py:1520-1539 | Neither the flip nor the flip back endangers the selector. |
| StoreSafety.RollbackActivationKeepsSafe | backend/runtime_store.py:1567-1583 | Nor does the return to the previous runtime. |
| StoreSafety.ActivateInitialKeepsSafe | backend/runtime_store.py:1542-1564 | Nor does the first selector. |
| StoreSafety.GcKeepsSafe | backend/runtime_store.py:1586-1611 | Nor does a collection, cut anywhere. |
| StoreConversion.LegacyTreeIsNeverLost | backend/runtime_store.py:1431-1514 | From an unconverted node, after every schedule of interrupted conversions and rollbacks, the legacy tree is at exactly one of its two places and other runtimes are untouched. |
| StoreConversion.InterruptedConversionsCanBeResumed | backend/runtime_store.py:1431-1493 | After any number of interrupted conversions one undisturbed conversion ends with the link to `legacy-0`, the same tree, a validated manifest and no record. |
| StoreConversion.ConversionCompletesUnlessStranded | backend/runtime_store.py:1431-1493 | From every state of such runs, rollbacks included, a conversion completes exactly when the node is not stranded. |
| StoreConversion.OneWayToStrand | backend/runtime_store.py:1431-1514 | A call strands a node if and only if it is a rollback cut after its first write, on a node with the link and without the record. |
| StoreConversion.FinishedConversionCanBeStranded | backend/runtime_store.py:1431-1514 | From every unconverted node, a finished conversion and a rollback cut after one write end stranded. |
| StoreConversion.UnfinishedConversionsNeverStrand | backend/runtime_store.py:1496-1514 | While the record of a conversion is there, no cut of a rollback strands the node. |
| StoreConversion.RollbackRestoresTheLegacyTree | backend/runtime_store.py:1496-1514 | From every state of such runs an undisturbed rollback puts the same tree back at the selector. |
| StorePublication.ReconcileDecidesEveryCrash | backend/runtime_store.py:1304-1421 | After any interrupted staging, publication and recovery of a fresh id, a recovery ends with runtime and this attempt's validated manifest, or with staging, runtime and manifest all gone; all else is unchanged. |
| StorePublication.SecondReconcileWritesNothing | backend/runtime_store.py:1370-1421 | After a recovery that returned, a second one writes nothing, unless the first kept the runtime, the live check now fails, the manifest is this attempt's and the selector does not resolve to the runtime; in that case it writes. |
| StorePublication.ReconcileSparesTheActiveRuntime | backend/runtime_store.py:1359-1421 | Whatever it finds, a recovery never touches the runtime the selector resolves to, at any write. |
| StoreRetention.CompletedCollection | backend/runtime_store.py:1586-1611 | A collection that ends has removed exactly the real directories with a manifest that are neither current nor previous, trees and manifests, and nothing else. |
| StoreRetention.CutCollection | backend/runtime_store.py:1586-1611 | The disk that any cut of any collection leaves: three writes a removal, the complete ones gone, and the begun one torn or without its tree. |
| StoreRetention.EveryCollectableIsRemoved | backend/runtime_store.py:1586-1611 | If no manifest stops the collection, the removals are exactly the collectable entries, in the order of the listing. |
| StoreRetention.AtMostOneIsHalfRemoved | backend/runtime_store.py:1586-1611 | Wherever a collection is cut, at most one entry is half removed, a collectable one; every other is as it was or gone with its manifest. |
| StoreRetention.CollectionSpares | backend/runtime_store.py:1586-1611 | Every cut of a collection spares the current and the previous runtime, entries without a manifest and non-directories. |
| StoreRetention.RollbackReturnsAfterCollections | backend/runtime_store.py:1520-1611 | After an activation from A to B and any number of interrupted collections, `rollback_activation` returns to A. |
| StoreRetention.FailedActivationRestoresTheSelector | backend/runtime_store.py:1520-1539 | An activation whose check fails ends on the old selector, with its previous record written. |
| StoreRetention.CutCollectionLeavesAnOrphan | backend/runtime_store.py:1586-1611 | For every listing of the store and every candidate the collection removes, the cut between its tree and its manifest leaves a manifest that refuses staging, and that a reconciliation clears if and only if it is for the attempt that published it. |
| StoreRetention.CollectingAgainIsEnough | backend/runtime_store.py:1586-1611 | If no manifest stops the collection, a later complete one ends on the disk of the undisturbed one if and only if the first was not cut between a tree and its manifest (after 3k + 2 writes, with a k-th removal). |
| StoreAnswers.TargetIsValid | backend/runtime_store.py:1023-1067 | A runtime passes the target gate if and only if application and store are in order, it is a usable directory of the owner, and its own manifest is validated. |
| StoreAnswers.SelectorIsValid | backend/runtime_store.py:1070-1083 | The selector gate gives an id if and only if the selector is the one-hop link to that valid runtime. |
| StoreAnswers.StageAnswers | backend/runtime_store.py:1177-1206 | Staging succeeds if and only if nothing uses the id or the attempt and the build is finished and tightened; it leaves just the built tree in the attempt's staging, and store and manifests alone in any case. |
| StoreAnswers.FinalizeAnswers | backend/runtime_store.py:1209-1269 | Publication returns the id if and only if the gates hold, the checks pass, the id is free, the staged tree is usable and nothing fails; what is published is the staged tree under this attempt's manifest, and only after passed checks. |
| StoreAnswers.UncheckedIsNeverPublished | backend/runtime_store.py:1228-1269 | A candidate whose checks failed, or whose id is taken, leaves store, manifests and selector as they were at every cut. |
| StoreAnswers.DiscardAnswers | backend/runtime_store.py:1304-1332 | Exactly the attempt's own staging directory is removed, exactly if it is a real directory of the owner. |
| StoreAnswers.ReconcileAnswers | backend/runtime_store.py:1370-1421 | Each of the five verdicts has its exact case on the disk and its exact result; a recovery that raises has removed at most the attempt's staging. In particular a runtime is kept if and only if it is usable, bound to its validated manifest and passes the live check. |
| StoreAnswers.KeptIsNeverTouched | backend/runtime_store.py:1402-1421 | No cut of a recovery touches the runtime it keeps, its manifest, or anything but the attempt's staging. |
| StoreAnswers.ConvertAnswers | backend/runtime_store.py:1431-1493 | On every disk: a conversion succeeds if and only if a recorded one can go on, or none is recorded and the node is converted already or not yet; it leaves exactly the converted node. |
| StoreAnswers.ConversionStarts | backend/runtime_store.py:1431-1462 | Without a record, a conversion writes if and only if there is an owned legacy directory to convert and no foreign object in its place in the store. |
| StoreAnswers.ConversionResumes | backend/runtime_store.py:1463-1493 | With a record, a conversion writes if and only if something is left that it can do; it moves nothing into a store that is not in order. |
| StoreAnswers.RollbackConversionAnswers | backend/runtime_store.py:1496-1514 | On every disk: the rollback succeeds if and only if the legacy tree is at the selector or can be moved back, and what it leaves in every case. |
| StoreAnswers.ActivateAnswers | backend/runtime_store.py:1520-1539 | An activation succeeds if and only if both runtimes are valid and the check after the flip holds; it records the runtime it leaves. |
| StoreAnswers.FlipIsRecordedFirst | backend/runtime_store.py:1526-1539 | Wherever an activation is cut, a selector that has moved has the runtime it came from on record. |
| StoreAnswers.ActivateInitialAnswers | backend/runtime_store.py:1542-1564 | The first selector is made if and only if there is none, the target is valid and the check holds; otherwise the disk ends as it was. |
| StoreAnswers.RollbackActivationAnswers | backend/runtime_store.py:1567-1583 | The return succeeds if and only if a previous runtime is recorded and both it and the selected one are valid. |
| StoreAnswers.GcAnswers | backend/runtime_store.py:1586-1611 | A collection ends if and only if selector and record can be read and no manifest blocks it; it removes and reports exactly the recorded runtimes that are neither selected nor recorded as previous. |
| UpdateJournal.BegunTxIsValid | backend/runtime_store.py:351-381 | A new transaction is accepted by the reader. |
| UpdateJournal.BeginAccepts | backend/runtime_store.py:351-381 | A transaction is begun if and only if attempt, version, commit and tag are well-formed and the tag is that of the version. |
| UpdateJournal.MarkAccepts | backend/runtime_store.py:383-423 | For every readable transaction and every other phase: the mark is accepted if and only if the reader accepts the longer history and the updates are exactly the facts of the phase, with valid values and a backup of this attempt. |
| UpdateJournal.RetryAccepts | backend/runtime_store.py:402-410 | Marking the same phase again is accepted if and only if it repeats recorded facts of that phase, and changes nothing. |
| UpdateJournal.NormalRunSucceeds | backend/runtime_store.py:107-126 | From every begun transaction, the twenty other normal phases in order, with any valid facts, end in success with the whole sequence and all facts. |
| UpdateJournal.MarkedTxIsValid | backend/runtime_store.py:383-423 | A marked transaction is accepted by the reader; identity stays, history and facts only grow, terminal documents are fixed points. |
| UpdateJournal.EveryRunIsReadable | backend/runtime_store.py:301-423 | The same for every run of marks, refused ones included. |
| UpdateJournal.UnfinishedTxCanBeClassified | backend/runtime_store.py:141-147 | Every unfinished transaction may be marked as failed or as being rolled back. |
| UpdateJournal.HistoryShape | backend/runtime_store.py:107-147 | The reader accepts exactly: a non-empty prefix of the normal sequence, then prefixes of the rollback sequence, then at most one terminal phase. |
| UpdateJournal.NoForwardAfterRollback | backend/runtime_store.py:107-147 | After a rollback phase only rollback phases or a failed end follow. |
| UpdateJournal.PhaseReached | backend/runtime_store.py:112-126 | A history contains a normal phase exactly if its normal part is long enough. |
| UpdateJournal.SuccessIsTheWholeSequence | backend/runtime_store.py:319-331 | A successful transaction has exactly the whole normal sequence as history and all eight facts. |
| UpdateJournal.CompletedBackupIsRecorded | backend/runtime_store.py:170-179 | Once `backup_complete` is reached, a backup directory bound to the attempt is on record. |
| UpdateJournal.BackupNamesItsAttempt | backend/runtime_store.py:170-179 | A backup directory belongs to one attempt only. |
| BootstrapReserve.EveryRunIsConsistent | backend/runtime_store.py:495-666 | In every state of interrupted runs: a reserve on the way to acceptance has a successful transaction of the same identity; one on the way to discard has a failed one that never reached downtime; in the end states the tree is gone. |
| BootstrapReserve.FateIsSealed | backend/runtime_store.py:538-666 | A reserve on the way to one end stays on it under every schedule of interrupted calls, and the calls towards the other end are refused. |
| BootstrapReserve.TreeGoesOnlyAfterIntent | backend/runtime_store.py:566-666 | In every state of interrupted runs a reserve still holds its very tree, or an intent to release it is on record. |
| BootstrapReserve.DiscardAuthority | backend/runtime_store.py:609-640 | A staged reserve may be discarded if and only if identities match and the transaction failed after five to eight normal phases. |
| BootstrapReserve.InterruptedReleaseCanBeRerun | backend/runtime_store.py:566-666 | However often an acceptance or a discard is cut off, one more call records the end state, and the tree is gone. |
| BootstrapReserve.CeremonyKeepsConsistent | deployment/bootstrap/ccc-bootstrap.sh:89-162 | No write of the bootstrap ceremony breaks the agreement of transactions and reserves. |
| BootstrapReserve.CeremonyRecordsFirst | deployment/bootstrap/ccc-bootstrap.sh:89-162 | Wherever the ceremony is cut off, a tree that it has made has its record, readable and staged. |
| LedgerAnswers.BeginAnswers | backend/runtime_store.py:351-381 | A transaction begins if and only if its identity is well-formed and the attempt is free or holds the same new transaction; nothing else changes. |
| LedgerAnswers.MarkAnswers | backend/runtime_store.py:383-423 | On the ledger: a new phase is recorded if and only if the longer history is valid and the updates are the facts of the phase; a refusal changes nothing. |
| LedgerAnswers.RetryAnswers | backend/runtime_store.py:402-410 | A retry never writes, and answers if and only if it adds and changes nothing. |
| LedgerAnswers.CeremonyAnswers | deployment/bootstrap/ccc-bootstrap.sh:89-162 | The ceremony runs if and only if the identity is well-formed and fresh and the baseline supported; its record and its tree are exactly these. |
| LedgerAnswers.ReadyAnswers | backend/runtime_store.py:538-563 | A reserve becomes ready if and only if it is staged, its own transaction succeeded and its tree is private; otherwise the ledger stays. |
| LedgerAnswers.ReleaseAuthority | backend/runtime_store.py:566-666 | An acceptance, or a discard, writes if and only if it names the reserve's own commit and tag (and, for a discard, the transaction failed before downtime) and the reserve stands before its intent, or at it with a tree that is gone or private; it answers without writing exactly at the end. |
| LedgerAnswers.ReleaseLeaves | backend/runtime_store.py:566-666 | What each such call leaves when undisturbed: the end on record and no tree, the intent alone if the tree was substituted, or the ledger as it was. |
| LedgerAnswers.UnrecordedReserveIsRefused | backend/runtime_store.py:497-535 | Without a readable record, none of the calls on a reserve writes. |
| LedgerHost.Journal.Begin | backend/runtime_store.py:351-381 | Beginning an attempt, cut after any number of writes, leaves what its step sequence says; a repeated begin answers with the existing document. |
| LedgerHost.Journal.Mark | backend/runtime_store.py:383-423 | Marking writes the one new document, or nothing on a retry or a refusal. |
| LedgerHost.Journal.Ceremony | deployment/bootstrap/ccc-bootstrap.sh:89-162 | Record first, then tree, each only on fresh ground. |
| LedgerHost.Journal.MarkReserveReady | backend/runtime_store.py:538-563 | A staged reserve becomes ready only for its own successful transaction and a private tree. |
| LedgerHost.Journal.AcceptReserve | backend/runtime_store.py:566-606 | Intent, removal, end state, resuming from whichever is on record. |
| LedgerHost.Journal.DiscardFailedReserve | backend/runtime_store.py:609-666 | The same for a failed attempt. |
| LedgerHost.Journal.Live | backend/runtime_store.py:351-666 | Any schedule of interrupted calls keeps transactions and reserves in agreement. |
| LedgerHost.Journal.CompletedBackups | backend/runtime_store.py:445-471 | The answer is exactly the backups nominated by finished transactions that completed one, ordered by directory; one unreadable transaction stops the call. |
| AttemptModel.UnrecordedObjectsAreNeverTouched | backend/priv_state.py:223-381 | Under every schedule of interrupted calls, objects without a record stay untouched and unrecorded, and every new work tree has its record as long as it exists. |
| AttemptModel.RecordAnswers | backend/priv_state.py:223-256 | An attempt is recorded if and only if the path is its own canonical one, nothing is there, and it has no record. |
| AttemptModel.JudgeExact | backend/priv_state.py:309-359 | The judgement on a cleanup: a recorded work is removed if and only if it is the path the caller names, if any, and gone or a real directory. |
| AttemptModel.CleanupAnswers | backend/priv_state.py:309-359 | A cleanup succeeds exactly on these judgements, and then work and record are gone; otherwise nothing changes. |
| AttemptModel.CleanupCanBeResumed | backend/priv_state.py:309-359 | However a cleanup is cut, the next one ends where the first would have; once more changes nothing. |
| AttemptModel.CompletedSweep | backend/priv_state.py:362-381 | A sweep removes exactly the cleanable stale attempts, trees and records, and reports exactly those it gave up on, in order. |
| AttemptModel.SweepIsRefusedIff | backend/priv_state.py:362-370 | A sweep is refused if and only if the directory of records is not in order, and changes nothing then. |
| AttemptModel.SweepLeavesActiveAndFailed | backend/priv_state.py:362-381 | The records left are the active attempts, the reported failures, names that are no attempt, and dangling links. |
| AttemptModel.CutSweepSparesActive | backend/priv_state.py:362-381 | However a sweep is cut off, every active attempt has its record, and the object that a valid record names, exactly as before. |
| AttemptModel.WorkNameInjective | backend/priv_state.py:210-221 | A work path belongs to one attempt of one kind. |
| AttemptModel.AttemptWork | backend/priv_state.py:284-306 | A work path is handed out if and only if the attempt's record is of this kind and names it, it is an existing private directory, and the caller's path, if any, is that path. |
| AttemptHost.PrivateDir.RecordAttempt | backend/priv_state.py:223-256 | The record is written only for a fresh canonical path without a record. |
| AttemptHost.PrivateDir.Cleanup | backend/priv_state.py:309-359 | Tree first, then record, each write in its place. |
| AttemptHost.PrivateDir.Sweep | backend/priv_state.py:362-381 | The loop of cleanups that collects the failures. |
| LogicalTree.U64RoundTrip | release/logical_tree.py:65-70 | Eight big-endian bytes give the number back. |
| LogicalTree.ValidatePath | release/logical_tree.py:73-104 | A path is accepted exactly if it is relative, canonical, portable and encodable, and its encoding is returned. |
| LogicalTree.EncodeTree | release/logical_tree.py:107-135 | A mapping is encoded exactly if all its items are valid, and then as the stream of its members by encoded path; the check for duplicate encodings never fires. |
| LogicalTree.ReadStreamInverts | release/logical_tree.py:22-37 | Reading a stream recovers its members, whatever bytes follow. |
| LogicalTree.DecodingRecoversTheMapping | release/logical_tree.py:107-135 | A decoder recovers every valid mapping from its stream. |
| LogicalTree.StreamDeterminesMapping | release/logical_tree.py:35-37 | Two valid mappings have the same stream if and only if they are the same mapping, however they were filled. |
| LogicalTree.NoStreamIsAPrefix | release/logical_tree.py:22-37 | No stream is a proper prefix of another. |
| Utf8.DecodeInverts | release/logical_tree.py:99-104 | Strict UTF-8 decoding inverts encoding (section 3 of RFC 3629). |
| Utf8.EncodeInverts | backend/env_file.py:91-94 | Only encodings are decoded: writing back a decoded text restores its bytes. |
| Capability.DecodeIsInverseOfPrint | backend/capability_required_decoder.py:45-81 | The decoder accepts exactly the printed forms of strictly ascending lists of non-empty identities without line feeds and carriage returns, and reads each back. |
| Capability.OneDocumentForEachSet | backend/capability_required_decoder.py:77-81 | Two canonical lists have the same document if and only if they are the same set. |
| Capability.NoOpExactlyIfContained | backend/capability_decision.py:45-62 | Adoption is a no-op if and only if the document is canonical and every identity in it is provided. |
| Capability.DecisionExact | backend/capability_decision.py:45-62 | The decision on any declaration, also when some candidates cannot be compared: no-op if and only if every identity is found, adoption if and only if one is missing before anything else stops the check, and else it fails closed, as for an absent or malformed declaration. |
| Capability.NoOpIsMonotone | backend/capability_decision.py:45-62 | Providing more never turns a no-op into an adoption. |
| QuietWindow.LongestCircularRun | backend/advisor/engine.py:196-217 | On a circle of any size: none exactly if no hour is marked; otherwise a marked run, no run is longer, and no earlier start has one as long. |
| Advisor.Round25 | backend/advisor/engine.py:76-78 | The nearest multiple of 25, halfway up. |
| Advisor.SuggestedLimitIsBounded | backend/advisor/engine.py:81-162 | A suggested limit is above the current one, at most the ceiling, and a bounded step away. |
| Advisor.BackOffExact | backend/advisor/engine.py:98-131 | Reducing the limit is advised if and only if a known metric exceeds its bound. |
| Advisor.GrowExact | backend/advisor/engine.py:133-183 | Raising the limit is advised, and strongly so, if and only if every one of the stated conditions on demand, headroom, temperature and cooldown holds. |
| Advisor.TargetExact | backend/advisor/engine.py:76-84 | The target is the limit and a step: the multiple of 25 nearest to its share, within the bounds of a step and the ceiling. |
| Advisor.AdviceIsMonotone | backend/advisor/engine.py:98-193 | Less load and more demand never cost a suggestion; more load never ends a warning. |
| Advisor.NextSuggestionWaits | backend/advisor/engine.py:87-168 | Between one suggestion and the next, with an unchanged limit, lies the cooldown, for any clock. |
| Advisor.SuggestionsAreApart | backend/advisor/engine.py:87-168 | Any two suggestions with an unchanged limit are at least the cooldown apart. |
| Advisor.SampleBuffer.Prune | backend/api/advisor.py:198-200 | Drops old samples at the front, and stops at the first one that is not old. |
| Advisor.SampleBuffer.Append | backend/api/advisor.py:203-219 | Keeps samples a throttle apart and within one window for any clock; a sample goes only by being too soon or too old. |
| Advisor.BufferIsBounded | backend/api/advisor.py:198-219 | (length - 1) throttles fit into the window. |
| Advisor.PruneKeepsPace | backend/api/advisor.py:198-200 | Pruning leaves exactly the samples within the window. |
| Lockout.Database.CheckLockout | backend/auth/lockout.py:155-189 | Locked exactly while the stored second is before the stored end. |
| Lockout.Database.RecordFailedAttempt | backend/auth/lockout.py:194-261 | One more failure; from the threshold on, a new end and an audit entry. |
| Lockout.Database.RecordSuccessfulLogin | backend/auth/lockout.py:266-286 | The record goes and the success is audited. |
| Lockout.Database.ClearLockout | backend/auth/lockout.py:289-345 | The unlock command removes the record if there is one, and audits that. |
| Lockout.Database.AuthenticateUser | backend/auth/login.py:156-235 | Each answer is given exactly in its case: not configured, wrong name, locked, wrong password, logged in; only the last two write. |
| Lockout.TryExact | backend/auth/login.py:156-235 | The tables after any login, spelled out: which logins count, what a failure and a success change, and that nothing else changes. |
| Lockout.SuccessStartsAnew | backend/auth/lockout.py:266-286 | After a success, again exactly the threshold-th failure locks. |
| Lockout.FailureRate | backend/auth/lockout.py:219-240 | Of logins that follow one another, without a success, n failed checks take at least n - threshold lockout periods on the stored clock. |
| Lockout.FailureRateExact | backend/auth/lockout.py:92-102 | Of such logins, the bound is missed by less than a second on the exact clock. |
| Lockout.ExactBoundIffWholeSecond | backend/auth/lockout.py:92-102 | For every configuration and every instant t: the exact bound holds of all such runs whose first failure is at t if and only if the lockout is zero or t is a whole second. |
| Lockout.BrokenSecondMisses | backend/auth/lockout.py:92-102 | For every threshold, every lockout and every first failure within a second, the run that misses the exact bound. |
| LockoutOverlap.RateBoundIffOneInFlight | backend/auth/lockout.py:175-243 | With check, read and write of a login as separate accesses, for every positive lockout: the bound holds of all runs with at most m logins in flight if and only if m is at most one. |
| LockoutOverlap.OverlappingFailuresCountOnce | backend/auth/lockout.py:217-243 | For every n, a run with n failed checks at one instant, after which one failure is on record. |
| LockoutOverlap.SingleLoginsAgree | backend/auth/login.py:211-231 | Taken one after the other, the separate accesses do what `authenticate_user` does, with one login in flight. |
| Lockout.LocksAtTheThreshold | backend/auth/lockout.py:211-240 | From a cleared account exactly the threshold-th failure locks. |
| Lockout.LockedLoginsChangeNothing | backend/auth/login.py:211-216 | While the account is locked, no login changes the record, so the lock ends on time. |
| Restore.RolledBackExactly | backend/backup/restore.py:253-313 | "Rolled back", wherever the failure struck: regular files have their old bytes, other sidecars are gone, any other file is as the application left it. |
| Restore.RollbackIsExactIffNoTraces | backend/backup/restore.py:253-313 | Every rolled-back restore leaves the directory as it was if and only if nothing is overwritten unsaved and no sidecar is a link (or no restore can be rolled back at all). |
| Restore.RollbackSucceeds | backend/backup/restore.py:253-268 | A rollback without failing writes succeeds exactly if no sidecar is a directory. |
| Restore.RestoredIff | backend/backup/restore.py:273-313 | A restore succeeds if and only if the backup is admitted, the checkpoint can be made, nothing is in the way of the application, no write fails and the database is sound; it raises exactly before the application, and changes nothing then. |
| Restore.RestoredExactly | backend/backup/restore.py:211-234 | A restored directory has the backup's database without sidecars, the merged settings, and the backup's configuration if it has one. |
| Restore.CheckpointSavesBytes | backend/backup/restore.py:178-204 | The checkpoint saves the bytes of exactly the regular files, `.env` through its text. |
| Restore.ConfigDir.Checkpoint | backend/backup/restore.py:178-204 | The loop over the five names; an unreadable `.env` stops it. |
| Restore.ConfigDir.Apply | backend/backup/restore.py:211-234 | Configuration, database, sidecars, settings, in this order, stopping at the first failure. |
| Restore.ConfigDir.Rollback | backend/backup/restore.py:253-268 | Saved files in their order, then the sidecars that were not saved. |
| Restore.ConfigDir.RestoreFrom | backend/backup/restore.py:273-313 | Nothing changes before the checkpoint is complete; a failed application is rolled back. |
| EnvMerge.MergeEnv | backend/backup/restore.py:141-174 | The loops compute the merged file. |
| EnvMerge.AssignmentExact | backend/backup/restore.py:149-153 | A line assigns a value to a key if and only if it is no comment and its first equals sign stands between them. |
| EnvMerge.LastAssignmentWins | backend/backup/restore.py:148-155 | A backup sets exactly the allowlisted keys it assigns, each to its last value. |
| EnvMerge.OtherLinesStay | backend/backup/restore.py:156-174 | The lines the backup has no say in stay verbatim and in order; at most a secret is added. |
| EnvMerge.BackupKeysAreSet | backend/backup/restore.py:156-174 | Every key the backup sets is assigned, and every line that assigns it is the backup's; a session secret is present. |
| EnvMerge.LinesKeepTheirPlaces | backend/backup/restore.py:156-166 | Every line of the live file keeps its place and its key. |
| EnvMerge.MergeIsIdempotent | backend/backup/restore.py:141-174 | Merging the same backup again changes nothing, whatever secret is at hand. |
| EnvFile.ReadExact | backend/env_file.py:53-102 | A text is read if and only if nothing is there, or a canonical file within bounds that encodes it. |
| EnvFile.WrittenIsRead | backend/env_file.py:53-165 | What is written is what is read back. |
| EnvFile.EnvPath.SetEnvKey | backend/env_file.py:170-190 | The file is rewritten exactly if the call is well-formed, the file readable and the result within bounds; otherwise it stays. |
| EnvFile.SetKeyIff | backend/env_file.py:175-176 | A replacement is accepted if and only if it starts with the key and ends in a line feed. |
| EnvFile.OnlyTheFirstLineChanges | backend/env_file.py:180-186 | The first line of the key is replaced; all text before and after it stays. |
| EnvFile.MissingKeyIsAppended | backend/env_file.py:187-190 | Without such a line it is appended, after a line feed if the file lacks one. |
| EnvFile.SettingTwiceIsSettingOnce | backend/env_file.py:170-190 | Setting a key to a single line is idempotent, for all line endings. |
| Text.ConcatKeepLines | backend/env_file.py:180-190 | Lines with their endings are the text. |
| Text.SplitEndLines | backend/backup/restore.py:174 | Lines without breaks, each ended by a line feed, are split again as they were. |
| RyveFrame.ParseFrame | backend/conduit/ryve.py:101-139 | The loop over the header lines computes the parse. |
| RyveFrame.FrameRoundTrip | backend/conduit/ryve.py:22-28 | Every documented frame is parsed to its claim, for all newline-free ASCII names and all images with the PNG signature, blank lines inside the image included, if and only if the length is below 10^4300, as far as `int` reads digits. |
| RyveFrame.AcceptedFrame | backend/conduit/ryve.py:101-139 | A frame is accepted if and only if its header, up to the first blank line, begins with the version and announces exactly the length of the body, and the body has the PNG signature; the claim is the two names and the body. |
| RyveFrame.AcceptedIsCut | backend/conduit/ryve.py:107-111 | Every accepted frame is a header, the first blank line, and the image. |
| RyveFrame.FieldsExact | backend/conduit/ryve.py:117-121 | A field is set if and only if a line sets it before its first colon and space, and its last line gives the value. |
| RyveFrame.NoFrameIsAPrefix | backend/conduit/ryve.py:104-107 | Neither trailing bytes nor a short image are accepted. |
| RyveFrame.PrintIsParsed | backend/conduit/ryve.py:123-130 | A printed length is parsed back if and only if it is below 10^4300, and refused otherwise. |
| RyveFrame.NumeralIsRead | backend/conduit/ryve.py:125-128 | A numeral, with a sign and spaces around it or not, is read as its value, unless it has too many digits. |
| RyveFrame.ReadIsNumeral | backend/conduit/ryve.py:125-128 | Nothing else is read as a length. |
| RyveFrame.SeparatorsAreNotSkipped | backend/conduit/ryve.py:123-130 | A length after a separator that `strip` would take is refused. |
| LineEndings.ToLfIsCanonical | release/canonical_bytes.py:31-33 | The result has no carriage return, and files without one are exactly the fixed points. |
| LineEndings.TwoPassesAreOne | release/canonical_bytes.py:31-33 | The two replacements are one pass over the bytes. |
| LineEndings.RuleKeepsLines | release/ccc_release.py:1315-1316 | Normalising a file changes none of its decoded lines, even where the bytes are not UTF-8. |
| CanonicalTree.ParseGitattributes | release/ccc_release.py:1305-1334 | The loops compute the rules, line by line and token by token. |
| CanonicalTree.LastTokenWins | release/ccc_release.py:1319-1331 | The last explicit token of a line decides, wherever `eol=` stands; `eol=` implies text only without one, and the last `eol=` counts; other tokens say nothing. |
| CanonicalTree.LinesWithARule | release/ccc_release.py:1315-1333 | A line gives a rule if and only if it is neither blank nor a comment and has a token that says something: its first word, with what its last tokens say. |
| CanonicalTree.RulesInOrder | release/ccc_release.py:1305-1334 | The rules of a text are those of its lines, in their order. |
| CanonicalTree.WordsExact | release/ccc_release.py:1319 | A line is divided at its spaces: space is skipped, and a word goes on to the next space or the end. |
| CanonicalTree.MatchesExact | release/ccc_release.py:1337-1348 | A pattern with a slash is matched against the path, without a leading slash of its own; one without, against the last part of the path. |
| CanonicalTree.AttrsFor | release/ccc_release.py:1351-1357 | Per attribute, the last matching rule wins. |
| CanonicalTree.LastRuleWins | release/ccc_release.py:1351-1357 | A file is declared as the last matching rule that says so declares it, and not declared if no rule does. |
| CanonicalTree.LastEolWins | release/ccc_release.py:1351-1357 | The line ending is that of the last matching rule with one. |
| CanonicalTree.CanonicalizeTree | release/ccc_release.py:1385-1399 | Every file in its canonical form under the rules of the tree. |
| CanonicalTree.EveryFileAsDeclared | release/ccc_release.py:1360-1399 | Every file of the tree: byte for byte if the last deciding rule says binary, with LF line endings if it says text, and otherwise with LF line endings unless a zero byte stands in its first 8192 bytes. |
| CanonicalTree.RulesSurvive | release/ccc_release.py:1385-1399 | Canonicalising the file of the rules does not change the rules. |
| CanonicalTree.CanonicalizingIsIdempotent | release/ccc_release.py:1385-1399 | Canonicalising is idempotent on every tree, also where a shorter file is classified differently. |
| CanonicalTree.LineEndingsDoNotMatter | release/ccc_release.py:1370-1399 | Trees that differ only in the line endings of declared text files have one canonical form. |
| CanonicalTree.SniffedVariants | release/ccc_release.py:1360-1382 | Line-ending variants of an undeclared file agree if and only if they are equal or both settled. |
| Sha256Sums.CheckSums | release/transfer_manifest.py:186-222 | A file is accepted if and only if it is the one canonical text for the wheels and every name can be listed. |
| Sha256Sums.PlainNamesAreClean | release/transfer_manifest.py:201-206 | Names without whitespace and path separators can be listed. |
| Sha256Sums.ParsedIsLine | release/transfer_manifest.py:198-206 | A line is accepted only as a digest, two spaces and a bare name. |

## Left out

- File system metadata: owners, modes, link counts, inode checks and durability flushes. Each rename, unlink and atomic record write is one durable step, and the gates on trees and directories are verdicts carried by the objects. In particular a rolled-back restore leaves checkpointed files with the mode of their copies.
- Removal of a tree is two steps, a torn tree and no tree; what is in a torn tree is arbitrary.
- Subprocesses (virtual environments, package installation, import smoke tests, integrity checks): their outcome is a parameter of the call.
- JSON text, hashing, signatures and archives: records are datatypes and digests are given values.
- Operations of the runtime store run one at a time, as the updater's lock has it.
- Other Pythons: the digits of `\d` are those of Unicode 14.0, as in Python 3.11, and `int` has its default limit of 4300 digits.
- UpdateJournal.EveryRunIsReadable: documents whose fields have the wrong JSON type are represented by the unreadable file.
- BootstrapReserve.CeremonyKeepsConsistent: of the ceremony only the record and the work directory are modelled.
- AttemptModel.UnrecordedObjectsAreNeverTouched: the creation of work trees is modelled as the worker does it, after its record.
- LockoutOverlap.RateBoundIffOneInFlight: the overlapping logins are those with a wrong password; a success or an unlock among them, and a change of the configuration, are not modelled.
- Advisor.SuggestionsAreApart: percentages are real numbers; the sustained-headroom gate and the other two advice domains are not modelled.
- LogicalTree.EncodeTree: the digest itself is not modelled; the encoding is what it is computed from.
- EnvMerge.MergeEnv: the backup's settings are given as decoded text.
- CanonicalTree.CanonicalizeTree: glob matching is a parameter.
- Sha256Sums.CheckSums: the directory check that yields the wheel names is its input contract, not modelled.
- Capability.DecodeIsInverseOfPrint: arguments that are neither absent nor bytes raise in the source and are not modelled.
- The quiet window's medians and thresholds, the wording of advice, web routes, configuration loading, and the checks of manifests and provenance, which would add many single-branch members.
