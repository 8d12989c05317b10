# Verified model of the one-way mirror engine

The program mirrors local directory trees to Yandex Disk. A run scans each configured root,
lists the remote (or reads a cached inventory), plans what to create, upload and delete, and
carries the plan out in three phases while the local tree may change and the user may cancel.
This project models that engine in Dafny and proves what it keeps: deletes stay inside the managed
root and, for names without backslashes that do not end in white space, reach nothing live; a clean
run leaves the remote equal to the local tree, and a second run has nothing to do.

`dafny verify dfyconfig.toml` checks the whole project.

## Structure

| file | models |
|---|---|
| Sorting.dfy, Paths.dfy, PathText.dfy | paths as sequences of segments, and why the text comparisons of the program are the segment relations |
| PathMapping.dfy | sanitising of remote paths, with the exact conditions under which it works segment by segment |
| LocalNames.dfy, NameMapping.dfy | the relative path of a local entry, and where it is stored, as the program computes both on the text |
| LiveScan.dfy, LiveSet.dfy | the live view of a root with its tombstones, and the set of live remote paths |
| DeletePlan.dfy, DeleteSafety.dfy | coalesced deletes as a loop with suppression lists, against the plain rule "the topmost dead prefix of each extra" |
| RootPlan.dfy, UploadBatch.dfy | the plan of a root, and the splitting of the upload queue |
| Remote.dfy, RootRun.dfy | the remote, requests, traces, and the three phases of a root with arbitrary outcomes, completion orders, cancellations and local changes |
| Mirror.dfy, RootExecution.dfy | the mirror theorem, and the execution of roots with all guards and the shared quota |
| Scanner.dfy, Fixpoint.dfy | the scan, the reuse of fingerprints, and the fixpoint theorem |
| Walk.dfy | the concurrent, paged, pruned listing, against the filter of the in-memory client |
| Cache.dfy | the cached inventory and its soundness over all histories |
| LegacyDeletes.dfy, Migration.dfy, MigrationUpload.dfy | the migration from legacy roots: moves, deletes, quota, resuming |
| RunLock.dfy, Runtime.dfy | the run lock and the single-flight runtime over all interleavings |

A root run is an object whose ghost state is the summary of its trace, the remote the trace
leads to and what was written to the file-state table. Every event is recorded by one method that
demands the condition under which the event is allowed, for a guard that the checked fact holds, so
the gating of deletes and the order of creates hold on every trace.
Outcomes of requests, the order in which tasks finish, cancellations and the state of the local
file system are arbitrary; what has vanished when an entry is looked up is a parameter of the run.

## What does not hold, and exactly when it does

- Delete safety depends on names. Nothing live is deleted, whatever the remote holds, exactly if the
  live set is ancestor-closed (`LiveSet.AlwaysSafeIff`): if every proper prefix under which a live
  entry is stored is a reported directory with a plain name, and only then unless another entry is
  stored in the place of such a directory (`LiveSet.KnownClosed`, `LiveSet.KnownClosedIff`).
  - A name with backslashes is split at them (`LocalNames.RelShape`), and no directories are reported
    for its parts: for a file named `a\b` a live file is lost (`Scanner.BackslashNameLosesData`).
  - The whole remote text of an entry is trimmed, so a directory whose name ends in white space is
    stored under a shorter name than the one in the paths of its content
    (`NameMapping.MappingIsImage`, `NameMapping.PlainIff`): for the directory `a ` with a file in it
    a live file is lost (`Scanner.SpacedNameLosesData`).
  - Trees without such names are safe (`Scanner.PlainTreeIsClosed`). For all names deletes stay inside
    the root (`RootExecution.RunStaysInside`).
- Parents are created before children exactly if each live directory hangs from one above it
  (`RootPlan.PlannedCreatesClosedIff`); not so below the directory `a ` (`RootPlan.SpacedParent`).
- An entry whose relative text is blank, as for a top-level name of white space only or of
  backslashes only, is stored at the managed root itself (`NameMapping.AtRootIff`).
- Pruning the listing at tombstones hides extras when two names sanitise alike
  (`LiveSet.TombstonePruningIff`, `LiveSet.PruningAcrossCollision`).
- Sanitising is not idempotent for names that end in white space after filtering
  (`PathMapping.SanitizeIdempotentIff`).
- The remote prefix recorded for a vanished ancestor is wrong as soon as the entry or the ancestor is
  not stored under its own name (`LiveScan.MissingRemotePrefixIff`, `LiveScan.MissingPrefixWrong`).
- A stop error of an upload is ignored when the file's subtree has vanished in the meantime; the
  deletes then go ahead (`Remote.NoStopAnswerIff`, `Remote.ExcusedStopStillDeletes`).
- A skipped upload is recorded as if it had been done and is not repeated while the remote has any
  file at that path (`Fixpoint.SkippedUploadRetriedIff`).
- A second run may find work when a file has 2^63 bytes or more (`Fixpoint.RecordMatchesIff`), or
  when an empty file without modification time could not be fingerprinted and its path was marked
  as deleted (`Fixpoint.RevivedIff`, `Fixpoint.EmptyFileRevived`), or when a file that cannot be
  fingerprinted shares its relative path with another; otherwise it finds none.
- The 64-bit sum of planned upload sizes can wrap, and then the quota check means nothing
  (`RootExecution.QuotaCheckRightIff`, `RootExecution.QuotaCheckWraps`); in a migration
  the saturating sum is exact below the maximum (`MigrationUpload.FitsQuotaIff`).
- A directory whose listing reports no total is read up to its first page only
  (`Walk.MissingTotalIff`).
- If any directory vanishes while the remote is listed, the whole listing is dropped and everything
  is created and uploaded again (`Walk.FetchInventory`, `Walk.VanishedPlansEverything`).
- A small file without a remote digest that was adopted by comparing contents is compared again by the
  next run (`MigrationUpload.AdoptedIsResumedIff`).
- Removing a cached subtree removes exactly the subtree if the prefix holds no wildcard and no row
  lies under another spelling of it (`Cache.SubtreeExactIff`, `Cache.SubtreeDeleteTakesMore`,
  `Cache.OtherSpellingRemoved`); the cache stays sound in any case.
- Legacy roots that are not disjoint from the canonical root can lose live data
  (`LegacyDeletes.SparesLiveIff`, `LegacyDeletes.NestedLegacyRootLosesData`).
- Acquiring the lock is two statements; an attempt misses a free lock exactly if the holder released
  it between them (`RunLock.AttemptFailsIff`, `RunLock.FreeLockMissedIff`).
- A run never renews its lock, so it can be displaced while it runs, exactly after the stale limit;
  the default owners are distinct, and must be (`RunLock.SameOwnerReleasesOther`).

## Model

| member | source | states |
|---|---|---|
| PathText.TextUnder | crates/yds-sync/src/lib.rs:282-289 | for non-empty paths whose segments hold no slash, empty segments included, equality or `strip_prefix` followed by a leading slash is exactly the segment-prefix relation |
| PathText.TextStrictlyUnder | crates/yds-sync/src/lib.rs:1970-1980 | `starts_with(prefix + "/")` is exactly the proper-descendant relation |
| PathText.TextInjective | crates/yds-sync/src/lib.rs:1812-1831 | two clean paths with the same text are the same path, so sets of texts are sets of paths |
| PathText.DepthIsSlashCount | crates/yds-sync/src/lib.rs:1722-1730 | the slash count used as a sort key is the depth of the path |
| PathText.TextOrders | crates/yds-sync/src/lib.rs:1722-1730 | on the texts the sort keys are the number of slashes, then the text itself |
| Sorting.StringLeqIff | crates/yds-sync/src/lib.rs:1722-1730 | texts are ordered by the first place where they differ, a prefix first |
| PathText.SplitText | crates/yds-core/src/path_mapping.rs:49-60 | splitting at slashes undoes joining, for every clean path |
| PathText.PathOrders | crates/yds-sync/src/lib.rs:1722-1730 | the three sort keys are total preorders, so the sorts are well defined |
| PathMapping.SanitizeIsSegmentwiseIff | crates/yds-core/src/path_mapping.rs:41-60 | sanitising a whole remote text equals sanitising its segments one by one if and only if the white space trimmed from the end holds nothing that sanitising keeps |
| PathMapping.SanitizeIdempotentIff | crates/yds-core/src/path_mapping.rs:41-60 | a sanitised path survives a second pass unchanged if and only if it does not end in white space |
| PathMapping.SanitizedOutput | crates/yds-core/src/path_mapping.rs:116-127 | a successful result has no empty segment and no reserved or control character |
| PathMapping.WhitespaceIff | crates/yds-core/src/path_mapping.rs:49-50 | the characters trimmed from the ends of a remote path are the 25 with the Unicode property White_Space |
| PathMapping.SurroundingSpace | crates/yds-core/src/path_mapping.rs:49-50 | such a character before or after a remote path changes nothing |
| PathMapping.InvalidRootIff | crates/yds-core/src/path_mapping.rs:49-58 | a trimmed text is refused as a remote path if and only if it does not begin with "disk:/" or nothing follows but slashes |
| PathMapping.FirstEmptySegment | crates/yds-core/src/path_mapping.rs:60-127 | if a segment holds nothing to keep, the error names the first such segment |
| PathMapping.SanitizeNotIdempotent | crates/yds-core/src/path_mapping.rs:49-60 | concrete name for which sanitising twice differs from sanitising once |
| LocalNames.RelShape | crates/yds-scanner/src/lib.rs:915-921 | the relative path of a local entry holds no slash or backslash in its segments, and is empty or begins and ends with a name |
| LocalNames.OrdinaryRel | crates/yds-scanner/src/lib.rs:915-921 | without backslashes the relative path is the local one |
| LocalNames.AncestorRel | crates/yds-sync/src/lib.rs:2045-2056 | the relative path of an ancestor is a prefix, unless it is empty, so coverage by its tombstone reaches the entry |
| LocalNames.BackslashNames | crates/yds-scanner/src/lib.rs:915-921 | a file named `a\b` has the relative path a/b, and one named `\` the empty one |
| NameMapping.MappingIsImage | crates/yds-scanner/src/lib.rs:903-913 | for every local entry, whatever its names, the text the program computes is the managed root followed by the image of the relative path, and mapping fails exactly if some segment of the trimmed path sanitises to nothing |
| NameMapping.TextIsImage | crates/yds-scanner/src/lib.rs:903-913 | the same for every relative text given to the mapping, backslashes included |
| NameMapping.RelativeMappingIff | crates/yds-scanner/src/lib.rs:903-913 | a relative text is stored as the managed root plus its sanitised segments if and only if the white space trimmed from the end holds nothing that sanitising keeps |
| NameMapping.PlainIff | crates/yds-core/src/path_mapping.rs:41-60 | an entry is stored segment by segment if and only if its name is not blank and its trailing white space holds nothing that sanitising keeps |
| NameMapping.PlainText | crates/yds-core/src/path_mapping.rs:41-60 | the same condition on the text: reducing the trailing white space of the remote text leaves nothing |
| NameMapping.AtRootIff | crates/yds-scanner/src/lib.rs:903-913 | a local entry is stored at the managed root itself if and only if its relative text is blank, as for a top-level name of white space only or of backslashes only |
| LiveScan.LiveScanPlan.FromScanReport | crates/yds-sync/src/lib.rs:232-271 | coverage is exactly what lies at or under a vanished scanned directory; what is not covered is retained; a retained directory is covered only by a vanished one with the same relative path; tombstones are scanned directories |
| LiveScan.LiveScanPlan.AddDeletedSubtree | crates/yds-sync/src/lib.rs:311-327 | coverage grows by exactly the new subtree, or the subtree was covered and nothing changes; the list stays a sorted antichain |
| LiveScan.LiveScanPlan.RegisterMissingLocalPath | crates/yds-sync/src/lib.rs:291-309 | something is registered if and only if the directory of the entry is missing, the relative path of the missing ancestor found is not empty and it was not covered; coverage then grows by exactly that subtree, which holds the entry |
| LiveScan.NearestMissingDirectory | crates/yds-sync/src/lib.rs:2071-2091 | the search ends; it finds a directory if and only if the start is not the root and is missing, and then the one above which the first present ancestor lies |
| LiveScan.NearestIsTopmost | crates/yds-sync/src/lib.rs:2071-2091 | in a prefix-closed file system the directory found is the topmost missing one |
| LiveScan.TopmostGone | crates/yds-sync/src/lib.rs:2038-2091 | if the directory of an entry is missing from a prefix-closed file system, the topmost missing directory is registered, unless its relative path is empty |
| LiveScan.NothingGone | crates/yds-sync/src/lib.rs:2038-2056 | an entry whose directory is present registers nothing |
| LiveScan.MissingRemotePrefixIff | crates/yds-sync/src/lib.rs:2038-2069 | the remote prefix recorded for an ancestor is where the ancestor is stored if and only if it is the entry itself or entry and ancestor are both stored under their own names |
| LiveScan.MissingPrefixWrong | crates/yds-sync/src/lib.rs:2038-2069 | two entries with a wrong prefix: a file below the directory "a ", and a file "f " below "a" |
| LiveScan.LiveFilesMembers | crates/yds-sync/src/lib.rs:264-268 | the retained files are exactly the scanned files that no tombstone covers |
| LiveSet.RetainedClosed | crates/yds-sync/src/lib.rs:232-271 | what is not covered is retained, and closure of the scan survives the constructor |
| LiveSet.KnownClosed | crates/yds-sync/src/lib.rs:1812-1831 | if every proper prefix under which a live entry is stored is a reported directory with a plain name, the live set is ancestor-closed, whatever tombstones a run adds |
| LiveSet.LivePlanIsSafe | crates/yds-sync/src/lib.rs:1812-1953 | under that condition no planned delete is a live path or an ancestor of one |
| LiveSet.KnownClosedIff | crates/yds-sync/src/lib.rs:1812-1831 | if no other entry is stored where an ancestor of a live entry would be, the live set is ancestor-closed if and only if those ancestors are reported directories with plain names |
| LiveSet.AlwaysSafeIff | crates/yds-sync/src/lib.rs:1912-1940 | no remote whatsoever makes the plan delete live data if and only if the live set is ancestor-closed |
| LiveSet.TombstonePruningIff | crates/yds-sync/src/lib.rs:273-279 | the listing pruned at the tombstones yields the deletes of the full one if and only if every tombstone that hides an extra is dead on the remote |
| LiveSet.TombstonePruningLosesNothing | crates/yds-sync/src/lib.rs:273-279 | for names that are injective across the tombstones that condition holds, and the deletes are those of the full listing |
| LiveSet.PruningAcrossCollision | crates/yds-sync/src/lib.rs:273-279 | concrete names that sanitise alike, for which pruning hides an extra |
| LiveSet.LocalRemoteCollision | crates/yds-sync/src/lib.rs:1732-1756 | reports a collision if and only if two entries share a normalised remote path |
| LiveSet.NoCollisionDistinctRemotes | crates/yds-sync/src/lib.rs:1732-1756 | without a collision all remote paths are distinct, also between files and directories |
| DeletePlan.CollectCoalescedDeletes | crates/yds-sync/src/lib.rs:1842-1953 | the emitted paths are exactly the targets of the plain rule, each once, deepest first, with the right relative path and kind |
| DeletePlan.Consider | crates/yds-sync/src/lib.rs:1856-1940 | one turn of the loop keeps the emitted paths equal to the targets of the entries seen and the suppression list topmost, dead and emitted |
| DeletePlan.TopMissingDirectoryPrefix | crates/yds-sync/src/lib.rs:1955-1985 | the ancestor scan returns the first dead proper prefix, or none exactly if the entry is its own target |
| DeletePlan.TargetFacts | crates/yds-sync/src/lib.rs:1955-1985 | a target lies strictly inside the root, at or above its entry, with no dead ancestor |
| DeletePlan.CandidateIff | crates/yds-sync/src/lib.rs:2179-2203 | a listed path may be deleted if and only if it lies strictly inside the root and none of its segments below the root is "disk:" up to case; its relative path is what follows the root, and a refusal gives the reason the program gives |
| DeletePlan.AsciiCase | crates/yds-sync/src/lib.rs:2196-2199 | comparing up to case folds exactly the 26 capital letters |
| DeletePlan.PhantomsAreIgnored | crates/yds-sync/src/lib.rs:2194-2200 | entries with such a segment make nothing a target: the targets are those of the inventory without them |
| DeletePlan.PhantomInputs | crates/yds-sync/src/lib.rs:2194-2200 | for the listed entries disk:/r/disk: and disk:/r/a/DISK:/x nothing is deleted |
| DeleteSafety.SafeIff | crates/yds-sync/src/lib.rs:1912-1940 | the planner spares live data if and only if no extra entry has a live path below it |
| DeleteSafety.ClosedIsSafe | crates/yds-sync/src/lib.rs:1842-1953 | an ancestor-closed live set is always spared |
| DeleteSafety.TargetsAreTopmostMissing | crates/yds-sync/src/lib.rs:1842-1985 | the deletes are exactly the topmost dead prefixes with an extra at or under them |
| DeleteSafety.TargetsAntichain | crates/yds-sync/src/lib.rs:1842-1953 | no delete covers another |
| DeleteSafety.TargetsCover | crates/yds-sync/src/lib.rs:1842-1953 | every valid extra is covered by a delete |
| DeleteSafety.TargetsInside | crates/yds-sync/src/lib.rs:2179-2203 | every delete lies strictly inside the managed root, for any inventory |
| DeleteSafety.PruningLosesNoDeletesIff | crates/yds-yandex-disk/src/lib.rs:473-492 | a listing pruned at given prefixes yields the same deletes as the full one if and only if every prefix that hides an extra is dead |
| RootPlan.BuildRootPlan | crates/yds-sync/src/lib.rs:1647-1720 | creates are the root and live directories that are not remote directories, uploads the live files that need it, deletes the coalesced targets |
| RootPlan.PlannedCreatesClosedIff | crates/yds-sync/src/lib.rs:1673-1684 | parents are planned before children, whatever the remote holds, if and only if the parent of each live directory strictly inside the root is stored at the root or is the remote path of a live directory above it |
| RootPlan.ClosedParents | crates/yds-sync/src/lib.rs:1673-1684 | that holds if the proper prefixes under which directories are stored are reported directories with plain names |
| RootPlan.SpacedParent | crates/yds-sync/src/lib.rs:1673-1684 | for a directory "a " with a directory in it, the create of the latter is planned and nothing at its parent |
| Remote.GatedMeans | crates/yds-sync/src/lib.rs:567-743 | before each permanent delete all five guards have passed and the fact behind each holds, every request has been answered, and there was no cancellation, no abort and no unexcused authorisation, quota or critical error; on a cached inventory the last event is the successful check of that path |
| Remote.InterruptedIff | crates/yds-sync/src/lib.rs:2126-2133 | a trace counts as ended early if and only if it holds a cancellation, or an answer not excused that is an abort or an authorisation, quota or critical error |
| Remote.ParentsFirstMeans | crates/yds-sync/src/lib.rs:969-1102 | a directory create is issued only when its parent is a directory of the inventory or its create has been answered |
| Remote.EmitKeeps | crates/yds-sync/src/lib.rs:567-743 | an event that meets its condition, which for a guard is that it holds, keeps gating, the truth of the passed guards and parent order |
| Remote.NoStopAnswerIff | crates/yds-sync/src/lib.rs:1197-1212 | a delete follows a trace free of stop errors if and only if no stop error was excused by a vanished subtree |
| Remote.ExcusedStopStillDeletes | crates/yds-sync/src/lib.rs:1197-1212 | concrete trace: an upload fails for want of authorisation, its subtree has vanished, and the deletes go ahead |
| Remote.OutstandingMeaning | crates/yds-sync/src/lib.rs:1037-1096 | a request that is not outstanding has been answered |
| Remote.InsertedMeaning | crates/yds-yandex-disk/src/lib.rs:1339-1378 | the entries a trace inserted are those of its successful creates and uploads |
| RootRun.Run.Emit | crates/yds-sync/src/lib.rs:567-743 | recording an event keeps the run valid: summary and remote are those of the trace; the file-state table was written to exactly by the events that must write to it: files uploaded or skipped unexcused are recorded, deleted files are marked; gating, true guards and parent order hold |
| RootRun.Run.RegisterMissing | crates/yds-sync/src/lib.rs:1006-1014 | a tombstone is added if and only if an ancestor is missing at that moment and its subtree was not covered; it covers the entry, and coverage never shrinks |
| RootRun.Run.TakeCreateBatch | crates/yds-sync/src/lib.rs:998-1018 | at most `limit` directories; those taken are still there when asked, the others are under a tombstone; if parents are planned first every parent is ready |
| RootRun.Run.JoinCreates | crates/yds-sync/src/lib.rs:1037-1096 | joined in any order; without a stop error nothing is outstanding and all are answered |
| RootRun.Run.ApplyCreateDirectories | crates/yds-sync/src/lib.rs:969-1102 | only planned creates of directories still there are issued; unless stopped by an error or a cancellation, each planned create is answered or its missing ancestor has a tombstone |
| RootRun.Run.JoinUpload | crates/yds-sync/src/lib.rs:1163-1272 | counts the bytes of a success and records the file in the file-state table; a failure stops the phase if and only if it is an abort or an authorisation, quota or critical error and no missing ancestor excuses it; a file that failed is recorded exactly if it was skipped and not excused |
| RootRun.Run.ApplyUploads | crates/yds-sync/src/lib.rs:1104-1279 | only planned uploads of files still there are issued, in rounds of at most the configured number and one large file; bytes counted are those uploaded, bytes issued at most those planned; unless stopped, each file is answered or its missing ancestor has a tombstone |
| RootRun.Run.CheckCached | crates/yds-sync/src/lib.rs:1317-1359 | a delete on a cached inventory goes ahead only after a successful check; a path that is not there counts as deleted |
| RootRun.Run.ApplyDeletes | crates/yds-sync/src/lib.rs:1282-1441 | deletes and checks only the targets; unless stopped, all of them; if nothing fails, with paths not found counted as success, exactly their subtrees are gone |
| RootRun.RemoveStep | crates/yds-yandex-disk/src/lib.rs:1507-1540 | deleting one more target removes exactly one more subtree |
| RootRun.ParentsSettled | crates/yds-sync/src/lib.rs:2093-2099 | once all shallower creates are handled, each parent at the next depth is ready or tombstoned |
| Mirror.MirrorTheorem | crates/yds-sync/src/lib.rs:567-743 | after an undisturbed run on a fresh listing whose pruning hides nothing under a live path, on a remote without extras that have a live path below them, the remote under the root is exactly the root, the live paths with their kinds, and phantom entries outside deleted subtrees; outside the root nothing changed; each live file was uploaded or already there with a reused fingerprint |
| Mirror.NewFileIsMirrored | crates/yds-sync/src/lib.rs:567-743 | the premises of the theorem are met, and its conclusion holds, for a new file at the top of any well-formed managed root |
| Mirror.TargetsRemovable | crates/yds-sync/src/lib.rs:1842-1953 | each target is a directory or has nothing below it when the deletes start |
| Mirror.FreshTargets | crates/yds-sync/src/lib.rs:791-823 | the deletes planned from the fresh pruned listing are those of the whole remote |
| RootExecution.PrepareRoot | crates/yds-sync/src/lib.rs:567-672 | the plan is made if and only if the root is present, scanned, free of collisions, listed and within the quota; the run stops exactly on a stop error of the inventory or the quota |
| RootExecution.ExecuteRoot | crates/yds-sync/src/lib.rs:567-743 | a run happens if and only if all guards pass; it ends early if and only if it was cancelled or got an unexcused abort or authorisation, quota or critical error; whatever happens it is gated, deletes strictly inside the root only and leaves the outside alone; if no extra has a live path below it, it deletes only dead paths and keeps live ones; uploads started stay within the quota; a clean run mirrors |
| RootExecution.RunRoot | crates/yds-sync/src/lib.rs:688-743 | the phases in order, with the same guarantees for the run object |
| RootExecution.RunPhases | crates/yds-sync/src/lib.rs:688-742 | a phase ends early only if the run got a stop error or a cancellation; otherwise everything planned was answered or its missing ancestor has a tombstone, and it is done if nothing failed |
| RootExecution.LiveKept | crates/yds-sync/src/lib.rs:1282-1441 | a path that no delete is at or above survives every trace |
| RootExecution.OutsideUntouched | crates/yds-sync/src/lib.rs:567-743 | whatever a root does, paths outside it keep their state |
| RootExecution.RunStaysInside | crates/yds-sync/src/lib.rs:1282-1441 | for all names: every issued delete lies strictly inside the root, and nothing outside changes |
| RootExecution.RunSparesLive | crates/yds-sync/src/lib.rs:1282-1441 | if no extra of the inventory has a live path below it, every issued delete is dead for the final live set, and live paths are kept |
| RootExecution.DeletesAreGuarded | crates/yds-sync/src/lib.rs:567-672 | when a run issues a delete, its root is present and scanned, free of collisions, listed and within the quota, and each of these checks is in the trace before |
| RootExecution.ViewIsLivePlan | crates/yds-sync/src/lib.rs:230-327 | a plan free of collisions, with no retained entry tombstoned and no file stored at the root, meets the premises of the mirror theorem |
| RootExecution.PlannedWithin | crates/yds-sync/src/lib.rs:665-682 | the quota check bounds the planned bytes as long as the scanned bytes fit 64 bits |
| RootExecution.PlannedBytesExactIff | crates/yds-sync/src/lib.rs:1531-1540 | the 64-bit sum of the planned sizes is the true one if and only if that is below 2^64 |
| RootExecution.QuotaCheckRightIff | crates/yds-sync/src/lib.rs:665-682 | the quota check bounds the true sum if and only if the sum is below 2^64 or the check fails; for every limit if and only if the sum is below 2^64 |
| RootExecution.QuotaCheckWraps | crates/yds-sync/src/lib.rs:1531-1540 | a scanned tree of two files of 2^63 bytes each, whose planned sum wraps to zero and passes every limit |
| RootExecution.ExecuteRun | crates/yds-sync/src/lib.rs:424-489 | all roots in order, each with what earlier ones left of the quota and of the disk, and each with all that holds of one root; the run ends before the last root if and only if a root stops it or a cancellation is seen; uploaded bytes plus what is left equal what was available; what a root leaves at a path outside all later roots stays; outside all roots nothing changes |
| Scanner.ScanRoot | crates/yds-scanner/src/lib.rs:463-577 | for every order of the walk the report holds exactly the live entries reached: not excluded, mappable, readable, not too large |
| Scanner.HandleWalkEntry | crates/yds-scanner/src/lib.rs:463-577 | one entry adds exactly itself if it is live and descends exactly into directories that are not excluded |
| Scanner.WalkReaches | crates/yds-scanner/src/lib.rs:463-577 | the walk has visited an entry if and only if it descends into all its ancestors |
| Scanner.ReportIsClosed | crates/yds-scanner/src/lib.rs:463-577 | entries carry the relative paths of their local ones and are stored under their images; without backslashes in names every ancestor with a plain name is a reported directory |
| Scanner.ReportedIff | crates/yds-scanner/src/lib.rs:463-577 | a directory is reported if and only if it is mappable and neither it nor anything above it is excluded; a file only if it is also readable and not too large, and then always if it can be staged and hashed |
| Scanner.ReusedIff | crates/yds-scanner/src/lib.rs:652-677 | below 2^63 bytes a fingerprint is taken from the table if and only if the row has the size, the modification time and the normalised path of the file now |
| Scanner.NewFingerprint | crates/yds-scanner/src/lib.rs:679-729 | otherwise the file was staged, and its fingerprint is the digest of its content, or of its metadata if it is large |
| Scanner.PlainTreeIsClosed | crates/yds-scanner/src/lib.rs:463-577 | for a tree without backslashes in names and with plain directory names the live set is closed, whatever vanishes |
| Scanner.SpacedNameLosesData | crates/yds-scanner/src/lib.rs:903-913 | a scanned tree, the directory "a " with a file in it, for which the planner deletes a remote directory with the live file below it |
| Scanner.BackslashNameLosesData | crates/yds-scanner/src/lib.rs:915-921 | a scanned tree, the one file `a\b`, for which the planner deletes a remote directory "a" with the live file below it |
| Scanner.SizeRoundTripIff | crates/yds-scanner/src/lib.rs:652-655 | a size stored saturating and compared wrapping matches itself if and only if it is below 2^63 |
| Scanner.WrapRange | crates/yds-scanner/src/lib.rs:652-655 | the size now is compared as a signed 64-bit number that differs from it by a multiple of 2^64 |
| Fixpoint.RecordMatchesIff | crates/yds-sync/src/lib.rs:1774-1798 | a recorded file is recognised by the next scan if and only if its size is below 2^63 |
| Fixpoint.StateKept | crates/yds-state/src/lib.rs:834-865 | upserts and deletion marks of a run leave a recorded file recognisable |
| Fixpoint.ChangedFileIsUploaded | crates/yds-scanner/src/lib.rs:652-677 | after a run recorded a file, a scan that finds it with another size below 2^63 or another modification time gives it a new fingerprint and its upload is planned, whatever the remote holds |
| Fixpoint.RecordedFingerprint | crates/yds-scanner/src/lib.rs:652-677 | if neither has changed, the recorded fingerprint comes back as it was |
| Fixpoint.RescanReuses | crates/yds-scanner/src/lib.rs:652-677 | after a run that recorded its uploads the second scan finds the same files and reuses every fingerprint, if sizes are below 2^63 and a file that cannot be fingerprinted is not empty or has a modification time, and shares its relative path with no other |
| Fixpoint.SameLiveFile | crates/yds-scanner/src/lib.rs:652-700 | what a run writes changes neither which reached files are live nor what they are; a row fits if the file was recorded or had fitted before |
| Fixpoint.RevivedIff | crates/yds-state/src/lib.rs:834-865 | a file that could not be fingerprinted becomes live by a deletion mark if and only if its path had no row, it is empty and without modification time, and its remote text is normalised |
| Fixpoint.EmptyFileRevived | crates/yds-state/src/lib.rs:834-865 | a local tree with such a file: its remote copy is deleted by the first run and it is uploaded by the second |
| Fixpoint.FixpointTheorem | crates/yds-sync/src/lib.rs:1647-1720 | under that condition, after a mirrored run and a rescan of the unchanged tree there is nothing to create, upload or delete |
| Fixpoint.NothingLeftAfterRun | crates/yds-sync/src/lib.rs:567-743 | the same from the run object, with the file states the run itself wrote, and the scan it started from |
| Fixpoint.ScanSuitsExecution | crates/yds-scanner/src/lib.rs:463-577 | what the scanner reports is what the execution of a root relies on |
| Fixpoint.SkippedUploadRetriedIff | crates/yds-sync/src/lib.rs:1213-1238 | a skipped upload is tried again by the next run if and only if the remote has no file there |
| Walk.ListDirectoryChildren | crates/yds-yandex-disk/src/lib.rs:426-471 | paging ends and collects every child once in server order if a total is reported, only the first page otherwise |
| Walk.CollectEmbeddedPage | crates/yds-yandex-disk/src/lib.rs:473-492 | lists every item and queues exactly the directories that are not pruned |
| Walk.MissingTotalIff | crates/yds-yandex-disk/src/lib.rs:446-467 | without a total a directory is complete if and only if its first page is |
| Walk.FillTasks | crates/yds-yandex-disk/src/lib.rs:334-365 | at most eight tasks are active; fewer only if nothing is pending; only pruned directories are dropped |
| Walk.ListRecursiveByDirectoryWalk | crates/yds-yandex-disk/src/lib.rs:315-412 | for every completion order: an error if and only if some directory to enter cannot be listed, and then the error of one of them; else each resource of the plain filter exactly once, sorted |
| Walk.ListedIsFilter | crates/yds-yandex-disk/src/lib.rs:1303-1337 | the list of a complete walk is the filter of the in-memory client |
| Walk.WalkComplete | crates/yds-yandex-disk/src/lib.rs:315-412 | the directories entered are exactly those under the root that are not at or under a pruned prefix |
| Walk.FetchInventory | crates/yds-sync/src/lib.rs:777-823 | without failures the inventory is the fresh listing; an error of the lookup or of a directory is passed on, except that a directory no longer there leaves the root alone as the inventory |
| Walk.VanishedPlansEverything | crates/yds-sync/src/lib.rs:777-823 | from such an inventory nothing is deleted, and every live directory is created and every live file uploaded again |
| Cache.SubtreeMatches | crates/yds-state/src/lib.rs:1014-1026 | removing a cached subtree removes everything at or under the prefix |
| Cache.SubtreeDeleteTakesMore | crates/yds-state/src/lib.rs:1014-1026 | concrete row outside the subtree that an underscore in the prefix removes too |
| Cache.RowMatchesIff | crates/yds-state/src/lib.rs:1014-1026 | for a prefix without wildcards the rows removed are the prefix itself and those strictly under it up to the case of ASCII letters |
| Cache.SubtreeExactIff | crates/yds-state/src/lib.rs:1014-1026 | then exactly the subtree goes if and only if no row lies under another spelling of the prefix |
| Cache.OtherSpellingRemoved | crates/yds-state/src/lib.rs:1014-1026 | concrete row under another spelling that is removed too |
| Cache.ResourceTable.Record | crates/yds-sync/src/lib.rs:1060-1069 | what is written after each answered request |
| Cache.ResourceTable.DeleteSubtree | crates/yds-state/src/lib.rs:1014-1026 | exactly the matching rows go |
| Cache.ResourceTable.ReplaceForRoot | crates/yds-state/src/lib.rs:964-997 | the rows become the given snapshot |
| Cache.StepKeepsSound | crates/yds-sync/src/lib.rs:942-966 | each kind of step keeps the cache sound |
| Cache.CacheSound | crates/yds-sync/src/lib.rs:745-823 | over every sequence of snapshots, answered requests and foreign requests, each cached path under the root is on the remote with its kind |
| Cache.CachedPlanIsRight | crates/yds-sync/src/lib.rs:1663-1701 | what a cached inventory makes unnecessary to create or upload exists |
| Cache.RowStays | crates/yds-sync/src/lib.rs:1060-1069 | after a successful create or upload its row is in the cache as long as no later step touches that path |
| Cache.TouchesIff | crates/yds-sync/src/lib.rs:942-966 | a step can change the row of a path if and only if it is a new snapshot, a successful create or upload of that path, or a delete or check that found its path to be gone and whose pattern matches it |
| Cache.CachedPlanRepeatsNothing | crates/yds-sync/src/lib.rs:1663-1701 | so a plan from the cache does not create that directory or, with a reused fingerprint, upload that file again |
| Cache.GoneRows | crates/yds-sync/src/lib.rs:1360-1410 | a path deleted or found to be gone leaves no row at or under it; any other failure changes no row |
| Cache.InterruptedSoundIff | crates/yds-sync/src/lib.rs:1360-1410 | a request that took effect but was not recorded leaves the cache sound if and only if no cached row contradicts it |
| UploadBatch.TakeBatch | crates/yds-sync/src/lib.rs:2101-2124 | the loop computes the split of the queue |
| UploadBatch.SplitCounts | crates/yds-sync/src/lib.rs:2101-2124 | at most `limit` files and at most one large file are selected |
| UploadBatch.ScheduledOnce | crates/yds-sync/src/lib.rs:1113-1129 | the rounds together run every pending file exactly once; each round runs some, at most `limit`, and at most one large one |
| UploadBatch.RoundsBound | crates/yds-sync/src/lib.rs:1113-1129 | n files with L large ones need at most n / limit + L + 1 rounds |
| UploadBatch.RunsWithin | crates/yds-sync/src/lib.rs:2101-2124 | the file at position i is in one of the first i + 1 rounds |
| LegacyDeletes.CollectLegacyDeleteCandidates | crates/yds-sync/src/migration.rs:2368-2422 | the deletes are exactly the valid leftovers that are not strictly below a valid leftover directory, each once |
| LegacyDeletes.LeftoversCover | crates/yds-sync/src/migration.rs:2368-2422 | every valid leftover is covered, and every delete is a resource strictly inside the legacy root |
| LegacyDeletes.LeftoversAntichain | crates/yds-sync/src/migration.rs:2368-2422 | within one legacy root no delete covers another |
| LegacyDeletes.PhantomLeftovers | crates/yds-sync/src/migration.rs:2368-2422 | entries with such a segment are no leftovers and hide none |
| LegacyDeletes.CounterpartKeepsRelative | crates/yds-sync/src/migration.rs:2666-2669 | the canonical counterpart of a leftover has the same relative path, and the mapping can be undone |
| LegacyDeletes.SparesLiveIff | crates/yds-sync/src/migration.rs:1537-1542 | legacy deletes spare the live paths if and only if no valid leftover is at or above one |
| LegacyDeletes.DisjointRootsSpareLive | crates/yds-sync/src/migration.rs:1537-1542 | with disjoint roots they always do |
| LegacyDeletes.NestedLegacyRootLosesData | crates/yds-sync/src/migration.rs:2368-2422 | concrete legacy root above the canonical root for which the canonical tree is deleted |
| Migration.LegacyPathText | crates/yds-sync/src/migration.rs:2654-2660 | where a legacy root would hold a file: its text is that of the root, followed by a slash and the relative text unless that is empty |
| Migration.RemoteSets.EnsureParentDirectories | crates/yds-sync/src/migration.rs:1698-1724 | the inventory grows by directories at proper ancestors that can be created and changes nowhere else; on success all ancestors are directories; it stops only if cancelled and fails only at an ancestor that is missing and cannot be created |
| Migration.RemoteSets.FindLegacyFile | crates/yds-sync/src/migration.rs:2095-2105 | finds the first legacy root with a file at the relative path, or there is none |
| Migration.RemoteSets.MergeFile | crates/yds-sync/src/migration.rs:853-977 | if the phase goes on, the file was moved if and only if it has no canonical file, the first legacy file compares equal and its move succeeds; exactly that resource changes inventories; the phase ends here only for a cancellation, a stop error of the move, a comparison that ends it or a directory that cannot be created |
| Migration.RemoteSets.ApplyMergeMoves | crates/yds-sync/src/migration.rs:800-981 | whatever fails or is cancelled, each legacy resource is still there or is the canonical resource of its file, in the inventories and, with disjoint roots, on the disk; the inventories stay true of the disk; a phase that goes on to its end leaves no file to be moved but those whose moves failed, and one that ends early had a reason |
| Migration.ConservedStep | crates/yds-sync/src/migration.rs:853-977 | one file keeps the conservation |
| Migration.StaysUnwanted | crates/yds-sync/src/migration.rs:853-977 | processing one file makes no other file one that is to be moved |
| Migration.LiveFilesApart | crates/yds-sync/src/migration.rs:853-977 | live files of a closed scan without collisions do not lie at or above one another |
| Migration.MoveOnDisk | crates/yds-sync/src/migration.rs:853-977 | a legacy file moved into the canonical tree leaves the inventories of disjoint roots true of the disk |
| Migration.PlanDeletes | crates/yds-sync/src/migration.rs:1523-1548 | the deletes are the canonical targets and the leftovers of each legacy root, deepest first |
| Migration.MigrationDeletesAreSafe | crates/yds-sync/src/migration.rs:1512-1549 | with disjoint roots every delete lies strictly inside the canonical or a legacy root; those of legacy roots spare every live path, and so do all, also files just moved, if no canonical extra has a live path below it |
| Migration.DeletesAntichain | crates/yds-sync/src/migration.rs:1512-1549 | with pairwise disjoint roots and a plan that is safe, no delete of the phase covers another, across the canonical and all legacy roots |
| Migration.ParentsLeaveDeletes | crates/yds-sync/src/migration.rs:1698-1763 | inserting ancestors of the root into the inventory does not change the deletes |
| Migration.LeftoversAreDeleted | crates/yds-sync/src/migration.rs:1537-1542 | every valid leftover of every legacy root is covered by a delete |
| Migration.SplitCachedRemoteSets | crates/yds-sync/src/migration.rs:2114-2185 | each cached row goes to the canonical root, else to the first legacy root that holds it, else nowhere |
| MigrationUpload.FitsQuotaIff | crates/yds-sync/src/migration.rs:1194-1204 | the saturating quota check is the plain one if and only if the limit or the true sum is below the 64-bit maximum |
| MigrationUpload.ApplyAdoptOrUpload | crates/yds-sync/src/migration.rs:984-1312 | whenever the phase ends, uploaded plus queued bytes are within the quota, and exactly the tried files that succeeded are counted; if it goes on to its end, exactly the files that need it were tried, each once, and there was no cancellation, no stop error and no failing comparison; it ends early only for one of these or for a file over the quota; the queue stays below the configured number |
| MigrationUpload.ApplyMigrationUploadBatch | crates/yds-sync/src/migration.rs:1314-1509 | every file of the batch is tried exactly once, in rounds of at most the configured number and one large file; the bytes are those of the files uploaded; it reports a stop if and only if one of them got a stop error |
| MigrationUpload.LeftAloneMatches | crates/yds-sync/src/migration.rs:1068-1180 | a file that is adopted or resumed has a remote file that matches it |
| MigrationUpload.LeftAloneAgrees | crates/yds-sync/src/migration.rs:2486-2567 | such a file has the size of the remote one; if small, its local digest is that of the remote up to the case of letters, or, where the remote has none, the contents were compared and are equal |
| MigrationUpload.DifferingIsUploaded | crates/yds-sync/src/migration.rs:1018-1210 | a readable file without a canonical file, or with one of another size or, if small, another digest, is uploaded |
| MigrationUpload.UploadedIff | crates/yds-sync/src/migration.rs:1018-1210 | a scanned file is uploaded if and only if it is there, can be read and the remote has no file of its size and, if small, its digest or, where there is none, its content |
| MigrationUpload.ResumeIff | crates/yds-sync/src/migration.rs:2525-2567 | after a row was written for a file, a file is resumed if and only if the row says synced, all that was recorded is the same, sizes from 2^63 - 1 on counting as one, and the remote has its size and, if small, its digest |
| MigrationUpload.AdoptedIsResumedIff | crates/yds-sync/src/migration.rs:1068-1180 | the next run resumes an adopted file without a comparison if and only if it is large or the remote gives a digest |
| MigrationUpload.ResumeRefinesMatch | crates/yds-sync/src/migration.rs:2486-2567 | on what the scanner produces, resuming says yes only if the full comparison does |
| MigrationUpload.ResumeRefinesMatchIff | crates/yds-sync/src/migration.rs:2553-2566 | in general the two agree if and only if a small file has a local digest |
| RunLock.StateLocks.TryAcquireRunLock | crates/yds-state/src/lib.rs:1257-1307 | the lock is taken exactly if it is free or stale, and the row then names the new owner and the current second |
| RunLock.StateLocks.HeartbeatRunLock | crates/yds-state/src/lib.rs:1309-1323 | only the owner renews the row |
| RunLock.StateLocks.ReleaseRunLock | crates/yds-state/src/lib.rs:1325-1331 | only the owner removes the row |
| RunLock.Exclusion | crates/yds-state/src/lib.rs:1257-1331 | over every history of the single statements, who held the lock and does not hold it now released it or was stale when another owner took it |
| RunLock.TakeoverMeans | crates/yds-state/src/lib.rs:1257-1331 | over every history, between two acquisitions by different owners the first released the lock, or another owner took it when more than the whole-second limit had passed since its last successful beat |
| RunLock.StaleIsTaken | crates/yds-state/src/lib.rs:1257-1266 | exactly when a row may be taken over: when the whole second of now is past the whole second of the last beat by more than the whole seconds of the limit; so surely a second after the limit, and surely not a second before it |
| RunLock.AttemptFailsIff | crates/yds-state/src/lib.rs:1257-1307 | in any history an attempt of two statements fails if and only if the row is held at the first and absent or not stale at the second |
| RunLock.FreeLockMissedIff | crates/yds-state/src/lib.rs:1267-1304 | an attempt fails although the lock is free at its end if and only if the lock was held at its first statement, was released between the two, and nobody has taken it since |
| RunLock.FreeLockMissed | crates/yds-state/src/lib.rs:1267-1304 | concrete history of such an attempt |
| RunLock.SameOwnerReleasesOther | crates/yds-state/src/lib.rs:1325-1331 | concrete history: a session releases the lock of a second one with the same owner name |
| Runtime.FinalStatus | crates/yds-sync/src/lib.rs:393-412 | the status of a run is never "running"; it is cancelled exactly on a cancellation without an execution error |
| Runtime.StatusFromSummary | crates/yds-sync/src/lib.rs:2135-2156 | a run succeeds if and only if nothing failed and no root was skipped or failed; it fails outright if and only if a root failed, or something failed, nothing was transferred or deleted and no root was skipped or failed in part |
| Runtime.RuntimeState.Request | crates/yds-service/src/lib.rs:387-431 | accepted exactly if no run is in progress; a rejected scheduled request is counted |
| Runtime.RuntimeState.Cancel | crates/yds-service/src/lib.rs:433-451 | accepted exactly if a token is present |
| Runtime.RuntimeState.Finish | crates/yds-service/src/lib.rs:519-567 | clears the run and the token and sets the status from the result |
| Runtime.FinishMeans | crates/yds-service/src/lib.rs:519-567 | success and cancellation leave the runtime idle, partial failure degraded, failure or a lost task failed |
| Runtime.SingleFlightAlways | crates/yds-service/src/lib.rs:387-567 | in every interleaving at most one task is in flight; status, current run and token agree; skipped scheduled requests are counted exactly |
| Runtime.AtMostOneTask | crates/yds-service/src/lib.rs:387-431 | at most one task is in flight |
| Runtime.RequestStartsIff | crates/yds-service/src/lib.rs:387-431 | in any history a request starts its task if and only if no task is in flight; otherwise only the count of scheduled requests turned away can change |
| Runtime.CancelReachesTheTask | crates/yds-service/src/lib.rs:433-451 | a cancel request reaches exactly the sync task in flight |
| Runtime.FinishLeavesStuckIff | crates/yds-service/src/lib.rs:554-559 | the runtime is left stuck by a finished task if and only if the sync task reports itself as running |
| Runtime.StuckForever | crates/yds-service/src/lib.rs:387-451 | a stuck runtime accepts no request again |

## Left out

- Text of paths: planners, scanner and walk are modelled on segments; PathText, LocalNames and NameMapping tie them to the texts. Lossy decoding of local names is not modelled.
- Skipped and failed scan items are not protected from deletion: they are not live, as in the program.
- Exclusion patterns, hashing, the SQLite backup, file metadata and lower-casing: oracles, given as functions.
- HTTP, authorisation, retries and timeouts: a request has an arbitrary outcome with an error kind. A request that fails changes nothing; one that succeeds has the effect the in-memory client gives it.
- Tasks still in flight when a phase stops: they stay outstanding in the trace and their bytes are counted as issued; what they may still do to the remote is not followed.
- Errors of the local database, which end a run, and the journal, the skipped and failed item tables, progress records and error texts.
- The expiry of cached snapshots and the choice between cache and listing: an inventory is given with its origin.
- The move of a whole legacy root into an empty canonical one, the batching of adoption records, and the delete trace of a migration: only what is deleted is modelled there, not when.
- Configuration checks, the derivation of the canonical root from the local path, schedules, the web interface and the service wrappers.
- File contents: equality is an oracle where the program reads both files, and size or digest comparison otherwise.
- Mirror.MirrorTheorem: assumes no file stored at the root itself, answers "not found" only for paths that are not there, and a remote whose files have nothing below them; a create or upload over an entry of the other kind replaces it, as in the in-memory client.
- Fixpoint.FixpointTheorem: between the two scans neither the local tree nor what can be read and fingerprinted of it changes.
- Walk.ListDirectoryChildren: assumes that the server holds the same items in the same order while their pages are read.
- Cache.CacheSound: assumes that failed requests change nothing and that nobody else writes at, under or above the managed root.
- Migration.RemoteSets.ApplyMergeMoves: conservation is stated for live files none of which is stored at or above another, which a file stored at the managed root itself is not; a request that fails changes nothing; what lies on the disk outside the inventories is not followed.
- MigrationUpload.ApplyAdoptOrUpload: each file is judged once by fixed answers of the outside world, cancellation and the answer to its upload included, and file states are those read at the start of the phase.
- RootExecution.ExecuteRoot: the tree a run starts from is fixed while it runs, and what has vanished since is given for each entry at each moment it is looked up; changes to the remote by others are not modelled.
- RunLock.TakeoverMeans: with a limit that has a fraction of a second a takeover can come up to that fraction early.
