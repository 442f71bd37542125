# ViewDock, modelled and proved in Dafny

A model of the parts of ViewDock that have to be right when something goes wrong, and proofs about
them. `dafny verify dfyconfig.toml` checks the whole project.

| file | what it models |
|---|---|
| `MoveFs.dfy`, `MoveJob.dfy` | moving a title's files under a journal, and recovery after a crash |
| `MoveRun.dfy` | a whole request of titles, and recovery of all of them |
| `MovePlan.dfy`, `MoveRequest.dfy` | planning a request, and how the plan meets its execution |
| `Rotation.dfy`, `Routing.dfy` | smooth weighted rotation, and the order in which nodes are tried |
| `BackupProtocol.dfy`, `BackupCreate.dfy`, `BackupRetention.dfy`, `BackupIds.dfy` | the backup store under concurrent uploads, deletes and pruning; making and deleting a backup step by step; retention; ids |
| `MediaCopy.dfy`, `MediaCopier.dfy` | resumable copies of remote titles: the protocol, and the program that follows it |
| `ReplayGuard.dfy` | refusal of replayed Discord requests |
| `StreamSlots.dfy` | admission to a source's stream slots |
| `TokenBucket.dfy`, `RateLimit.dfy` | the event budget of a session, and the sliding-window limiter |
| `Timeline.dfy` | HLS timelines |
| `Placeholders.dfy`, `Decimal.dfy` | SQL placeholder rewriting, and decimal numbers |
| `SegmentCheck.dfy`, `SegmentStandard.dfy` | the check that a received segment is whole, and when what it accepts is what the standard asks for |
| `MergeRemote.dfy` | merging of external titles that duplicate others |
| `Collections.dfy` | what several modules share |

Objects whose methods change their fields are classes, loops are loops with invariants, and each
method is tied to a specification on values. Protocols whose calls interleave (`BackupProtocol`,
`MediaCopy`) are step systems, beside the methods that take those steps (`BackupCreate`,
`BackupRetention`, `MediaCopier`). Every claim about a run is about all runs.

## What is assumed

**Moves.** Every primitive file operation may fail, and the machine may stop before, during or after
any of them; a removal or a copy may stop halfway. A rename is atomic. All ends of a request's
operations are different entries, and no one else creates or changes anything at them. Status writes
succeed unless the machine stops (the code ignores their errors), and a failed commit changes nothing.
Moves and recovery are not concurrent with anything. Removing a file is one unlink. Folder and files
are still what the planner found when they are moved.

One kind of crash is outside what the code survives: one during the undo that follows a failed
catalogue update, when the row already says `fs_done` and a put-back has begun
(`CrashAfterCatalogueFailure`). A row still `moving` survives every crash, in the move, the rollback or a
recovery, between devices too, because a plan is one operation or operations on files only
(`PlansArePlanned`); `PutBackIsSafeIff` says that it is just these lists of operations for which that
is so. `ExecuteUnit`, `RecoverRow` and `RunAcrossRestarts` carry the exact condition (`CanGoOn`) for any
list. A put-back that fails is no crash: the row then says `failed`, and nothing is lost.

**Backups.** Put and Delete are atomic, ids are fresh, the store's clock is the service's, and time
between an upload's steps and from prune's listing to its cutoff is bounded by parameters. Which keys
a Put may store and still report an error for is a parameter too.

**Copies.** The remote file does not change, a server that resumes says truthfully where its body
starts, and a body of unknown length is whole when it ends. That a server answers, a disk takes
what it is given and the sweeper stays away is not assumed: `RunCopy` counts how often they do not. A
complete `.part` left before the rename asks for bytes past the end, which counts too.

**Clocks.** `ReplayGuard`, `TokenBucket` and `RateLimit` take the time of each call as a parameter;
where a clock must not go back, the lemma says so.

## Where the code does less than it says

- Far-ahead timestamps (internal/discordbot/verify.go:121-128): a difference that saturates at the
  least duration is its own negation, so a timestamp some 292 years ahead counts as fresh, and such a
  request passes again once it is forgotten. `FarAheadIsAccepted` is one, and `PassesAgainIff` gives the
  exact condition.
- Abandoned uploads (internal/backup/service.go:311-341): prune computes its cutoff after its listing,
  so the six hours must also cover the time between the two. `ListedBackupsAreWholeIff`. The failing run
  needs two processes on one destination, such as a service and the command line
  (internal/backup/cli.go:181): one service runs its creates, each with the prune after it, one at a
  time (internal/backup/service.go:144-157).
- Failed uploads (internal/backup/service.go:226-248): the cleanup deletes the files and not the
  manifest, so a manifest that was stored although its Put reported an error lists files that are gone.
  `ListedThenCleanedUp`, and the same `ListedBackupsAreWholeIff`.
- Orphaned copy files (internal/jellyfin/mediacopy.go:485-508): the sweeper does not look whether a
  title is being copied, and can remove a `.part` that a copy has measured and not opened yet; the copy
  then appends to an empty file. `RightIffNeverHarms` says exactly which sweepers do no harm,
  `UnguardedIsRightIff` for which files the code's own does none, and `OutsideTheWindowIsRight` that it
  is enough to stay away between the measuring and the opening.
- Recovery (internal/library/move_job.go:293-296 says that catalogue and disk never disagree): see the
  crash above. `RecoveryIsRightIff` gives the exact condition on the state.
- The limiter reads the clock before it takes its lock (internal/auth/ratelimit.go:20-21), so stamps
  may be out of order. `LimitsIff` says exactly in which spans the limit still holds.
- A placeholder directly followed by a digit is numbered wrongly (`?1` becomes `$11`).
  `NumberedInOrderIff` and, for the one query, `DigitFollows`.
- A box size may be smaller than the box's own header, with a 64-bit size or an extended type
  (internal/jellyfin/relay.go:242): such a box is accepted. `TooSmallIsAccepted` is one file, and
  `StandardIff` says exactly which accepted files the standard knows.
- A sidecar whose 999 candidate names are all taken is planned onto a taken name
  (internal/library/move_plan.go:519-526), as `Claim` then answers the wanted name: `OntoAnExistingFile`.
  A video or folder has the same fate; `RoomForClaim` and `PlanRequest` say when there is room for all.

## Model

| member | source | states |
|---|---|---|
| MoveFs.VerifiedIsWhole | internal/library/move_fs.go:183-205 | comparing sizes is enough: a partial copy passes verifyCopy if and only if it is the whole tree |
| MoveFs.Drive.Lstat | internal/library/move_fs.go:41-45 | what the existence test can answer, failing included |
| MoveFs.Drive.Rename | internal/library/move_fs.go:47-57 | renameNoReplace is atomic and never replaces; it crosses devices only where there are several |
| MoveFs.Drive.Mkdir | internal/library/move_job.go:316-320 | making the destination's folder can fail or stop and touches no content |
| MoveFs.Drive.RemoveAll | internal/library/move_fs.go:61-79 | a removal may stop halfway through a folder, and what is left is part of what was there; a file is whole or gone; nothing else changes |
| MoveFs.Drive.CopyFile | internal/library/move_fs.go:145-166 | whatever happens, what was written is a prefix of the file, even if the writer does not notice a short copy |
| MoveFs.Drive.CopyTree | internal/library/move_fs.go:104-143 | a copy is file by file a part of the source, and all of it unless a step failed |
| MoveFs.Drive.VerifyCopy | internal/library/move_fs.go:183-205 | a pass means every source file is there with its size; a refusal, that one is not or that the walk failed |
| MoveFs.Drive.Assemble | internal/library/move_fs.go:61-69 | a copy that passes the check is the whole source; nothing but the partial copy is touched |
| MoveFs.Drive.CopyEntry | internal/library/move_fs.go:61-80 | copy, verify, rename, delete: at every crash the source is untouched or the destination whole; the partial copy is gone unless a removal failed |
| MoveFs.Drive.Abandon | internal/library/move_fs.go:62-69 | an unfinished copy is removed and nothing else is touched |
| MoveFs.Drive.MoveEntry | internal/library/move_fs.go:40-81 | moveEntry is all or nothing at every instant, never replaces a destination, and without a fault succeeds exactly if the source exists and the destination is free |
| MoveJob.WithFilesAt | internal/library/move_job.go:391-398 | a row ends as its last mention says; a row that is not named stays as it was |
| MoveJob.AppliedTwice | internal/library/move_job.go:543-568 | committing the catalogue update again in recovery changes nothing |
| MoveJob.Database.SetItem | internal/library/move_job.go:288-291 | a status write happens wholly or, if the machine stops, possibly not |
| MoveJob.Database.ApplyMove | internal/library/move_job.go:381-407 | one transaction: the catalogue is unchanged or fully updated, a crash included; without a destination it fails |
| MoveJob.BackwardKeeps | internal/library/move_job.go:348-360 | however far a rollback got, no content is lost and nothing at a destination is replaced |
| MoveJob.WholeIsPlaced | internal/library/move_job.go:551-563 | with nothing lost, every operation is as recovery needs it if and only if every existing destination holds its whole source |
| MoveJob.RollbackOps | internal/library/move_job.go:348-360 | puts done operations back newest first, going on past those that fail: the sources that are not back are no more than the steps that failed and the sources that were occupied; success means every source is back, and free sources without a fault mean success |
| MoveJob.MoveOps | internal/library/move_job.go:316-331 | the loop stops at the first failure with exactly the operations before it done |
| MoveJob.ExecuteUnit | internal/library/move_job.go:297-345 | `moved` means every destination holds what its source held and the catalogue is at the destination; `failed` means the catalogue is unchanged and that of a ready title fewer sources are not back than steps have failed; nothing is lost or replaced however it ends, and without a fault only the machine's stop keeps a ready title from being moved; a crash before the row says `failed` leaves a recoverable state if and only if, on a row still `moving`, every existing destination holds its whole source and, on `fs_done`, every destination does: always while going forward and, of a planned title or on one device, while a row still `moving` is undone |
| MoveJob.PutAllBackAt | internal/library/move_job.go:570-585 | undoing newest first leaves each complete operation's content at its source and the others alone |
| MoveJob.RecoveryIsRightIff | internal/library/move_job.go:543-591 | recovery leaves every file whole where the catalogue says it is if and only if the state is recoverable: on a row still `moving` every existing destination whole and every other source whole, on `fs_done` every destination whole |
| MoveJob.Survey | internal/library/move_job.go:551-558 | the first loop clears partial copies and tells which destinations exist: without a fault exactly, and else it misses no more than steps have failed |
| MoveJob.DropSources | internal/library/move_job.go:560-564 | removes what is left of the sources and nothing else |
| MoveJob.PutBackOne | internal/library/move_job.go:574-586 | one put-back, for every failure and crash; of a file, or on one device, it stays recoverable throughout |
| MoveJob.PutBackComplete | internal/library/move_job.go:569-591 | the loop of put-backs goes newest first and on past those that fail: what is not back is no more than the steps that failed |
| MoveJob.PutBackIsRecovered | internal/library/move_job.go:569-591 | the loop of put-backs, undisturbed, computes the specification of an undo |
| MoveJob.FinishMove | internal/library/move_job.go:559-568 | drops the sources and commits the catalogue; destinations stay whole at every crash |
| MoveJob.UndoItem | internal/library/move_job.go:569-591 | `rolled_back` means that what was at every destination seen in place is back at its source; it is answered whenever no step failed, and only if some step failed is it `failed`; nothing is lost at any crash |
| MoveJob.RecoverableKeeps | internal/library/move_job.go:543-591 | no state a crash may leave behind has lost content |
| MoveJob.RecoverItem | internal/library/move_job.go:543-591 | undisturbed, does exactly what the specification says; stopped again without a fault, leaves a recoverable state if and only if every existing destination holds its whole source, as it does while finishing and, of a planned title or on one device, while undoing |
| MoveJob.RecoveredIsSettled | internal/library/move_job.go:543-591 | from a recoverable state, recovery ends wholly moved or wholly undone, and its result is recoverable again should the status write be lost |
| MoveJob.RecoverRow | internal/library/move_job.go:503-516 | one row at startup, and what it then says: without a fault a pending row becomes `skipped`, `fs_done` becomes `moved`, and `moving` becomes `moved` if there are operations and all their destinations exist, else `rolled_back`, the title being wholly moved or wholly where it was; with faults the row says what recovery answers, and what is not put back of a title that is undone is no more than the steps that failed; a row that has ended is left alone; a crash without a fault leaves a recoverable row of a planned title recoverable, and any other if and only if every existing destination holds its whole source |
| MoveJob.AnsweredAs | internal/library/move_job.go:500-516 | the status a recovery without faults gives a row, from the row and the paths it finds |
| MoveJob.RunAcrossRestarts | internal/library/move_job.go:297-591 | whole runs: the move and any number of recoveries, each cut off anywhere; once a recovery without faults ends, the title is wholly at its destination with the catalogue, or wholly where it was or, after a fault of the move, `failed` with nothing lost, and the row has the status that follows from the row and the paths that recovery found; a run is over unless the machine stopped in the move and in every recovery; the runs left out are those in which a crash left a state that no recovery can be right from, which of a planned title is one on `fs_done` after a failed catalogue update, and those in which a recovery cut short had itself a fault |
| MoveJob.PutBackIsSafeIff | internal/library/move_job.go:569-586 | between devices a put-back may be stopped anywhere without leaving a half deleted destination if and only if there is one operation or all of them are on files |
| MoveJob.CrashAfterCatalogueFailure | internal/library/move_job.go:332-336 | counterexample: a title moved, put back after a failed applyMove, and stopped before its row said `failed` is listed by recovery at an empty destination |
| MovePlan.ClosureIsAbove | internal/library/move_plan.go:671-676 | mark takes the path and every folder above it, and nothing else |
| MovePlan.Reservations.constructor | internal/library/move_plan.go:654-669 | exactly the destination's catalogued files and their folders are taken from the start |
| MovePlan.Reservations.Mark | internal/library/move_plan.go:671-676 | the loop up the folders takes exactly that closure |
| MovePlan.Reservations.Claim | internal/library/move_plan.go:688-707 | the first of the 999 candidates that is neither taken nor on disk, now taken; if there is none, the wanted name, and nothing is taken |
| MovePlan.ClaimedIs | internal/library/move_plan.go:688-707 | what claim answers is free unless none of the 999 candidates is; it is the wanted name if and only if that was free, or none was |
| MovePlan.CandidatesDiffer | internal/library/move_plan.go:688-707 | the candidates of a name differ from each other, ignoring case |
| MovePlan.CandidatesAre | internal/library/move_plan.go:688-707 | the first candidate is the wanted name, and the n-th puts " (n)" before the extension of a file and at the end of a folder's name |
| MovePlan.AllBusyIff | internal/library/move_plan.go:688-707 | a name has no free candidate if and only if 999 of them are busy |
| MovePlan.RoomForClaim | internal/library/move_plan.go:671-707 | where every name has k free candidates a claim finds one, and every name then has k - 1 |
| MovePlan.SmallFoldersAreRoomy | internal/library/move_plan.go:688-707 | every name has k free candidates where no folder has more than 999 - k names, catalogued, planned or on disk |
| MovePlan.DeepestIsAbove | internal/library/move_plan.go:603-620 | a folder contains every file if and only if it is above, or is, the one commonDir finds |
| MovePlan.CommonDir | internal/library/move_plan.go:603-620 | commonDir is the deepest folder that contains every file |
| MovePlan.PlanFolder | internal/library/move_plan.go:386-410 | a title moves by its folder, in one operation to the claimed name, if and only if that folder is its own: the deepest one that contains every file and, of a series, is the library's folder or no season folder; files are recorded where it takes them, and with a free name the request's plan stays sound |
| MovePlan.TitleFolderIs | internal/library/move_plan.go:386-395 | a folder below the library's is the one planFolder looks at if and only if it is the deepest that contains every file and, of a series, is no season folder |
| MovePlan.SameLetter | internal/library/move_plan.go:671-684 | letters compare as one if and only if they are the same or an ASCII capital and its small letter |
| MovePlan.SameFold | internal/library/move_plan.go:671-684 | paths compare as one if and only if they have as many components, each as long, and all of their letters do |
| MovePlan.PlanFile | internal/library/move_plan.go:489-527 | a video goes to its claimed name; then, in order, those sidecars whose new name is answered by claim as asked for, and no others |
| MovePlan.FreeSidecarGoes | internal/library/move_plan.go:519-526 | a sidecar whose name is free at its turn goes along |
| MovePlan.OnlySidecarsGo | internal/library/move_plan.go:519-526 | besides the video only its sidecars go along, each to the new stem with its own suffix, and each with a name that was free or had no free candidate |
| MovePlan.SideFollows | internal/library/move_plan.go:505-526 | a sidecar keeps what follows its video's stem, behind the video's new stem |
| MovePlan.OntoAnExistingFile | internal/library/move_plan.go:519-526 | counterexample: a subtitle all of whose 999 names exist is planned onto one that exists |
| MovePlan.PlanFiles | internal/library/move_plan.go:469-534 | loose movies stay loose; all else goes below a claimed folder named after the title, a show's episodes into the folder of their season; every video is recorded where an operation takes it, and the plan stays sound |
| MovePlan.SeasonsDiffer | internal/library/move_plan.go:584-592 | season folders are Specials for 0, Season 01 for 1 and for unknown ones, and no other two seasons share one |
| MovePlan.PlanUnit | internal/library/move_plan.go:268-272 | a title is placed by its own folder if it has one, which is the deepest folder of all its files above season folders, in one operation, and else file by file, loose or below a claimed folder |
| MovePlan.PlanRequest | internal/library/move_plan.go:141-195 | over a whole request no two destinations are equal or nested ignoring case, and none existed, if every name has as many free candidates beforehand as the request asks for names, or else as long as each claim finds one; every catalogued file is recorded where the operations take it; a title has one operation, or only such on its videos and their sidecars |
| MoveRequest.OnePlace | internal/library/move_plan.go:634-639 | two planned paths are one entry on disk if and only if they are the same path |
| MoveRequest.PlannedIsReady | internal/library/move_job.go:316-332 | a planned title whose sources exist and differ is what the executor asks for: all ends different, every destination free |
| MoveRequest.PlansArePlanned | internal/library/move_plan.go:262-556 | a title's plan has one operation or, its videos and sidecars being regular files, operations on files only |
| MoveRequest.FilesArrive | internal/library/move_plan.go:405-408 | when a planned title has moved, each catalogued file's content is at the path the plan recorded |
| MoveRequest.DestinationsDiffer | internal/library/move_plan.go:141-195 | destinations planned in one request are different entries, within a title and between titles |
| MoveRequest.DestinationFree | internal/library/move_plan.go:678-684 | a planned destination does not exist |
| MoveRequest.PlannedAreSeparate | internal/library/move_job.go:240-278 | titles planned in one request do not share an end if their sources differ, so that each can be moved by itself |
| MoveRun.RunOne | internal/library/move_job.go:260 | one title's turn, seen from the beginning of the request: if it fails and was ready, fewer of its sources are not back than steps have failed; a crash in it leaves the title recoverable under ExecuteUnit's condition, or `failed` with its catalogue as it was |
| MoveRun.RunMove | internal/library/move_job.go:240-278 | over a whole request every title gets its turn whatever becomes of the others: those that were ready and have failed although the database did nothing wrong for them are no more than the drive's failed steps; each ends wholly moved or failed with its catalogue as it was, and `moved` counts the former; a machine that stops has lost and replaced nothing of any title and leaves at most one in the middle, which recovery can resume if and only if its destinations are as ExecuteUnit's condition asks: of a planned title, always before its row says `fs_done` |
| MoveRun.SkipPending | internal/library/move_job.go:513-516 | exactly the pending rows are skipped |
| MoveRun.RecoverMoves | internal/library/move_job.go:486-516 | after a crash that left a title recovery can resume, recovery without faults leaves every title wholly moved, wholly where it was, or failed with its catalogue as it was, and every row with the status that follows from the row and the paths found; with faults too every other row is dealt with, and what is not put back of the one title is no more than the steps that failed; stopped again without a fault it can be run again, of planned titles always, and of others if and only if every existing destination of the title it was at holds its whole source |
| Rotation.AlwaysBalanced | internal/backend/routing.go:291-310 | after every pick of a run from cleared counters the counters' sum is 0 and each is above minus the total weight |
| Rotation.CounterMeaning | internal/backend/routing.go:291-310 | a counter is what its node earned in k picks minus what its own picks paid |
| Rotation.NeverAhead | internal/backend/routing.go:291-310 | after any k picks, W times a node's picks is less than k times its weight plus W |
| Rotation.FirstRound | internal/backend/routing.go:291-310 | the first W picks take every node exactly as often as its weight in the run |
| Rotation.Repeats | internal/backend/routing.go:291-310 | W picks return every counter to where it was, from anywhere in a run |
| Rotation.EveryRoundIsExact | internal/backend/routing.go:291-310 | any W consecutive picks take every node exactly as often as its weight in the run |
| Rotation.Router.Scan | internal/backend/routing.go:295-307 | the loop over the counter map finds the total and the first largest counter, and touches no other node's |
| Rotation.Router.Weighted | internal/backend/routing.go:291-310 | one call is one step of the rotation on the tier's counters, the nodes' weights being those of the rotation, and the node returned is the one picked |
| Rotation.CallsAreFair | internal/backend/routing.go:291-310 | in any run of calls on one tier from cleared counters, of as many consecutive calls as the nodes' weights sum to, a node of positive weight is returned exactly as often as it weighs and any other once |
| Rotation.ThreeToOne | internal/backend/routing.go:291-310 | of nodes a and b with weights 3 and 1 the first four calls return a, a, b, a |
| Routing.ByWeightSorts | internal/backend/routing.go:285-289 | byWeight sorts by falling weight and is a permutation |
| Routing.ByWeightIsStable | internal/backend/routing.go:285-289 | nodes of the same weight keep their order |
| Routing.EligibleIs | internal/backend/routing.go:248-257 | the eligible nodes are those enabled, not draining, healthy, and of the asked role, region and capability |
| Routing.Collect | internal/backend/routing.go:246-262 | the loop sorts eligible nodes into tiers in their order |
| Routing.ListFirst | internal/backend/routing.go:270-278 | the first tier takes one turn of its rotation |
| Routing.ListTiers | internal/backend/routing.go:267-281 | the tiers, highest first, and only the first one's counters move |
| Routing.Candidates | internal/backend/routing.go:238-283 | every node that is enabled, not draining, healthy and of the asked role, region and capability exactly once, in routing order, headed by the weighted pick of the highest tier; but for the head, nodes of one priority and weight keep the order they are registered in; an error if and only if no node is eligible, and then nothing changes |
| Routing.AnswersAreFair | internal/backend/routing.go:238-310 | of as many successive answers for the same eligible nodes, from cleared counters, as the highest tier's weights sum to, each of its nodes heads exactly as many as it weighs, or one if its weight is not positive |
| BackupIds.NewIdIsValid | internal/backup/manifest.go:92-107 | every id newID makes is one ValidID accepts |
| BackupIds.ValidIsNew | internal/backup/manifest.go:91-107 | nothing else is accepted: every id ValidID accepts is what newID makes of some stamp and eight lower-case hexadecimal digits |
| BackupIds.IdsSortByTime | internal/backup/manifest.go:101-107 | an id of an earlier second sorts before one of a later second, whatever the random digits |
| BackupProtocol.ManifestGoesFirst | internal/backup/service.go:348-353 | before the manifest only manifest-like keys are deleted, which no manifest may list |
| BackupProtocol.InitIsSafe | internal/backup/service.go:190-250 | an idle store whose listed backups are whole, leftovers of uploads and deletes included, meets the invariant |
| BackupProtocol.ListingIsSafe | internal/backup/service.go:311-316 | what prune may rely on at the moment of its listing |
| BackupProtocol.StepKeeps | internal/backup/service.go:190-429 | every step of any interleaving keeps the invariant, if gap and lag add up to at most six hours and no manifest is stored by a Put that reports an error |
| BackupProtocol.RunKeeps | internal/backup/service.go:190-429 | in every state of every run the invariant holds, if gap and lag add up to at most six hours and no manifest is stored by a Put that reports an error |
| BackupProtocol.TakenForAbandoned | internal/backup/service.go:311-343 | counterexample: with gap and lag beyond six hours an upload of one process and a prune of another end with a listed backup that lacks a file |
| BackupProtocol.ListedThenCleanedUp | internal/backup/service.go:226-248 | counterexample: a manifest is stored although its Put reports an error, and the cleanup deletes the file it lists |
| BackupProtocol.ListedBackupsAreWholeIff | internal/backup/service.go:190-359 | in every state of every run each listed backup has every file of its manifest, if and only if an upload's longest pause and prune's delay from listing to cutoff add up to at most six hours and no Put of a manifest both stores it and reports an error |
| BackupRetention.GroupBackups | internal/backup/service.go:278-299 | one pass tells of each backup its objects, its manifest and its newest object |
| BackupRetention.GroupsTell | internal/backup/service.go:321-341 | the groups tell exactly the complete backups and the abandoned uploads |
| BackupRetention.KeptAreListed | internal/backup/service.go:311-343 | after retention exactly the kept backups are listed |
| BackupRetention.DropsOne | internal/backup/service.go:348-359 | deleting one backup's listed keys removes it and nothing else |
| BackupRetention.InterruptedSafely | internal/backup/service.go:345-359 | stopped anywhere, a delete leaves no manifest whose files have begun to go |
| BackupRetention.Bucket.Delete | internal/backup/service.go:353-357 | deleting one object; what is not there is no error |
| BackupRetention.Bucket.List | internal/backup/service.go:301-307 | every object once, in some order |
| BackupRetention.Bucket.Survey | internal/backup/service.go:311-316 | the groups of the whole destination |
| BackupRetention.Bucket.DeleteKeys | internal/backup/service.go:348-359 | of all backups only the one named loses objects; unless a delete fails all that were listed; while its manifest is there none of its files is gone |
| BackupRetention.Bucket.NewestFirst | internal/backup/service.go:323-323 | the ids, largest first |
| BackupRetention.Bucket.Drop | internal/backup/service.go:326-341 | one listed backup is dropped, and is gone altogether unless one of its deletes failed |
| BackupRetention.Bucket.DropAll | internal/backup/service.go:325-341 | the loops go on past failures: each delete that fails leaves at most one of the named backups behind, and there is an error if and only if one does |
| BackupRetention.Bucket.Surplus | internal/backup/service.go:317-326 | exactly the complete backups beyond the `keep` newest |
| BackupRetention.Bucket.Stale | internal/backup/service.go:335-341 | exactly the uploads without a manifest and with nothing newer than the cutoff |
| BackupRetention.Bucket.Prune | internal/backup/service.go:311-343 | without an error the listed backups are exactly the `keep` largest ids, all of them if there are fewer, and besides the dropped ones only uploads older than six hours lost anything; there is an error if and only if a delete fails, and each leaves at most one backup or upload behind |
| BackupRetention.Bucket.Put | internal/backup/service.go:252-259 | storing one object is atomic, and may fail or stop the machine; an error may also come after the object was stored, where the destination is known for that |
| BackupCreate.Create | internal/backup/service.go:222-249 | files first, the manifest last: success leaves exactly these files and the manifest; it fails only if a store does, and leaves no more objects than stores and deletes have failed; whatever else happens, a crash included, a manifest is there only with all of its files, unless its own Put stored it and reported an error; no other backup changes |
| BackupCreate.CleanUp | internal/backup/service.go:226-231 | the cleanup deletes only what was uploaded, going on past failures, each of which leaves one object |
| BackupCreate.Delete | internal/backup/service.go:404-429 | an invalid id and a backup that is not listed are told apart and change nothing; success removes every object of the backup; after a failed delete a manifest that is still there has lost no file |
| MediaCopy.AlwaysOneWriter | internal/jellyfin/mediacopy.go:136-221 | whatever the sweeper removes, a title has at most one writer in every state of every run, and none when it is not being copied |
| MediaCopy.WhoActs | internal/jellyfin/mediacopy.go:136-508 | while a title is being copied no one but its writer, the sweeper and a restart does anything |
| MediaCopy.StepKeeps | internal/jellyfin/mediacopy.go:106-508 | every step of any interleaving keeps the invariant, unless it makes .part vanish between a copy's measuring and its opening it |
| MediaCopy.RunKeeps | internal/jellyfin/mediacopy.go:106-508 | in a run in which no step makes .part vanish between a copy's measuring and its opening it, or only where the remote file goes on as it began, .part is what an attempt has written so far and LocalCopy serves only the remote file; with any sweeper, the code's included |
| MediaCopy.GoesWrong | internal/jellyfin/mediacopy.go:237-321 | from any state, no such harm having been done before, in which the sweeper is about to remove a .part that has been measured and not opened, where the file does not go on as it began, a run goes on to serve the wrong bytes |
| MediaCopy.RightIffNeverHarms | internal/jellyfin/mediacopy.go:106-508 | LocalCopy serves only the remote file, in every state of every run, if and only if the sweeper never comes to remove a .part that a copy has measured and not opened and after which the file does not go on as it began |
| MediaCopy.UnguardedIsRightIff | internal/jellyfin/mediacopy.go:485-508 | with the code's own sweeper LocalCopy serves only the remote file in every run if and only if that file is one byte over and over |
| MediaCopy.OutsideTheWindowIsRight | internal/jellyfin/mediacopy.go:485-508 | with a sweeper that leaves .part alone between the measuring of what is there and the opening, LocalCopy serves only the remote file in every run, whatever the file |
| MediaCopier.Title.constructor | internal/jellyfin/mediacopy.go:59-103 | a title as an earlier process left it on disk |
| MediaCopier.Title.StartCopy | internal/jellyfin/mediacopy.go:136-175 | a copy starts exactly if none is running and the title is not done |
| MediaCopier.Title.Sweep | internal/jellyfin/mediacopy.go:485-508 | what the sweeper may do between any two steps is a run of its own steps, and on a title with a record only the removal it was about to make |
| MediaCopier.Title.Measure | internal/jellyfin/mediacopy.go:237-244 | the size of .part is where to resume; unless a removal did harm, .part is what the remote file begins with |
| MediaCopier.Title.Request | internal/jellyfin/mediacopy.go:245-291 | the answer is a step of the protocol: the copy resumes where it asked, starts over, or the attempt fails |
| MediaCopier.Title.OpenPart | internal/jellyfin/mediacopy.go:292-299 | opening the partial file is a step of the protocol: emptied if the copy starts over, created if it is gone, and else as it is |
| MediaCopier.Title.WriteChunk | internal/jellyfin/mediacopy.go:326-334 | writing one chunk of the body is a step of the protocol; .part goes on being what the remote file begins with, unless the sweeper removed it |
| MediaCopier.Title.CopyBody | internal/jellyfin/mediacopy.go:326-357 | the loop over the body is a run of chunk steps; a body of unknown length succeeds only with the whole file, and a body is refused or short only if something was in its way |
| MediaCopier.Title.Rename | internal/jellyfin/mediacopy.go:307-312 | the rename of .part to .media is a step of the protocol, and fails if .part is gone |
| MediaCopier.Title.SetDone | internal/jellyfin/mediacopy.go:313-321 | writing the record that says done is a step of the protocol |
| MediaCopier.Title.CopyOnce | internal/jellyfin/mediacopy.go:237-322 | one attempt is a run of the protocol with the sweeper at work between any two steps; if it succeeds LocalCopy serves the remote file, unless the sweeper removed something meanwhile or did harm before; it fails only if the server, the disk or the sweeper was in its way |
| MediaCopier.Title.RunCopy | internal/jellyfin/mediacopy.go:179-221 | up to thirty attempts are a run of the protocol with the sweeper at work between any two steps; a copy that stays wanted and has room is finished, unless something was in its way thirty times; unless a removal did harm, LocalCopy then serves the remote file or nothing, and after a success undisturbed by the sweeper the remote file |
| ReplayGuard.FreshExactly | internal/discordbot/verify.go:121-128 | the timestamp test passes if and only if the timestamp is within the window, or so far ahead that the difference saturates |
| ReplayGuard.Verifier.constructor | internal/discordbot/verify.go:89-94 | a window that is not positive means five minutes |
| ReplayGuard.Verifier.Prune | internal/discordbot/verify.go:138-145 | the loop removes exactly the expired entries |
| ReplayGuard.Verifier.Remember | internal/discordbot/verify.go:132-156 | prune when full or a minute after the last time, which leaves no expired entry; then refuse a remembered or an unstorable request, or remember it |
| ReplayGuard.Verifier.Verify | internal/discordbot/verify.go:112-130 | while the clock does not go back, a timestamp that is no positive number is refused as a bad signature, one more than the window away and less than 2^63 nanoseconds ahead as stale, a request whose id was accepted within the last twice the window, or any while 100000 ids were, as a replay, and every other is accepted |
| ReplayGuard.AnswerIs | internal/discordbot/verify.go:99-156 | the same of every request of every run, in terms of earlier answers and of times alone |
| ReplayGuard.LiveEntries | internal/discordbot/verify.go:132-156 | what is remembered and has not expired is exactly what was accepted within the last twice the window |
| ReplayGuard.RememberedUntil | internal/discordbot/verify.go:132-156 | an accepted request is remembered for twice the window |
| ReplayGuard.NeverAcceptedTwice | internal/discordbot/verify.go:99-156 | in any run with a clock that never goes back, a second acceptance of the same signature and timestamp means the timestamp was too far ahead to measure |
| ReplayGuard.PassesAgainIff | internal/discordbot/verify.go:99-156 | an accepted request can pass again later if and only if its timestamp is that far ahead |
| ReplayGuard.FarAheadIsAccepted | internal/discordbot/verify.go:121-128 | counterexample: a timestamp of the year 2264 is accepted in 1970 |
| ReplayGuard.NeverOverfull | internal/discordbot/verify.go:138-154 | the table never grows beyond 100000 entries |
| Timeline.EqualLengthPlan | internal/hls/vod.go:26-48 | for a positive duration the slices partition the title, all but the last of the asked length, or of four seconds if that is not positive |
| Timeline.NormalizeKeyframes | internal/hls/vod.go:89-113 | exactly the keyframes inside the title, 0 and its end, in rising order |
| Timeline.KeyframesCover | internal/hls/vod.go:116-127 | at least two keyframes and the last of them within two seconds of the end |
| Timeline.KeyframePlan | internal/hls/vod.go:54-87 | if there are at least two keyframes, the last within two seconds of the end, a gap-free partition whose every cut is the earliest keyframe at least the asked length after the last, or the end, four seconds standing for an asked length that is not positive; else empty |
| Timeline.SearchAfter | internal/hls/vod.go:143-145 | the first segment that starts after ms |
| Timeline.IndexForMS | internal/hls/vod.go:136-150 | the segment that contains ms, for every ms in the title; the last one past its end |
| Timeline.OnlyOneContains | internal/hls/vod.go:136-150 | no two segments of a partition contain the same instant |
| Timeline.TargetDuration | internal/hls/vod.go:159-171 | the least number that is at least 1, the target and every segment's length rounded up (section 4.3.3.1 of RFC 8216) |
| Timeline.ListedDurationMS | internal/hls/vod.go:173-179 | the sum of the segments |
| Timeline.ListedIsWholeTitle | internal/hls/vod.go:173-179 | the listed duration of a partition is the title's duration |
| StreamSlots.Streams.Active | internal/jellyfin/stream.go:381-389 | the number of the source's grants |
| StreamSlots.Streams.Release | internal/jellyfin/stream.go:408-418 | the first loop removes exactly the source's idle grants and finds the viewer's own |
| StreamSlots.Streams.OldestFirst | internal/jellyfin/stream.go:419-419 | the viewer's own, oldest first |
| StreamSlots.Streams.MakeRoom | internal/jellyfin/stream.go:420-426 | the second loop drops the viewer's oldest streams, no more than it takes to have room |
| StreamSlots.Streams.Supersede | internal/jellyfin/stream.go:406-427 | both loops together |
| StreamSlots.Streams.ClaimSlot | internal/jellyfin/stream.go:401-440 | with a limit every grant of the source goes that was last read, or if it never was created, more than twenty seconds ago; of the others those of other viewers all stay, and the claim is refused if and only if they fill the limit; of the viewer's own the oldest go, no more than it takes; other sources' grants are untouched |
| StreamSlots.Streams.Revoke | internal/jellyfin/stream.go:359-368 | the one grant ends |
| StreamSlots.Streams.RevokeSource | internal/jellyfin/stream.go:464-476 | every grant of the source ends, and no other |
| StreamSlots.Streams.SweepGrants | internal/jellyfin/stream.go:509-522 | exactly the expired grants end |
| StreamSlots.ClaimKeepsLimit | internal/jellyfin/stream.go:401-440 | an admission never takes the source past its limit, and a refusal adds nothing |
| StreamSlots.ClaimSparesOthers | internal/jellyfin/stream.go:401-440 | other sources' grants and other viewers' active ones are untouched |
| StreamSlots.LimitHolds | internal/jellyfin/stream.go:359-522 | in every reachable state a source with a limit has at most that many grants |
| TokenBucket.AskAddsUp | internal/diagnostics/recorder.go:322-335 | in one ask no token appears or disappears |
| TokenBucket.AskInRange | internal/diagnostics/recorder.go:322-335 | an ask is granted between nothing and what it asks for, and at most the burst |
| TokenBucket.TokensInRange | internal/diagnostics/recorder.go:314-340 | tokens stay between 0 and the burst after every ask of a run |
| TokenBucket.TokensAddUp | internal/diagnostics/recorder.go:314-340 | over any stretch, what was there and flowed in was granted, found no room, or is there |
| TokenBucket.FlowsWithTime | internal/diagnostics/recorder.go:324-330 | over any stretch the inflow is the rate times the time |
| TokenBucket.AtMostBurstAndRate | internal/diagnostics/recorder.go:314-340 | any stretch of a session's asks is granted at most the burst plus the rate times its time |
| TokenBucket.NothingIsWithheld | internal/diagnostics/recorder.go:314-340 | a stretch whose last ask is not granted in full, and in which nothing overflowed, is granted all that was there and flowed in but less than one token |
| TokenBucket.FirstAsk | internal/diagnostics/recorder.go:322-335 | the first ask of a session is granted what it asks for, up to the burst |
| TokenBucket.LaterAsk | internal/diagnostics/recorder.go:322-335 | every later ask is granted as many whole tokens as were left and have flowed in since, the burst at most, up to what it asks for |
| TokenBucket.Recorder.Evict | internal/diagnostics/recorder.go:348-356 | exactly one session goes, the least recently active |
| TokenBucket.Recorder.Session | internal/diagnostics/recorder.go:344-361 | the session is there, an evicted one only if there was no room, and a new one starts afresh |
| TokenBucket.Recorder.Take | internal/diagnostics/recorder.go:322-335 | the bucket's part of Admit is one step of a run |
| TokenBucket.Recorder.Admit | internal/diagnostics/recorder.go:314-340 | granted plus dropped is what was asked for, a new session's first ask is granted up to the burst, the session's run grows by this ask, and another session goes only for want of room, the least recently active one |
| RateLimit.Filter | internal/auth/ratelimit.go:24-30 | the in-place filter over the shared buffer leaves exactly the hits after the cut, in order |
| RateLimit.Append | internal/auth/ratelimit.go:35-35 | append in the buffer's own room or in a new one |
| RateLimit.Hit | internal/auth/ratelimit.go:24-36 | filter, then append if fewer than n are left |
| RateLimit.Limiter.constructor | internal/auth/ratelimit.go:17-17 | a limiter without hits |
| RateLimit.Limiter.Count | internal/auth/ratelimit.go:23-35 | a call works on its own key's slice only |
| RateLimit.Limiter.Allow | internal/auth/ratelimit.go:19-37 | the answer and the stored hits are those of the run's specification, for every key; while the clock does not go back, a call passes if and only if fewer than n of its key's did within the window |
| RateLimit.NothingYoungIsLost | internal/auth/ratelimit.go:24-36 | the filter forgets expired admissions and nothing else |
| RateLimit.PassesIff | internal/auth/ratelimit.go:19-37 | with a clock that never goes back, a call passes if and only if fewer than n calls of its key have passed within the window before it |
| RateLimit.AtMostNWithLag | internal/auth/ratelimit.go:19-37 | whatever the calls and keys, a span shorter than the window by the clock's lag has at most n admissions for a key |
| RateLimit.AtMostN | internal/auth/ratelimit.go:19-37 | with a clock that never goes back, every span of the window's length has at most n |
| RateLimit.FewAreAlwaysKept | internal/auth/ratelimit.go:19-37 | a limit of at most one is kept whatever the order of the stamps |
| RateLimit.OneTooMany | internal/auth/ratelimit.go:20-21 | counterexample for every limit of two or more: the clock is read before the lock is taken, and a call stamped earlier but counted later is one too many in a span shorter than the window by less than the lag |
| RateLimit.LimitsIff | internal/auth/ratelimit.go:19-37 | no span shorter than the window by `slack` ever has more than n admissions, the stamps being up to `lag` out of order, if and only if n is at most one, or slack is at least the lag, or the span is empty |
| Placeholders.RewritePlaceholders | internal/db/provider.go:268-305 | the byte loop with its quote flags and escapes writes what the positional definition says |
| Placeholders.InsideIff | internal/db/provider.go:268-305 | the flags say just what is inside quotes: behind a quote that opened outside any and has not closed since, in single quotes by one with an even number of backslashes before it |
| Placeholders.ParamIff | internal/db/provider.go:268-305 | exactly the question marks outside quotes are placeholders |
| Placeholders.SameQuotes | internal/db/provider.go:268-305 | quotes open and close in the output where they do in the query |
| Placeholders.NoneLeft | internal/db/provider.go:268-305 | no placeholder is left outside quotes |
| Placeholders.NothingToDo | internal/db/provider.go:268-305 | a query without placeholders is unchanged |
| Placeholders.RewritingTwice | internal/backend/backend.go:137-142 | rewriting a rewritten query changes nothing, so the node store and the driver may both do it |
| Placeholders.NumberedInOrderIff | internal/db/provider.go:268-305 | of a query without dollar signs of its own the database reads 1, 2, … in order, one per placeholder, if and only if no placeholder is directly followed by a digit |
| Placeholders.DigitFollows | internal/db/provider.go:268-305 | counterexample: `?1` becomes `$11` |
| SegmentCheck.OneChain | internal/jellyfin/relay.go:224-249 | a file can be taken apart into boxes in one way only |
| SegmentCheck.SizeRight | internal/jellyfin/relay.go:228-244 | the size checks refuse a header if and only if no box begins there |
| SegmentCheck.ReadAt | internal/jellyfin/relay.go:225-227 | a read fails at a negative offset |
| SegmentCheck.CompleteBoxes | internal/jellyfin/relay.go:221-253 | the walk ends, and accepts exactly the files of boxes with media, although at + box may wrap around |
| SegmentCheck.CompleteSegment | internal/jellyfin/relay.go:211-254 | accepts a .ts file if and only if its length is a positive multiple of 188, and any other if and only if it is box after box with an mdat, under the code's size rules: a size of 8 or more that ends within the file, 32 or 64 bits, or 0 for the rest of it; a read fails only where a size wraps around |
| SegmentCheck.CutShort | internal/jellyfin/relay.go:207-254 | a whole file that was cut short is refused, except where the cut falls between boxes after media or inside a last box of size 0; both directions |
| SegmentStandard.StandardSplits | internal/jellyfin/relay.go:207-254 | every file that is box after box with an mdat under section 4.2 of ISO/IEC 14496-12 is accepted |
| SegmentStandard.StandardIff | internal/jellyfin/relay.go:224-249 | an accepted file is box after box under section 4.2 of ISO/IEC 14496-12 if and only if each of its boxes has room for its own header |
| SegmentStandard.TooSmallIsAccepted | internal/jellyfin/relay.go:228-244 | counterexample: sixteen bytes whose 64-bit size says eight are accepted, and are no boxes under section 4.2 of ISO/IEC 14496-12 |
| MergeRemote.Locals | internal/library/movies.go:451-458 | the keys of the local titles |
| MergeRemote.Compact | internal/library/movies.go:459-476 | the in-place compaction never overwrites an unread element and leaves exactly what stays, in order |
| MergeRemote.AllStay | internal/library/movies.go:448-450 | without external titles the list is unchanged |
| MergeRemote.MergeRemote | internal/library/movies.go:435-477 | the whole merge, the unreadable source list included |
| MergeRemote.StayRises | internal/library/movies.go:459-476 | the result is an order-preserving subsequence, each position at most once, with every local title |
| MergeRemote.StaysIff | internal/library/movies.go:460-474 | an external title stays if and only if it matches no local title and no earlier external one that stays |
| MergeRemote.OncePerTitle | internal/library/movies.go:432-434 | an external title that stays matches no other title that stays; one that goes matches a title that stays |
| MergeRemote.MatchIff | internal/library/movies.go:413-425 | two titles match if and only if they have the same normalised name and the same year, none counting as 0, or the same positive TMDB id |

## Left out

- MoveRun.RecoverMoves: job counters and job status are not modelled, and every pending row is one of the interrupted job.
- MoveRun.RunMove: of a title whose put-back failed it is claimed that nothing is lost or replaced and how much is not back, not which part.
- MoveJob.RunAcrossRestarts: claims nothing of what follows a crash that left an unrecoverable state, or a recovery that was cut short after one of its steps had failed, because the code does not survive them.
- MoveFs.Drive.CopyTree: empty folders, permissions, ownership and links are not modelled; a folder is the files in it.
- MoveFs.Drive.Mkdir: which folders were created, and their removal after an undo or a finished move, is not modelled.
- MoveFs.Drive.MoveEntry: an intruder that creates the destination between the test and the rename is not modelled; entries are taken not to lie inside each other, which MovePlan.PlanRequest proves of destinations.
- MovePlan.PlanRequest: promises nothing about destinations once some claim has found no free candidate; titles that are refused, before or after they are placed, are not modelled.
- MovePlan.PlanFolder: which folders are season folders and which hold one title only are parameters (the season pattern and folderBelongsTo are not modelled).
- MovePlan.PlanFile: the listing of sidecars is a parameter; that two videos with one stem list the same sidecar is why the executor's sources are taken to differ.
- MovePlan.Lower: lower-casing outside ASCII is not modelled.
- MoveRequest.PlannedIsReady: components are taken to have no slash and not to be empty.
- Routing.Candidates: the node cache is a parameter, and splitting and folding of capability lists is not modelled.
- Rotation.Router.Weighted: node ids are taken to differ, as the primary key makes them; counters are unbounded, which the bounds proved of them make safe.
- BackupRetention.Bucket.Prune: ids of the same second sort by their random digits; hashing, encryption, archives and restore are not modelled.
- MediaCopy.RunKeeps: space limits, slots per source, throttling and access times are not modelled.
- ReplayGuard.Verifier.Verify: signature checking comes before what is modelled, and the hash is taken as the key; twice the window must fit an int64 of nanoseconds.
- Timeline.TargetDuration: the ratio of milliseconds to seconds is exact where the code divides floats; sums are unbounded.
- StreamSlots.Streams.ClaimSlot: what ending a stream does on the remote server is not modelled, and the source's limit does not change during a run.
- TokenBucket.Recorder.Admit: tokens are reals; recording events, which also makes a session active and sweeps old ones, is not modelled, nor is a change of the budget.
- RateLimit.Limiter.Allow: calls are taken in the order of the lock.
- Placeholders.NumberedInOrderIff: quoting is the scanner's own; how a database reads quotes and comments is not modelled.
- SegmentCheck.CompleteSegment: accepts by the code's size rules, which are weaker than section 4.2 of ISO/IEC 14496-12 (SegmentStandard.StandardIff); read errors within the file are not modelled.
- MergeRemote.TitleKeys: the name comes in normalised; Unicode case and white space are not modelled.
- The splitting of migration scripts into statements and the running flag of the backup service: easy members.
- HTTP handlers, wiring, user interface, SQL itself, object storage, ffmpeg, and the easier parts of the files above.
