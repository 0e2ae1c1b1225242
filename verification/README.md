# Harbor Satellite: a verified model

This project models the parts of Harbor Satellite where a small amount of code carries a promise over many steps, and
proves those promises with Dafny. A satellite keeps a local registry in step with what ground control lists for its
groups; ground control keeps track of satellites, groups, configs and logins; the Parsec client talks to a key service
over a binary protocol; and an audit logger records what happens. `dafny verify dfyconfig.toml` checks everything.

| file | what it models |
|---|---|
| `Changes.dfy`, `Replication.dfy` | the diff between held and listed entities, the two loops that carry it out, and what they make of the registry |
| `GroupSync.dfy` | one round of reconciliation with a goroutine per group, in every interleaving, with calls failing |
| `FaultFreeRounds.dfy`, `Rounds.dfy`, `FaultyRounds.dfy` | the end of a round without faults, any number of rounds with groups coming and going, and what failures do to the rounds after them |
| `StatePersistence.dfy` | the state file, the group list, and every run of updates, commits, saves, crashes and restarts |
| `DirectDelivery.dfy`, `TarballNames.dfy`, `DeliveryRounds.dfy`, `DeliveryRaces.dfy` | image tarballs in a watched directory, the digest map beside them, the names of the tarballs, the directory over many rounds, and calls of several groups at once |
| `RateLimiter.dfy` | the sliding-window limiter, its cleanup ticker, and every run of both |
| `Json.dfy`, `MergePatches.dfy`, `Redaction.dfy`, `ConfigDiff.dfy`, `DiffTexts.dfy`, `DiffContents.dfy`, `DiffSecrets.dfy` | decoded configs, merge patches, redaction, the flat diff for the audit log, its dotted paths, what its entries tell and what it shows of secrets |
| `LoginLockout.dfy`, `LoginRaces.dfy` | the table of failed logins and the lock it puts on accounts, with one handler at a time and with several |
| `LittleEndian.dfy`, `WireHeader.dfy`, `Requests.dfy` | the Parsec wire header, requests and responses, byte by byte |
| `AuditLogger.dfy`, `AuditRuns.dfy` | building, swapping and closing audit transports, alone and under concurrency |
| `Scheduler.dfy` | the run loop, its executions and the wait for their end |
| `HeartbeatInterval.dfy` | Go durations in interval expressions and their normal form |
| `GroupMembership.dfy` | group membership, robot permissions and state artifacts |

Code that changes objects step by step is a class or a method with loops, proved against a function of the old state.
Code that runs concurrently is a state machine, one atomic action of the program per step, and its theorems are about
every run. What the outside world does (whether a pull, a write, a registry call or a save succeeds, what the clock
shows, in which order goroutines go on) is a parameter of the step, so the theorems hold for all of it.

## Where the code differs from what is said about it, or from what one would expect

Each of these comes with inputs that show it and with the exact condition under which it does not happen.

- The comment at `internal/satellite/state/direct_delivery.go:201-203` calls the double hyphen in tarball names
  unambiguous. It is not, for three reasons: `/`, `:`, space and `_` all become `_` (`ReplacedCharactersCollide`), a
  repository or a name can hold a double hyphen itself (`NamesCollide`, `TagsCollide`), and a hyphen at the end of a
  field joins the delimiter (`EndHyphensCollide`). `TarballNames.FilenamesDecideIff` says, for any sets of repositories,
  names and tags, when names do tell images apart, field by field; `RegistryFormsAreToldApart` has a simple case, in
  which tags may hold any hyphens and underscores.
- The digest map stays truthful even when names collide, as long as calls come one after the other
  (`DigestMapNeverLies`). The groups' calls overlap, though: a file that one call writes another can remove before the
  first has recorded it. `DeliveryRaces.MapStaysTrueIffNoRace` says exactly for which calls that cannot happen.
- The skip check compares with the map as it was before the call, so one delivery can leave an entity without its own
  image; `DeliveryIsCompleteIffNoConflict` says exactly when, and `DeliveryRounds.DirectoryMirrorsTheList` says it for
  whole rounds. A cancelled or unsaved call can leave a map that is not true; `UnrecordedDelivery` and
  `UnrecordedDeletion` say exactly when.
- An unchanged entity is scheduled for replication again exactly when the state lists it twice
  (`Replication.UnchangedEntity`, `RepeatedEntityIsScheduledAgain`); replication then finds its digest and skips it.
- A URL that is listed twice when it is new becomes two groups, and they stay as long as it is listed
  (`StatePersistence.TwoGroupsStay`); `OneGroupEachIff` says when no URL has two groups. Two such groups get on just as
  long as they have nothing to delete (`FaultFreeRounds.TwinsEndRightIffNothingIsDeleted`).
- A group that fails after it has deleted something tries to delete it again in the next round, does not find it, and
  fails without a fault (`FaultyRounds.StuckGroup`), for as long as the image is not listed again (`StuckForGood`).
  `RetryCommitsIff` says exactly when the next round of a failed group commits, and `RegistryAfterAnyRounds` what the
  registry holds after any rounds, with any failures.
- Groups that share images can get into each other's way: one group deletes what another lists
  (`GroupSync.SharedImageIsLost`, `DeletesWhatIsListed`), or two delete the same reference and the second fails
  (`SecondDeleteFails`). `GroupSync.AlwaysRightIffNoClash` has the exact condition, on the work lists, for rounds in which
  calls may fail, and `FaultFreeRounds.AlwaysEndsRightIffCompatible` the weaker one for rounds in which none does.
- The images of a group that is dropped from the list stay in the registry until some group manages them again
  (`Rounds.DroppedImagesStay`); `Rounds.RegistryAfterRounds` says what the registry holds after any number of rounds.
- The dotted paths of the config diff do not tell all places apart: `{"a.b": …}` and `{"a": {"b": …}}` share one, the empty
  key vanishes at the top, and one of two changes is lost whatever order the walk takes
  (`DiffTexts.CollidingPlacesLoseAChange`, with the families `DottedKeyCollides`, `EmptyKeyCollides`,
  `LeadingDotCollides`). `DiffsAreExactIffTextsAreApart` is the exact condition on any set of keys, and
  `DiffsAreExactIffKeysAreClean` the one for sets of keys that have the parts of their keys: no empty key, no dots.
- `redactConfigValue` hides everything under a sensitive key. The diff looks at the end of a dotted path only: it shows
  a secret below a sensitive key, and the changed value of a key like `token.x`, whose last segment looks harmless
  (`DiffSecrets.DisguisedKeyShows`). `RecordedChangeHidesSecretsIff` says, for every place and any keys, exactly when
  what is recorded is independent of all secrets.
- With several handlers of one user under way, more attempts get past the lock check than one after the other: the check,
  the count and the lock are separate calls, and a lock time computed earlier can overwrite a later one.
  `LoginRaces.ConcurrentLockoutBound` has the bound, and `ConcurrentBoundIsReached` shows that it is exact.
- A satellite that leaves its last group keeps its old state artifact (`GroupMembership.LeavingTheLastGroup`).
- A group whose own artifact cannot be deleted is gone although the request fails
  (`GroupMembership.GroundControl.DeleteGroup`).
- An audit event can be sent to a transport that has been closed (`AuditRuns.EventAfterClose`);
  `LoggedTransportIsOpenIff` says exactly when it is still open.
- The scheduler's test for a running process does not exclude a second execution (`Scheduling.ExecutionsCanOverlap`).
  Executions are launched one at a time just when no test comes between the spawning of an execution and its beginning
  (`LaunchesOverlapIffTestedTooEarly`), and once such a test has come, two can be under way together
  (`ExecutionsCanOverlapIffTestedTooEarly`).
- The length of a request body is cut to 32 bits, so exactly the bodies of 2^32 bytes and more do not fit their header
  (`Requests.PackedRequestIsReadable`).

## Assumptions

- Within a group, name and tag decide the repository and, in the new list, the digest, and tags contain no `|`: the
  lookup map is keyed by name and tag. `NameAndTagDecideImage` derives the form the proofs use.
- The source registry serves the digest that the state lists for a tag, during a round.
- Clocks do not go back. Go measures with a monotonic clock.
- `jsonpatch.MergePatch` is section 2 of RFC 7396.
- `time.ParseDuration` is modelled from its documented grammar and its overflow checks. What a decimal fraction is worth
  is a parameter of the model, because Go computes it in floating point; the theorems hold for every such function.
  `Duration.Hours`, `Minutes` and `Seconds` are exact quotients: for whole seconds the fraction is too far from one for
  rounding to reach the next integer.

## Model

| member | source | states |
|---|---|---|
| `Changes.GroupState.RemoveNullTagArtifacts` | internal/satellite/state/state_process.go:571-580 | the state keeps exactly the artifacts that have a tag, in order, rewritten in place |
| `Changes.TaggedArtifactsStay` | internal/satellite/state/state_process.go:571-580 | what stays is every artifact with a tag, as often as it was there, and in order |
| `Changes.GroupState.FetchEntities` | internal/satellite/state/state_process.go:611-624 | one entity per tag of every artifact, in order |
| `Changes.EntityOfTag` | internal/satellite/state/state_process.go:611-624 | the entity of each tag of each artifact is at its place in the list, with the repository, name and digest of the artifact, and the list has nothing else |
| `Changes.UntaggedArtifactsHaveNoEntities` | internal/satellite/state/state_process.go:571-580 | dropping untagged artifacts drops no entity |
| `Changes.GetChanges` | internal/satellite/state/state_process.go:179-227 | the two work lists: superseded versions in list order, then what is listed no longer, in any order; and what is new or changed. No old list behaves like an empty one |
| `Changes.Compare` | internal/satellite/state/state_process.go:199-218 | the loop over the new entities schedules exactly what is missing from the lookup map or has another digest there, and takes each key out once |
| `Changes.LookupFindsTheLast` | internal/satellite/state/state_process.go:192-197 | the lookup map has, under each key, the last entity of the list with that key |
| `Changes.ScheduledInOrder` | internal/satellite/state/state_process.go:199-218 | both lists are made in the order of the new entities, each of which takes its key out of the map |
| `Changes.Drain` | internal/satellite/state/state_process.go:220-224 | the rest of the lookup map comes out complete and without repetition, whatever the iteration order |
| `Replication.LocalRegistry.DeleteReplicationEntity` | internal/satellite/state/replicator.go:217-249 | deletes in order and stops at the first failing call or missing reference |
| `Replication.LocalRegistry.Replicate` | internal/satellite/state/replicator.go:79-177 | copies by tag in order, skips what is already there with its digest, and stops at the first failing call |
| `Replication.DeletingGetsThrough` | internal/satellite/state/replicator.go:229-246 | deleting takes away exactly a beginning of the list and answers whether that is all of it; otherwise the next call has failed or its image is not there |
| `Replication.ReplicatingGetsThrough` | internal/satellite/state/replicator.go:107-174 | replicating makes exactly the references of a beginning of the list as in the source and answers whether that is all of it; otherwise the next call has failed or the source has no such image |
| `Replication.RefTellsThePlace` | internal/satellite/state/replicator.go:229-236 | a reference tells repository, name and tag |
| `Replication.NameAndTagDecideImage` | internal/satellite/state/state_process.go:192-197 | the lookup key stands for one image when tags contain no separator and name and tag decide the repository |
| `Replication.NothingIsDeletedTwice` | internal/satellite/state/state_process.go:199-226 | no entity is on the delete list twice |
| `Replication.DeletedIsOutdated` | internal/satellite/state/state_process.go:199-226 | what is deleted was held and is not listed any more with its digest |
| `Replication.KeptIsListed` | internal/satellite/state/state_process.go:199-226 | what is held and not deleted is listed with its digest |
| `Replication.UnchangedEntity` | internal/satellite/state/state_process.go:199-218 | an unchanged entity is never on the delete list, and on the replicate list exactly when the state repeats it |
| `Replication.RepeatedEntityIsScheduledAgain` | internal/satellite/state/state_process.go:199-218 | a list that repeats a held entity: it is on the replicate list again, and nothing is deleted |
| `Replication.PlanLeadsToDesired` | internal/satellite/state/state_process.go:179-227 | per reference: the work lists lead to the listed digest, or to nothing |
| `Replication.PlanReachesListedState` | internal/satellite/state/state_process.go:179-227 | deleting and then replicating makes a registry that holds the old entities hold exactly the listed ones, leaves every other reference alone, and never deletes a missing one |
| `Replication.NextRoundIsEmpty` | internal/satellite/state/state_process.go:179-227 | once the listed entities are held, the next work lists are empty |
| `GroupSync.AdvanceKeepsOnTrack` | internal/satellite/state/state_process.go:459-469 | one step of a goroutine never meets a missing reference and touches only what its group manages |
| `GroupSync.NextKeepsInvariant` | internal/satellite/state/state_process.go:456-489 | every step of any group keeps every group on track and changes nothing unmanaged |
| `GroupSync.EveryInterleaving` | internal/satellite/state/state_process.go:413-492 | groups that do not clash: in every interleaving, with any calls failing, a committed group has exactly its listed entities in the registry and in memory, and a failed one keeps its old entities and failed through its own call |
| `GroupSync.AlwaysRightIffNoClash` | internal/satellite/state/state_process.go:413-492 | every interleaving is right at every moment, whatever fails, exactly when no group deletes what another one deletes or lists; groups may share images otherwise |
| `GroupSync.SecondDeleteFails` | internal/satellite/state/replicator.go:229-246 | two groups that delete one reference: a run in which one of them fails without a fault |
| `GroupSync.DeletesWhatIsListed` | internal/satellite/state/state_process.go:456-489 | a group that deletes what a committed group lists: a run that loses the image or fails |
| `GroupSync.EveryStepIsProgress` | internal/satellite/state/state_process.go:125-144 | a running goroutine can always go on, and comes nearer to its end, whatever the others do |
| `GroupSync.GoroutineIsTheTwoLoops` | internal/satellite/state/state_process.go:456-489 | the steps of a goroutine left alone compute the two loops: the registry is what deleting and then replicating makes of it, and it commits exactly when both succeed |
| `FaultFreeRounds.FaultFreeRound` | internal/satellite/state/state_process.go:125-144 | groups that get along: without failing calls, every interleaving ends in the union of all listed entities plus the untouched unmanaged ones |
| `FaultFreeRounds.AlwaysEndsRightIffCompatible` | internal/satellite/state/state_process.go:125-144 | every finished round without faults ends that way exactly when no two groups delete one reference and no group deletes, without replicating it again, what another one lists |
| `FaultFreeRounds.DisjointGroupsEndRight` | internal/satellite/state/state_process.go:125-144 | in particular groups that manage different references |
| `FaultFreeRounds.TwinsEndRightIffNothingIsDeleted` | internal/satellite/state/state_process.go:125-144 | two groups with one URL: their rounds without faults always end right exactly as long as nothing has to be deleted |
| `GroupSync.SharedImageIsLost` | internal/satellite/state/state_process.go:456-489 | an input at which a shared image is lost: one group drops it, another still lists it, and both commit |
| `Rounds.RegistryAfterRounds` | internal/satellite/state/state_process.go:110-144 | after any number of faultless rounds and changes of the group list, every reference holds what the last round left that managed it |
| `Rounds.DroppedImagesStay` | internal/satellite/state/state_process.go:164-176 | what a round listed and no later round manages, because its groups were dropped, stays in the registry |
| `FaultyRounds.RegistryAtAnyMoment` | internal/satellite/state/state_process.go:413-492 | at any moment of a round of groups that do not clash, whatever the registry held and whatever fails: replicated references are as in the source, references deleted only are gone, all others are as they were |
| `FaultyRounds.CommitsIffNothingIsMissing` | internal/satellite/state/state_process.go:456-489 | in a round without faults, whatever the registry held at its start, a group commits exactly when everything it has to delete is there |
| `FaultyRounds.HeldAfterFailure` | internal/satellite/state/state_process.go:456-489 | what a group holds is in the registry during and after a round exactly when the group has not deleted it without getting it back |
| `FaultyRounds.RetryCommitsIff` | internal/satellite/state/state_process.go:456-489 | the next faultless round of a group that failed or was cut off commits exactly when nothing it deleted before, and has not got back, is on its delete list again |
| `FaultyRounds.StuckForGood` | internal/satellite/state/replicator.go:229-246 | a missing reference that some group has to delete in every round stays missing, and no such group ever commits, whatever else happens |
| `FaultyRounds.StuckGroup` | internal/satellite/state/replicator.go:229-246 | an input: a group that fails between deleting an image and committing fails in the next round without any fault |
| `FaultyRounds.RegistryAfterAnyRounds` | internal/satellite/state/state_process.go:110-144 | after any number of rounds, with any failures, every reference holds what the last group left there that replicated or deleted it |
| `StatePersistence.SaveState` | internal/satellite/state/state_persistence.go:24-74 | writes all groups or fails without a trace; at every moment the target path holds the whole old or the whole new content, and loads as the old or the new state |
| `StatePersistence.LoadState` | internal/satellite/state/state_persistence.go:78-93 | a missing file is an empty state, an undecodable one an error |
| `StatePersistence.UpdateFollowsTheList` | internal/satellite/state/state_process.go:146-177 | after an update the groups are exactly the listed URLs; a change is reported exactly when they were not before |
| `StatePersistence.UpdateKeepsTheOrder` | internal/satellite/state/state_process.go:146-177 | old groups stay in their order, and new ones come in the order of the list |
| `StatePersistence.GroupsAfterUpdate` | internal/satellite/state/state_process.go:146-177 | how many groups a URL has after an update: none if it is not listed, as many as before if it had any, otherwise as many as the times it is listed |
| `StatePersistence.OneGroupEachIff` | internal/satellite/state/state_process.go:146-177 | an update keeps every URL to one group exactly when the list repeats no URL that had none |
| `StatePersistence.TwoGroupsStay` | internal/satellite/state/state_process.go:146-177 | a URL that was new and listed twice keeps its two groups under every list that has it, and the same list reports no change |
| `StatePersistence.FetchAndReplicateStateProcess.constructor` | internal/satellite/state/state_process.go:40-63 | the memory of a new process is what the state file holds, or empty |
| `StatePersistence.FetchAndReplicateStateProcess.UpdateStateMap` | internal/satellite/state/state_process.go:146-177 | keeps listed groups, drops the others, appends new ones |
| `StatePersistence.FetchAndReplicateStateProcess.CommitGroup` | internal/satellite/state/state_process.go:481-489 | a commit changes one group and saves the new memory, or leaves the file alone |
| `StatePersistence.FetchAndReplicateStateProcess.CommitConfig` | internal/satellite/state/state_process.go:399-406 | the config digest is stored and saved with the groups |
| `StatePersistence.FetchAndReplicateStateProcess.PersistState` | internal/satellite/state/state_process.go:561-569 | saves the memory as it is |
| `StatePersistence.RebuildingKeepsWhatIsSaved` | internal/satellite/state/state_process.go:40-63 | loading what was saved gives back every URL, entity list and the digest; loading nothing, or what cannot be read, gives an empty memory |
| `StatePersistence.WhatAStepSaves` | internal/satellite/state/state_process.go:399-489 | a commit gives one group exactly the entities of the fetched state and leaves the others, a config step changes the digest alone, and a failing save makes no difference to the memory |
| `StatePersistence.FileFollowsMemory` | internal/satellite/state/state_process.go:116-123 | in every reachable state after the first save or load, with no list change waiting, the file equals the memory if no save fails, through restarts and deaths in the middle of a save |
| `StatePersistence.FileIsLastLandedSave` | internal/satellite/state/state_persistence.go:24-74 | in every run, with failing saves, deaths and restarts, the file is the memory as of the last save that landed, or the file at the start when none did |
| `StatePersistence.RestartGoesOnWithTheLastLandedSave` | internal/satellite/state/state_process.go:40-63 | and that is what a process that restarts has in memory |
| `StatePersistence.DyingLosesAtMostTheStep` | internal/satellite/state/state_persistence.go:24-74 | a process that dies while it saves comes back with what it had before the step or after it, as the rename had happened or not |
| `StatePersistence.RestartChangesNothing` | internal/satellite/state/state_process.go:40-63 | a process rebuilt from the file has the same groups with the same entities and the same digest; any group list makes the same change and the same saved state of it, and leads to the same work lists |
| `DirectDelivery.DirectDeliverer.Deliver` | internal/satellite/state/direct_delivery.go:49-126 | writes what the map does not have, and records it at the end unless it was cancelled or nothing was written |
| `DirectDelivery.DirectDeliverer.Delete` | internal/satellite/state/direct_delivery.go:129-171 | removes tarballs and takes the removed ones out of the map unless cancelled |
| `DirectDelivery.DigestMapNeverLies` | internal/satellite/state/direct_delivery.go:49-171 | over any sequence of calls, one after the other, with any failing pulls, writes and removals, every map entry has its tarball on disk, written for that digest |
| `DirectDelivery.UncancelledCallIsPerform` | internal/satellite/state/direct_delivery.go:49-171 | an uncancelled call with a successful save records exactly what it did; a cancelled or unsaved one does the same to the tarballs it gets to and leaves the map file, or loses it |
| `DirectDelivery.WrittenFileOf` | internal/satellite/state/direct_delivery.go:80-106 | a delivery writes exactly the files whose pull and write go through and that the map does not have with their digest |
| `DirectDelivery.LastWriteStays` | internal/satellite/state/direct_delivery.go:80-106 | of several writes to one file the last one stays, in the directory and in what is recorded |
| `DirectDelivery.UnrecordedDelivery` | internal/satellite/state/direct_delivery.go:112-126 | when a delivery goes unrecorded, the old map stays true exactly when no image was written, under a name the map lists, with another digest |
| `DirectDelivery.UnrecordedDeletion` | internal/satellite/state/direct_delivery.go:151-170 | when a deletion goes unrecorded, the old map stays true exactly when it lists none of the removed files |
| `DirectDelivery.DeliveryIsCompleteIffNoConflict` | internal/satellite/state/direct_delivery.go:80-88 | a faultless delivery leaves every entity on disk exactly when no two of its entities share a filename with different digests |
| `DeliveryRaces.MapStaysTrueIffNoRace` | internal/satellite/state/state_process.go:471-479 | calls of several groups at once, entity by entity: in every interleaving, whatever fails, a true map is true in the end exactly when no two calls that can overlap deliver different images, or deliver and delete, under one filename |
| `DeliveryRaces.WithoutRacesTheMapIsTrue` | internal/satellite/state/direct_delivery.go:49-171 | without such calls, every run of all calls to their end leaves the map true |
| `DeliveryRaces.RaceMakesTheMapUntrue` | internal/satellite/state/direct_delivery.go:49-171 | with such calls, a run from an empty directory that ends with an untrue map |
| `DeliveryRaces.AloneIsPerform` | internal/satellite/state/direct_delivery.go:49-171 | a call that nothing interrupts does to directory and map what the call in one piece does |
| `TarballNames.JoinDecidesIffApart` | internal/satellite/state/direct_delivery.go:201-207 | two texts joined by a double hyphen can be told apart exactly when no first text ends in a hyphen that a second can begin with, and no first text goes on over the delimiter into a second |
| `TarballNames.FilenamesDecideIff` | internal/satellite/state/direct_delivery.go:201-207 | for any sets of repositories, names and tags, filenames tell all images of them apart exactly when the replaced characters make no two texts of a field alike and neither repository nor name runs into what is behind it |
| `TarballNames.RegistryFormsAreToldApart` | internal/satellite/state/direct_delivery.go:201-207 | images as a registry has them are told apart: any hyphens and underscores in tags, and no double or final hyphen and no underscore in repository and name |
| `TarballNames.ReplacedCharactersCollide` | internal/satellite/state/direct_delivery.go:204-207 | slash, colon, space and underscore give the same name, in any text |
| `TarballNames.NamesCollide` | internal/satellite/state/direct_delivery.go:201-207 | a double hyphen in the repository or in the name gives the same name, for any texts around it |
| `TarballNames.EndHyphensCollide` | internal/satellite/state/direct_delivery.go:201-207 | a hyphen at the end of one field or the start of the next gives the same name |
| `DirectDelivery.FilenameInFull` | internal/satellite/state/direct_delivery.go:204-207 | a filename, letter by letter |
| `DeliveryRounds.DirectoryFollowsTheList` | internal/satellite/state/state_process.go:471-479 | after the deletions and deliveries of a group, every listed image is in the directory exactly when no name stands for two images of the round; what is not listed any more is gone, the rest untouched |
| `DeliveryRounds.DirectoryMirrorsTheList` | internal/satellite/state/state_process.go:471-479 | over any number of faultless rounds the directory holds exactly the listed tarballs just when no round has such a name |
| `RateLimiting.RateLimiter.Allow` | internal/groundcontrol/middleware/ratelimit.go:35-59 | prunes the address, then decides and records |
| `RateLimiting.RateLimiter.Cleanup` | internal/groundcontrol/middleware/ratelimit.go:66-84 | prunes every address and drops the empty ones, in any order |
| `RateLimiting.Prune` | internal/groundcontrol/middleware/ratelimit.go:42-48 | keeps exactly the timestamps after the cutoff, in order |
| `RateLimiting.RunIsFaithful` | internal/groundcontrol/middleware/ratelimit.go:35-85 | on every run the pruned list and the full history agree beyond every present or future cutoff |
| `RateLimiting.NothingOldIsKept` | internal/groundcontrol/middleware/ratelimit.go:66-84 | after a tick an address is stored exactly when it had a timestamp in the window, and only such timestamps are; after a request the same holds of the timestamps of its address |
| `RateLimiting.AllowCountsFullHistory` | internal/groundcontrol/middleware/ratelimit.go:35-85 | refinement: wherever the cleanup ticks fall, the answer is that of a limiter that counts the full history in the window |
| `RateLimiting.NoWindowExceedsTheLimit` | internal/groundcontrol/middleware/ratelimit.go:35-85 | over every run, every window of the period holds at most the maximum of accepted requests |
| `RateLimiting.AddressesAreIndependent` | internal/groundcontrol/middleware/ratelimit.go:35-85 | the answers to an address are the same when nothing but its own requests ever happened |
| `Redaction.RedactionShowsAllButSecrets` | internal/groundcontrol/server/config_handlers.go:39-72 | two configs redact to the same tree exactly when they differ in nothing but values under sensitive keys, at any depth |
| `Redaction.RedactionKeepsTheRest` | internal/groundcontrol/server/config_handlers.go:51-72 | redaction changes nothing but values under sensitive keys |
| `Redaction.RedactingTwice` | internal/groundcontrol/server/config_handlers.go:51-72 | redacting twice is redacting once |
| `Redaction.RedactedPart` | internal/groundcontrol/server/config_handlers.go:51-72 | part by part, at any depth and also in arrays: right under a sensitive key stands the placeholder, every other part is where and what it was |
| `Redaction.SensitiveKeys` | internal/groundcontrol/server/config_handlers.go:39-47 | a key is sensitive exactly when one of the nine fragments stands somewhere in it, in letters of either case |
| `Redaction.LetterCaseDoesNotMatter` | internal/groundcontrol/server/config_handlers.go:39-47 | a key in capitals is as sensitive as the key itself |
| `ConfigDiffs.ChangeLog.DiffConfigValues` | internal/groundcontrol/server/config_handlers.go:120-131 | writes exactly the differing places, with their redacted values, over the shared map |
| `ConfigDiffs.ChangeLog.DiffConfigMaps` | internal/groundcontrol/server/config_handlers.go:134-152 | the same for two objects, key by key in any order |
| `ConfigDiffs.DiffConfigForAudit` | internal/groundcontrol/server/config_handlers.go:158-172 | nothing when no place differs, otherwise the map of the differing places |
| `ConfigDiffs.NothingReportedIffEqualUpToNulls` | internal/groundcontrol/server/config_handlers.go:158-172 | nothing is reported exactly when the configs are equal up to null-valued members, the kernel of a function and so an equivalence |
| `ConfigDiffs.ReportedPathsArePrefixFree` | internal/groundcontrol/server/config_handlers.go:120-152 | no reported place lies inside another |
| `ConfigDiffs.OverwritingOnePlace` | internal/groundcontrol/server/config_handlers.go:120-152 | overwriting one reported place takes that place, and no other, out of the diff |
| `ConfigDiffs.OverwritingAllReported` | internal/groundcontrol/server/config_handlers.go:120-152 | overwriting the old config at exactly the reported places, in any order, gives the new one up to nulls |
| `ConfigDiffs.DiffIsComplete` | internal/groundcontrol/server/config_handlers.go:120-152 | for any two configs there is such a finite list of the reported places |
| `DiffContents.EveryEntryTells` | internal/groundcontrol/server/config_handlers.go:120-152 | the entry of a changed place has a from exactly when the old config has a value there and a to exactly when the new one has; each shows that value, redacted, unless the deciding key is sensitive |
| `DiffContents.EveryRecordedEntryTells` | internal/groundcontrol/server/config_handlers.go:158-172 | every entry of an audit record tells so of a changed place with its text |
| `DiffContents.UndecodableSide` | internal/groundcontrol/server/config_handlers.go:158-172 | beside a side that cannot be decoded any other config is one change, of the whole, from or to null |
| `ConfigDiffs.MergePatchReportsOnlyNamedPlaces` | internal/groundcontrol/server/config_handlers.go:352-421 | after a merge patch every reported place is one that the patch names |
| `JsonTrees.MergePatchTwice` | internal/groundcontrol/server/config_handlers.go:359-359 | applying a merge patch again changes nothing |
| `MergePatches.NamedPlaceIsSet` | internal/groundcontrol/server/config_handlers.go:359-359 | a place that a merge patch names: null takes it away, an object makes it an object, anything else is put there |
| `MergePatches.UnnamedPlaceStays` | internal/groundcontrol/server/config_handlers.go:359-359 | a place beside the named ones stays as it was |
| `MergePatches.NothingBelowALeaf` | internal/groundcontrol/server/config_handlers.go:359-359 | inside a place that the patch replaces by a value or takes away nothing is left |
| `MergePatches.NamedPlaces` | internal/groundcontrol/server/config_handlers.go:352-421 | the patch names exactly the places at which it has a value |
| `DiffTexts.CleanDiffHasEveryChange` | internal/groundcontrol/server/config_handlers.go:90-152 | with non-empty dot-free keys every changed place has its own entry with its own change |
| `DiffTexts.CleanDiffHasNothingElse` | internal/groundcontrol/server/config_handlers.go:120-152 | every entry of the map is a changed place |
| `DiffTexts.CleanDiffIsPrefixFree` | internal/groundcontrol/server/config_handlers.go:90-152 | with such keys no recorded dotted path extends another |
| `DiffTexts.LastKeyOfText` | internal/groundcontrol/server/config_handlers.go:99-104 | the key cut out of a dotted path is the last key of the place, if that key has no dot |
| `DiffTexts.CollidingPlacesLoseAChange` | internal/groundcontrol/server/config_handlers.go:120-152 | two places with one dotted path, neither inside the other: configs that change both, and whatever map is recorded for them lacks one of the changes |
| `DiffTexts.DiffsAreExactIffTextsAreApart` | internal/groundcontrol/server/config_handlers.go:90-152 | with keys from any given set, every diff has every change exactly when no two such places have one dotted path |
| `DiffTexts.DottedKeyCollides` | internal/groundcontrol/server/config_handlers.go:90-95 | a key with a dot behind its start has the dotted path of its parts |
| `DiffTexts.EmptyKeyCollides` | internal/groundcontrol/server/config_handlers.go:90-95 | the empty key vanishes from the top of a dotted path |
| `DiffTexts.LeadingDotCollides` | internal/groundcontrol/server/config_handlers.go:90-95 | below another key, a key with a leading dot has the dotted path of the empty key and the rest |
| `DiffTexts.DiffsAreExactIffKeysAreClean` | internal/groundcontrol/server/config_handlers.go:90-152 | for a set of keys that has the parts of its keys, every diff has every change exactly when all keys are non-empty and dot-free |
| `DiffSecrets.SecretsDoNotShow` | internal/groundcontrol/server/config_handlers.go:120-152 | at a place whose record hides secrets, under any keys, configs that differ in secrets only are recorded the same |
| `DiffSecrets.RecordedChangeHidesSecretsIff` | internal/groundcontrol/server/config_handlers.go:99-152 | for every changed place, what is recorded is independent of everything under sensitive keys exactly when its path goes through none before its end, and a value that changes is not under a key that is sensitive only by what stands before its last dot |
| `DiffSecrets.CleanPathHidesIffOpen` | internal/groundcontrol/server/config_handlers.go:99-104 | under non-empty dot-free keys only the way to the place counts |
| `DiffSecrets.DisguisedKeyShows` | internal/groundcontrol/server/config_handlers.go:120-131 | a key that is sensitive only by what stands before its last dot: redaction hides its value, the diff records it in clear |
| `LoginLockout.Server.UpsertLoginAttempt` | internal/groundcontrol/database/login_attempts.sql.go:58-79 | counts one more failure, starting a row at one |
| `LoginLockout.Server.LockAccount` | internal/groundcontrol/database/login_attempts.sql.go:31-45 | sets the lock time of an existing row |
| `LoginLockout.Server.ResetLoginAttempts` | internal/groundcontrol/database/login_attempts.sql.go:47-56 | clears count and lock time of an existing row |
| `LoginLockout.Server.RecordFailedAttempt` | internal/groundcontrol/server/auth_handlers.go:163-178 | counts the failure and locks from the fifth on |
| `LoginLockout.Server.HandleLogin` | internal/groundcontrol/server/auth_handlers.go:42-120 | the lock check comes before the credentials; success resets, failure counts |
| `LoginLockout.EveryAnswerIsRight` | internal/groundcontrol/server/auth_handlers.go:42-120 | for every attempt of a run: it logs in exactly when the credentials are valid and the account is not locked at that moment, and then the failures and the lock are gone; it is told that the account is locked exactly when it is; and then nothing changes |
| `LoginLockout.EveryRunIsConsistent` | internal/groundcontrol/server/auth_handlers.go:62-114 | after every run a row has five failures exactly when it has a lock time |
| `LoginLockout.PassesPushTheLock` | internal/groundcontrol/server/auth_handlers.go:163-178 | from the fifth failure on, every attempt that passes the check pushes the lock up by a lockout |
| `LoginLockout.LockoutBoundsTheAttempts` | internal/groundcontrol/server/auth_handlers.go:62-114 | in any stretch of length T without success at most 5 + T / lockout attempts of a user get past the lock check |
| `LoginLockout.AccountsAreIndependent` | internal/groundcontrol/database/login_attempts.sql.go:31-79 | what happens to other users has no influence on an account |
| `LoginRaces.ConcurrentLockoutBound` | internal/groundcontrol/server/auth_handlers.go:62-178 | with at most c handlers of a user under way at once, each database call and each look at the clock a step: at most 4 + c + c(c+1)/2 for every full lockout get past the lock check in a stretch without success |
| `LoginRaces.ConcurrentBoundIsReached` | internal/groundcontrol/server/auth_handlers.go:62-178 | the bound is exact: for any number of handlers and of lockouts there is a run in which so many pass |
| `LoginRaces.AloneIsLogin` | internal/groundcontrol/server/auth_handlers.go:62-178 | a handler that nothing interrupts does to the table what the handler in one piece does with a bad password |
| `LittleEndian.ValueRoundTrip` | parsec-client-go/interface/requests/wireheader.go:82-83 | a number that fits its width reads back from its little-endian bytes |
| `LittleEndian.BytesRoundTrip` | parsec-client-go/interface/requests/wireheader.go:121-122 | bytes write back from the number they stand for |
| `LittleEndian.EncodedFieldAt` | parsec-client-go/interface/requests/wireheader.go:82-83 | every field of a record written field after field reads back at its place, whatever follows |
| `LittleEndian.EncodingOfFields` | parsec-client-go/interface/requests/wireheader.go:82-83 | the fields read from bytes write those bytes again |
| `WireHeaders.PackHeader` | parsec-client-go/interface/requests/wireheader.go:67-84 | stamps magic number and size, checks, and appends the 36 bytes or nothing |
| `WireHeaders.ParseEnvelope` | parsec-client-go/interface/requests/wireheader.go:116-143 | the fields up to the provider, each checked as it is read |
| `WireHeaders.ParseWireHeaderFromBuf` | parsec-client-go/interface/requests/wireheader.go:116-170 | consumes 36 bytes and hands out the header in them, or the first check that fails in wire order |
| `WireHeaders.HeaderInHeaderBytes` | parsec-client-go/interface/requests/wireheader.go:67-84 | any header reads back from its bytes |
| `WireHeaders.HeaderBytesOfHeaderIn` | parsec-client-go/interface/requests/wireheader.go:116-170 | any 36 bytes write back from the header in them |
| `WireHeaders.PackedBytes` | parsec-client-go/interface/requests/wireheader.go:67-84 | every byte of a packed header: 10 A7 C0 5E 1E 00 first, then the fields at their offsets, lowest byte first |
| `WireHeaders.ChecksComeInOrder` | parsec-client-go/interface/requests/wireheader.go:86-170 | packing and parsing report the first field, in their order, that has no valid value |
| `WireHeaders.PackedHeaderParsesBack` | parsec-client-go/interface/requests/wireheader.go:67-170 | a packed header parses back to itself exactly when provider, operation, status and reserved bytes are valid |
| `WireHeaders.ParsedHeaderPacksBack` | parsec-client-go/interface/requests/wireheader.go:67-170 | bytes the parser accepts pack to the same bytes, and may be packed exactly when they name no accept type |
| `Requests.NewRequest` | parsec-client-go/interface/requests/request.go:30-64 | a request with the body, the token and a header that names their lengths, or the first thing that failed |
| `Requests.Request.Pack` | parsec-client-go/interface/requests/request.go:67-85 | header, body and token one after the other in a fresh buffer; the header is stamped only when it is valid |
| `Requests.NewRequestPacksIff` | parsec-client-go/interface/requests/request.go:30-85 | a new request packs exactly when its token has a type from 0 to 4 |
| `Requests.BytesOfNewRequest` | parsec-client-go/interface/requests/request.go:30-85 | the bytes in front of the body of a packed request, with version 1.0, no flags, no session, content type, accept type and status 0 |
| `Requests.PackedRequestIsReadable` | parsec-client-go/interface/requests/request.go:30-85 | a packed request has length 36 + body + token, and body and token are found by the lengths in the header exactly when the body is shorter than 2^32 |
| `Requests.ParseResponse` | parsec-client-go/interface/requests/response.go:76-117 | each failure in order; otherwise the message gets exactly the body, the buffer keeps what follows, and the status decides the error |
| `Requests.HandsOnExactlyTheBody` | parsec-client-go/interface/requests/response.go:76-117 | a body is handed on exactly for a valid header of the expected operation, that body, and anything behind it |
| `Requests.KnownStatuses` | parsec-client-go/interface/requests/response.go:76-117 | of all status codes exactly 0 to 21 and 1132 to 1152 are known; a response with another one is rejected |
| `Requests.BadHeaderIsRejected` | parsec-client-go/interface/requests/response.go:86-104 | a response with a whole header is rejected for the first thing wrong with it, or else for another operation than the expected one |
| `Requests.StrictPrefixIsRejected` | parsec-client-go/interface/requests/response.go:86-110 | every strict prefix of header and body is rejected, with the error for where it ends |
| `AuditLogging.BuildTransports` | internal/logger/audit.go:276-304 | opens what is configured in order; when something fails, everything opened by the call is closed |
| `AuditLogging.WantedDestinations` | internal/logger/audit.go:276-304 | a configuration asks for exactly the destinations that it switches on, with its settings, syslog first |
| `AuditLogging.BuildErrors` | internal/logger/audit.go:276-304 | it can be put in place exactly when all of them can be reached and, if it is switched on, there are any; otherwise the first that cannot is to blame |
| `AuditLogging.Outputs.CloseAll` | internal/logger/audit.go:308-312 | closes every transport of the list once, in order |
| `AuditLogging.AuditLogger.Reconfigure` | internal/logger/audit.go:254-269 | swaps in what the configuration asks for and closes the old transports, or changes nothing that is live |
| `AuditLogging.AuditLogger.Log` | internal/logger/audit.go:341-368 | the event goes to every live transport, in order |
| `AuditLogging.BroadcastAt` | internal/logger/audit.go:341-368 | an event goes to each transport of the list once, in order |
| `AuditLogging.ReconfigureAuditOnReload` | cmd/harbor-satellite/main.go:220-265 | the tracked configuration is the one the logger serves; one event per reload, before the swap when switching off, received by somebody exactly when auditing is on before or after |
| `AuditLogging.NextIsInEffectIff` | cmd/harbor-satellite/main.go:220-265 | after a reload the next configuration is in effect exactly when it is the current one, or all its destinations can be reached and it has some if it is switched on |
| `AuditRuns.EveryTransportIsInOnePlace` | internal/logger/audit.go:254-312 | in every interleaving an opened transport is live, held by exactly one call, or closed once |
| `AuditRuns.AtRestOnlyLiveTransportsAreOpen` | internal/logger/audit.go:254-312 | when no call is under way, exactly the live transports are open |
| `AuditRuns.SwapsInWhatIsWanted` | internal/logger/audit.go:254-269 | what a call swaps in is what its configuration asks for, whatever other calls do meanwhile |
| `AuditRuns.AloneIsReconfigure` | internal/logger/audit.go:254-304 | a call that nothing interrupts does what the sequential method promises |
| `AuditRuns.EveryEventGoesToOneGeneration` | internal/logger/audit.go:341-368 | in every interleaving an event goes down the list of exactly one generation, in order |
| `AuditRuns.LoggedTransportIsOpenIff` | internal/logger/audit.go:336-368 | a transport in the list of a log call is open exactly as long as no swap has followed or the call that swapped it out has still to close it |
| `AuditRuns.EventAfterClose` | internal/logger/audit.go:341-368 | a run in which an event is sent to a transport that a swap has closed |
| `Scheduling.CounterIsExact` | internal/satellite/scheduler/scheduler.go:46-84 | the wait group counts exactly the run loop and the executions in flight, and is zero exactly when everything is quiet |
| `Scheduling.NothingRunsAfterStop` | internal/satellite/scheduler/scheduler.go:125-138 | once a stop returns without error nothing runs and nothing ever starts again |
| `Scheduling.CancelledComesToRest` | internal/satellite/scheduler/scheduler.go:46-138 | from every state of every run a cancellation lets everything come to rest by the steps of the loop and of the executions alone, and a waiting stop then returns without error |
| `Scheduling.TestKeepsOneAtATime` | internal/satellite/scheduler/scheduler.go:140-164 | a step keeps executions from overlapping, except a test while a spawned execution has still to begin |
| `Scheduling.LaunchesOverlapIffTestedTooEarly` | internal/satellite/scheduler/scheduler.go:140-164 | over whole runs at most one execution is launched, begun or bound to begin, at any moment exactly when no test comes while a spawned one has still to begin |
| `Scheduling.ExecutionsCanOverlapIffTestedTooEarly` | internal/satellite/scheduler/scheduler.go:140-164 | from some moment of a run on, without a further early test, two executions can come to be under way together exactly when the run has had an early test |
| `Scheduling.ExecutionsCanOverlap` | internal/satellite/scheduler/scheduler.go:140-164 | a run in which two executions are under way together |
| `HeartbeatIntervals.NormalFormIsRead` | internal/satellite/scheduler/scheduler.go:166-176 | the duration read from a normal form is hours, minutes and seconds of it |
| `HeartbeatIntervals.AcceptedIntervals` | internal/groundcontrol/server/helpers.go:295-321 | an interval is accepted exactly when the scheduler reads a whole positive number of seconds from it, and the error says what it reads instead |
| `HeartbeatIntervals.NormalFormKeepsTheDuration` | internal/groundcontrol/server/helpers.go:295-329 | minutes and seconds are below 60, the scheduler reads the same duration from input and output, and normalising again changes nothing |
| `HeartbeatIntervals.NormalFormIsCanonical` | internal/groundcontrol/server/helpers.go:323-329 | two accepted intervals have the same normal form exactly when they stand for the same duration |
| `HeartbeatIntervals.Units` | internal/groundcontrol/server/helpers.go:306-306 | what the units are worth in nanoseconds; there are no others |
| `HeartbeatIntervals.NumberWithUnit` | internal/groundcontrol/server/helpers.go:306-306 | a number with a unit, with a fraction or without, is worth so many units and what the fraction is worth, up to 2^63 - 1 nanoseconds; more is refused |
| `HeartbeatIntervals.SignedDurations` | internal/groundcontrol/server/helpers.go:306-306 | a plus sign changes nothing, a minus sign makes the duration negative |
| `HeartbeatIntervals.NegativeIntervalsAreRefused` | internal/groundcontrol/server/helpers.go:306-312 | no interval with a minus sign is accepted |
| `HeartbeatIntervals.NinetySeconds` | internal/groundcontrol/server/helpers.go:291-329 | 90s becomes 00h01m30s |
| `GroupMembership.GroundControl.UpdateRobotProjects` | internal/groundcontrol/utils/helper.go:59-81 | the robot gets the projects and the state project |
| `GroupMembership.GroundControl.CreateOrUpdateSatStateArtifact` | internal/groundcontrol/utils/helper.go:191-230 | an empty name is an error; otherwise the artifact gets the list and the config, and is left alone when the list is empty |
| `GroupMembership.GroundControl.RefreshSatellite` | internal/groundcontrol/server/satellite_handlers.go:1240-1307 | robot and artifact of a satellite are rewritten from its current groups |
| `GroupMembership.ListsAreInTableOrder` | internal/groundcontrol/server/satellite_handlers.go:1240-1262 | groups and satellites are listed in the order of the table |
| `GroupMembership.EveryRowIsListedOnce` | internal/groundcontrol/server/satellite_handlers.go:1240-1262 | and as often as they have a row |
| `GroupMembership.GroundControl.AddSatelliteToGroup` | internal/groundcontrol/server/satellite_handlers.go:1133-1320 | a name in a wrong form, an unknown satellite and an unknown group are errors in this order; a new membership is inserted and the satellite refreshed, an existing one changes nothing |
| `GroupMembership.NamesOf` | internal/groundcontrol/utils/helper.go:300-315 | the valid names: 1 to 255 of a to z, 0 to 9, dot, underscore and hyphen, the first no punctuation |
| `GroupMembership.AdditionPutsItsRow` | internal/groundcontrol/server/satellite_handlers.go:1223-1320 | an accepted addition puts exactly its row behind the old ones, and touches no group, no config and nothing of another satellite |
| `GroupMembership.GroundControl.RemoveSatelliteFromGroup` | internal/groundcontrol/server/satellite_handlers.go:1323-1473 | the membership is deleted and the satellite refreshed |
| `GroupMembership.RemovalTakesItsRow` | internal/groundcontrol/server/satellite_handlers.go:1323-1473 | an accepted removal takes exactly its row out, and touches nothing of another satellite |
| `GroupMembership.GroundControl.RemoveFromAll` | internal/groundcontrol/server/group_handlers.go:198-288 | one satellite of the group after the other is removed and refreshed |
| `GroupMembership.GroundControl.DeleteGroup` | internal/groundcontrol/server/group_handlers.go:143-330 | every satellite is removed from the group, then the group is deleted, then its own artifact; when that last step fails the rest stays done |
| `GroupMembership.DeletedGroupIsGone` | internal/groundcontrol/server/group_handlers.go:143-330 | a deleted group is gone with its rows, and with its artifact if that can be deleted; other groups and satellites outside the group are as before |
| `GroupMembership.DeletedGroupsStayUnknown` | internal/groundcontrol/server/group_handlers.go:143-330 | from then on no request about the group is accepted |
| `GroupMembership.LastRequestDecides` | internal/groundcontrol/server/satellite_handlers.go:1133-1473 | in every run a satellite is in a group exactly when the last accepted request about the two was its addition, or there was none and it was in the group at the start |
| `GroupMembership.PermissionsFollowMembership` | internal/groundcontrol/utils/helper.go:59-81 | after every run of requests each robot may read exactly the projects of its satellite's current groups and the state project, and each satellite with a group has an artifact that names its config and lists exactly those groups |
| `GroupMembership.LeavingTheLastGroup` | internal/groundcontrol/utils/helper.go:196-198 | leaving a group keeps the artifact in step exactly when the satellite is in another group |
| `GroupMembership.StatesTellWhoseTheyAre` | internal/groundcontrol/utils/helper.go:83-86 | the state of a group tells the group, the state of a config tells the config, and the two differ |
| `GroupMembership.GroupStatesTellTheGroups` | internal/groundcontrol/utils/helper.go:83-86 | so the list in a state artifact tells the groups, in order |

## Left out

- Network calls, registries, Harbor, SPIRE and HTTP: replaced by maps and by outcomes that a step is given. The registry's address in front of a state's name is left out.
- JSON, TOML and protobuf encodings: JSON is a tree, a protobuf body is a string of bytes.
- A registry whose tags share a manifest, where deleting one tag by digest also removes the others.
- Replication.LocalRegistry.Replicate: does not model the change of a manifest's media type, which changes its digest; the model copies the digest that the source serves.
- Dropping of results when a round is cancelled (`collectResults`): goroutines go on and commit, which the interleavings of `GroupSync` cover.
- The round in `GroupSync` starts with the work lists as made from the states at the start of it; fetching a group's state inside the goroutine only delays its steps.
- The nil list that Go has after a group without entities is committed: the model has an empty list, which `GetChanges` treats alike.
- Running without a state file (`stateFilePath` empty), where nothing is saved.
- A temporary state file that cannot be removed, and file modes, `fsync` and the creation of directories.
- The moment between a change of the group list and its save: it is a state of its own, `listPending`, in which file and memory differ.
- Cancelled calls and failing saves of the digest map among calls that overlap: `DeliveryRaces` lets every call record what it did.
- Letters whose lower-case form is not ASCII in `strings.ToLower`: they stay as they are, which makes no difference to the ASCII fragments that make a key sensitive.
- Reading configs that are not JSON: the redacted form of an unparseable config is a constant.
- LoginLockout.Server.HandleLogin: does not model sessions, password hashing or failing database calls; the handler is atomic, and `LoginRaces` has its steps one by one.
- Overflow of the 32-bit failure counter.
- The text of the errors for status codes: a status other than success is an error that carries the code.
- Requests.ParseResponse: does not model what the protobuf message contains; it says which bytes it is unmarshalled from.
- Audit records: event type, severity defaults, identifiers and time stamps; an event stands for its record.
- The ticker of the scheduler and `ResetInterval`: a tick may come at any time.
- That a stop ever returns: ticks and cancellation compete in a `select`, which need not be fair.
- Failing Harbor calls in group requests: the database is rolled back, Harbor is not; the theorems are about requests that succeed or name something unknown.
- Registration of satellites, group sync, users, roles and status tables: they would add only simple invariants.
- Cryptography, TLS, device identity and the key operations behind the Parsec protocol.
