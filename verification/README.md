# Verified models of Gajae-Code's release, CI and session-statistics scripts

A Dafny model of the scripts under `scripts/` that carry the repository's hardest promises, with
machine-checked proofs of those promises. Every statement below is a for-all statement about the
model; nothing here executes the scripts.

What is modelled, by module:

- **Canonical tarballs** (`Utf8`, `Utf8Text`, `TarFormat`, `TarFields`, `TarPaths`, `TarExtensions`, `TarCodec`,
  `TarRoundTrip`, `TarStreams`, `TarCanonical`): the byte-level
  ustar reader and the canonical writer, as functions on byte sequences and as the in-place loops that
  compute them. The format is the "ustar Interchange Format" part of the `pax` utility in IEEE Std 1003.1-2017.
- **Stable versions** (`Versions`): comparison of digit strings without numeric conversion, against section 11
  of Semantic Versioning 2.0.0.
- **Write-once files** (`ImmutableFile`): any number of writers as a state machine over inodes, directory
  entries, partial writes and reads, links, comparisons, failures and crashes.
- **Publication** (`DependencyOrder`, `PublicationPlan`, `PlanAcceptance`, `ReleaseRecords`, `ReleaseEvidence`, `PublishPackage`,
  `RegistryView`, `PublishRun`, `PublishResume`, `PublishTags`): Kahn's algorithm with declaration-order priority, the per-package retry
  machine, one look at the registry, and whole runs that may stop anywhere and restart, against a registry with
  immutable versions, a `latest` tag, late answers and other publishers.
- **Incremental log ingestion** (`LogLines`, `LogSync`, `LogTables`, `LogRows`, `LogHistory`): byte-offset and line-count
  cursor, upserts, and whole histories of growing and syncing; `LongestRepeat`: the repeated-block detector.
- **Interval replays** (`Intervals`, `ReplayPair`, `ReplayExact`, `ReadReplay`, `ReadExact`, `Frontier`): the two interval
  implementations, the two cost replays over them, and the Pareto frontier of their results.
- **Affected-path planner** (`DependentClosure`, `Utf16`, `Base64Url`, `TaskPlan`, `PlanExact`, `PlanLoading`): worklist closures,
  plan assembly, serialised plans and their loader.
- **Streaming search** (`FileSearch`) and **edit boundaries** (`TextLines`, `EditBoundary`, `EditTags`, `LegacyTags`).
- `Outcomes` and `SeqSets` hold the option and result types and counting facts.

Promises that turned out to hold only under a condition; each has a counterexample and an exact condition:

- The fatal `TextDecoder` drops a leading byte order mark, so a path whose split ustar name starts with one does
  not survive the round trip (`MarkedNameIsLost`). Round trip and idempotence hold if and only if no split
  name starts with a mark (`RoundTrip`, `CanonicalizeIdempotent`). A canonical tar may even be refused
  (`MarkedPairIsRefused`); it reads back if and only if the decoded paths are safe and distinct
  (`ReadsBackExactly`).
- A log sync that stops in the middle of a line loses that line (`MidLineLosesTheLine`). Resuming agrees with a
  rebuild for every decoder and continuation if and only if the earlier sync ended at a line boundary
  (`BoundaryIsNeeded`). A rebuild over an old row keeps its metadata columns (`ReplacedLogKeepsItsTitle`,
  `RebuildIsFreshExactly`), and a line that is no JSON object freezes its file (`ThrowingLineFreezes`), or
  keeps it out altogether when it is there from the start (`ThrowingLogIsNeverStored`).
- A `:0-9` read selector asks for line zero, which no read delivers (`LineZeroIsLost`). A group without counted
  truncations covers all its explicit requests if and only if none names line zero (`NoTruncationExactly`),
  under exactly the configurations of `TrustedExactly`. The counter also counts harmless cuts
  (`TruncationMayBeHarmless`); when it is wrong is decided by `CounterWrongExactly`.
- A read of negative length, which only negative settings produce, can hide lines delivered before it, so that a
  later call for them is paid again (`HiddenLineIsPaid`). Skipping is complete under exactly the configurations
  of `SkippingCompleteExactly`.
- Expected bytes in the registry do not let a run finish when `latest` is newer (`BytesAreNotEnough`); the exact
  condition is in `ResumableExactly`. A stale tag answer can make a run move `latest` backwards
  (`StaleTagMovesBack`); exactly when is in `RegressesExactly`.
- The planner's loader refuses a working directory that `normalizeInventoryPath` refuses; legacy tasks take
  theirs from the workspace without that check (`DottedDirectoryIsRefused`, `LoaderAcceptsExactly`).
- A stable identity does not tell lone surrogates apart; `IdentifiesExactly` says for which ids and locations it
  is unique.

## Model

| member | source | states |
|---|---|---|
| `TarFormat.FitsOctalBelow` | scripts/release-evidence.ts:482-488 | a number fits an octal field exactly when it is below the field's power of eight |
| `TarFormat.PaddingCompletes` | scripts/release-evidence.ts:527-533 | the writer's padding reaches the same block end as the reader's rounding |
| `TarCodec.Checksum` | scripts/release-evidence.ts:334-339 | the loop computes the header sum with the checksum field counted as spaces |
| `TarCodec.TakeMember` | scripts/release-evidence.ts:433-439 | one turn of the reader down to the payload takes the step of the specification, refusals in source order |
| `TarCodec.WriteTarString` | scripts/release-evidence.ts:476-480 | writes the bytes in place exactly when they fit, and otherwise changes nothing |
| `TarCodec.WriteTarOctal` | scripts/release-evidence.ts:482-488 | writes the padded octal field in place exactly when the value fits, and otherwise changes nothing |
| `TarCodec.SplitPath` | scripts/release-evidence.ts:490-499 | the backward scan finds the rightmost usable slash of the specification |
| `TarCodec.FillHeader` | scripts/release-evidence.ts:502-515 | the in-place writes build the blank header |
| `TarCodec.CanonicalHeader` | scripts/release-evidence.ts:501-522 | succeeds exactly on members that fit ustar, with the specified error otherwise |
| `TarCodec.CreateCanonicalTar` | scripts/release-evidence.ts:524-539 | the writing loop computes the canonical stream of the specification, errors included |
| `TarCodec.ParseTarEntries` | scripts/release-evidence.ts:401-474 | the offset loop with its pending path computes the reader of the specification, errors included |
| `TarExtensions.ParsePaxPath` | scripts/release-evidence.ts:363-388 | the record loop computes the path attribute of the specification, errors included |
| `TarExtensions.PaxReads` | scripts/release-evidence.ts:363-388 | every concatenation of well-formed length-prefixed records is accepted and gives its last path attribute |
| `TarExtensions.PaxAcceptsExactly` | scripts/release-evidence.ts:363-388 | a PAX header is accepted exactly when it is a concatenation of well-formed records |
| `TarExtensions.GnuReads` | scripts/release-evidence.ts:390-399 | a GNU long path is the text before the first NUL, without a leading mark and one final newline |
| `Utf8Text.ValidExactly` | scripts/release-evidence.ts:324-332 | the byte strings the fatal decoder takes are exactly the UTF-8 encodings of texts |
| `TarFields.ParseOctalExactly` | scripts/release-evidence.ts:315-322 | a field is a number exactly when it is octal digits between white space, with NULs and spaces behind, and a safe integer |
| `TarPaths.SafePathExactly` | scripts/release-evidence.ts:341-354 | the accepted paths are exactly the package directory and non-empty segments under it other than "." and "..", without backslash or NUL, and at most one trailing slash |
| `TarRoundTrip.SplitJoins` | scripts/release-evidence.ts:490-499 | both halves of a split path fit their fields and join back to the path |
| `TarRoundTrip.HeaderReadsAs` | scripts/release-evidence.ts:315-339 | the reader finds name, prefix, mode, size, type and a matching checksum in every written header |
| `TarRoundTrip.HeaderIsUstar` | scripts/release-evidence.ts:501-522 | owner, group, time, magic, version and the unused fields of a written header are the fixed ustar values |
| `TarRoundTrip.ReadWritten` | scripts/release-evidence.ts:433-439 | reading one written member returns its fields and the offset after its padding |
| `TarRoundTrip.ReadMembersBack` | scripts/release-evidence.ts:401-474 | reading a stream of written members returns them all in order |
| `TarRoundTrip.ReadMembersExactly` | scripts/release-evidence.ts:401-474 | a stream of written members reads back exactly when the paths its headers decode to are safe and distinct |
| `TarRoundTrip.HeaderSumIs` | scripts/release-evidence.ts:334-339 | the checksum is the sum of all header bytes, with 32 for each of its own eight |
| `TarRoundTrip.CorruptHeaderIsRefused` | scripts/release-evidence.ts:334-339 | a written header with any one byte outside the checksum changed is refused |
| `TarStreams.StreamReadsExactly` | scripts/release-evidence.ts:401-474 | any members behind any PAX, global PAX and GNU long-path headers, as bytes: accepted if and only if each member is sound, paths are distinct, counts are within the limits, no path is announced behind the last member and only two or more zero blocks follow; each is then read under the path announced last before it, or its own, with its mode and data |
| `TarStreams.AnnouncedReadsBack` | scripts/release-evidence.ts:401-474 | every list the reader can return, long paths included, reads back from the stream that announces each path in a PAX header, and from the one that uses GNU long-path members |
| `TarCanonical.ReaderSound` | scripts/release-evidence.ts:401-474 | from every offset the reader only extends its list, keeps it admissible, and consumed at least the canonical length of what it added |
| `TarCanonical.ReaderOutput` | scripts/release-evidence.ts:401-474 | every list read has safe unique paths, restricted modes, empty directories and stays within the limits |
| `TarCanonical.CanonicalTarIs` | scripts/release-evidence.ts:524-539 | the writer succeeds exactly on lists that fit ustar, and gives sorted members and two zero blocks |
| `TarCanonical.WritableWhen` | scripts/release-evidence.ts:482-499 | a member fits ustar exactly when its path is short or splits at some slash, and its size fits eleven octal digits |
| `TarCanonical.RoundTrip` | scripts/release-evidence.ts:401-539 | for every list the reader can return and ustar can hold, reading its canonical tar gives the list sorted by path bytes, if and only if no split name starts with a byte order mark |
| `TarCanonical.ReadsBackExactly` | scripts/release-evidence.ts:401-539 | the canonical tar of every list the reader can return is accepted if and only if the decoded paths are safe and distinct, and then gives the sorted list under those paths |
| `TarCanonical.MarkedPairIsRefused` | scripts/release-evidence.ts:462-462 | two members that differ only by a mark in the split name have a canonical tar that the reader refuses |
| `TarCanonical.MarkedNameIsLost` | scripts/release-evidence.ts:324-332 | one member whose split name starts with a byte order mark does not read back |
| `TarCanonical.CanonicalizeNeverLengthens` | scripts/release-evidence.ts:401-544 | the canonical tar stream is never longer than the stream it was made from |
| `TarCanonical.CanonicalOrderFree` | scripts/release-evidence.ts:524-539 | the canonical bytes do not depend on member order |
| `TarCanonical.LeqExactly` | scripts/release-evidence.ts:524-525 | the order of members is that of the first differing path byte, a prefix coming first |
| `TarCanonical.StreamInjective` | scripts/release-evidence.ts:501-539 | different member lists have different canonical streams |
| `TarCanonical.CanonicalizeIdempotent` | scripts/release-evidence.ts:401-544 | canonicalizing twice is canonicalizing once, if and only if no split name starts with a byte order mark |
| `TarCanonical.CanonicalizeKeepsInspection` | scripts/release-evidence.ts:542-562 | whenever the canonical tar reads back, which is exactly when the decoded paths are safe and distinct, inspection reports the same manifest bytes, unpacked size and file count |
| `Versions.CompareStableVersions` | scripts/release-evidence.ts:164-182 | the component loop computes the comparison of the specification, with an error on an unstable version |
| `Versions.CompareIdentifiersByValue` | scripts/release-evidence.ts:164-168 | length-then-text order on digit strings without leading zeros is the order of their values |
| `Versions.CompareByNumbers` | scripts/release-evidence.ts:170-182 | the comparison is lexicographic order of the numeric components, of any length |
| `Versions.CompareIsTotalOrder` | scripts/release-evidence.ts:164-188 | the comparison is a total order on stable versions, equal only on equal text |
| `Versions.StableVersionExactly` | scripts/release-evidence.ts:45-45 | the stable versions are exactly three decimal numbers with dots between, and those are the numbers compared |
| `Versions.TextLessExactly` | scripts/release-evidence.ts:164-168 | text order is that of the first differing character, a prefix coming first |
| `ImmutableFile.StepKeeps` | scripts/release-evidence.ts:876-901 | every step of every writer keeps the protocol invariant and leaves an existing destination's bytes alone |
| `ImmutableFile.DestinationIsComplete` | scripts/release-evidence.ts:876-901 | in every reachable state the destination is absent or holds one writer's complete bytes |
| `ImmutableFile.DestinationNeverChanges` | scripts/release-evidence.ts:876-901 | once it has appeared, no continuation changes the destination |
| `ImmutableFile.SuccessesAgree` | scripts/release-evidence.ts:876-901 | any two writers that succeeded had equal bytes, and those are the destination's |
| `ImmutableFile.CompareIsExact` | scripts/release-evidence.ts:889-897 | after EEXIST a writer succeeds exactly when the destination equals its bytes |
| `ImmutableFile.SucceedsExactly` | scripts/release-evidence.ts:876-901 | in every reachable state a writer that has not started can succeed by its own steps if and only if the destination is absent or already holds its bytes |
| `ImmutableFile.NamesLeftExactly` | scripts/release-evidence.ts:876-901 | a finished writer leaves its temporary name if and only if the removal threw, so none that succeeded leaves one; a crashed one leaves it once it was opened |
| `ImmutableFile.FailedWriterMayHavePublished` | scripts/release-evidence.ts:889-900 | a writer whose link stood and whose removal threw fails with its bytes at the destination |
| `ImmutableFile.WritersNeverWait` | scripts/release-evidence.ts:876-901 | a live writer always has a step of its own that brings it closer to its end |
| `DependencyOrder.GreedyTopological` | scripts/ci-release-publish.ts:901-912 | placing the earliest ready node gives a topological sequence |
| `DependencyOrder.GreedyIsLeast` | scripts/ci-release-publish.ts:901-912 | that sequence is lexicographically least among all complete topological orders |
| `DependencyOrder.TopologicalDependencies` | scripts/ci-release-publish.ts:901-912 | a topological sequence places every node after all its dependencies |
| `DependencyOrder.CompleteExactlyWithoutCycle` | scripts/ci-release-publish.ts:901-919 | the order is complete exactly when the graph has no cycle, self-dependency included |
| `DependencyOrder.Release` | scripts/ci-release-publish.ts:907-911 | lowering in-degrees releases exactly the nodes whose last dependency was just placed |
| `DependencyOrder.Kahn` | scripts/ci-release-publish.ts:888-912 | the loop over in-degree, dependents and ready lists computes the greedy order |
| `ReleaseRecords.AssertExactDependencies` | scripts/release-evidence.ts:79-91 | the loop over sorted names reports the first dependency that is unknown or not pinned, and passes exactly when the version is stable and all are public packages at that version |
| `ReleaseRecords.ExactExactly` | scripts/ci-release-publish.ts:756-766 | a registry observation passes exactly when it is the expected bytes and dependencies at a stable version with the tag on it |
| `PublicationPlan.PlanPublication` | scripts/ci-release-publish.ts:847-921 | the planner with its tables computes the plan of the specification, refusals included |
| `PublicationPlan.RefusedExactlyOnCycle` | scripts/ci-release-publish.ts:901-919 | once the other checks pass, the plan is refused exactly when the dependency graph has a cycle |
| `PublicationPlan.PlanIsLeastTopological` | scripts/ci-release-publish.ts:847-921 | the plan is the lexicographically least complete topological order by declaration index |
| `PublicationPlan.DependenciesComeFirst` | scripts/ci-release-publish.ts:847-921 | every dependency of a planned package is an earlier package, and none appears twice |
| `PublicationPlan.PlanNames` | scripts/ci-release-publish.ts:847-921 | a plan names exactly the packages of the evidence |
| `PublicationPlan.PlanRecords` | scripts/ci-release-publish.ts:847-921 | every evidence record is in the plan |
| `PublicationPlan.PlanIgnoresRecordOrder` | scripts/ci-release-publish.ts:847-921 | plan and refusal do not depend on the order of the input records |
| `PlanAcceptance.PlanAcceptedExactly` | scripts/ci-release-publish.ts:847-921 | evidence is planned if and only if the publish configuration equals the public packages without repetition, every package has its one record in its directory and there is no other, all share one stable version, every dependency is public, pinned and has a record, and no records depend on each other in a circle |
| `PlanAcceptance.PlanIsPermutation` | scripts/ci-release-publish.ts:847-921 | a plan is the evidence records, each once, dependencies first |
| `PlanAcceptance.PlanPicksEarliest` | scripts/ci-release-publish.ts:901-912 | at every step of a plan, of the records whose dependencies are placed, the one whose directory is configured first comes next |
| `PlanAcceptance.ValidExactly` | scripts/release-evidence.ts:585-644 | evidence validates exactly when it fits the contract definition by definition, at one version, with consistent digests and pinned public dependencies |
| `PlanAcceptance.ValidEvidenceIsPlanned` | scripts/ci-release-publish.ts:847-921 | evidence that validates can be refused by the planner for one reason only, a circle of dependencies |
| `ReleaseEvidence.VerifyFinal` | scripts/release-evidence.ts:803-840 | the record loop accepts exactly the documents the specification accepts |
| `ReleaseEvidence.CreateFinalExactly` | scripts/release-evidence.ts:769-801 | final evidence exists exactly when every package, and no unknown one, was observed as expected; it is then determined by the expected evidence |
| `ReleaseEvidence.AcceptsExactlyTheEcho` | scripts/release-evidence.ts:803-840 | verification accepts exactly one document for each expected evidence and digest |
| `ReleaseEvidence.CreatedIsAccepted` | scripts/release-evidence.ts:769-840 | whatever is created, verification accepts |
| `PublishPackage.PublisherIsBounded` | scripts/ci-release-publish.ts:781-845 | for every registry behaviour: at most one publish, retries+2 observations, retries sleeps |
| `PublishPackage.PublishesOnlyWhenAbsent` | scripts/ci-release-publish.ts:781-845 | a publish only follows a readable tarball and a first observation that found nothing |
| `PublishPackage.FinishesOnlyExact` | scripts/ci-release-publish.ts:756-845 | the publisher returns only its last observation, and that one is exact with latest equal to the target |
| `PublishPackage.NeverRetriesBroken` | scripts/ci-release-publish.ts:781-845 | a non-transient error is the last event and the publisher fails |
| `PublishPackage.PublishRetained` | scripts/ci-release-publish.ts:781-845 | the retry loop, for every oracle, follows the machine, keeps the bounds, and finishes if and only if the tarball is readable and the first look shows the package exactly, or it is absent and then the look after a failed publish, or one within the retries after a successful publish with only transient answers before it, shows it exactly |
| `RegistryView.SeenExactly` | scripts/ci-release-publish.ts:658-719 | a look finds a package exactly when target and tag both show it as expected at a stable version, and what it returns is exact |
| `RegistryView.AbsentExactly` | scripts/ci-release-publish.ts:658-688 | a look reports absence exactly when the target is missing and the shown tag is missing or not newer |
| `RegistryView.LaggingExactly` | scripts/ci-release-publish.ts:658-701 | a look is worth repeating exactly when the version is listed and the tag is missing, or the expected bytes are listed and an older or equal tag does not name them |
| `RegistryView.BrokenExactly` | scripts/ci-release-publish.ts:658-719 | a look ends the run exactly when a query fails, the tag is newer, or listed bytes or content conflict |
| `PublishRun.PublishAfterDependencies` | scripts/ci-release-publish.ts:658-990 | in every reachable state of every interrupted and restarted run, with other publishers and late answers, `npm publish` is reached only after each internal dependency was observed as exactly the expected evidence |
| `PublishRun.PublishedAreClosed` | scripts/ci-release-publish.ts:923-933 | at every point, each package ever published has all its dependencies, and all packages planned before it, in the registry as expected |
| `PublishRun.CompletedRunIsVerified` | scripts/ci-release-publish.ts:935-990 | a completed sweep yields the one final evidence document, `verifyFinalEvidence` accepts it, and the registry holds every package |
| `PublishRun.FinalEvidenceStaysTrue` | scripts/release-evidence.ts:769-840 | final evidence, once written, stays accepted and true of the registry |
| `PublishResume.ResumableExactly` | scripts/ci-release-publish.ts:658-990 | in every reachable state without final evidence, this tool can still produce it without another publisher if and only if each package it has yet to look at is present with the expected bytes and a shown tag on the release, or absent with a shown tag that is not newer, or the absent one already being published |
| `PublishResume.NewerTagStopsEveryRun` | scripts/ci-release-publish.ts:671-681 | when every tag value shown for a planned package is newer, no new run ever finishes |
| `PublishResume.BytesAreNotEnough` | scripts/ci-release-publish.ts:671-681 | for every release and newer version there is a reachable registry that holds all expected bytes and in which no run finishes |
| `PublishTags.RegressesExactly` | scripts/ci-release-publish.ts:658-845 | from any point of any run, this tool can move a tag backwards without another publisher if and only if some planned package is absent under a newer current tag while an older value is still shown and the current run or a new one can get to it, or a package is about to be published past a newer tag |
| `PublishTags.StaleTagMovesBack` | scripts/ci-release-publish.ts:671-688 | for every release, older and newer version there is a reachable registry from which a run moves `latest` from the newer version back to the release |
| `PublishTags.SettledTagsNeverRegress` | scripts/ci-release-publish.ts:671-681 | once the registry shows only current tags, no run moves `latest` backwards until another publisher intervenes |
| `LogLines.LinesConcat` | scripts/session-stats/sync.py:533-538 | cutting a log at a line boundary cuts its lines in two |
| `LogSync.ParseFile` | scripts/session-stats/sync.py:498-582 | the line loop returns the records, byte offset and line count of the rest of the file, and fails exactly when a line makes the parser throw |
| `LogSync.UpsertsCommute` | scripts/session-stats/sync.py:810-833 | the two `ss_edit_calls` upserts commute, on one call id and on different ones |
| `LogSync.WriteConcat` | scripts/session-stats/sync.py:766-882 | writing two batches in turn is writing their concatenation |
| `LogSync.ResumeIsRebuild` | scripts/session-stats/sync.py:498-582 | resuming at a line boundary and writing the rest equals one rebuild |
| `LogSync.Store.WriteRecords` | scripts/session-stats/sync.py:766-882 | the transaction leaves the specified tables and session row |
| `LogSync.Store.SyncFile` | scripts/session-stats/sync.py:898-923 | skip, rebuild or resume leaves the specified database, and a parse that throws leaves it alone |
| `LogTables.LastRowWins` | scripts/session-stats/sync.py:766-882 | insert-or-replace leaves the last row of each key and keeps the others |
| `LogTables.EditRowIsPaired` | scripts/session-stats/sync.py:810-833 | in a rebuilt table the row of a call id is what its last call and last result say, in either order, and there is no other row |
| `LogRows.LineRowsExactly` | scripts/session-stats/sync.py:590-745 | in a rebuilt log each result, assistant and user row is what its line says, each call row what the last call of that id in its line says, and there are no others |
| `LogRows.EditRowExactly` | scripts/session-stats/sync.py:647-730 | the edit row of an id exists exactly when the log holds an edit call or edit result of that id; line, time and length are those of the last edit call, success and warnings those of the last edit result |
| `LogRows.SectionRowsExactly` | scripts/session-stats/sync.py:671-710 | a section row is that of the last edit call of its id that has a section with its number |
| `LogHistory.MetaIsStable` | scripts/session-stats/sync.py:498-582 | a log that only grows keeps the metadata of its first line |
| `LogHistory.FirstMetaIs` | scripts/session-stats/sync.py:551-556 | the metadata of a log is that of its first line if it is a session header, and nothing otherwise |
| `LogHistory.PassKeeps` | scripts/session-stats/sync.py:898-923 | every pass keeps the database right and takes in all that was in the log when it began |
| `LogHistory.HistoryIsOneRebuild` | scripts/session-stats/sync.py:498-923 | after any history of growing and syncing a readable log at line boundaries, the tables equal one full rebuild of what was consumed, the whole file when it did not grow during the last pass |
| `LogHistory.RebuildIsFreshExactly` | scripts/session-stats/sync.py:846-880 | a rebuild over an existing row gives the tables of a first sync, and the whole database of one exactly when the new metadata leaves no old column to be kept |
| `LogHistory.FullPassRebuilds` | scripts/session-stats/sync.py:898-915 | a full pass, and any pass over rows of an older parser, rebuilds a readable log whatever the database holds |
| `LogHistory.NextPass` | scripts/session-stats/sync.py:898-923 | after a parse the next pass skips exactly an unchanged size at no later time, resumes where the parse ended, and rebuilds what was shortened or touched without growing |
| `LogHistory.ReplacedLogKeepsItsTitle` | scripts/session-stats/sync.py:859-864 | a log replaced by an empty one keeps the title of the log that is gone |
| `LogHistory.ThrowingLineFreezes` | scripts/session-stats/sync.py:536-549 | a line that is no object freezes its synced file: however the log grows and is synced, the database stays as it was |
| `LogHistory.ThrowingLogIsNeverStored` | scripts/session-stats/sync.py:536-549 | a log that was never synced, or only by an older parser, and holds such a line is never stored, however often it is synced |
| `LogHistory.HistoryStopsAtThrow` | scripts/session-stats/sync.py:536-549 | a history that runs into such a line, in its first pass or later, ends with the database of the passes before it |
| `LogHistory.BoundaryIsNeeded` | scripts/session-stats/sync.py:498-582 | resuming agrees with a rebuild for all decoders and continuations exactly when the earlier sync ended at a line boundary |
| `LogHistory.MidLineLosesTheLine` | scripts/session-stats/sync.py:498-582 | for every mid-line cut there is a decoder under which the line is lost |
| `LongestRepeat.RunIsLongest` | scripts/session-stats/sync.py:358-364 | the measured run is the longest common run of the two positions that does not overlap |
| `LongestRepeat.RunLength` | scripts/session-stats/sync.py:360-363 | the inner loop measures that run |
| `LongestRepeat.FindLongestRepeat` | scripts/session-stats/sync.py:352-371 | nothing exactly when no pair qualifies; otherwise the greatest qualifying length at the earliest start, with the early exit for short blocks |
| `Intervals.CanonicalUnique` | scripts/session-stats/optimize_read_config.py:146-158 | a set of lines has only one sorted, disjoint, non-adjacent list |
| `Intervals.AddInterval` | scripts/session-stats/read_optimizer.py:261-278 | the one-pass loop computes the insertion of the specification |
| `Intervals.AddIsUnion` | scripts/session-stats/read_optimizer.py:261-278 | insertion keeps the list canonical and denotes the union |
| `Intervals.MergeIntervals` | scripts/session-stats/optimize_read_config.py:146-158 | the loop over the last output interval computes the merge of the specification |
| `Intervals.MergeIsUnion` | scripts/session-stats/optimize_read_config.py:146-158 | merging non-empty intervals gives the canonical list of their union |
| `Intervals.AddEqualsMerge` | scripts/session-stats/read_optimizer.py:261-278 | the two implementations agree: insertion equals merging the list plus the item |
| `Intervals.Contained` | scripts/session-stats/optimize_read_config.py:160-164 | true exactly when one listed interval holds the target |
| `Intervals.ContainmentIsInclusion` | scripts/session-stats/read_optimizer.py:251-258 | both containment tests, early exit included, are set inclusion of a non-empty target |
| `ReplayPair.Returned` | scripts/session-stats/optimize_read_config.py:315-343 | a returned range is never empty, and there is none exactly for conflicts and other intents |
| `ReplayExact.ReturnedIsLongest` | scripts/session-stats/optimize_read_config.py:315-343 | a read returns, from its first requested line, the longest range within request, default page, file, line cap and byte cap, and one line when none fits |
| `ReplayPair.Subtract` | scripts/session-stats/optimize_read_config.py:167-183 | the nested loops with early exit compute the subtraction of the specification |
| `ReplayPair.SubtractIsDifference` | scripts/session-stats/optimize_read_config.py:167-183 | subtraction is exact set difference, in order, without empty pieces |
| `ReplayPair.ChunkRange` | scripts/session-stats/optimize_read_config.py:357-368 | wherever it ends, the chunk loop computes the chunks of the specification |
| `ReplayPair.ChunksPartition` | scripts/session-stats/optimize_read_config.py:357-368 | chunks partition their range, in order, each within the cap |
| `ReplayPair.PhaseOneDelivers` | scripts/session-stats/optimize_read_config.py:385-402 | dropping covered calls loses nothing: phase-one coverage is all the calls would return |
| `ReplayExact.PhaseOneExactly` | scripts/session-stats/optimize_read_config.py:385-402 | phase one keeps exactly the calls that bring a line no earlier call returned, and charges each its whole range at its rate, summarised bare reads at 0.35 |
| `ReplayPair.ShortfallIsExact` | scripts/session-stats/optimize_read_config.py:404-414 | wherever the chunk loop ends, phase two charges exactly the lines received and not delivered, each once, in chunks within the cap |
| `ReplayExact.GapsAreRuns` | scripts/session-stats/optimize_read_config.py:404-410 | the gaps are the maximal runs of missing lines |
| `ReplayExact.ShortfallIsFewest` | scripts/session-stats/optimize_read_config.py:404-414 | each run of missing lines is read in the fewest chunks the caps allow |
| `ReplayPair.ReplayCalls` | scripts/session-stats/optimize_read_config.py:371-415 | wherever it ends, final coverage is everything delivered united with everything observed; the total is phase-one tokens plus the missing lines once at the verbatim rate plus the overhead of every kept call |
| `ReplayPair.NoFreeSavings` | scripts/session-stats/optimize_read_config.py:371-384 | the tokens of both phases pay for every line delivered or observed, at no less than the cheapest rate: returning fewer lines saves nothing |
| `ReadReplay.CoverageIsDelivered` | scripts/session-stats/read_optimizer.py:261-278 | when no delivery can hide others (none ends more than two lines before its start, unless it starts at line one), the coverage list denotes exactly the lines delivered by paid calls |
| `ReadReplay.CoverageIsSound` | scripts/session-stats/read_optimizer.py:261-278 | for every configuration the coverage list holds only lines delivered by paid calls, none below one |
| `ReadReplay.SkippedExactlyWhenDelivered` | scripts/session-stats/read_optimizer.py:316-427 | for every configuration a later call is skipped only when every line it asks for was delivered by earlier paid calls of its group, and whenever it was, if none of their deliveries can hide others |
| `ReadReplay.SkippingCompleteExactly` | scripts/session-stats/read_optimizer.py:231-278 | decided for every configuration: every later call whose lines were delivered is skipped, in every group, if and only if the line cap is not positive, or leading plus trailing context is at least minus two and default plus leading at least minus one |
| `ReadReplay.HiddenLineIsPaid` | scripts/session-stats/read_optimizer.py:251-258 | for every other configuration a constructed group pays for a line that was delivered, because the early exit stops at a read of negative length |
| `ReadReplay.OwnDeliveryExactly` | scripts/session-stats/read_optimizer.py:231-248 | for every configuration, exactly when a paid explicit read delivers its own request |
| `ReadExact.DeliveredIsLongest` | scripts/session-stats/read_optimizer.py:231-248 | for every configuration a bounded read starts at the first line request and leading context allow, and delivers as many lines from there as request, context and cap allow |
| `ReadExact.RequestedIs` | scripts/session-stats/read_optimizer.py:221-228 | a request runs from its first line to its end, or over the default page |
| `ReadExact.CostExactly` | scripts/session-stats/read_optimizer.py:346-383 | a call is skipped exactly when it is not the first and its request is covered; a bounded read costs its arguments and the tokens of its lines up to a quarter of its byte budget, another read arguments and result |
| `ReadReplay.NoTruncationExactly` | scripts/session-stats/read_optimizer.py:316-427 | without counted truncations, all explicit requests of a group are covered if and only if none names line zero |
| `ReadReplay.TrustedExactly` | scripts/session-stats/read_optimizer.py:316-427 | for every configuration, negative ones included: a replay without truncations covers the explicit requests of every group in the file if and only if the configuration is trustworthy |
| `ReadReplay.LineZeroIsLost` | scripts/session-stats/read_optimizer.py:231-238 | a `:0-9` selector under the current settings counts no truncation and is not covered |
| `ReadReplay.CounterWrongExactly` | scripts/session-stats/read_optimizer.py:372-377 | for every configuration, exactly when the counter is wrong about a paid explicit read, and in which of the two ways; without negative contexts it misses no read in the file that does not deliver its request |
| `ReadReplay.CounterCounts` | scripts/session-stats/read_optimizer.py:372-377 | for every configuration, a group counts its paid explicit reads that do not deliver their request, plus the harmless ones, less the missed ones |
| `ReadReplay.TruncationMayBeHarmless` | scripts/session-stats/read_optimizer.py:372-377 | a concrete call that counts as truncated although its request is delivered |
| `ReadReplay.PaidPlusSkipped` | scripts/session-stats/read_optimizer.py:316-427 | in a group, paid plus skipped calls are all calls, and paid calls are raw or bounded |
| `ReadReplay.FirstCoveredExactly` | scripts/session-stats/read_optimizer.py:395-407 | a selector-first group counts as covered by its first read exactly when it pays for one bounded read |
| `ReadReplay.ReplayCall` | scripts/session-stats/read_optimizer.py:346-394 | one turn of the loop updates counters and coverage as specified |
| `ReadReplay.ReplayGroup` | scripts/session-stats/read_optimizer.py:334-407 | a group's counters are the totals of its call outcomes, and the first-covered flag means one bounded read |
| `ReadReplay.Conservation` | scripts/session-stats/read_optimizer.py:316-427 | over all groups, paid plus skipped is all calls, the selector and default shares fit in the totals, and single-call groups are among the first-covered |
| `ReadExact.CountersExactly` | scripts/session-stats/read_optimizer.py:316-394 | every counter is the sum, or the number, of the outcomes it is named after |
| `ReadExact.ReportExactly` | scripts/session-stats/read_optimizer.py:316-427 | the report is the totals over all groups, over those that start with a selector and over those that start with a default read |
| `ReadReplay.Replay` | scripts/session-stats/read_optimizer.py:316-427 | the reported counters are the expected ones and conserve all calls |
| `Frontier.Pareto` | scripts/session-stats/read_optimizer.py:446-457 | the frontier holds admissible results only, strictly trades tokens for calls, covers every admissible result, and keeps the first of equally scored ones |
| `Frontier.FrontierIsOptimal` | scripts/session-stats/read_optimizer.py:446-457 | no admissible result beats a member of the frontier |
| `DependentClosure.DependsOnWorkspace` | scripts/ci-dev-affected.ts:1035-1045 | the scope loop answers whether some scope declares the workspace dependency |
| `DependentClosure.AddDependents` | scripts/ci-dev-affected.ts:1024-1030 | one pass selects and queues exactly the unselected dependents of the current name |
| `DependentClosure.ExpandWithDependents` | scripts/ci-dev-affected.ts:1017-1033 | terminates, for any graph, with the least set that contains the touched names and every dependent of a member |
| `DependentClosure.ExpandSorted` | scripts/ci-dev-affected.ts:1017-1033 | the selected packages, each once, in the order of any total preorder on directories |
| `DependentClosure.SelectedPackages` | scripts/ci-dev-affected.ts:1017-1033 | with unique names the selected packages are exactly the workspace packages so named |
| `DependentClosure.ReverseEdges` | scripts/ci-dev-affected.ts:1342-1350 | the reverse map lists for every unit exactly the packages with a path dependency on it |
| `DependentClosure.ExpandCargoDependents` | scripts/ci-dev-affected.ts:1342-1357 | terminates with the least set of units closed under reverse path dependencies |
| `Utf16.ScalarsTellApartExactly` | scripts/ci-dev-affected.ts:1261-1261 | a text is the only one with its characters exactly when it has no lone surrogate and no replacement character |
| `Base64Url.ToBase64UrlInjective` | scripts/ci-dev-affected.ts:1260-1261 | different character sequences have different encodings |
| `Base64Url.SextetsKeepBits` | scripts/ci-dev-affected.ts:1261-1261 | bytes and their digits are the same number, group by group, an incomplete group filled with zero bits |
| `Base64Url.EncodedApartExactly` | scripts/ci-dev-affected.ts:1261-1261 | a text of 16-bit units is the only one with its encoding exactly when it has no lone surrogate and no replacement character |
| `TaskPlan.RequiresCargoWorkspaceEmergency` | scripts/ci-dev-affected.ts:1296-1303 | the counting loop answers whether a selected name is carried by two supported units |
| `TaskPlan.NormalizeIdempotent` | scripts/ci-dev-affected.ts:1195-1199 | a normalised inventory path normalises to itself |
| `PlanExact.NormalizesExactly` | scripts/ci-dev-affected.ts:1195-1199 | a path normalises exactly when, with slashes for backslashes and without a leading "./", its parts are neither empty nor "." and end in two dots only in last place |
| `TaskPlan.StableIdentityInjective` | scripts/ci-dev-affected.ts:1260-1261 | within a domain an identity determines the characters of id and location |
| `TaskPlan.IdentifiesExactly` | scripts/ci-dev-affected.ts:1260-1261 | on texts of 16-bit units an identity belongs to one id and location exactly when both are free of lone surrogates and replacement characters |
| `TaskPlan.ConsumersHaveOneProducer` | scripts/ci-dev-affected.ts:1229-1241 | a plan with a task described as native consumer holds the native producer exactly once; without need for it there is none |
| `PlanExact.ProducerExactly` | scripts/ci-dev-affected.ts:1229-1241 | a plan holds the native producer exactly when a legacy task builds or needs the addon, a selected TypeScript unit consumes or produces it, a selected Cargo unit is its source, or the Cargo workspace is built whole |
| `PlanExact.NothingIsAdded` | scripts/ci-dev-affected.ts:1229-1241 | a plan holds nothing but kept legacy tasks, the producer and one build for each selected unit, or one of the workspace when a selected name is ambiguous |
| `PlanExact.AnnouncedAs` | scripts/ci-dev-affected.ts:358-370 | what the descriptor of each kind of task announces |
| `PlanLoading.LoadsBack` | scripts/ci-dev-affected.ts:1406-1429 | a serialised task deserialises to its canonical form exactly when its directory is loadable |
| `PlanLoading.CanonicalIsStable` | scripts/ci-dev-affected.ts:358-370 | the canonical form serialises and is described as the task was |
| `PlanLoading.PlanIsUnique` | scripts/ci-dev-affected.ts:1229-1241 | for a valid inventory the plan exists and has unique keys and identities |
| `PlanLoading.NothingIsDropped` | scripts/ci-dev-affected.ts:1229-1241 | every selected unit is built in its place, and every legacy task that does not build the addon is kept |
| `PlanLoading.LoaderAcceptsExactly` | scripts/ci-dev-affected.ts:1752-1789 | the loader returns the same tasks in canonical form exactly when every kept legacy directory is loadable |
| `PlanLoading.DottedDirectoryIsRefused` | scripts/ci-dev-affected.ts:1195-1199 | a plan with a legacy task in a real directory under a name that ends in two dots is refused |
| `PlanLoading.FlagsAreAccepted` | scripts/ci-dev-affected.ts:1485-1490 | the emitted has_native and has_tasks flags satisfy the aggregate check of every plan, in both modes and no other |
| `PlanLoading.MatrixAgrees` | scripts/ci-dev-affected.ts:1757-1762 | every shard finds its own task in the loaded plan with the capabilities its matrix entry announced |
| `FileSearch.ReadInto` | scripts/dev-link.ts:174-175 | a positional read fills the buffer after the offset with the next bytes of the file |
| `FileSearch.WindowSeesAll` | scripts/dev-link.ts:173-181 | the overlap is long enough: an occurrence ending in the new part lies in the window |
| `FileSearch.SearchChunk` | scripts/dev-link.ts:174-181 | one round finds a needle ending in the new part, or leaves the right overlap at the front of the buffer |
| `FileSearch.FileContainsBytes` | scripts/dev-link.ts:163-188 | true exactly when the non-empty needle occurs, for every file and every pattern of short non-empty reads; the buffer is never overrun |
| `FileSearch.ReadBoundedFile` | scripts/dev-link.ts:140-161 | the whole file exactly when its size is in bounds and unchanged, and nothing otherwise; with empty reads, at most a prefix of the reported size |
| `TextLines.SplitPrefix` | scripts/session-stats/harmony_backtest.py:292-304 | cutting a text at the end of its k-th line leaves its first k lines |
| `TextLines.LinesExactly` | scripts/session-stats/harmony_backtest.py:292-304 | every line ends at its first terminator, only the last may have none, and no cut divides a carriage return from its line feed |
| `EditBoundary.ReadHashline` | scripts/session-stats/harmony_backtest.py:432-510 | one turn of the line loop takes the step of the machine |
| `EditBoundary.ReadLegacyLine` | scripts/session-stats/harmony_backtest.py:327-397 | one turn of the legacy line loop takes the step of its machine |
| `EditBoundary.ParseEditBoundary` | scripts/session-stats/harmony_backtest.py:306-523 | both line loops and the fallback compute the boundary of the specification |
| `EditTags.BoundaryExactly` | scripts/session-stats/harmony_backtest.py:422-523 | the boundary of every text, from the tags of its lines: the end is that of the longest run of lines that can be tagged, less a final insert without payload, and the sections count its operations, payload lines and deleted lines |
| `EditTags.TaggedTextIsAccepted` | scripts/session-stats/harmony_backtest.py:422-523 | a text all of whose lines can be tagged, with a section and no open insert, is accepted to its end with the counts of its tags |
| `EditTags.TotalsExactly` | scripts/session-stats/harmony_backtest.py:422-523 | every tagged operation, payload line and deleted line is counted once, and every head is a file |
| `LegacyTags.BoundaryExactly` | scripts/session-stats/harmony_backtest.py:306-405 | the same for the legacy format: the end of the longest run of lines that can be tagged, and the sections their tags count |
| `EditBoundary.AcceptedPrefix` | scripts/session-stats/harmony_backtest.py:422-523 | stopping at the accepted end leaves the state the parser reports, except for one open insert |
| `EditBoundary.OldPrefix` | scripts/session-stats/harmony_backtest.py:306-405 | the legacy machine accepts every line it reads, so stopping there changes nothing |
| `EditBoundary.AcceptedPrefixIsStable` | scripts/session-stats/harmony_backtest.py:306-523 | re-parsing the accepted prefix is accepted with the same end, files, payload and deleted lines, and loses one operation exactly when the input ended in an insert without payload |
| `EditBoundary.SanitizingIsIdempotent` | scripts/session-stats/harmony_backtest.py:546-611 | sanitising removes a suffix that holds every signal, keeps an accepted edit, and is never applied twice |
| `EditBoundary.CutsExactly` | scripts/session-stats/harmony_backtest.py:546-561 | a text is cut exactly when signals were found and all start behind the end of an accepted edit, and then at that end; without signals it is allowed, and refused otherwise |

## Left out

- gzip, SHA-256, SHA-512, integrity strings and canonical JSON text: bytes inside the tar layer are modelled, digests are opaque text, and decoded records are values.
- npm, git, gh, cargo, fetch and redirects, environment variables and command lines: they appear as nondeterministic inputs (observations, metadata entries, changed paths).
- File-system calls outside the write-once protocol and the positional reads; permission bits and fsync.
- The compressed-size limit, which is checked before decompression; PAX attributes other than `path` are only checked, as in the reader.
- The tables of Kahn's algorithm are keyed by declaration position instead of by package name; names are unique once the checks pass.
- Pauses between registry polls, and the text by which an error counts as transient; a look compares manifest digests, not the manifest bytes beside them.
- The registry is at the release version: versions other than the release appear only as values of `latest`.
- LogSync.Store.WriteRecords: one session file, without the folder, provider, sync-time and tokenizer columns, because they are copied values no other row depends on; the schema migration is not modelled.
- Token counting in batches is one function from text to count; the slots it patches are filled at once.
- Tokens per line, costs and budgets are reals; the byte cap enters as a number of lines. With a line cap below one and lines missing the chunk loop does not end, so nothing is said of that case.
- The kinds of read calls carry their start and end, which the selector parser always fills in.
- DependentClosure.ExpandSorted: the locale order of directories is any total preorder.
- Unit ids, names and directories of the plan are sequences of characters; only the identity lemmas also take 16-bit units.
- TaskPlan: the selection of build units from changed paths is any duplicate-free choice from the inventory, in any order; working directories are their repository-relative text.
- The docs-only early return of the planner bypasses plan assembly and carries no native-producer promise; `ensureNativeBuild` and the legacy planners that fill the task map are not modelled.
- `normalizeChangedPaths`, whose second pass can trim a space the first one uncovered.
- The regular expressions and signal detectors of the edit backtest are arbitrary functions of a line or text.
- Plotting, reporting, rebrand, theme and documentation verifiers, evidence receipts of shards, and the vendored Rust wrappers: string matching and single-field comparisons without a property that spans operations.
