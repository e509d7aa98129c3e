# Symphony cores: models and proofs

This project models the parts of Kata Symphony and its release scripts whose correctness is not
obvious from reading one function, and proves what they promise. It verifies with Dafny 4.11:
`dafny verify dfyconfig.toml`.

| file | subject |
|---|---|
| `PathSafety.dfy`, `PathSafetyProofs.dfy` | the symlink-resolving canonicaliser, against an in-place resolver |
| `PathPosix.dfy`, `PathTexts.dfy` | when that is POSIX path resolution, and which texts are safe everywhere |
| `EventStream.dfy`, `EventStreamProofs.dfy` | the websocket event stream as a transition system over any number of clients |
| `EventLaws.dfy` | each step of that system in elementary terms |
| `EventOrder.dfy` | when the order of the hub is the order of sequence numbers |
| `EventSocket.dfy` | the hub and the socket handler with fields updated in place; its loop takes steps of the transition system |
| `FactoryRegistry.dfy`, `FactoryRegistryProofs.dfy` | the registry of factory sessions, against its complete history |
| `FactorySessions.dfy` | sessions and entries in terms of the calls made |
| `ImageTag.dfy`, `ImageTagLaws.dfy` | the tag of derived images, and FNV-1a |
| `ReleaseVersions.dfy`, `ReleaseProofs.dfy` | versions, precedence, previous tag, next free version, nightly tags |
| `ReleaseTags.dfy`, `ReleaseLaws.dfy` | which texts are tags, cores and sort keys, and what they stand for |
| `Documents.dfy`, `DocumentsProofs.dfy` | titled documents in issue comments, against a map |
| `CommentUpserts.dfy`, `DocumentLaws.dfy` | upserts for any marker and body; the text of document comments |
| `NavigationKeys.dfy`, `NavigationLaws.dfy` | keys of navigation states, and their text |
| `DotEnv.dfy`, `DotEnvLaws.dfy` | `.env` files, and their format |
| `AdapterCache.dfy` | a cache key |
| `YamlNormalize.dfy`, `YamlLaws.dfy` | a normaliser of YAML trees, entry by entry |
| `ConfigChecks.dfy`, `ConfigLaws.dfy` | label separation and command lists of a configuration |
| `ContextScopes.dfy` | scope keys |
| `PortFallback.dfy` | binding to the next free port |
| `TextLaws.dfy` | what trimming, cutting and decimal numbers mean, for use in the other laws |
| `Text.dfy`, `Basics.dfy` | trimming, splitting, decimal numbers; optional values, results, 64-bit counters, sums |

## How to read the models

* Input and output are parameters. The file system is any function from absolute name sequences to what
  `lstat` and `readlink` report, with directories one may pass through told from files; the working-directory lookup, token lookup, clock readings, an attempt to
  bind a port, the names environment objects inherit, and the printing of complex YAML keys are arguments.
  `localeCompare` is any function with consistent signs and transitivity.
* A "laws" file says what operations mean without naming the functions that compute them: as texts put together
  from their parts, as calls made, or as fields.
* Code that works step by step is a class or a method with a loop, proved against a function; the lemmas
  are about that function.
* Fields and arguments marked "history" in the sources record what happened and are not kept by the program.
* 64-bit counters wrap or saturate as in the program. Image and script text is given as bytes.

## What was found on the way

* The canonicaliser cancels `name/..`, and drops `.` and a slash at the end, in the text of the path and of each
  link target before it looks at the name, so it need not be POSIX resolution. `RestartIsInPlace` says what it is
  on every file system. `CanonicalizeIsPosix` says, for each file system and path, what the two come to at the
  first name that parts them: a cancelled link, missing or unreadable name, or a file before `.` or `..`.
  `PathTextsThatAgree` and `TargetTextsThatAgree` say which texts are safe on every file system;
  `InteriorParentDiffers`, `FileDiffers` and `DetourMayAgree` show small cases.
* The snapshot is always accepted by the queue, so the branch that closes the connection because of it
  is never taken (`OpeningSucceeds`). Sequence numbers are distinct but not sorted in hub order
  (`HubOrderIsNotSequenceOrder`); a pair is out of order exactly when one number was taken while the other was
  pending (`HubOrderInverts`). They repeat after 2^64 draws (`SequenceRepeats`).
* Once a close frame is queued, nothing but the writer's pending send can hold a handler, and nothing limits how
  long that takes (`OnlyWaitIsSending`, `PendingSendHolds`). The writer never runs out of messages first
  (`WriterNeverDrains`).
* Begins are refused only for ids that run or are among the newest 20 finishes; an older id begins again
  and is counted twice (`IgnoredCalls`, `EvictedIdBeginsAgain`).
* A document whose title ends in an opened marker, or whose content quotes another document's marker, is
  overwritten by a write under that other title, if no earlier listed comment has the marker (`MarkerOccurs`,
  `WriteSparesOrHits`, `OpenedMarkerIsOverwritten`), and past 1000 comments a new document is never read back
  (`WriteIsMapUpdate`, `PastLimitIsLost`).
* A quoted dotenv value is read back exactly when it does not end in a backslash (`QuoteRoundTrip`). Names that
  objects inherit, such as `constructor`, are never set from a file (`WrittenFileLoads`, `InheritedNameIsSkipped`).
  In `KEY= # note` the value is `# note` (`HashIsKept`).
* The cached adapter goes stale when only the project owner type changes (`OwnerTypeGoesStale`); an unset and
  an empty assignee, and an empty list and a list of one empty text, print alike (`KeyShowsFields`).
* YAML under a tag is not normalised at all, so null values and other keys may remain: `DeepExactlyWhenClean` says
  when none do, `TaggedStays` shows a section that keeps them.
* The approval route label is never compared with the triage labels, so it may be one of them
  (`ApprovalRouteMayClash`); that decision labels differ from the spec route follows only from other checks
  (`DecisionsStandApart`).
* Prereleases compare as section 11 of Semantic Versioning 2.0.0 has it exactly when the locale orders words as
  ASCII does (`PrecedenceNeedsAscii`).
* Names without a zero byte keep image tag streams apart; with one they need not (`StreamsCoincide`).

## Model

| member | source | states |
|---|---|---|
| PathSafety.JoinPath | apps/symphony/src/path_safety.rs:166-172 | the pushing loop gives the joined text |
| PathSafety.SplitAndNormalize | apps/symphony/src/path_safety.rs:60-93 | the push-and-pop loop is the fold of the components, an error exactly for a path that is not absolute |
| PathSafetyProofs.JoinedRoundTrip | apps/symphony/src/path_safety.rs:166-172 | joining names and splitting into components undo each other |
| PathSafetyProofs.TargetSegmentsMeaning | apps/symphony/src/path_safety.rs:129-142 | joining a link target to its directory and normalising folds the target onto the directory, or onto the root when absolute; it never fails |
| PathSafetyProofs.Rewalk | apps/symphony/src/path_safety.rs:97-163 | resolving again over a link-free prefix changes nothing and costs no hop |
| PathSafetyProofs.FoldIsReduce | apps/symphony/src/path_safety.rs:81-90 | folding any target onto a directory climbs some levels and then goes down names, as its reduced text says |
| PathSafetyProofs.RestartIsInPlace | apps/symphony/src/path_safety.rs:97-163 | on every file system and for every budget, restarting from the root equals one-pass resolution in place with targets reduced as text; so also in hops used |
| PathSafetyProofs.CanonicalizeIsInPlace | apps/symphony/src/path_safety.rs:41-56 | the same for whole calls: from the root, or for a relative path onto the working directory; an error at once exactly when that is unknown or not absolute |
| PathSafetyProofs.RelativeFromDirectory | apps/symphony/src/path_safety.rs:43-49 | a relative path is resolved from the names of the working directory; for an absolute path the working directory does not matter |
| PathPosix.WalksPartAtDetour | apps/symphony/src/path_safety.rs:97-163 | the POSIX walk and the one that cancels first stay together, in place and hops, up to the first name that is no plain entry and cancelled later, or that is a file, or a directory one may not pass through, before `.` or `..` |
| PathPosix.CanonicalizeIsPosix | apps/symphony/src/path_safety.rs:41-163 | for every file system and path: without such a name canonicalizing is POSIX resolution with literal missing tails, budget included; if the first is missing, exactly when the path without it is settled; if POSIX resolution fails at it, exactly when the path without it meets a failure, too; if the budget ends at it, exactly when the path without it meets the same link next |
| PathTexts.PathTextsThatAgree | apps/symphony/src/path_safety.rs:60-93 | the paths on which the two agree for every file system whose link targets are of this form are exactly those in which `..` comes before all names and no slash or `.` at the end comes after one |
| PathTexts.TargetTextsThatAgree | apps/symphony/src/path_safety.rs:129-142 | the same for link targets |
| PathTexts.DetourMayAgree | apps/symphony/src/path_safety.rs:129-142 | a cancelled name that is a link need not make a difference |
| PathTexts.InteriorParentDiffers | apps/symphony/src/path_safety.rs:60-142 | file systems on which `a/../b` in a target, and in the path, leads elsewhere than for POSIX |
| PathTexts.FileDiffers | apps/symphony/src/path_safety.rs:60-93 | with a file at `/f`, `/f/../b` and `/f/` canonicalize, where POSIX resolution fails |
| PathSafetyProofs.FailsIffMeetsFailure | apps/symphony/src/path_safety.rs:119-163 | the walk gives an input/output error exactly when, within its budget, it meets what cannot be examined or passed through |
| PathSafetyProofs.LoopIffTooManyLinks | apps/symphony/src/path_safety.rs:29-30 | the loop error is given exactly when the walk meets a 41st link, and names that link |
| PathSafetyProofs.BudgetOnlyTurnsIntoLoop | apps/symphony/src/path_safety.rs:119-124 | a larger budget changes no result but the loop error |
| PathSafetyProofs.FixedIffSettled | apps/symphony/src/path_safety.rs:34-35 | a path of names is its own canonical form exactly when its existing part has no link |
| PathSafetyProofs.CanonicalizeIdempotent | apps/symphony/src/path_safety.rs:32-56 | every result consists of names, has no link in its existing part, and is canonicalized to itself from any working directory |
| EventSocket.EventHub.Publish | apps/symphony/src/event_stream.rs:52-72 | the envelope has the number taken first; others may take numbers and send before it is sent |
| EventSocket.EventHub.NextSequence | apps/symphony/src/event_stream.rs:33-35 | the counter advances by one modulo 2^64 and is the number handed out |
| EventSocket.SocketHandler.EnqueueOutbound | apps/symphony/src/http_server.rs:2810-2841 | queue, own count and global count change together; the handler goes on unless the channel is closed or the count reaches the threshold |
| EventSocket.SocketHandler.EnqueuePongFrame | apps/symphony/src/http_server.rs:2783-2808 | as above, but a full queue always ends the connection |
| EventSocket.SocketHandler.HandleTurn | apps/symphony/src/http_server.rs:2623-2728 | one turn of the loop, with the losses added to the global count |
| EventSocket.HappeningIsTurn | apps/symphony/src/http_server.rs:2623-2728 | what happens to a running client, or elsewhere, in any reachable state moves the handler as the steps of the system move that client and the global count |
| EventSocket.SocketHandler.HandleTurns | apps/symphony/src/http_server.rs:2621-2729 | in any run of the system in which the client's own actions of one turn follow without a pause, the loop goes on until a turn gives a reason to close, is always where the run has its client, and has delivered the events of the hub in order |
| EventSocket.HandlerStarts | apps/symphony/src/http_server.rs:2544-2614 | a client that arrives and opens without a pause is then as a new handler is constructed |
| EventStreamProofs.WireProtocol | apps/symphony/src/http_server.rs:2544-2616 | in every run the wire is a prefix of what was enqueued, the own snapshot comes first, and a close frame is last and so sent once |
| EventStreamProofs.WireComplete | apps/symphony/src/http_server.rs:2544-2582 | when a handler is done the wire ends in a close frame exactly when the writer neither failed nor was aborted, and then holds everything enqueued |
| EventStreamProofs.OpeningSucceeds | apps/symphony/src/http_server.rs:2600-2614 | enqueuing the snapshot never fails |
| EventStreamProofs.DeliveredInOrder | apps/symphony/src/http_server.rs:2648-2692 | while the loop goes on, the broadcasts enqueued are the matching hub events since subscription in hub order, at most `dropped` missing, none at a threshold of 1 |
| EventStreamProofs.DeliveredIsSubsequence | apps/symphony/src/http_server.rs:2648-2692 | at any time nothing was reordered, repeated or made up |
| EventStreamProofs.DeliveredMeetFilter | apps/symphony/src/domain.rs:432-451 | in every reachable state, a broadcast given to a client is one it passed after subscribing, and meets each issue, kind and severity constraint of its filter that is not empty; one without an issue meets no issue constraint |
| EventStreamProofs.NothingElseIsMissing | apps/symphony/src/http_server.rs:2648-2692 | at a threshold of at most 1, a running client has been given exactly the broadcasts it passed that meet its filter |
| EventLaws.LoopMeans | apps/symphony/src/http_server.rs:2623-2728 | what each frame, broadcast, lag and heartbeat does: what is queued, sent and counted as lost, and for which reason the loop ends |
| EventLaws.StepMeans | apps/symphony/src/event_stream.rs:33-72 | which numbers, broadcasts, clients and counts a step of the system changes, and that it changes nothing else |
| EventStreamProofs.SentCountsEvents | apps/symphony/src/http_server.rs:2597-2612 | `sent` is exactly the number of events enqueued plus those dropped on a full queue with the handler going on, cut off at 2^64 - 1 |
| EventStreamProofs.SequenceRepeats | apps/symphony/src/event_stream.rs:33-35 | two numbers are equal exactly when a multiple of 2^64 draws lies between them |
| EventStreamProofs.SequenceNumbersDistinct | apps/symphony/src/event_stream.rs:33-72 | up to 2^64 draws, equal numbers on any queues mean one broadcast received by different clients |
| EventOrder.HubOrderInverts | apps/symphony/src/event_stream.rs:52-72 | below 2^64 numbers, of two broadcasts the one sent first has the greater number exactly when it was taken while the other was pending |
| EventOrder.OneAtATimeIsSorted | apps/symphony/src/event_stream.rs:52-72 | if no publisher takes a number while another is pending, the hub sends in strictly increasing order |
| EventOrder.HubOrderIsNotSequenceOrder | apps/symphony/src/event_stream.rs:52-72 | a run in which the order is the other way round |
| EventStreamProofs.ConnectionsBalance | apps/symphony/src/http_server.rs:304-316 | connected equals disconnected plus live handlers, modulo 2^64 |
| EventStreamProofs.DropsBalance | apps/symphony/src/http_server.rs:318-323 | the global drop counter is the sum of what all handlers counted, modulo 2^64, and exactly so below 2^64 |
| EventStreamProofs.HandlersWindDown | apps/symphony/src/http_server.rs:2731-2752 | on every schedule, a handler that has left its loop and its writer take at most 2 * capacity + 7 more actions |
| EventStreamProofs.OnlyWaitIsSending | apps/symphony/src/http_server.rs:2731-2752 | such a handler can go on by itself, except exactly while a message is being sent and it needs no more or no more fits |
| EventStreamProofs.PendingSendHolds | apps/symphony/src/http_server.rs:2749-2750 | while draining there is no time limit: the handler stays until that message is sent or fails |
| EventStreamProofs.WriterNeverDrains | apps/symphony/src/http_server.rs:2552-2582 | in no reachable state does the writer wait on an empty queue of a handler that has stopped sending: it ends with the close frame, a failed send, or aborted |
| EventStreamProofs.RunKeeps | apps/symphony/src/http_server.rs:2531-2762 | the whole invariant holds after any sequence of steps |
| FactoryRegistry.FactorySessionRegistry.BeginSession | apps/symphony/src/domain.rs:1511-1523 | a begin is the specified step on all fields, callback included |
| FactoryRegistry.FactorySessionRegistry.RecordEvent | apps/symphony/src/domain.rs:1539-1559 | an event update is the specified step |
| FactoryRegistry.FactorySessionRegistry.FinishSession | apps/symphony/src/domain.rs:1561-1597 | a finish is the specified step; the trimming loop keeps the newest 20 |
| FactoryRegistry.FactorySessionRegistry.InstallCallback | apps/symphony/src/domain.rs:1504-1509 | installing a callback changes nothing else |
| FactoryRegistry.FactorySessionRegistry.HasCompleted | apps/symphony/src/domain.rs:1529-1533 | true exactly when some retained entry has the id |
| FactoryRegistryProofs.RegistryShowsHistory | apps/symphony/src/domain.rs:1481-1597 | after any calls: running sessions, the newest 20 finishes newest first, and each total as the exact sum over all accepted calls cut off at 2^64 - 1 |
| FactorySessions.SessionShowsCalls | apps/symphony/src/domain.rs:1539-1559 | a running session is what its last accepted begin brought, with one turn for each update since that ends in `_turn_completed`, cut off at 2^32 - 1, the most tokens begun with or reported, and the last update's event, message and time; nothing else of it changes |
| FactorySessions.CompletedShowCalls | apps/symphony/src/domain.rs:1561-1597 | a completed entry has stage and issue of the accepted begin of its id, and status, time, tokens and error of the finish of that session |
| FactoryRegistryProofs.SnapshotIds | apps/symphony/src/domain.rs:1511-1523 | sessions are keyed by their own ids; completed ids are distinct and none is running |
| FactoryRegistryProofs.Conservation | apps/symphony/src/domain.rs:1511-1597 | accepted begins equal running sessions plus accepted finishes |
| FactoryRegistryProofs.IgnoredCalls | apps/symphony/src/domain.rs:1511-1574 | a begin changes nothing exactly when its id runs or is among the newest 20 finishes, a finish exactly when its id does not run |
| FactoryRegistryProofs.EvictedIdBeginsAgain | apps/symphony/src/domain.rs:1511-1523 | after any calls, a finished id of which no begin was accepted since begins and is counted again exactly after 20 more finishes |
| FactoryRegistryProofs.CallbackUpToDate | apps/symphony/src/domain.rs:1607-1611 | the last snapshot given to the callback is the current one once anything changed since it was installed |
| ImageTag.DerivedImageTag | apps/symphony/src/docker.rs:53-71 | the byte loop computes the hash of image, zero byte, script, printed in 16 digits |
| ImageTag.AbsorbIsBijection | apps/symphony/src/docker.rs:66-67 | each byte step has an inverse on the 64-bit states |
| ImageTag.AbsorbSeparatesBytes | apps/symphony/src/docker.rs:66-67 | from one state different bytes lead to different states |
| ImageTag.HexInjective | apps/symphony/src/docker.rs:70 | the fixed-width print is injective |
| ImageTag.OneByteChangesTag | apps/symphony/src/docker.rs:53-71 | streams of equal length that differ in exactly one byte never share a tag |
| ImageTag.StreamsCoincide | apps/symphony/src/docker.rs:59-65 | when two inputs are hashed as one stream; never for different inputs without a zero byte in the image names |
| ImageTagLaws.TagMeans | apps/symphony/src/docker.rs:53-71 | the tag is `symphony-worker-` and, in sixteen hexadecimal digits, the 64-bit FNV-1a hash of image, zero byte and script, bit by bit |
| ReleaseVersions.NextAvailableExactVersion | scripts/release/lib.ts:41-64 | the method returns what the bump-until-free search gives |
| ReleaseVersions.SearchLoop | scripts/release/lib.ts:52-63 | the loop tries one tag at a time and stops at the first free one, an unreadable version, or the limit |
| ReleaseProofs.ParseFormatted | scripts/release/lib.ts:18-33 | printed cores read back |
| ReleaseProofs.NextAvailableIsLeast | scripts/release/lib.ts:40-64 | from x.y.z: the least z+k with a free tag; the only error, exactly when all tags tried are taken |
| ReleaseProofs.FewTagsNeverFail | scripts/release/lib.ts:40-64 | with at most `maxBumps` distinct tags there is no error |
| ReleaseLaws.CoreMeans | scripts/release/lib.ts:22-33 | a version reads as a core exactly when it is three numbers with dots and, optionally, a dash or plus sign and the rest of that line |
| ReleaseLaws.NextMeans | scripts/release/lib.ts:40-64 | from any start, trimmed and without `v`: a version with a dash or plus sign, or with a free tag, is taken as it is; else the search goes on from the next patch number, or fails for want of a core |
| ReleaseVersions.ComparePrereleaseLoop | scripts/release/resolve-previous-release-tag.ts:52-61 | the indexed loop is the identifier-by-identifier comparison |
| ReleaseVersions.CompareNightlyKeys | scripts/release/lib.ts:157-165 | the loop over sort keys agrees with the comparison of nightly versions |
| ReleaseProofs.CompareStableIsOrder | scripts/release/resolve-previous-release-tag.ts:30-62 | stable versions are totally preordered for every locale order of identifiers |
| ReleaseProofs.PrecedenceRules | scripts/release/resolve-previous-release-tag.ts:30-62 | comparing is negative exactly where section 11 of Semantic Versioning 2.0.0 has precedence, the first differing identifier deciding, but for the locale order of identifiers that are not numeric |
| ReleaseProofs.PrecedenceNeedsAscii | scripts/release/resolve-previous-release-tag.ts:29-39 | comparing is the precedence of section 11, ASCII order included, for all versions exactly when the locale has the sign of the ASCII order on identifiers that are not numeric |
| ReleaseProofs.BuildIsIgnored | scripts/release/resolve-previous-release-tag.ts:72-90 | build metadata added to a tag leaves what it reads as |
| ReleaseProofs.ResolvesPreviousTag | scripts/release/resolve-previous-release-tag.ts:107-142 | on both channels: a tag strictly below the current one with none strictly between, nothing exactly when none is below, an error exactly when the current tag does not read |
| ReleaseTags.StableTagMeans | scripts/release/resolve-previous-release-tag.ts:72-90 | a tag reads as a stable version exactly when it is the prefix, three numbers with dots, identifiers behind a dash of which the first is not `nightly`, and build metadata behind a plus sign, both optional |
| ReleaseTags.PrintedTagReads | scripts/release/resolve-previous-release-tag.ts:72-90 | a printed version reads back as its core and identifiers, with build metadata or without; nothing reads without the prefix |
| ReleaseTags.NightlyTagMeans | scripts/release/resolve-previous-release-tag.ts:92-105 | likewise for nightly tags: core, eight digits of a date, a run number, and nothing more |
| ReleaseTags.NightlyOrder | scripts/release/resolve-previous-release-tag.ts:64-70 | cores decide between nightly versions, then dates, then runs |
| ReleaseTags.PreviousStable | scripts/release/resolve-previous-release-tag.ts:107-142 | in terms of the texts of tags: an error exactly for a current tag that is no stable tag, else a tag of a version just below, nothing exactly when none is below |
| ReleaseTags.PreviousNightly | scripts/release/resolve-previous-release-tag.ts:107-142 | the same for nightly tags |
| ReleaseTags.PreviousOfPrinted | scripts/release/resolve-previous-release-tag.ts:107-142 | among printed versions, the printed text of one just below in precedence, if any is below |
| ReleaseProofs.NightlyTagReadsBack | scripts/release/resolve-nightly-release.ts:23-50 | a built nightly tag reads back as its base, date and run, gives its base as text, and is never taken for stable; refusals are characterised |
| ReleaseProofs.SortKeyIsParsedVersion | scripts/release/lib.ts:144-155 | the sort key of a built tag, whatever word comes before its version, is the version parsed with its prefix |
| ReleaseLaws.SortKeyMeans | scripts/release/lib.ts:144-155 | for any tag, the sort key is the nightly version at the first place, the start or behind a dash, from which the rest is one |
| ReleaseLaws.MetadataMeans | scripts/release/resolve-nightly-release.ts:23-50 | every field of a built release, and exactly which error is given when |
| ReleaseProofs.LaterNightlyIsGreater | scripts/release/resolve-previous-release-tag.ts:64-70 | of two tags with one base the later date or run is greater, and only then |
| ReleaseProofs.NightlyTargetIsNext | scripts/release/resolve-nightly-release.ts:15-21 | the nightly base is the package core with the next patch number, strictly above it |
| Documents.Issue.UpsertComment | apps/symphony/src/helper.rs:669-711 | the listed comment with the marker is replaced in place, else one is added |
| CommentUpserts.UpsertEffect | apps/symphony/src/helper.rs:669-711 | for any comments, marker and body: one comment is written and no other touched; with a marker, the first listed one that holds it, or a new one, and the text is the body behind the marker and a blank line, or the body alone if it holds the marker; without one, a new comment with the body |
| CommentUpserts.UpsertAgain | apps/symphony/src/helper.rs:669-711 | a second upsert under one marker writes the same comment if that is among the first 1000, and else adds one more |
| Documents.Issue.Write | apps/symphony/src/helper.rs:829-836 | a write is refused exactly for a blank title or content |
| DocumentLaws.WriteMeans | apps/symphony/src/helper.rs:829-836 | the text written and the marker it is upserted under; refused exactly for a blank title or content |
| DocumentLaws.PageMeans | apps/symphony/src/helper.rs:514-542 | pages hold a hundred items and follow each other |
| Documents.GetPaginated | apps/symphony/src/helper.rs:514-542 | the page loop collects everything |
| DocumentsProofs.ParseWritten | apps/symphony/src/helper.rs:141-153 | marker and parser undo each other |
| DocumentLaws.DocumentMeans | apps/symphony/src/helper.rs:141-153 | a body is read as a document exactly when it is the opening, a title that is not blank, the first arrow, and the content |
| DocumentLaws.ReadMeans | apps/symphony/src/helper.rs:797-828 | reading a title gives the content of the first of the listed 1000 comments that has it |
| DocumentsProofs.MarkerOccurs | apps/symphony/src/helper.rs:676-698 | exactly when a marker occurs in another document's comment |
| DocumentsProofs.WriteSparesOrHits | apps/symphony/src/helper.rs:669-711 | whatever the other comments are, a write under another title replaces a listed document, which is then no longer read, exactly when no earlier comment has the marker and the title of the document ends in it opened or its content quotes it; else the document stays and is read |
| DocumentsProofs.WriteIsMapUpdate | apps/symphony/src/helper.rs:797-836 | one clean write: read back exactly when a listed place is free or taken by the title, other titles and comments untouched, one comment per title |
| DocumentsProofs.WritesRefineMap | apps/symphony/src/helper.rs:797-836 | after any clean writes whose new titles fit the listing limit, each title reads as last written, or as before, and there is one more comment for each new title |
| DocumentsProofs.OpenedMarkerIsOverwritten | apps/symphony/src/helper.rs:683-698 | a title ending in an opened marker loses its document to a write under the other title |
| DocumentsProofs.PastLimitIsLost | apps/symphony/src/github/client.rs:663-691 | past the listing limit a new title is added by every write and never read |
| NavigationKeys.StateRoundTrip | types.ts:1242-1340 | parsing the key of a state gives back what keys record, exactly for non-empty ids without separators |
| NavigationKeys.KeysInjective | types.ts:1242-1269 | such states with one key record the same |
| NavigationKeys.ParseIsStable | types.ts:1275-1340 | for every string, parsing, printing and parsing again is parsing once |
| NavigationLaws.KeyMeans | types.ts:1242-1269 | the text of the key of every state |
| NavigationLaws.ParseMeans | types.ts:1275-1340 | exactly which keys stand for which states |
| DotEnv.ParseDotEnvValue | apps/cli/src/env.ts:31-53 | the scan with one-character look-back stops at the first closing quote |
| DotEnv.DecodeDoubleQuoted | apps/cli/src/env.ts:55-75 | the index loop is the decoding of escapes |
| DotEnv.LoadDotEnv | apps/cli/src/env.ts:14-28 | the loop over lines folds them into the environment |
| DotEnv.QuoteRoundTrip | apps/cli/src/env.ts:31-75 | a quoted value reads back exactly when it does not end in a backslash |
| DotEnvLaws.ValueMeans | apps/cli/src/env.ts:31-75 | for every raw value: between quotes with at most a comment behind them, what is between, decoded if double; else all up to the first white space before `#`, trimmed |
| DotEnvLaws.DecodeMeans | apps/cli/src/env.ts:55-75 | the five escapes give their characters, any other backslash and character stay |
| DotEnvLaws.LineMeans | apps/cli/src/env.ts:14-28 | a line defines a name exactly when it is a name, an equals sign and a value, with white space around them |
| DotEnvLaws.HashIsKept | apps/cli/src/env.ts:51-52 | a value that begins with `#` is taken as text |
| DotEnv.FirstDefinitionWins | apps/cli/src/env.ts:14-28 | what was set stays, inherited names are never set, else the first definition counts, and nothing else appears |
| DotEnv.WrittenFileLoads | apps/cli/src/env.ts:14-28 | a file of quoted definitions sets an unset key to its first value exactly when its name is not inherited |
| DotEnv.InheritedNameIsSkipped | apps/cli/src/env.ts:23 | a line that sets `constructor` does nothing |
| AdapterCache.GithubPort.TrackerAdapter | apps/symphony/src/main.rs:299-332 | the cache is refreshed exactly when the key changed, and an error changes nothing |
| AdapterCache.KeyShowsFields | apps/symphony/src/main.rs:278-297 | for fields without separators keys are equal exactly when all fields they show are |
| AdapterCache.InputsMean | apps/symphony/src/helper.rs:171-226 | token, owner and name are needed, missed in this order; each input is its own field, trimmed; label prefix and endpoint have defaults |
| AdapterCache.AdapterIsCurrent | apps/symphony/src/main.rs:299-332 | over any reloads the adapter shows the current configuration, and is kept exactly when the old one did |
| AdapterCache.OwnerTypeGoesStale | apps/symphony/src/main.rs:278-297 | a change of the owner type alone leaves the old adapter |
| YamlNormalize.NormalizeKeys | apps/symphony/src/config.rs:51-67 | the recursive walk that fills new mappings is the specified normalisation |
| YamlNormalize.NormalizeIsIdempotent | apps/symphony/src/config.rs:42-67 | string keys, each once, no null values at any depth outside tags; a tree is unchanged exactly when it has this form |
| YamlNormalize.DeepExactlyWhenClean | apps/symphony/src/config.rs:42-67 | the same through tags, too, exactly when every surviving tagged value had this form already |
| YamlNormalize.SectionIsLastEntry | apps/symphony/src/config.rs:524-536 | a section is the normalised value of the last non-null entry whose key prints as its name, else empty |
| YamlLaws.NormalizedMeans | apps/symphony/src/config.rs:51-89 | a mapping becomes one with each name given by an entry that is not null, where it was first given, with the value given last; `true`, `false`, `null`, numbers and text print as such |
| YamlLaws.SectionMeans | apps/symphony/src/config.rs:524-536 | a section is what was given last under its name, normalised, or empty |
| YamlLaws.LookupMeans | apps/symphony/src/config.rs:524-536 | the lookup goes through tags, takes the first entry with the name as a string, and finds nothing elsewhere |
| YamlNormalize.TaggedStays | apps/symphony/src/config.rs:64 | a tagged section keeps the nulls and other keys it has |
| ConfigChecks.CheckLabels | apps/symphony/src/config.rs:1957-2165 | the label checks accept exactly the configurations whose labels are apart, and an error names labels that are not |
| ConfigLaws.AcceptedLabels | apps/symphony/src/config.rs:1957-2165 | accepted, field by field: which labels are not blank, differ, or differ in any ASCII case, with one stage on or both |
| ConfigChecks.DecisionsStandApart | apps/symphony/src/config.rs:2089-2165 | with both stages on, decision labels differ from each other and all other labels of both stages, whatever the case and outer white space |
| ConfigChecks.ApprovalRouteMayClash | apps/symphony/src/config.rs:2089-2165 | exactly which new approval routes an accepted configuration accepts; triage labels play no part |
| ConfigChecks.ValidateCommands | apps/symphony/src/config.rs:2488-2543 | accepted exactly when there are 1 to 20 well-formed commands with distinct names, one of them the acceptance command; else the error is that of the first faulty command |
| ConfigLaws.AcceptedCommands | apps/symphony/src/config.rs:2488-2543 | accepted in terms of the commands: 1 to 20, names of at most 100 and commands of at most 4000 bytes in UTF-8, a time limit, different names, one acceptance command |
| ContextScopes.ScopeRoundTrip | apps/symphony/src/domain.rs:208-242 | a scope reads back from its key exactly when trimmed, not empty and, for a label, in lower case; parsing, printing and parsing again is parsing once |
| ContextScopes.ParseMeans | apps/symphony/src/domain.rs:208-232 | a text is parsed to a scope exactly when, white space and ASCII case of the kind aside, it is `project`, or the kind, a colon, and an id that is not blank |
| PortFallback.BindWithFallback | apps/symphony/src/http_server.rs:1479-1525 | the result is that of the first port in reach not in use, or of the last |
| PortFallback.FirstUsableMeans | apps/symphony/src/http_server.rs:1491-1525 | this determines the result; it is "in use" exactly when every port in reach is |

## Left out

- EventStream.LoopBody: does not model the heartbeat counter, log lines and serialisation failures of the writer.
- EventSocket.SocketHandler.HandleTurns: takes the actions of one turn together; `Run` has them apart, with anything in between.
- PathPosix.CanonicalizeIsPosix: gives no condition where the first such name is a link that POSIX resolution follows, since then the two may agree or differ.
- EventSocket.HandlerStarts: takes the client's actions up to its snapshot together; `Run` has them apart, with anything in between.
- PathPosix.Posix: takes an empty path or link target for the directory it starts from, as the program does; POSIX refuses it.
- EventStream.Act: does not model when the writer's time limit expires; a limit may end the writer at any time.
- EventStream.Broadcasted: does not model how the channel rounds its capacity; the ring keeps any fixed number of entries.
- FactoryRegistry.FactorySessionRegistry: the snapshot gives running sessions as a map, not as a list in key order.
- ReleaseVersions.ParseStableTag: takes the prefix literally, where the script puts it into a regular expression.
- ReleaseVersions.ResolvePreviousReleaseTag: sorting is a stable insertion sort; which of several equal versions comes first is not stated.
- ReleaseVersions.ParseCore: numbers are naturals, without the precision limits of JavaScript numbers.
- Documents.Upsert: the server is only a list of comments; errors of requests and ids that vanish in between are not modelled.
- YamlNormalize.SectionValue: reading a section into its type and the defaults that follow are not modelled.
- PathSafety.Canonicalize: Windows path prefixes and changes of the file system during a call are not modelled.
- ConfigChecks.CheckLabels: the checks of `validate` that interleave with it (tracker kind, prompts, limits, models) are not modelled.
- `sanitize_identifier` and event filter parsing, which are short branches over single tokens, are not modelled.
- Sorting tags by creation date with git, GitHub outputs, `main` functions: input and output.
- The orchestrator, Docker and git subprocesses, the dashboard, and the mermaid pages are not part of this model.
