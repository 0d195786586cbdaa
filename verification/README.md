# Verified model of the game archive's protocols and algorithms

This project models, in Dafny, those parts of the archive's API, contracts package and upload page that are protocols or
algorithms in their own right, and proves what they promise. To check it, run `dafny verify dfyconfig.toml` here.

Storage, the database, the file system, timers and the clock are small state machines in which an adversary moves before
every operation. Code that changes state is a class or a method, proved against a specification function; the promises are
lemmas about those functions or postconditions of the methods.

| part | files |
|---|---|
| Deleting everything under a key prefix, against a bucket that others change between any two requests | `ObjectStorage`, `Bucket`, `PrefixHistory`, `PrefixDeletion`, `ObjectDeletion` |
| The release migration fence: which migrations an operator command may deploy, with deploys that stop anywhere | `ReleaseNames`, `ReleaseFence`, `ReleaseFenceProofs`, `ReleaseFenceReceipts`, `ReleaseFenceProgress`, `ReleaseVerdicts`, `ReleaseCommand` |
| Connection rules as sets of connections, their canonical text, and the draft form that prints new rules | `ConnectionText`, `ConnectionRules`, `ConnectionHosts` |
| IP and CIDR targets: masks, folding of mapped addresses, normal form, matcher | `IpTarget` |
| Lifecycle of owned and borrowed resources under every interleaving of register, start and close | `ResourceOwner`, `ResourceOutcomes`, `ResourceOwnerClass` |
| The generation-guarded, single-flight settings cache | `SettingsStore`, `SettingsStoreClass` |
| Claiming, checking and removing or restoring a file against a concurrent writer, and what a crash leaves of it on disk | `ClaimFile`, `ClaimNames`, `ClaimDisk`, `ClaimRuns`, `ClaimOutcomes` |
| The sliding-log download limiter and the fixed-window limiter of control requests | `DownloadLimiter`, `ControlLimiter` |
| The streaming byte limiters | `ByteLimiter` |
| Portable file names: scans of UTF-16 text, validation, cleaning, the download name and its header | `Utf16`, `Filenames`, `SanitizedNames`, `DownloadNames` |
| Percent-encoding and public object URLs | `UriComponent`, `UriDecoding`, `PublicObjects`, `PublicPaths` |
| The block-manifest identity of a file to be uploaded | `SourceIdentity`, `SourceFormat` |

`Wrappers`, `StringOrder`, `Sorting`, `Characters`, `Decimals`, `Segments` and `Bytes` hold what several of these share.

## How to read the hard parts

- **Prefix deletion.** `Bucket.Storage` plays a script that the caller does not know: before each request keys may appear and
  vanish and the caller's signal may be aborted, a request may fail with or without effect, and an answer may be anything. Every
  request goes into a ghost log. `PrefixHistory.Summarise` adds a log up, and the contracts are about that sum:
  `ObjectDeletion.Coordinator.DeletePrefixOrQueue` returns normally only if the last storage operation was a listing from
  the head of the prefix that saw it empty, or exactly one durable row was written in this call.
- **Release fence.** `ReleaseFence.Execute` is one command on one image; a `Plan` says where each deploy stops and whether it
  leaves an unfinished row. `ReleaseFenceProofs.FenceHolds` is about every sequence of commands on any images. The
  names of this release satisfy what the proofs ask of them (`ReleaseNames.ReleaseOrdered`).
- **State machines.** In `ResourceOwner`, `SettingsStore` and `ClaimFile` a run is any sequence of steps; each `await` of the
  source is a boundary between steps. The classes beside the first two are the synchronous stretches of the code, each
  proved to be its step. In `ResourceOwner` the first stretch of a start call, in which a resource's own start may call the
  owner, is a state of its own.
- **Crashes.** `ClaimFile` keeps the names as programs see them and, beside them, the log of their changes and how much of it
  each of the two directories has written. Syncing a directory writes its part; the system may write more at any time. A crash
  keeps any extent from what is written to everything, a move in both directories or in neither.
- **Plain statements.** Members whose names end in `Exact`, and the contracts of the classes, say what an operation decides in
  terms of its input: rows, characters, bytes, logged requests, so that they can be read without the functions that decide it.
- **Limiters.** The download limiter is proved to answer by its full history, although it prunes; the control limiter to answer
  by the requests it admitted, although it forgets windows.

## Findings about the code

- `claimAndRemoveFile` restores an unexpected file by a link and then unlinks the quarantine name. That unlink drops the
  file's last name exactly when the source no longer leads to the file by then (`ClaimNames.LastNameLost`), which takes a
  writer that moves between the link and the unlink (`ClaimNames.UnlinkIsSafeAlone`); `changed` is then reported for a file
  that is gone (`ClaimRuns.WriterCanTakeRestored`). `missing` can leave its reservation behind when the unlink of the cleanup
  fails (`ClaimNames.MissingLeavesNothing`).
- Of the directory syncs of that call, only the one between the link and the unlink keeps a durable file from being lost in a
  crash, and only where source and quarantine are in different directories (`ClaimDisk.CrashLosesExactly`). Where the platform
  does not support it, which `syncDirectory` accepts, a crash can lose the file with no writer about
  (`ClaimRuns.CrashCanLoseUnsynced`).
- An owned resource whose start calls the owner's `start` before its first await is started twice, since the start work is
  remembered only after the loop's first stretch (`ResourceOwner.ReentrantStartRunsTwice`). In all other runs, and only
  in those, starts happen once and in order (`ResourceOwner.LifecycleOrder`).
- The settings cache falls behind a processed update exactly when update responses arrive out of commit order
  (`SettingsStore.FreshIffInOrder`, with a run in `SettingsStore.OutOfOrderIsStale`).
- Two wildcard rules overlap as sets of names whenever `overlaps` says so, but on host names of 252 and 253 characters no
  shared name would fit into the DNS (`ConnectionRules.WildcardRoom`).
- `safePublicRelativePath` decodes the raw URL up to three times, so a key that contains a percent sign and was published
  properly may be refused when the raw URL is given: `PublicObjects.OwnRawUrl` says exactly when, and
  `PublicObjects.PercentKeyRefused` shows the key `%`. Keys without a percent sign always come back
  (`PublicObjects.PlainKeyComesBack`).
- The 32-bit block count in the root input of a source identity wraps for files of 2^32 blocks (4 PiB) and more; the root input
  is uniquely decodable all the same, since the manifest gives the count (`SourceIdentity.CountFits`,
  `SourceIdentity.RootInputUnique`).

## Model

| member | source | states |
|---|---|---|
| ObjectStorage.ReadKeyPage | apps/api/src/lib/storage.ts:309-330 | A listing response is accepted exactly when it spells out a page of ascending keys under the prefix and past the cursor, not empty and truncated at once; it is then that page. |
| ObjectStorage.ReadDeleteResponse | apps/api/src/lib/storage.ts:342-357 | A bulk-delete response is accepted exactly when it names every requested key once and no other; deleted and failed keys then split the batch, and the failed ones are those with an error other than NoSuchKey. |
| ObjectStorage.FailedKeysExact | apps/api/src/lib/storage.ts:353-355 | A key has failed exactly if an error names it with a code other than NoSuchKey. |
| ObjectStorage.CountingDecides | apps/api/src/lib/storage.ts:356 | Once every answer is a new requested key, comparing the counts decides whether all keys were answered. |
| Bucket.Storage.ListKeyPage | apps/api/src/lib/storage.ts:298-331 | Whatever the service and the other parties do, a returned page is valid for prefix and cursor; a page size outside 1 to 1000 is refused without a request. |
| Bucket.Storage.DeleteKeys | apps/api/src/lib/storage.ts:332-358 | Empty, oversized and repeated batches are refused without a request; an accepted result splits the batch. |
| PrefixHistory.FlagsSpeakOfAll | apps/api/src/application/prefix-deletion.ts:82-126 | The flags of a log's summary are statements about every event in it. |
| PrefixHistory.KeptOrRemoved | apps/api/src/application/prefix-deletion.ts:117-122 | Every submitted key was deleted or reported as failed, not both if it was submitted once, and a failure was reported exactly if some key was kept. |
| PrefixDeletion.PrefixRun.BeforeRequest | apps/api/src/application/prefix-deletion.ts:92-95 | Each request comes directly after the caller's hook has returned, and is not sent once the signal is aborted. |
| PrefixDeletion.FailureSink.OnFailures | apps/api/src/application/object-deletion.ts:131-146 | The prefix is recorded at most once per call, on the first reported failure; a failing queue ends the call. |
| PrefixDeletion.PrefixRun.SubmitPending | apps/api/src/application/prefix-deletion.ts:107-124 | One bulk delete of the first keys of the batch, a full page if there are as many: on success the batch shrinks and the keys are accounted for. It throws only if the last thing that happened is a failed or aborted request, hook or record; a key reported as failed is no reason. |
| PrefixDeletion.PrefixRun.Flush | apps/api/src/application/prefix-deletion.ts:105-126 | Afterwards fewer than a page of keys is pending, or none if all were to be flushed; keys leave the batch from the front and are submitted in order, and every bulk delete but the last is a full one. |
| PrefixDeletion.PrefixRun.List | apps/api/src/application/prefix-deletion.ts:82-103 | One more page against the budget, or, with the budget spent, everything pending is submitted before the budget error. |
| PrefixDeletion.PrefixRun.Enumerate | apps/api/src/application/prefix-deletion.ts:129-156 | Keeps at every loop head: keys submitted and pending are exactly the keys listed, fewer than a page is pending, and the pages used are at most three times the listed keys; pages grow, so the loop ends. |
| PrefixDeletion.PrefixRun.VerifyHead | apps/api/src/application/prefix-deletion.ts:158-165 | Success is reported only if the listing from the head of the prefix saw no key; otherwise enumeration starts over. |
| PrefixDeletion.PrefixRun.Run | apps/api/src/application/prefix-deletion.ts:128-167 | Ends within the page budget. Normal return: the last page said that nothing follows, every listed key was submitted, and the head was seen empty by the last request or the prefix recorded once. Any other end has its cause in the last event, or is the budget, of which then a third at least was deleted. With n keys that nobody else touches: all are submitted, exactly those reported as failed are left, in at most n + 1 listings and as few bulk deletes as n keys need. |
| PrefixDeletion.NextHonestPage | apps/api/src/application/prefix-deletion.ts:129-155 | On an idle, truthful bucket each page continues the enumeration: nothing up to the cursor is missed although listed keys are being deleted. |
| PrefixDeletion.OnTrackSize | apps/api/src/application/prefix-deletion.ts:83-89 | In such a run the pages used stay below the number of keys, so the budget suffices. |
| ObjectDeletion.Coordinator.DeletePrefixPages | apps/api/src/application/prefix-deletion.ts:55-68 | Limits outside their ranges are refused before any request; otherwise the run above. |
| ObjectDeletion.Coordinator.DeletePrefixOrQueue | apps/api/src/application/object-deletion.ts:119-168 | Returns normally only if the prefix was seen empty by the last storage operation or one row was recorded in this call; a failed record, hook or abort is never hidden. Where nothing fails but single keys, it returns with every listed key submitted, whoever else is at work, and only a spent page budget leaves more to list; where nobody else is at work, the whole prefix was submitted, all but the failed keys are deleted, and the prefix is recorded exactly if some key failed. |
| ObjectDeletion.Coordinator.Settle | apps/api/src/application/object-deletion.ts:148-167 | The catch block: hook and queue errors and aborts surface, everything else ends with the row recorded exactly once. |
| ReleaseNames.ReleaseOrdered | apps/api/scripts/release-migrate.ts:17-52 | The migration names of this release are ordered as the fence needs: expand up to the ceiling, preparations, contract, project changes. |
| ReleaseFenceProofs.StagedMembers | apps/api/scripts/release-migrate.ts:351-357 | Staged are exactly the names up to the target, without the original contract when an alternate is asked for and with that alternate when the target reaches the contract. |
| ReleaseFenceProofs.SortedIsSort | apps/api/scripts/release-migrate.ts:356 | Staged names are a sorted permutation of the selected ones. |
| ReleaseFenceProofs.DeployCompletes | apps/api/scripts/release-migrate.ts:431-434 | A deploy that succeeds on a history without failed release rows leaves every staged release migration completed. |
| ReleaseFenceProofs.StatusMeans | apps/api/scripts/release-migrate.ts:199-245 | In a fenced history the status tells the truth: which contract path is completed, that it is the only one, and that the expand migrations precede it. |
| ReleaseFenceProofs.ContractFenced | apps/api/scripts/release-migrate.ts:467-484 | The contract command, with or without an exception and stopped anywhere, keeps the fence and stays on the chosen path. |
| ReleaseFenceProofs.ExecuteFenced | apps/api/scripts/release-migrate.ts:440-493 | Every command keeps: at most one contract row, and none before the required expand migrations are complete. |
| ReleaseFenceProofs.FenceHolds | apps/api/scripts/release-migrate.ts:440-493 | So does every sequence of commands, on any images, stopped anywhere. |
| ReleaseFenceProofs.FailedRowBlocks | apps/api/scripts/release-migrate.ts:247-255 | An unfinished or rolled-back release row blocks every later command, and nothing changes any more. |
| ReleaseFenceProofs.RunAppends | apps/api/scripts/release-migrate.ts:440-493 | No command removes or rewrites history. |
| ReleaseFenceProofs.PhaseTwoIsFinal | apps/api/scripts/release-migrate.ts:315-325 | Once the phase 2 check has passed, the phase 1 check never passes again, on any image. |
| ReleaseFenceReceipts.RunReceipted | apps/api/scripts/release-migrate.ts:199-221 | Every run keeps: a receipt belongs to an alternate contract row with its checksum, a finished alternate row has one, and its preparations are complete. |
| ReleaseFenceReceipts.NoFalseAlarm | apps/api/scripts/release-migrate.ts:199-221 | In such a history without failed rows the contract path check passes. |
| ReleaseFenceReceipts.OnlyFailuresLock | apps/api/scripts/release-migrate.ts:199-255 | In every reachable state a command is turned away at the door exactly for a failed release row, or because the image's alternate SQL differs from the receipt's checksum. |
| ReleaseFenceProgress.ContractVerdict | apps/api/scripts/release-migrate.ts:480-491 | A successful contract command leaves complete expand history, the project changes and the contract path that was asked for. |
| ReleaseFenceProgress.ExpandSucceeds | apps/api/scripts/release-migrate.ts:463-466 | Undisturbed, the expand command succeeds on every database from before the contract without unfinished migrations, and leaves another such. |
| ReleaseFenceProgress.ContractSucceeds | apps/api/scripts/release-migrate.ts:467-491 | Undisturbed, the contract command then succeeds too, on the original and on every exception path. |
| ReleaseVerdicts.DoorExact | apps/api/scripts/release-migrate.ts:199-222 | Every command begins with a check that passes exactly if no release migration is unfinished or rolled back, at most one receipt exists, written for this image's SQL, and it belongs to the only alternate contract row, with its preparations done and no original contract beside it, or there is neither receipt nor alternate row. |
| ReleaseVerdicts.RuntimeExact | apps/api/scripts/release-migrate.ts:315-325 | The runtime check changes nothing and passes exactly if that check does, the registry is verified, the baseline and every required expand migration are done, and no contract is (phase 1), or some contract and the project changes are (phase 2). |
| ReleaseVerdicts.ExpandRefused | apps/api/scripts/release-migrate.ts:459-464 | Without the baseline, or after any contract, expanding is refused and nothing changes. |
| ReleaseVerdicts.ExpandExact | apps/api/scripts/release-migrate.ts:463-466 | Otherwise success means the phase 1 schema and a seeded registry, and a complete expand history is left as it is. |
| ReleaseVerdicts.ContractRefused | apps/api/scripts/release-migrate.ts:468-475 | Before the expand, without the registry, or for an exception that does not fit the contract or receipt there is, the contract is refused and nothing changes. |
| ReleaseVerdicts.ContractFit | apps/api/scripts/release-migrate.ts:487-491 | Success means the phase 2 schema and a verified registry. |
| ReleaseVerdicts.StaleImageRefused | apps/api/scripts/release-migrate.ts:480-482 | An image that ends before the project changes is refused. |
| ReleaseVerdicts.UnauthorizedStops | apps/api/scripts/release-migrate.ts:476-479 | Without its authorization an exception gets no further than the preparations of its profile. |
| ReleaseVerdicts.PreparationsComplete | apps/api/scripts/release-migrate.ts:476-479 | And undisturbed it completes those. |
| ReleaseVerdicts.DeployWrites | apps/api/scripts/release-migrate.ts:411-436 | A deploy appends rows of its names that had no live row, with the image's checksums, and receipts for authorized alternates with the identity given; only the last row can be unfinished, and success leaves a live row of every name. |
| ReleaseVerdicts.DeployInOrder | apps/api/scripts/release-migrate.ts:356 | Rows are written in the order of the names. |
| ReleaseCommand.Database.MigrateDeploy | apps/api/scripts/release-migrate.ts:431-434 | The step-by-step deploy is the specified one. |
| ReleaseCommand.Database.RunCommand | apps/api/scripts/release-migrate.ts:440-493 | The command as it runs is the specified one and keeps the fence; an unsound history refuses it, the runtime check passes exactly on the schema of its phase, and success of an applying command means that schema. |
| ConnectionText.ParsedPrintsBack | packages/contracts/src/connection-rule.ts:10-40 | An accepted origin is exactly what its rule prints, and its host and port are valid. |
| ConnectionText.PrintedParsesBack | packages/contracts/src/connection-rule.ts:10-40 | The print of every valid rule of at most 512 characters is accepted and gives that rule. |
| ConnectionText.ParseExact | packages/contracts/src/connection-rule.ts:13-40 | Accepted are exactly the prints of valid rules of at most 512 characters in the mode asked for. |
| ConnectionText.CanonicalText | packages/contracts/src/connection-rule.ts:10-40 | Two accepted origins give the same mode, host, subdomain flag and port exactly when they are the same string. |
| ConnectionText.DraftAccepted | packages/contracts/src/connection-draft.ts:17-30 | A draft is accepted exactly when its fields are well formed and its host is valid for its scope; the printed origin then parses to the draft's mode, normalised host, scope and port, with port 443 elided. |
| ConnectionHosts.DraftExact | packages/contracts/src/connection-draft.ts:21-34 | The same field by field: the host in small letters without white space around it, a port from 1 to 65535 where one is asked for, and the origin as it is spelled. |
| ConnectionHosts.HostExact | packages/contracts/src/connection-rule.ts:25-37 | A rule may name a host exactly if the URL parser keeps it as it is and it is a public address, before which no wildcard may stand, or a public name, which must be below a public suffix if one does. |
| ConnectionHosts.PublicAddressExact | packages/contracts/src/connection-rule.ts:28-29 | Public are unicast addresses; of IPv6 only those with a first byte from 20 to 3f, and none within 3fff::/20. |
| ConnectionHosts.NameExact | packages/contracts/src/connection-rule.ts:31-33 | Public names are letters, digits, inner hyphens and inner dots between letters or digits, with a dot among any 64 characters, at most 253 long, and in no local zone. |
| ConnectionHosts.LowerExact | packages/contracts/src/connection-rule.ts:42 | Lower-casing moves exactly the letters A to Z. |
| ConnectionHosts.TrimExact | packages/contracts/src/connection-draft.ts:22-24 | Trimming takes exactly the white space at both ends. |
| ConnectionRules.ParsedIsCanonical | packages/contracts/src/connection-rule.ts:24-39 | The host of an accepted rule is in the normal form that includesHostname compares with. |
| ConnectionHosts.IncludesExact | packages/contracts/src/connection-rule.ts:41-44 | A wildcard covers exactly the names that end in a dot and its host, another rule exactly its host. |
| ConnectionHosts.NormalExact | packages/contracts/src/connection-rule.ts:42 | Hosts are compared without regard to case and to one dot at the end. |
| ConnectionRules.OverlapsIsIntersection | packages/contracts/src/connection-rule.ts:45-52 | Two rules overlap exactly when some mode, host and port is matched by both; so overlap is symmetric. |
| ConnectionRules.WildcardRoom | packages/contracts/src/connection-rule.ts:47-48 | Two overlapping wildcards share a name that the DNS can carry exactly when the longer host name has at most 251 characters. |
| ConnectionRules.CheckRulesExact | packages/contracts/src/connection-rule.ts:61-64 | The one pass over the rules finds nothing exactly when no rule covers a protected host and no two rules overlap. |
| ConnectionRules.PolicyExact | packages/contracts/src/connection-rule.ts:58-67 | A policy is accepted exactly when it has at most sixteen valid origins, no connection is matched by two of its rules and no protected host by any. |
| ConnectionRules.OrderIrrelevant | packages/contracts/src/connection-rule.ts:58-67 | Acceptance does not depend on the order of the origins. |
| IpTarget.MaskByteRounds | packages/contracts/src/ip-target.ts:29-32 | Anding a byte with its mask rounds it down to a multiple of 2^(8 - bits). |
| IpTarget.MaskedRounds | packages/contracts/src/ip-target.ts:29-32 | Masking every byte rounds the whole address down to a multiple of 2^(width - prefix) (section 3.1 of RFC 4632). |
| IpTarget.MaskingKeepsUnmapped | packages/contracts/src/ip-target.ts:23-32 | Masking an IPv6 address that is not IPv4-mapped never yields a mapped one (section 2.5.5.2 of RFC 4291). |
| IpTarget.NormalizeIpTarget | packages/contracts/src/ip-target.ts:15-34 | The normalisation that folds a mapped address before masking is the specified one; prefixes beyond the width, or below 96 on a mapped address, are refused. |
| IpTarget.NormalizeIdempotent | packages/contracts/src/ip-target.ts:4-35 | Normalising what normalisation prints changes nothing. |
| IpTarget.NormalFormExact | packages/contracts/src/ip-target.ts:4-35 | Two accepted targets normalise alike exactly when they denote the same block of one family. |
| IpTarget.PrefixMatchIsQuotient | packages/contracts/src/ip-target.ts:47 | Comparing leading bits byte by byte is comparing the integers above the open bits. |
| IpTarget.MatcherExact | packages/contracts/src/ip-target.ts:38-49 | A compiled target matches a client exactly when the client is a single address whose folded integer lies in the target's block. |
| IpTarget.AcceptedExact | packages/contracts/src/ip-target.ts:16-28 | A target is refused exactly if its prefix is longer than the address, or shorter than 96 on a mapped one. |
| IpTarget.MatcherInNumbers | packages/contracts/src/ip-target.ts:38-49 | The same for the matcher in numbers: one whole client address, the same family, and equality above the bits left open. |
| ResourceOwner.NextKeeps | apps/api/src/backend-context/resource-owner.ts:39-113 | Every step of register, start, close, a returning or settling start, a settling close, or a timer keeps the invariant that the theorems below rest on. |
| ResourceOwner.LifecycleOrder | apps/api/src/backend-context/resource-owner.ts:56-113 | Over every interleaving: none starts after close was asked for; closes happen in reverse order and, when closing is done, exactly once for each owned resource. Owned starts happen at most once and in registration order exactly in the runs in which no start calls the owner's start before its own first await. |
| ResourceOutcomes.StartPromiseExact | apps/api/src/backend-context/resource-owner.ts:65-69 | A start promise is rejected only when closing was asked for and every owned resource was closed in reverse order; without nested starts it is fulfilled only when all were started. |
| ResourceOutcomes.FailedStartCloses | apps/api/src/backend-context/resource-owner.ts:65-68 | A failed start asks for closing, and then time alone closes everything and rejects the promise. |
| ResourceOutcomes.NothingStartsAfterFailure | apps/api/src/backend-context/resource-owner.ts:59-63 | After a start has thrown or rejected, nothing is started ever again (without nested starts). |
| ResourceOwner.ReentrantStartRunsTwice | apps/api/src/backend-context/resource-owner.ts:56-64 | A run in which one does: the resource is started twice. |
| ResourceOwner.OrdersAreSets | apps/api/src/backend-context/resource-owner.ts:59-61 | The two orders contain exactly the owned resources (with a start), so borrowed ones are never touched. |
| ResourceOwner.CloseInTime | apps/api/src/backend-context/resource-owner.ts:75-109 | Closing settles within 5000 ms times the number of owned resources plus one. |
| ResourceOutcomes.EachWaitInFull | apps/api/src/backend-context/resource-owner.ts:75-105 | A first close waits for a start under way; every wait lasts until what it waits for is over or 5000 ms have passed. |
| ResourceOutcomes.ErrorExact | apps/api/src/backend-context/resource-owner.ts:94-110 | Closing reports an error exactly if a wait timed out or a close failed. |
| ResourceOwner.TimersFinish | apps/api/src/backend-context/resource-owner.ts:76-92 | Whatever starts and closes hang, timers alone finish a close that was asked for. |
| ResourceOwner.NoWaitCycle | apps/api/src/backend-context/resource-owner.ts:65-101 | Start and close never wait on each other: a start that waits for closing is always released, and in runs without such a nested start, closing waits for startup only while startup is not over. |
| ResourceOwnerClass.BackendResourceOwner.RegisterResource | apps/api/src/backend-context/resource-owner.ts:39-50 | Accepted exactly while no start or close is remembered, and then appended; keeps the invariant. |
| ResourceOwnerClass.BackendResourceOwner.StartAll | apps/api/src/backend-context/resource-owner.ts:56-70 | The start call is the specified step: nothing happens once a start is remembered or close was called, and at most the first owned start is called before the first await. |
| ResourceOwnerClass.BackendResourceOwner.OnStartReturned | apps/api/src/backend-context/resource-owner.ts:58-68 | When that start has returned or thrown, the loop is remembered as the start work, and its promise if there is none. |
| ResourceOwnerClass.BackendResourceOwner.CloseAll | apps/api/src/backend-context/resource-owner.ts:72-113 | The close call is the specified step: closing is then asked for and under way, and a repeated call changes nothing. |
| ResourceOwnerClass.BackendResourceOwner.OnStartSettled | apps/api/src/backend-context/resource-owner.ts:59-63 | A settled start goes on with the next owned resource unless it failed or close was asked for, which ends the loop without another start. |
| ResourceOwnerClass.BackendResourceOwner.OnStartWorkOver | apps/api/src/backend-context/resource-owner.ts:65-68 | When the loop of the start promise is over, success fulfils it and touches nothing else; failure asks for closing first. |
| ResourceOwnerClass.BackendResourceOwner.OnCloseWaitOver | apps/api/src/backend-context/resource-owner.ts:95-109 | When a wait of the close loop is over, by itself or by its timer, the next owned resource below is closed or closing is done, and an error is remembered. |
| SettingsStore.FreshIffInOrder | apps/api/src/shared/site-settings.ts:108-119 | The cache is never older than a processed update exactly when update responses are processed in commit order, whatever loads, reloads, invalidations and other writers do. |
| SettingsStore.OutOfOrderIsStale | apps/api/src/shared/site-settings.ts:116-117 | Two updates answered in the other order leave a stale cache. |
| SettingsStore.SupersededLoadNeverInstalls | apps/api/src/shared/site-settings.ts:59-69 | A load begun before an update, invalidation, reload or close completed is never installed, however long it takes. |
| SettingsStore.SingleFlight | apps/api/src/shared/site-settings.ts:56-79 | At most one load is outstanding, and a closed store holds nothing. |
| SettingsStore.ClosedStays | apps/api/src/shared/site-settings.ts:125-130 | After close nothing is installed and no load is begun, for ever. |
| SettingsStore.CachedAnswerIsCurrent | apps/api/src/shared/site-settings.ts:102-105 | In commit order, an answer from the cache is within its time to live and no older than any processed update. |
| SettingsStoreClass.CachedSettingsStore.GetSettings | apps/api/src/shared/site-settings.ts:102-105 | Answers from a live entry and then leaves the load alone; otherwise joins the load under way or begins one. |
| SettingsStoreClass.CachedSettingsStore.OnLoaded | apps/api/src/shared/site-settings.ts:61-76 | A load's row is installed exactly if the store is open and the generation is unchanged; otherwise the cache is left alone. |
| SettingsStoreClass.CachedSettingsStore.OnUpdated | apps/api/src/shared/site-settings.ts:110-118 | An update's row replaces the cache of an open store and starts a new generation. |
| ClaimNames.RunKeeps | apps/api/src/infrastructure/production-ports.ts:148-192 | Every run of the call and the writer, with operations that may fail and syncs that may be unsupported, keeps the invariant about names. |
| ClaimNames.RemovedWasExpected | apps/api/src/infrastructure/production-ports.ts:165-188 | `removed` means that the unlinked quarantine name led to the matching file; the call unlinks that name of any other file only after restoring it. |
| ClaimOutcomes.AnswersExact | apps/api/src/infrastructure/production-ports.ts:165-188 | `removed` is answered only for the expected file: a regular one with the expected device, id, size and time; `changed` only for any other. |
| ClaimOutcomes.UndisturbedExact | apps/api/src/infrastructure/production-ports.ts:148-192 | Undisturbed, nothing at the source is `missing`, the expected file is removed, and any other is back at the source after `changed`; no other name is different. |
| ClaimOutcomes.NoFreeCandidate | apps/api/src/infrastructure/production-ports.ts:58-78 | When sixteen candidates in a row are taken the call throws and nothing has changed. |
| ClaimOutcomes.NoTrace | apps/api/src/infrastructure/production-ports.ts:64-68 | A call that ends without a claim leaves no trace, unless cleaning up failed. |
| ClaimOutcomes.FailureThrows | apps/api/src/infrastructure/production-ports.ts:153-191 | An operation that fails makes the call throw, and cleans up the reservation where nothing was claimed. |
| ClaimOutcomes.SkippedLikeSynced | apps/api/src/infrastructure/production-ports.ts:50-53 | A directory sync that is not supported counts as done, though nothing more is on disk. |
| ClaimNames.NeverLost | apps/api/src/infrastructure/production-ports.ts:173-185 | At every step any other claimed file has a name at the source or in quarantine, unless the writer took it after it was restored. |
| ClaimNames.SafeUntilRestored | apps/api/src/infrastructure/production-ports.ts:153-175 | Until it is restored, an unexpected file has its quarantine name, whatever the writer does. |
| ClaimNames.LastNameLost | apps/api/src/infrastructure/production-ports.ts:173-184 | The steps at which an unexpected file loses its last name are exactly these: the unlink after the restore when the source does not lead to the file, and a writer taking it from the source when the quarantine name is gone. |
| ClaimNames.UnlinkIsSafeAlone | apps/api/src/infrastructure/production-ports.ts:175-177 | The first of these needs a writer that moved between the link and the unlink. |
| ClaimRuns.WriterCanTakeRestored | apps/api/src/infrastructure/production-ports.ts:175-178 | Such a run exists, and ends with `changed`. |
| ClaimNames.MissingLeavesNothing | apps/api/src/infrastructure/production-ports.ts:157-190 | `missing` claims nothing and leaves a reservation exactly when its unlink failed. |
| ClaimNames.OtherNamesUntouched | apps/api/src/infrastructure/production-ports.ts:58-72 | No name but the source and the call's own quarantine path is ever changed. |
| ClaimDisk.ClaimSyncsWriteClaim | apps/api/src/infrastructure/production-ports.ts:160-163 | From the check on the claim is on disk, unless neither of the syncs after it was carried out: a move is in both directories. |
| ClaimDisk.CrashKeepsFile | apps/api/src/infrastructure/production-ports.ts:153-185 | Whatever a crash at any step leaves of the unwritten changes: an unexpected file that was durable when claimed, or whose claim is on disk, has a name at the source or in quarantine, unless the writer took it after it was restored. This rests on the sync between link and unlink, where the directories differ. |
| ClaimDisk.CrashLosesExactly | apps/api/src/infrastructure/production-ports.ts:175-177 | While the writer leaves such a file alone, some crash loses it exactly when its unlink was issued, in another directory than the source, before the link was on disk. |
| ClaimRuns.CrashCanLoseUnsynced | apps/api/src/infrastructure/production-ports.ts:46-56 | With that sync unsupported, such a run exists, with no writer about. |
| ClaimDisk.RemovedStaysRemoved | apps/api/src/infrastructure/production-ports.ts:186-188 | After `removed`, with its last sync carried out, no crash brings the quarantine name back, nor the file to the source unless the writer put it there again. |
| ClaimDisk.RestoredLeavesQuarantine | apps/api/src/infrastructure/production-ports.ts:177-178 | After a restore, with its last sync carried out, no crash brings the quarantine name back. |
| DownloadLimiter.LiveTwice | apps/api/src/shared/download-rate-limit.ts:146-154 | Pruning at an earlier cutoff does not change what a later one sees. |
| DownloadLimiter.IntervalBound | apps/api/src/shared/download-rate-limit.ts:137-142 | A log in which each hit is a window behind the one maxHits before it holds at most maxHits hits in any interval of that length. |
| DownloadLimiter.RetrySuffices | apps/api/src/shared/download-rate-limit.ts:138-141 | With no further hits a check is within the limit again after retryAfterSec seconds, and not a full second earlier. |
| DownloadLimiter.DownloadRateLimiter.Check | apps/api/src/shared/download-rate-limit.ts:113-144 | The answer is decided by the full history: banned, abuse ceiling, rate limited or ok exactly as the hits later than a window ago demand; ok appends the time to the principal's history and to no other, likewise for the address; a limited caller is told the seconds until its first live hit is a window old, rounded up. |
| DownloadLimiter.DownloadRateLimiter.NeverOverLimit | apps/api/src/shared/download-rate-limit.ts:137-143 | Any interval of one window's length holds at most maxHits ok results of a principal. |
| DownloadLimiter.DownloadRateLimiter.Sweep | apps/api/src/shared/download-rate-limit.ts:156-165 | Sweeping keeps no stale hit and no empty bucket and changes no history, and so no later answer. |
| DownloadLimiter.DownloadRateLimiter.AddBan | apps/api/src/shared/download-rate-limit.ts:87-91 | A ban forgets the address's own hits and nothing else. |
| ControlLimiter.TwiceTheMaximum | apps/api/src/plugins/rate-limit.ts:31-41 | Any closed interval of windowMs milliseconds holds at most twice the maximum of admitted requests of a bucket. |
| ControlLimiter.RetrySuffices | apps/api/src/plugins/rate-limit.ts:34 | After the advertised wait, with no further requests, the bucket is no longer full; a full second earlier it still is. |
| ControlLimiter.DirectControlPrincipalLimiter.Check | apps/api/src/plugins/rate-limit.ts:27-48 | A request is admitted exactly if neither the actor's bucket nor, where there is a session, the session's has taken its maximum in the running window, judged by the admitted requests alone; it is then recorded in both. A denied one changes no bucket and names the seconds until the window of the first full one has run out, rounded up. |
| ControlLimiter.CurrentExact | apps/api/src/plugins/rate-limit.ts:31-41 | The window replayed from the end is the one found from the beginning, where each window opens with the next request that is a window's length behind. |
| ControlLimiter.DirectControlPrincipalLimiter.NeverOverTwice | apps/api/src/plugins/rate-limit.ts:27-48 | The bound above, for every bucket at any moment. |
| ControlLimiter.DirectControlPrincipalLimiter.Purge | apps/api/src/plugins/rate-limit.ts:42-46 | Purging keeps exactly the running windows and still explains every bucket, so no later decision changes. |
| ByteLimiter.PdfOnlyWidens | apps/api/src/shared/upload-policy.ts:133-146 | Knowing the type changes the limit only for PDF posters and images, and only upwards, to 50 and 100 MB. |
| ByteLimiter.LimitExact | apps/api/src/shared/upload-policy.ts:82-146 | The limit of every kind in bytes, decided by the first 4100 bytes. |
| ByteLimiter.KindAwareByteLimiter.Transform | apps/api/src/shared/upload-policy.ts:174-204 | Holds everything back until 4100 bytes decide the limit and nothing afterwards; a failure leaves a prefix of the input within the limit. |
| ByteLimiter.KindAwareByteLimiter.Flush | apps/api/src/shared/upload-policy.ts:205-215 | At the end everything was passed on, or the stream failed as it should. |
| ByteLimiter.Pipe | apps/api/src/shared/upload-policy.ts:148-217 | For every way of cutting a byte string into chunks: the stream finishes exactly when the string is within the limit of the type detected on its first 4100 bytes, its output is then the string; otherwise it reports that limit, or the detector's failure, and has passed on a prefix no longer than the limit. |
| ByteLimiter.PipePlain | apps/api/src/shared/upload-policy.ts:116-131 | The limiter with a fixed bound, likewise. |
| Utf16.OctetsRoundTrip | packages/contracts/src/filename-policy.ts:38-55 | The octets of a code point read back as it, and the first announces how many follow (section 3 of RFC 3629). |
| Filenames.Utf8ByteLength | packages/contracts/src/filename-policy.ts:36-57 | The scan gives the length of the UTF-8 encoding, with three octets for each lone surrogate. |
| Filenames.HasUnpairedSurrogate | packages/contracts/src/filename-policy.ts:59-73 | True exactly when some surrogate has no partner beside it. |
| Filenames.ReplaceUnpairedSurrogates | packages/contracts/src/filename-policy.ts:121-140 | Replaces exactly the lone surrogates by underscores. |
| Filenames.ReplacedIsPaired | packages/contracts/src/filename-policy.ts:59-140 | The scans agree: after replacing nothing is found, and replacing changes the text exactly when something was found. |
| Filenames.ValidateUploadFilename | packages/contracts/src/filename-policy.ts:80-119 | The reasons are exactly the faults of the name, each once and in a fixed order; there are none exactly for portable names. |
| Filenames.FaultsExact | packages/contracts/src/filename-policy.ts:80-119 | Each of these faults in plain terms: nothing but white space, more than 255 octets, "." or "..", a character of a class, a lone surrogate, a dot or space at the end, a reserved base. |
| Filenames.ReservedBaseExact | packages/contracts/src/filename-policy.ts:75-78 | A base is reserved if what stands before the first dot is a reserved name, whatever white space is around it. |
| Filenames.ClassesExact | packages/contracts/src/filename-policy.ts:29-32 | The characters that a name must not contain, in letters. |
| Filenames.ReservedExact | packages/contracts/src/filename-policy.ts:34 | Reserved are con, prn, aux, nul, com1 to com9 and lpt1 to lpt9 in any case, and nothing else. |
| Filenames.TrimExact | packages/contracts/src/filename-policy.ts:77 | Trimming takes exactly the white space at both ends. |
| SanitizedNames.SanitizedIsNeat | packages/contracts/src/filename-policy.ts:142-153 | For any normalisation that keeps surrogates paired and any neat fallback, the result is neat: paired, single-spaced, without unsafe characters or trailing dot, and not reserved. |
| SanitizedNames.FixedPointsAreNeat | packages/contracts/src/filename-policy.ts:142-153 | Where normalisation changes nothing, cleaning changes nothing exactly for neat names. |
| SanitizedNames.SanitizeTwice | packages/contracts/src/filename-policy.ts:142-153 | Where normalisation leaves the result alone, cleaning it again changes nothing. |
| SanitizedNames.PlainCharactersKept | packages/contracts/src/filename-policy.ts:143-148 | Characters that are not unsafe are neither lost, added nor reordered. |
| SanitizedNames.CollapseRun | packages/contracts/src/filename-policy.ts:147 | A run of white space becomes one space. |
| SanitizedNames.StripEndExact | packages/contracts/src/filename-policy.ts:148 | Only dots and spaces are dropped at the end. |
| SanitizedNames.SanitizeExact | packages/contracts/src/filename-policy.ts:150-152 | What is left after cleaning stays as it is, a reserved name gets an underscore in front, and nothing becomes the fallback. |
| SanitizedNames.NeatIsPortable | packages/contracts/src/filename-policy.ts:80-119 | A neat name of at most 255 bytes passes validation. |
| DownloadNames.MembersSorted | packages/contracts/src/filename-policy.ts:160 | Members are sorted by sort order, then id, and none is lost. |
| DownloadNames.OrderExact | packages/contracts/src/filename-policy.ts:160 | The smaller sort order comes first, and among equals the smaller id. |
| DownloadNames.MemberOrderIrrelevant | packages/contracts/src/filename-policy.ts:160 | With distinct ids the order in which members are listed does not matter. |
| DownloadNames.LongerNameKeepsBase | packages/contracts/src/filename-policy.ts:75-78 | Putting an underscore or the extension behind a neat component never makes its base name reserved. |
| DownloadNames.FullNameIsNeat | packages/contracts/src/filename-policy.ts:159-166 | The joined name has no fault but possibly its length, for every title and member list. |
| DownloadNames.FullNameExact | packages/contracts/src/filename-policy.ts:159-166 | The full name is the title, each member's name and then student id with underscores before them, and the extension. |
| DownloadNames.BuildGameDownloadFilename | packages/contracts/src/filename-policy.ts:155-173 | The name passes validation for every title and member list; the fallback is used exactly when the full name exceeds 255 bytes. |
| DownloadNames.ExtendedNameDecodes | packages/contracts/src/filename-policy.ts:175-184 | The filename* value always exists, uses only attr-char and escapes (section 3.2.1 of RFC 5987), and decodes to the cleaned name, which is neat. |
| UriComponent.TwoPasses | packages/contracts/src/filename-policy.ts:175-179 | Escaping some more characters in a second pass over encoded text is one pass that keeps fewer. |
| UriComponent.EscapeEscapes | apps/api/src/shared/public-origin.ts:3-7 | Encoded text consists of kept characters and upper-case escapes only (sections 2.1 and 2.3 of RFC 3986). |
| UriComponent.RoundTrip | apps/api/src/shared/public-origin.ts:3-7 | Decoding undoes encoding on all text without lone surrogates. |
| UriDecoding.DecodeExact | apps/api/src/shared/public-origin.ts:43-56 | A text decodes exactly if every escape in it belongs to the shortest octets of a scalar value (section 3 of RFC 3629), and then to what they mean. |
| UriDecoding.KeptExact | apps/api/src/shared/public-origin.ts:4 | The characters that encoding leaves alone, in letters (section 2.3 of RFC 3986). |
| UriDecoding.HexDigitsExact | apps/api/src/shared/public-origin.ts:43-56 | Hex digits of either case are read. |
| PublicObjects.PublishedExactly | apps/api/src/shared/public-origin.ts:23-35 | A key is published exactly when it has no backslash, NUL, empty or dot segment and no lone surrogate, and at most 1024 UTF-8 bytes; the URL is then the origin, a slash and the key's path. |
| PublicPaths.KeyExact | apps/api/src/shared/public-origin.ts:23-32 | The same character by character: no backslash or NUL, no lone surrogate, no "." or ".." between slashes, no slash at an end or beside another, at most 1024 octets. |
| PublicObjects.PathRoundTrip | apps/api/src/shared/public-origin.ts:54-66 | Without a raw URL, the path of a published key comes back as the key. |
| PublicObjects.UrlsDistinct | apps/api/src/shared/public-origin.ts:23-35 | Distinct keys have distinct URLs. |
| PublicObjects.PathCharacters | apps/api/src/shared/public-origin.ts:30-34 | A published path uses only unreserved characters, escapes and slashes. |
| PublicObjects.NothingToNormalise | apps/api/src/shared/public-origin.ts:18-34 | Before decoding, a published path has no empty or dot segments for a proxy to rewrite. |
| PublicObjects.SafePathsAreKeys | apps/api/src/shared/public-origin.ts:60-66 | Whatever is let through has no dot or empty segments, backslash, NUL or leading slash. |
| PublicPaths.SafePathExact | apps/api/src/shared/public-origin.ts:54-66 | A path is let through exactly if what it decodes to, with its slashes straightened, is like a key, and as that. |
| PublicObjects.SafePublicRelativePath | apps/api/src/shared/public-origin.ts:37-67 | Stopping the decoding loop early, at text that decodes to itself, decides the same as decoding three times. |
| PublicPaths.RawUrlExact | apps/api/src/shared/public-origin.ts:38-53 | With a raw URL it is let through exactly if, besides, the raw path up to the query, decoded three times, has no NUL and no "." or ".." between slashes of either kind. |
| PublicObjects.OwnRawUrl | apps/api/src/shared/public-origin.ts:38-53 | With its own raw URL, a published path comes back as the key exactly when the mount and key, decoded twice more, decode and have no dot segment or NUL. |
| PublicObjects.PlainKeyComesBack | apps/api/src/shared/public-origin.ts:38-66 | With the raw URL, a key without percent signs always comes back. |
| PublicObjects.PercentKeyRefused | apps/api/src/shared/public-origin.ts:41-48 | The key "%" does not. |
| SourceIdentity.BlocksPartition | apps/web/src/lib/file-identity.ts:26-32 | The blocks partition the file, all but the last are full, none is empty, and their number is the size over 1048576, rounded up. |
| SourceIdentity.CountFits | apps/web/src/lib/file-identity.ts:38 | The block count fits its 32-bit field exactly for files of up to 2^32 - 1 blocks. |
| SourceIdentity.RootInputUnique | apps/web/src/lib/file-identity.ts:34-45 | The root input determines the size and all block digests, for sizes below 2^64. |
| SourceFormat.RootLayout | apps/web/src/lib/file-identity.ts:34-45 | The root input part by part: the name and a zero, the size in eight bytes, the block size and the number of blocks in four each, most significant byte first, and the digests in order. |
| SourceFormat.BlockExact | apps/web/src/lib/file-identity.ts:26-28 | Block n is the bytes from n * 1048576 up to the next multiple or the end. |
| SourceFormat.HexExact | apps/web/src/lib/file-identity.ts:6-8 | Two small hex letters a byte, the high half first. |
| SourceIdentity.SameIdentityIsCollision | apps/web/src/lib/file-identity.ts:20-54 | Two different files with the same identity give two different hash inputs with the same digest, found by comparing root inputs and then blocks; for any hash function with 32-byte results. |
| SourceIdentity.CreateFileSourceIdentity | apps/web/src/lib/file-identity.ts:20-54 | The loop over offsets and the buffers filled in place compute the specified identity and block digests. |

## Left out

- ObjectDeletion.Coordinator.DeletePrefixOrQueue: one abort signal for the whole call, as the coordinator passes it; a signal per operation (`createRequest`) is not modelled, nor are log entries and the contents of errors. The call is modelled with an empty log at its start.
- `deleteOrQueue` of the coordinator: deletes a given list of keys and queues it on failure; not modelled.
- Bucket.Storage.ListKeyPage: keys are strings of UTF-8 bytes, so that comparing characters is the service's order; encoding them is not part of this model.
- ReleaseFence: parsing of the command line, the patterns for exception fields, the scope, time and evidence checks of a receipt and the SQL of the authorization are one flag `valid` on a receipt and one flag `authorized` on a plan; the bucket registry is two flags. An alternate contract writes a valid receipt in the transaction that applies it.
- ReleaseFenceProofs.FenceHolds: images carry the alternate contracts outside the migrations directory, as the source's staging does, and never under a name of the main directory.
- ReleaseFenceReceipts.RunReceipted: images carry all three preparation migrations.
- ReleaseFence: status fields that are only printed, such as the list of completed migrations.
- ConnectionText.ParsedPrintsBack: the URL parser is reduced to the origin grammar the code accepts; whether it keeps a host as written, which address a text spells, which addresses count as unicast and the public-suffix table are parameters, restricted only by `Hosts.Reasonable`. Lower-casing is that of ASCII letters.
- ConnectionText.DraftAccepted: the run-time checks of mode, scope and port policy are the types of the draft's fields.
- IpTarget.NormalizeIpTarget: reading and printing address text is the address library's; an input is its bytes and prefix. The library's comparison of IPv6 parts of sixteen bits is modelled by bytes.
- ResourceOwner: timers that fire later than their time, and time that passes inside a synchronous stretch; values and errors are reduced to success and failure.
- SettingsStore: the retries and delays of `warmup` (each attempt is a reload), and the copies handed to callers; a value is represented by the version that was read.
- SettingsStore.FreshIffInOrder: is about the cache; a get that joins a load begun before an invalidation may return that load's older value.
- ClaimNames.RunKeeps: the claim is modelled on values, as a state machine whose steps are the file-system operations, because the writer, the disk and a crash may come between any two of them; a method that runs through would not show those states. Durability of a file's contents, writes through open handles, changes to the claimed file's own metadata and what is done after a crash are not modelled.
- DownloadLimiter.DownloadRateLimiter.Check: the clock does not go backwards, the maxima are at least one, and the limiter is open; the client address comes normalised, as `IpTarget` models it. Scheduling of the sweep is not modelled.
- ControlLimiter.DirectControlPrincipalLimiter.Check: the clock does not go backwards. Keys are values of a datatype instead of concatenated strings.
- ByteLimiter.Pipe: back-pressure and the stream's own error events; detection of file types is a parameter that may fail.
- SanitizedNames.SanitizedIsNeat: Unicode normalisation is a parameter; the texts of reasons are left out.
- DownloadNames.ExtendedNameDecodes: the constant part of the header around the value.
- PublicObjects.PublishedExactly: the origin is given in normalised form; parsing it is the URL library's.
- SourceIdentity.CreateFileSourceIdentity: abort signals; the hash function is a parameter.
- Web framework, database client, object-store client and schema plumbing, user interface, deployment scripts, visibility and capacity tables: none of these is modelled.
