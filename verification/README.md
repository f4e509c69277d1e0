# Kuku: verified models

Seven parts of Kuku, each modelled in Dafny and proved to have the properties its callers rely on. The statements
range over every input, every run or every interleaving; where the code misses a property there is a counterexample
and the exact condition under which it holds.

| part | modules |
|---|---|
| Sync server: commit log, uploads, byte counters, garbage collection | `SyncTypes`, `SyncCommits`, `SyncStorage`, `SyncLedger`, `SyncGraph`, `SyncLog`, `SyncServer`, `SyncInvariant`, `SyncTheorems`, `SyncOutcomes`, `SyncAnswers`, `SyncService` |
| Plugin system: dependency sort, activation, bootstrap | `PluginGraph`, `Plugins` |
| Calendar arithmetic and RFC 3339 text | `Calendar`, `Rfc3339`, `Rfc3339Text` |
| Chat history compaction and the turn loop | `Compaction`, `CompactionOutcomes`, `ChatSession` |
| Text chunker | `Chunker` |
| Wikilink extraction | `Wikilinks`, `WikilinkRoundTrip`, `WikilinkDocuments` |
| Query strings and token refresh | `QueryParams`, `QueryStrings`, `TokenRefresh`, `TokenTrace` |

`Wrappers`, `Text`, `Utf8` and `Sums` hold what the parts share. `dafny verify dfyconfig.toml` checks everything.

## How the parts are modelled

**Sync server.** A database value holds workspaces, commits, links, objects, devices, cursors, usage rows, accounts and,
beside the rows, the blobs in the object store. Each call is one transaction: `SyncServer` gives it as a function from a
database and a request to a database and an answer, and `SyncService.Service` is the object whose methods run the loops
of the source on a copy and commit at the end, proved equal to those functions. `SyncAnswers` and `SyncOutcomes` say of
each call when it succeeds, why it fails and what it changes, by conditions on the rows before it. A run is any sequence of calls, legal or
refused, by any users, with any clock. What the environment decides is an argument: drawn ids, the clock, which blobs the
store fails on, which rows are locked, how many identity values were burnt. Sequence numbers come from an identity column
and therefore rise across the whole database. Hashing and Ed25519 verification (RFC 8032, section 5.1.7) are arbitrary
functions; the signed JSON text is taken to be injective in its fields. The orphan query selects reserved, pending and
failed rows only, so that it never meets a published object follows from the invariant, not from the query.

**Plugins.** `DependencySearch` has the variables of the nested search function, `Registry` those of the registry. A
plugin's activation hook either always throws or never does, and the activations of one bootstrap run one by one.

**Calendar and RFC 3339.** Integers are unbounded and the `as i32` cast of the year is written out. Parsing a date before
1970 makes the unsigned seconds overflow, which is the outcome `Overflow`.

**Compaction.** Sizes are UTF-8 byte lengths. The untruncated summary text is an arbitrary function of the omitted
messages. `ChatSession.Session` pushes the messages of a run for any behaviour of model and tools, cancellations included.

**Chunker and wikilinks.** Text is a sequence of Unicode scalar values, as in the source. The wikilink loops are proved
against recursive definitions on the text that remains, and those against documents built from segments; every text is
such a document.

**Query strings.** A string is its UTF-8 bytes. Replacement of invalid UTF-8 is an arbitrary function that is never
applied to valid text. Slicing at a byte that is no character boundary panics.

**Token refresh.** Every access to the token store, the lock and the server is one step, and the steps of all callers,
logins, logouts and the server interleave freely. Replies may be lost before or after the server handled the request, and
the storage may fail. `TokenTrace` tells what callers saw, looked at, called, stored and returned.

## Where the code departs from what one would expect

- `percent_decode` panics on some valid strings (`QueryParams.DecodePanicsExactly`).
- `append_query_param` changes the fragment when the key holds a "#" (`QueryParams.FragmentUnchanged`), and can lose a
  parameter that was read out of a fragment holding a "?" (`QueryParams.OthersUnchangedExactly`).
- `parse_rfc3339` reads 30 February as a day in March except in years divisible by 400 (`Calendar.AnyDayOfMonth`), and
  texts with a year before 1970 overflow (`Rfc3339.ParsesExactly`).
- A lost reply leaves a consumed refresh token stored (`TokenRefresh.LostReplyStrandsTheStore`), and a failed write lets
  an exchanged one be presented again (`TokenRefresh.FailedWriteRepeatsToken`). Both are characterised token by token in
  every run (`TokenRefresh.StoredIsConsumedExactly`, `TokenRefresh.PresentedAgainExactly`).

## Model

| member | source | states |
|---|---|---|
| `SyncTheorems.Restorability` | apps/server/internal/sync/commit.go:308-357 | after any run of calls, every published commit has all its objects available with the right kind and their blobs stored, under the local store with the size and hash of their rows; with a head, the preserved set holds a checkpoint and an available checkpoint pack it refers to |
| `SyncTheorems.LinearHistory` | apps/server/internal/sync/commit.go:120-142 | after any run, the walk along expected heads lists every commit once with strictly falling server sequences and ends at a parentless checkpoint; all commits are reachable from the head, parent paths never return, and the sequence numbers of a device rise with the server sequence |
| `SyncTheorems.PreservedIsNewestStretch` | apps/server/internal/sync/gc.go:214-246 | after any run, the preserved commits are exactly the walk from the head to the newest checkpoint inclusive, and the old reachable history is exactly the rest, newest first |
| `SyncTheorems.BytesConservedAndBounded` | apps/server/internal/sync/quota.go:18-44 | after any run, each cached counter equals the sum over the objects it caches, each lies within its quota, as does each single object, and a recalculation is the identity |
| `SyncTheorems.ExactlyOnce` | apps/server/internal/sync/commit.go:63-118 | replaying an accepted request after any later run returns the stored commit as idempotent and changes nothing; any other request for that commit id is refused and changes nothing |
| `SyncTheorems.EveryCommitIsSigned` | apps/server/internal/sync/commit.go:130-151 | after any run, every stored commit is signed: a device of the owner with a key of 32 bytes signed the workspace, the commit id and every field of its row |
| `SyncTheorems.RowsAgree` | apps/server/internal/sync/commit.go:183-218 | after any run, a commit has the parents its kind allows and is linked to exactly its body and references under the roles of their kinds, and each cursor names the newest commit and checkpoint of its device, to whose number the device counts |
| `SyncAnswers.PublishAnswers` | apps/server/internal/sync/commit.go:119-231 | a new commit is accepted exactly when it expects the head, comes in sequence from a device of the caller that signed it, has parents that fit and are known, and is restorable; it then becomes the head, and its row, links, device and cursor change and nothing else; a refusal changes nothing and gives the reason that fits |
| `SyncAnswers.PublishRejects` | apps/server/internal/sync/commit.go:46-66 | a request that cannot be normalised, or that is not by the owner, changes nothing |
| `SyncAnswers.RefusalIsExact` | apps/server/internal/sync/commit.go:119-158 | each refusal is given for its own reason, with all earlier checks passed |
| `SyncAnswers.OnlyOwnersWrite` | apps/server/internal/sync/service.go:698-719 | no call changes a workspace but the one it names, and that only for its owner and from one of its devices, nor any account but the caller's |
| `SyncAnswers.GcAnswers` | apps/server/internal/sync/gc.go:126-179 | in terms of the database before and after: a dry run changes no workspace and deletes nothing; a real run succeeds iff every blob can be deleted, and then marks exactly the listed rows, all past their deadline, deleted and drops exactly their blobs; a failed one leaves all rows and counters |
| `SyncAnswers.RecalculateAnswers` | apps/server/internal/sync/quota.go:46-77 | whatever the counters were, a recalculation sets those of the workspace and the account of its owner to the sums and answers with the former |
| `SyncAnswers.DirectAnswers` | apps/server/internal/sync/service.go:566-663 | a direct upload succeeds exactly for bytes of the announced length and hash, within the quotas, for a reserved, pending or equal available object of the local store; the object is then available with both, and the store holds them |
| `SyncAnswers.DirectReasons` | apps/server/internal/sync/service.go:566-663 | each error of a direct upload is given exactly for its own reason |
| `SyncAnswers.ReserveAnswers` | apps/server/internal/sync/service.go:504-554 | 1 to 100 well-formed requests from a device of the owner get one reserved row each, with kind, driver, owner and deadline; other rows stay; and the first request at fault decides the error |
| `SyncAnswers.UploadAnswers` | apps/server/internal/sync/presign.go:54-96 | an upload batch is looked at for 1 to 100 objects, a named attempt, the S3 driver and a device of the owner; its outcome is then that of the batch |
| `SyncAnswers.CompletionAnswers` | apps/server/internal/sync/presign.go:216-246 | the same for a completion batch |
| `SyncAnswers.CreateWorkspaceAnswers` | apps/server/internal/sync/service.go:184-224 | a workspace is created iff its crypto version is named, the caller has fewer than the maximum and its id is new; it is empty and counts |
| `SyncAnswers.RegisterDeviceAnswers` | apps/server/internal/sync/service.go:329-349 | a device is registered iff its key has 32 bytes, the workspace is the caller's and its id is new |
| `SyncTheorems.PublishedForever` | apps/server/internal/sync/service.go:803-818 | no later call changes a published commit or an available object |
| `SyncTheorems.AcceptedRow` | apps/server/internal/sync/commit.go:162-230 | an accepted request has the row of its normalised form in the log, and the answer is that row |
| `SyncTheorems.OrphansAreUnpublished` | apps/server/sql/queries/sync.sql:508-517 | after any run, no row that the orphan query may return belongs to a published commit, although the query does not look at the links |
| `SyncTheorems.DeleteOrphansOutcome` | apps/server/internal/sync/gc.go:146-164 | a collection succeeds iff every blob can be deleted; it then marks exactly the listed rows deleted and removes exactly their blobs, and otherwise it changes no row |
| `SyncInvariant.ReachableInv` | apps/server/internal/sync/service.go:803-818 | the invariant (exact counters, quotas, linear log, available references) holds in every state that any sequence of calls reaches |
| `SyncInvariant.ApplyKeepsInv` | apps/server/internal/sync/service.go:803-818 | every single call keeps the invariant and takes back no commit and no available object |
| `SyncInvariant.RunKeepsInv` | apps/server/internal/sync/service.go:803-818 | so does every sequence of calls from any invariant state |
| `SyncInvariant.PublishKeepsInv` | apps/server/internal/sync/commit.go:46-233 | publishing keeps the invariant whatever the request: fresh, repeated, stale or invalid |
| `SyncInvariant.GcKeepsInv` | apps/server/internal/sync/gc.go:94-179 | garbage collection keeps the invariant for every answer of the orphan query, dry or not, and when a blob cannot be deleted |
| `SyncInvariant.DirectKeepsInv` | apps/server/internal/sync/service.go:566-663 | the direct upload keeps the invariant although it releases no pending bytes |
| `SyncInvariant.RecalculateChangesNothing` | apps/server/internal/sync/quota.go:46-77 | in every invariant state, for every caller, a recalculation leaves the database as it is |
| `SyncInvariant.DeleteOrphansEffect` | apps/server/internal/sync/gc.go:151-163 | deleting orphans leaves the available bytes and every available row alone, and frees pending bytes only |
| `SyncOutcomes.UploadBatchOutcome` | apps/server/internal/sync/presign.go:97-206 | after a successful upload batch each requested object was reserved or pending and owned by the device, and is pending under the requested descriptor with a new deadline; no other object changed |
| `SyncOutcomes.UploadBatchAnswers` | apps/server/internal/sync/presign.go:97-206 | a batch is granted iff each request can be, no object is named twice, the fresh bytes are within all three quotas and every object is signed; otherwise the first of these that fails is the error |
| `SyncOutcomes.ScanUploadAnswers` | apps/server/internal/sync/presign.go:98-158 | one upload request passes iff it is well formed, within the size limit, and for an object of this device, kind and driver that is reserved, or pending with the same descriptor and in time; each error has its own reason |
| `SyncOutcomes.CompletionBatchOutcome` | apps/server/internal/sync/presign.go:247-358 | a completion batch settles each object by its own request alone: available iff the upload is in time and matches the row and the store, otherwise failed for the reason that explains it; no other object changed |
| `SyncOutcomes.CompletionBatchReport` | apps/server/internal/sync/presign.go:228-365 | the results list, request by request, the row and the reason each object has at the end of the batch |
| `SyncOutcomes.CompletionBatchAnswers` | apps/server/internal/sync/presign.go:247-358 | a batch is settled iff each request can be and no object is named twice; otherwise the first that cannot is the error |
| `SyncOutcomes.CompleteOneAnswers` | apps/server/internal/sync/presign.go:248-300 | one completion is settled iff it is well formed and for a pending object of the device, or an available one as described, whose store answers when asked; each error has its own reason |
| `SyncOutcomes.ReservationOutcome` | apps/server/internal/sync/service.go:517-546 | each request gets a row of its own; every other row stays |
| `SyncOutcomes.ReservationSucceeds` | apps/server/internal/sync/service.go:517-546 | reservation succeeds iff every request is well formed and the drawn ids are new |
| `SyncOutcomes.OneReason` | apps/server/internal/sync/presign.go:283-334 | an upload has a reason to fail iff it is unsound, and no two reasons fit one upload |
| `SyncOutcomes.CompleteOneOutcome` | apps/server/internal/sync/presign.go:273-357 | the same for one request, with the checks it passes and the result it reports |
| `SyncCommits.NormalizeIsProjection` | apps/server/internal/sync/commit.go:235-270 | normalisation yields only normal requests, fixes exactly those, and is idempotent |
| `SyncCommits.NormalizeForgetsReferenceOrder` | apps/server/internal/sync/commit.go:471-475 | permuting the referenced objects does not change the normalised request |
| `SyncCommits.NormalizeForgetsPadding` | apps/server/internal/sync/commit.go:235-270 | spaces around ids and digest, and the case of the digest, make no difference |
| `SyncCommits.NormalizeErrors` | apps/server/internal/sync/commit.go:235-270 | which requests can be normalised, and which error the others get |
| `SyncCommits.PayloadIsInjective` | apps/server/internal/sync/commit.go:373-391 | the signed payload names every field of the request |
| `Text.TrimForgetsPadding` | apps/server/internal/sync/commit.go:235-270 | trimming forgets the spaces around a text |
| `Text.HexDigitsAre` | apps/server/internal/sync/service.go:736-748 | the characters of a digest, in either case |
| `SyncCommits.StoredRowMatchesOnlyItself` | apps/server/internal/sync/commit.go:373-419 | the payload rebuilt from a stored row matches a second request for the same commit iff that request is equal in every field and in the signature |
| `SyncCommits.ObjectsErrorIsExact` | apps/server/internal/sync/commit.go:308-357 | object validation accepts a commit iff its body and references are available with the right kinds, hash and size, and a checkpoint has a checkpoint pack |
| `Text.SortedIsCanonical` | apps/server/internal/sync/commit.go:471-475 | a multiset of strings has one sorted listing |
| `SyncLog.AppendKeepsLog` | apps/server/internal/sync/commit.go:158-231 | an admitted commit extends the log and keeps every property of it |
| `SyncLog.AllCommitsReachable` | apps/server/internal/sync/commit.go:272-306 | on a log, every commit is reachable from the head through parents |
| `SyncLog.ParentsDescend` | apps/server/internal/sync/commit.go:295-304 | the server sequence falls strictly along every parent path |
| `SyncLog.ListingIsHistory` | apps/server/sql/queries/sync.sql:421-424 | the newest-first listing of a log is the walk along expected heads |
| `SyncLog.GraphOfLog` | apps/server/internal/sync/gc.go:205-246 | on a log, preserved and old history are the two parts of the walk, split at the newest checkpoint |
| `SyncGraph.SyncReachableGraph.VisitReachableCommits` | apps/server/internal/sync/gc.go:250-265 | on any parent graph, cyclic ones included, the walk ends; what it marks is reachable from its start and closed under known parents |
| `SyncGraph.SyncReachableGraph.CollectReachable` | apps/server/internal/sync/gc.go:207-207 | from no marks, it marks exactly the known commits reachable from the head |
| `SyncGraph.ClosedReachableIsExact` | apps/server/internal/sync/gc.go:250-265 | a set of reachable commits that holds the start and is closed under parents is the whole reachable set |
| `SyncGraph.SyncReachableGraph.Build` | apps/server/internal/sync/gc.go:183-248 | the reachable, preserved and old-history parts, and the objects of each |
| `SyncGraph.LatestCheckpointIsNewest` | apps/server/internal/sync/checkpoint.go:32-39 | the first checkpoint of the newest-first listing is the one with the largest server sequence; there is none iff no commit is a checkpoint |
| `SyncGraph.FindLatestCheckpoint` | apps/server/internal/sync/checkpoint.go:32-50 | the search loop computes that checkpoint |
| `SyncGraph.IndexObjects` | apps/server/internal/sync/gc.go:184-196 | the index holds, for every commit, the objects of its links and fields |
| `SyncGraph.AddCommitFieldObjects` | apps/server/internal/sync/gc.go:267-279 | body and references join the index entry of their commit |
| `SyncLedger.ReserveKeeps` | apps/server/internal/sync/service.go:517-546 | reserving keeps counters, ceilings and available rows |
| `SyncLedger.MarkAllPendingEffect` | apps/server/internal/sync/presign.go:185-206 | marking a batch pending raises the pending sum by exactly the bytes of its reserved objects; objects presigned again add nothing |
| `SyncLedger.CreateUploadsKeeps` | apps/server/internal/sync/presign.go:97-206 | an upload batch moves the counters by exactly what its rows move and stays within the quotas |
| `SyncLedger.CompleteOneKeeps` | apps/server/internal/sync/presign.go:247-358 | so does one completion, in every outcome |
| `SyncLedger.CompleteAllKeeps` | apps/server/internal/sync/presign.go:247-358 | so does a completion batch |
| `SyncLedger.UploadDirectKeeps` | apps/server/internal/sync/service.go:599-661 | so does a direct upload |
| `SyncLedger.LocalHasNoPendingBytes` | apps/server/internal/sync/local_store.go:13-73 | with the local store nothing is ever pending |
| `SyncLedger.CountersNonNegative` | apps/server/sql/migrations/00005_sync.sql:205-218 | the check constraints on the counters never fire, and no object outweighs its counter |
| `SyncService.Service.PublishCommit` | apps/server/internal/sync/commit.go:46-233 | database and answer are those of the specification, for every request; the invariant is kept, no commit or available object is taken back, and a refused request changes nothing |
| `SyncService.Service.CreateObjectUploadBatch` | apps/server/internal/sync/presign.go:54-214 | likewise |
| `SyncService.Service.CompleteObjectUploadBatch` | apps/server/internal/sync/presign.go:216-366 | likewise |
| `SyncService.Service.ReserveObjectIds` | apps/server/internal/sync/service.go:504-554 | likewise |
| `SyncService.Service.UploadObjectBytesDev` | apps/server/internal/sync/service.go:566-663 | likewise |
| `SyncService.Service.CreateWorkspace` | apps/server/internal/sync/service.go:184-224 | likewise |
| `SyncService.Service.RunWorkspaceGC` | apps/server/internal/sync/gc.go:79-181 | database and answer are those of the specification and the invariant is kept; the report counts the exact reachable and preserved sets, lists as deleted all orphans or, in a dry run, none, and gives the usage before and after, equal when nothing is deleted |
| `SyncService.Service.RecalculateSyncUsage` | apps/server/internal/sync/quota.go:46-77 | likewise |
| `SyncService.DeleteObjects` | apps/server/internal/sync/gc.go:150-163 | the loop deletes blob and row of each orphan in turn and stops at the first failure |
| `SyncService.ReportOn` | apps/server/internal/sync/gc.go:115-140 | the report counts the exact reachable and preserved sets |
| `SyncService.NormalizeParams` | apps/server/internal/sync/commit.go:235-270 | the loops compute the normal form or the first error |
| `SyncService.FindDuplicate` | apps/server/internal/sync/commit.go:477-486 | true iff two positions hold the same value |
| `SyncService.TrimIds` | apps/server/internal/sync/commit.go:460-469 | the trimmed, non-empty ids in order |
| `SyncService.CheckRefs` | apps/server/internal/sync/commit.go:341-352 | the first offending reference decides the error; the flag tells whether a checkpoint pack is among them |
| `SyncService.ValidateObjects` | apps/server/internal/sync/commit.go:308-357 | the error of the specification, which is none exactly for restorable commits |
| `SyncService.LinkRefs` | apps/server/internal/sync/commit.go:187-196 | one link for each referenced object |
| `SyncService.ListCommitsDesc` | apps/server/sql/queries/sync.sql:421-424 | every commit once, by falling server sequence |
| `SyncService.RecalculateUsage` | apps/server/sql/queries/sync.sql:361-386 | the three sums over the objects of a workspace |
| `SyncService.RecalculateAccount` | apps/server/sql/queries/sync.sql:388-412 | the sums over the workspaces of a user |
| `Plugins.ValidateAndTopologicalSort` | apps/desktop/src/plugins/registry.ts:356-397 | the order lists every registered plugin once on any graph; a circular dependency is reported iff the registered graph has a cycle; each reported chain is a dependency walk that ends in a plugin it has passed; without a cycle every registered dependency comes first |
| `Plugins.DependencySearch.Visit` | apps/desktop/src/plugins/registry.ts:372-390 | the search keeps: visited is the order, the stack is a dependency walk, each reported chain closes on itself, and without a report the order is topological; a plugin on the stack is reported with the whole stack, any other is ordered last |
| `Plugins.MissingErrorsExact` | apps/desktop/src/plugins/registry.ts:362-369 | a missing dependency is reported for exactly the declared, unregistered ones |
| `PluginGraph.TopologicalHasNoCycle` | apps/desktop/src/plugins/registry.ts:356-397 | a graph with a complete topological order has no cycle |
| `Plugins.Registry.Bootstrap` | apps/desktop/src/plugins/bootstrap.ts:99-140 | the activated list is the least set of registered, enabled, non-throwing plugins with all dependencies in it, without repeats, dependencies first; exactly the other enabled plugins are marked failed; each plugin is as first listed |
| `Plugins.Registry.ActivateAll` | apps/desktop/src/plugins/bootstrap.ts:125-140 | one attempt per plugin activates exactly what can activate, on cyclic graphs too |
| `Plugins.Registry.Activate` | apps/desktop/src/plugins/registry.ts:115-217 | activation succeeds iff the plugin is in that least set, and has activated its dependencies before it |
| `Plugins.Registry.Register` | apps/desktop/src/plugins/registry.ts:75-100 | the first registration of an id wins |
| `Plugins.FirstWins` | apps/desktop/src/plugins/registry.ts:75-82 | a plugin is registered iff it is listed, as its first listing has it |
| `Plugins.Registry.LoadDisabled` | apps/desktop/src/plugins/bootstrap.ts:169-171 | exactly the chosen plugins that are registered and may be disabled |
| `PluginGraph.ActivatableIsLeastFixedPoint` | apps/desktop/src/plugins/registry.ts:141-146 | the set reached by iterating activation from nothing is the least fixed point |
| `PluginGraph.CycleNeverActivates` | apps/desktop/src/plugins/registry.ts:128-134 | a plugin on a dependency cycle is in no level of that iteration |
| `Calendar.Bijection` | apps/desktop/src-tauri/src/auth.rs:392-420 | the two conversions undo each other: from a day number iff its year fits the i32 it is cast to, and from every valid date with such a year |
| `Calendar.Successor` | apps/desktop/src-tauri/src/auth.rs:392-405 | consecutive day numbers are consecutive dates under the leap-year rule of RFC 3339, appendix C, and the month lengths of section 5.7 |
| `Calendar.WideBijection` | apps/desktop/src-tauri/src/auth.rs:392-420 | the same for all integers before the cast of the year |
| `Calendar.WideSuccessor` | apps/desktop/src-tauri/src/auth.rs:392-405 | the same succession for all integers before the cast |
| `Calendar.AnyDayOfMonth` | apps/desktop/src-tauri/src/auth.rs:407-420 | what each day 1 to 31 of each month converts to: itself iff the date is valid; otherwise a day of the next month, or nothing for 30 and 31 February of a year divisible by 400 |
| `Calendar.YearFitsExactly` | apps/desktop/src-tauri/src/auth.rs:404-404 | the exact range of day numbers whose year survives the cast |
| `Calendar.DayZero` | apps/desktop/src-tauri/src/auth.rs:392-420 | day 0 is 1970-01-01 |
| `Rfc3339.RoundTrip` | apps/desktop/src-tauri/src/auth.rs:352-390 | for every time: printing and parsing returns it, cut to whole seconds, iff its year fits an i32; a time before the epoch counts as the epoch |
| `Rfc3339.ParsesExactly` | apps/desktop/src-tauri/src/auth.rs:366-390 | for every text, by its fields: rejected, an overflow iff they are in range, have a day number and lie before 1970, or else a time, which is that of the day the date stands for |
| `Rfc3339Text.FormatIsExact` | apps/desktop/src-tauri/src/auth.rs:352-364 | for every time, the printed text is its year, of four digits up to 9999 and without a leading zero beyond, then fields of exactly two digits in their places |
| `Rfc3339Text.FormatUpTo9999` | apps/desktop/src-tauri/src/auth.rs:352-364 | up to the year 9999 the text has 20 characters, each of them given |
| `Rfc3339Text.TextOrderIsTimeOrder` | apps/desktop/src-tauri/src/auth.rs:352-364 | up to the year 9999, later times are printed as later texts |
| `Rfc3339Text.FieldsExactly` | apps/desktop/src-tauri/src/auth.rs:366-380 | the parser finds six fields in exactly the texts made of a date, T, a time and Z, passing over further fields of the date and the time |
| `Rfc3339.DatesParse` | apps/desktop/src-tauri/src/auth.rs:366-390 | a printed valid date from year 0 on parses to its time from 1970 on, and overflows before |
| `Rfc3339.AcceptedTimesReprint` | apps/desktop/src-tauri/src/auth.rs:352-390 | whatever text the parser accepts, printing its time gives text that parses to the same time |
| `Rfc3339.RenderParses` | apps/desktop/src-tauri/src/auth.rs:366-390 | printed fields are read back field by field; a negative year is rejected |
| `Rfc3339.PadReadsBack` | apps/desktop/src-tauri/src/auth.rs:363-363 | zero-padded decimal text reads back at every width |
| `Compaction.CompactHistoryForModel` | crates/kuku-ai/src/session.rs:582-632 | the loops keep the whole history, or the longest suffix from a user message within 65536 bytes that holds three user turns, or else the newest three turns; the summary fills only the room left |
| `Compaction.OutputIsBounded` | crates/kuku-ai/src/session.rs:582-632 | the output, summary pair included, is within 65536 bytes or within the size of the newest three turns |
| `CompactionOutcomes.CompactionOutcome` | crates/kuku-ai/src/session.rs:582-632 | with the limits written out: the history is returned if it has fewer than three user turns, at most 65536 bytes, or is three turns long; otherwise it is cut in front of the earliest user message within 65536 bytes, or at the newest three turns, behind a summary of what was cut |
| `CompactionOutcomes.SummaryIsExact` | crates/kuku-ai/src/session.rs:634-654 | the summary pair holds the rendered text, cut to the bytes that the two fixed texts leave, or is left out iff that is under 128 bytes or blank |
| `CompactionOutcomes.RequestIsBounded` | crates/kuku-ai/src/session.rs:582-632 | the encoded texts of the compacted request have at most 65536 bytes, or at most those of the newest three user turns |
| `CompactionOutcomes.BytesAreWire` | crates/kuku-ai/src/session.rs:901-938 | the size of a history is the number of bytes of its texts in UTF-8 |
| `CompactionOutcomes.EveryTextCounts` | crates/kuku-ai/src/session.rs:901-929 | one more character in any text of a message raises its size by the bytes of that character |
| `CompactionOutcomes.EveryTextOfCallCounts` | crates/kuku-ai/src/session.rs:931-938 | so does one in any text of a tool call, and a signature counts by its bytes |
| `CompactionOutcomes.EveryCallCounts` | crates/kuku-ai/src/session.rs:903-913 | each call of a reply counts with its own size |
| `CompactionOutcomes.EmptyTextsCountNothing` | crates/kuku-ai/src/session.rs:901-938 | a message or call without text has size 0 |
| `CompactionOutcomes.UserTurnsAreCounted` | crates/kuku-ai/src/session.rs:593-611 | user turns are the user messages, counted |
| `Utf8.EncodedIsValid` | crates/kuku-ai/src/session.rs:901-929 | the encoding whose bytes are counted is well-formed UTF-8 (RFC 3629, section 4) |
| `Utf8.EncodingIsInjective` | crates/kuku-ai/src/session.rs:901-929 | and different texts have different encodings |
| `Compaction.CompactionIsDetermined` | crates/kuku-ai/src/session.rs:593-618 | that specification has one result, and a history within the cap is unchanged |
| `Compaction.BuildHistorySummaryMessages` | crates/kuku-ai/src/session.rs:634-654 | the pair is built iff there is room for its fixed text and 128 bytes and the summary is not blank |
| `Compaction.SummaryFits` | crates/kuku-ai/src/session.rs:634-654 | the summary pair never exceeds its budget |
| `Compaction.TruncateTextBytes` | crates/kuku-ai/src/session.rs:875-899 | the loop computes the longest prefix that fits before the ellipsis |
| `Compaction.TruncatedIsMaximal` | crates/kuku-ai/src/session.rs:875-899 | truncation leaves alone what is within the limit; otherwise it gives the longest prefix that leaves room for the ellipsis |
| `ChatSession.Session.RunTurn` | crates/kuku-ai/src/session.rs:356-476 | for every behaviour of model and tools: the history grows by exactly the messages of the turn and stays free of orphaned results, and each of its requests is the compaction of the history as it stood, orphans no tool result and ends with the whole turn so far |
| `ChatSession.Session.PushRound` | crates/kuku-ai/src/session.rs:447-473 | one round pushes its reply and its results up to the first call that ends the run |
| `ChatSession.RunGoesOnExactly` | crates/kuku-ai/src/session.rs:372-476 | a run goes on exactly while its last reply had calls, all answered, and the limit is not reached; each request adds what the round before it pushed |
| `ChatSession.ResultsExactly` | crates/kuku-ai/src/session.rs:460-473 | the results are those of the calls handled before the first that ends the run, field by field |
| `ChatSession.PushedExactly` | crates/kuku-ai/src/session.rs:447-473 | a round pushes its reply, unless empty, and the results |
| `ChatSession.CompactionKeeps` | crates/kuku-ai/src/session.rs:582-632 | compaction orphans no tool result and keeps the last user message and all that follows it |
| `ChatSession.RoundKeepsAnswers` | crates/kuku-ai/src/session.rs:447-473 | a round leaves every tool result behind the message that carries its call, with no user message between |
| `Chunker.SplitChunkText` | crates/kuku-indexer/src/chunk.rs:9-60 | up to 1000 characters give one trimmed part; longer text gives the trimmed, non-empty texts of its windows, which start at 0, end at the last character and overlap by 100 |
| `Chunker.FindWindowEnd` | crates/kuku-indexer/src/chunk.rs:20-45 | the two searches together find the last sentence boundary beyond the overlap |
| `Chunker.WindowsEndSentences` | crates/kuku-indexer/src/chunk.rs:1-58 | with the limits and the seven sentence ends written out: where each window begins and ends |
| `Chunker.PartsJoin` | crates/kuku-indexer/src/chunk.rs:47-51 | the parts of a list of windows are those of its pieces in order, each the text of a window without the spaces around it |
| `Chunker.EveryCharacterKept` | crates/kuku-indexer/src/chunk.rs:47-51 | every non-space character of the text lies in a part |
| `Chunker.TwoStepsAdvance` | crates/kuku-indexer/src/chunk.rs:17-57 | any two steps move the end by at least 900 or reach the end of the text |
| `Chunker.PartsAreLinear` | crates/kuku-indexer/src/chunk.rs:17-60 | at most 2*ceil((n-101)/900)+1 parts |
| `Chunker.OverlapIsExact` | crates/kuku-indexer/src/chunk.rs:53-58 | neighbouring windows share exactly 100 characters, starts and ends rise strictly, and no window exceeds 1000 |
| `Chunker.WindowsAreUnique` | crates/kuku-indexer/src/chunk.rs:17-58 | the windows of a text are determined by the text |
| `Wikilinks.ExtractWikilinks` | crates/kuku-indexer/src/wikilink.rs:10-21 | the loops compute the scan of the masked text, numbered from 0 |
| `Wikilinks.MaskCodeRegions` | crates/kuku-indexer/src/wikilink.rs:23-50 | the index-driven loop computes the masking, on every text |
| `Wikilinks.MaskFencedBlock` | crates/kuku-indexer/src/wikilink.rs:70-98 | it masks up to and including the first closing line, or to the end |
| `Wikilinks.FindBacktickRun` | crates/kuku-indexer/src/wikilink.rs:110-119 | it finds the first run of at least the given length |
| `Wikilinks.CountRun` | crates/kuku-indexer/src/wikilink.rs:100-108 | the number of leading occurrences |
| `Wikilinks.ScanTextForWikilinks` | crates/kuku-indexer/src/wikilink.rs:125-174 | the index-driven loop computes the scan, on every text |
| `Wikilinks.ScanCandidate` | crates/kuku-indexer/src/wikilink.rs:134-166 | the inner loop finds the first "]]" before any line break, and the first separator before it |
| `WikilinkRoundTrip.RoundTrip` | crates/kuku-indexer/src/wikilink.rs:10-174 | rendering any good document and extracting returns exactly its links outside code, in order, numbered 0 to n-1; a document is made of plain text (with unmatched backticks and unclosed brackets), inline code, fences, a last fence that is never closed, and links that may hold code or be blank |
| `WikilinkDocuments.EveryTextIsADocument` | crates/kuku-indexer/src/wikilink.rs:10-174 | every text is the rendering of such a document, so the round trip leaves no text out |
| `WikilinkRoundTrip.MaskKeepsLayout` | crates/kuku-indexer/src/wikilink.rs:23-50 | on every text, masking keeps the length and every line break and changes other characters only to spaces |
| `WikilinkRoundTrip.LinksAreClean` | crates/kuku-indexer/src/wikilink.rs:125-191 | on every text, extracted targets and aliases are trimmed, non-empty and on one line, and no target holds a separator |
| `WikilinkRoundTrip.MaskOfDocument` | crates/kuku-indexer/src/wikilink.rs:23-98 | masking a rendered document blanks exactly its fences and inline code |
| `WikilinkRoundTrip.ScanOfDocument` | crates/kuku-indexer/src/wikilink.rs:125-174 | scanning what masking leaves of a document finds exactly its links |
| `QueryParams.PercentRoundTrip` | apps/desktop/src-tauri/src/auth_commands.rs:516-546 | decoding undoes encoding on every UTF-8 string |
| `QueryStrings.EncodesByteByByte` | apps/desktop/src-tauri/src/auth_commands.rs:516-526 | letters, digits, "-", "_", "." and "~" stay; any other byte becomes a percent sign and two upper-case hexadecimal digits |
| `QueryStrings.PlainTextStays` | apps/desktop/src-tauri/src/auth_commands.rs:516-526 | text of unreserved characters is encoded as itself |
| `QueryStrings.DecodesExactly` | apps/desktop/src-tauri/src/auth_commands.rs:528-546 | a text of plain bytes, plus signs, escapes and percent signs that begin none decodes to their values in order |
| `QueryStrings.PiecesOf` | apps/desktop/src-tauri/src/auth_commands.rs:528-546 | every text is made of such pieces unless decoding it panics |
| `QueryStrings.LookupFindsFirst` | apps/desktop/src-tauri/src/auth_commands.rs:489-501 | a lookup gives the decoded value of the first parameter with the name, and nothing when there is none |
| `QueryStrings.PairsOf` | apps/desktop/src-tauri/src/auth_commands.rs:494-496 | every query is made of such parameters |
| `QueryStrings.LookupInUrl` | apps/desktop/src-tauri/src/auth_commands.rs:489-493 | the parameters are those between the first "?" and the "#" behind it |
| `QueryParams.PercentEncode` | apps/desktop/src-tauri/src/auth_commands.rs:516-526 | the loop computes the encoding |
| `QueryParams.PercentDecode` | apps/desktop/src-tauri/src/auth_commands.rs:528-546 | the loop computes the decoding, or panics where a slice would cut a character |
| `QueryParams.EncodedBytes` | apps/desktop/src-tauri/src/auth_commands.rs:519-523 | encoded text holds only unreserved characters of RFC 3986, section 2.3, and percent signs |
| `QueryParams.DecodePanicsExactly` | apps/desktop/src-tauri/src/auth_commands.rs:534-536 | decoding panics iff some percent sign is followed by two bytes that cannot be cut out of the string |
| `QueryParams.DecodePanics` | apps/desktop/src-tauri/src/auth_commands.rs:534-536 | a valid string on which it does |
| `QueryParams.LookupAfterAppend` | apps/desktop/src-tauri/src/auth_commands.rs:489-514 | every lookup after appending any key: a name found before the fragment keeps its value, any other is looked up in what was added, which for a key free of "&", "=" and "#" holds the appended value and nothing else |
| `QueryParams.AppendedIsFound` | apps/desktop/src-tauri/src/auth_commands.rs:489-514 | a key absent before the fragment is found with its value iff it is free of "&", "=" and "#" |
| `QueryParams.OthersUnchangedExactly` | apps/desktop/src-tauri/src/auth_commands.rs:489-514 | for any key, a parameter that is not itself added is unchanged iff the query precedes the fragment or the parameter was not found |
| `QueryParams.FragmentUnchanged` | apps/desktop/src-tauri/src/auth_commands.rs:503-514 | for any key, the fragment is kept iff the key holds no "#", and the text before it always is |
| `QueryParams.FragmentParameterIsLost` | apps/desktop/src-tauri/src/auth_commands.rs:489-514 | a URL whose fragment holds a "?" and whose parameter is lost by appending |
| `TokenRefresh.AtMostOneCall` | apps/desktop/src-tauri/src/auth_commands.rs:361-400 | in every interleaving at most one refresh call is in flight |
| `TokenTrace.CallersFollow` | apps/desktop/src-tauri/src/auth_commands.rs:361-400 | in every run each caller follows the protocol: under the lock it looks again, calls the server with the token it had seen exactly when that is still stored and due, and otherwise returns what it finds without a call; what it returns after a call is an error or what is stored then |
| `TokenTrace.NobodyCallsBehind` | apps/desktop/src-tauri/src/auth_commands.rs:369-375 | in every run, once a stored token was replaced or cleared nobody presents it again, whoever had seen it |
| `TokenTrace.ReplacedExactly` | apps/desktop/src-tauri/src/auth_commands.rs:381-390 | a granted call stores and returns the successor exactly when no login or logout came between and the storage obeys; after a login or logout it returns what they left |
| `TokenTrace.CallsArePresentations` | apps/desktop/src-tauri/src/auth_commands.rs:381-381 | the calls of every run are the presentations to the server, in the same order |
| `TokenRefresh.PresentedAgainExactly` | apps/desktop/src-tauri/src/auth_commands.rs:369-391 | in every run, a token is presented after its exchange exactly when it is presented after the storage failed to take its successor |
| `TokenRefresh.LoginsAndLogoutsStand` | apps/desktop/src-tauri/src/auth.rs:105-130 | a refresh replaces or clears only the token it presented, and only if no login or logout came after it read that token |
| `TokenRefresh.StoredIsConsumedExactly` | apps/server/internal/auth/service.go:407-436 | in every state of every run with no call in flight, the stored token is consumed exactly when the reply to its own consumption was lost or its successor could not be stored |
| `TokenRefresh.RefusedExactly` | apps/server/internal/auth/service.go:410-420 | the server refuses a call exactly when its token has expired or was so spoilt |
| `TokenRefresh.ClearedExactly` | apps/desktop/src-tauri/src/auth_commands.rs:392-398 | a refresh clears the stored token exactly when its call was refused, no login or logout came between and the storage obeys; the token has then expired or was spoilt |
| `TokenRefresh.LostReplyStrandsTheStore` | apps/desktop/src-tauri/src/auth_commands.rs:380-398 | a run in which a lost reply leaves a consumed token stored |
| `TokenRefresh.FailedWriteRepeatsToken` | apps/desktop/src-tauri/src/auth_commands.rs:381-386 | a run in which a failed write lets an exchanged token be presented again |
| `TokenRefresh.RunKeepsInv` | apps/desktop/src-tauri/src/auth_commands.rs:361-400 | the protocol invariant holds in every state of every interleaving |

## Left out

- Workspace and account deletion and their cleanup, device revocation and metadata, key envelopes, downloads and the commit listing with its cursor: they touch none of the modelled rows, or act almost wholly inside one SQL statement.
- Row locks and isolation inside a transaction: each call is one step; rows that another transaction has locked are an input of the orphan query.
- 64-bit overflow of byte counters, sizes and sequence numbers: integers are unbounded.
- Storage keys, presigned URLs and the bytes of blobs: a blob is its size and digest under its object's id; the direct upload stores the digest it checked.
- The collation of the database: ids are ordered by code point, which affects only the order in which the rows of a query are visited.
- A change of the store driver between runs: one driver is fixed per run, as the argument that local objects are never pending needs.
- Partial writes of the object store: a failed Put leaves no blob, a failed Delete leaves the blob.
- Plugin contributions, disposers, contexts, deactivation and the markdown service; two activations running at once.
- The text of the history summary (its sections, counts and per-item limits): it is a parameter; only its size, truncation and place are modelled.
- Mutual exclusion of two runs of one chat session: one run at a time is assumed.
- Chunk metadata, heading paths and the rest of the indexer.
- The two compare-and-swap helpers of the token store are single steps of the machine, not methods: between any two of their callers' accesses other callers run.
- A refresh reply without tokens, which the client stores as empty strings, and the migration of tokens from the old file.
- Cancellation of a refresh while it waits, and the process ending in the middle of a call.
- Cryptography, JSON, HTTP, mail, OAuth, the user interface and configuration.
