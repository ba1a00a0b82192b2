# Verified model of the gateway's asset, limiter, reconciliation and storage logic

A Dafny model of the parts of an AI gateway whose logic is hardest to see from one function: the asset-list
engine and its page cache, the in-memory rate limiter, upstream model reconciliation, multi-key channels,
redaction and normalization of supplier responses, pinning of asset handles to one channel, replayable body
storage with its usage counters, and the Ogg page walk behind Opus durations.

Check the project with `dafny verify dfyconfig.toml`.

## How the model is laid out

Code that changes objects step by step is a class whose methods are proved equal to a specification function
on the object's value (`...Spec`, `...Step`, or the function named in the `ensures`); loops are loops with
invariants. Everything the source promises is then proved about those specification functions, as lemmas over
every input or every run.

| module | what it covers |
|---|---|
| `RateLimiter` | bounded queues with an expiry sweep against a limiter that keeps the complete log |
| `AssetListPages`, `AssetListPageRuns` | page generations, their byte budget, and every interleaving of scans and shared fetches |
| `AssetListRegistry` | how long a generation stays registered, who joins it, and what it may retain |
| `AssetListDoubleCharge`, `AssetListExposure` | whether a retained page is charged once, and exactly when it can be charged twice |
| `AssetListScan`, `AssetListOwnership`, `AssetListExact`, `AssetListOutcomes` | ownership, the windowed scan, what it returns, and how it ends otherwise |
| `AssetListProofs`, `AssetListCursor` | its final authorization, page numbers and the gateway's own cursors |
| `ModelSync`, `ModelSyncIgnores` | detection, automatic and manual application of upstream model changes; what ignoring a model is worth |
| `MultiKey`, `MultiKeyDeletion` | the key list and its three index maps under delete, disable, enable and append |
| `AssetResponse`, `AssetInternalKeys` | recursive redaction, which keys it removes, and the success test |
| `AssetAliases`, `AssetOfficial`, `AssetNormalize`, `AssetOfficialFields` | the alias table, order-free alias resolution, recursive normalization, and what stands in each field |
| `AssetPinning`, `AssetPinningGroups`, `AssetPinningOutcomes` | resolving several handles to one channel, scope and project, and to a group; why it fails |
| `AssetVideoPinning`, `AssetClaims` | the same for video requests, and claims of unregistered handles |
| `BodyStorage`, `BodyPositions`, `BodyAccounting` | memory and disk storages compared operation by operation; positions and closing; the global counters |
| `OggWalk` | the resynchronising page walk |
| `Text` | trimming, splitting and joining, shared by the modules above |

## What is given

SHA-256 fingerprints are taken as injective, so a fingerprint is the text it is made of. JSON is a tree with
duplicate-free objects. Suppliers are functions from a page number and cursor to a response. Database lookups
made while one request is resolved are functions of their arguments (the request caches channels and scopes).
The wall clock of the limiter does not run backwards. `time.Now` inside the page cache is a parameter. A
deadline or cancellation is a number of pages a scan may still look at. The elements of a JSON array are never
blank. Files and byte readers deliver all they have, up to the size of the buffer and, for files, up to one
gibibyte per read. A claim on a supplier answers for the channel and scope it is made on and keeps a project it
is given (`controller/asset_legacy_access.go:207`, `controller/asset_access.go:538-543`).

## What turned out not to hold as promised

Each of these is stated with its exact condition, or with a concrete input.

- **Limiter.** With its sweep, the bounded queue decides like the complete log in every run if and only if every key
  allows at least one request and its window is at most one second longer than the expiration
  (`RateLimiter.RefinesFullLogIff`); without a sweep, if and only if every key allows at least one
  (`RefinesUnsweptIff`).
- **Page budget.** When the last waiter leaves a call whose page has arrived and is being parsed, it is too late to cancel
  the call, and another one can be started for the same page; both then charge the generation. A step makes this
  possible if and only if it abandons such a call, another scan of the generation can still read, and the generation
  leaves room for two of the lightest pages (`AssetListExposure.DoubleChargeIff`). A call abandoned earlier is
  cancelled and does no harm. The budget itself stays conserved.
- **Proof coverage.** A page proves each of its resources if and only if no two of them share a stored handle; two
  bindings without handles leave one unproved (`AssetListProofs.CoveredIff`, `BlankHandlesHideAProof`). The
  count test agrees with coverage whenever the lookup returns only requested handles.
- **Cursor text.** Reading a token and issuing it again gives the same text if and only if the number was written plainly:
  `+5` and `007` are accepted too (`AssetListCursor.ParseThenIssue`, `PlusIsIgnored`, `ZeroIsIgnored`).
- **Model sync.** Detection after a full apply finds nothing if and only if no added name contains a comma
  (`ModelSync.SyncIsFixpointIff`), and the same holds for additions applied automatically
  (`AutoApplyIsFixpointIff`). Repeating a request is a no-op if and only if no comma-free name was selected for
  addition and for a pending removal at once (`RepeatIsNoOpIff`); for lists that one detection recorded this always
  holds (`DetectionRepeatsSafely`).
- **Ignored models.** An ignored name stays away for good (`ModelSyncIgnores.IgnoredForGood`), but the models are kept
  as one text: a name with a comma is added whole and read back in parts, one of which may be ignored
  (`IgnoredArrivesByComma`; without commas it cannot happen, `IgnoredIsNoModel`).
- **Multi-key deletion.** The view after deletion is the old view without the deleted rows if and only if the joined
  remaining keys are read back unchanged; for keys kept as lines, if and only if no blank key comes to stand first or
  last (`MultiKey.DeleteKeyViewIff`, `DeleteLineViewIff`, `BlankLineShiftsIndices`).
- **Multi-key append.** An array is rewritten as lines of decoded elements. When those lines are read back, the old rows
  stay if and only if every element is written as it is decoded, which no quoted string is (`ArrayAppendIff`; without
  that proviso `ArrayAppendRowsIff`). A text that looks like an array but cannot be decoded is dropped, and its rows
  stay only if the lines of the new keys spell them out again (`UndecodedArrayIsLost`). For all other texts
  `AppendReadsBackIff` gives the condition.
- **Handle order.** Whether several handles resolve depends on their order (`AssetPinning.OrderDecidesSuccess`). All
  orders resolve if and only if each handle resolves alone and all of them together have a consistent choice
  (`AllOrdersResolveIff`). The accepted bindings, the channel, the scope, the project and the handles that wait do not
  depend on the order (`SameAnswerInAnyOrder`). The group does: it is that of the last group handle, and is the same in
  all orders if and only if the accepted group handles stand for one group (`AssetPinningGroups.GroupIsFixedIff`).
- **Storage kinds.** Memory and disk storages reply alike until, and only until, one of the listed telling operations
  happens (`BodyStorage.RepliesAgreeIff`): an empty read at the end, a single read of more than a gibibyte of
  remaining data, a seek beyond the file system's largest file, or use of a reader after its own `Close`.
- **Body limit.** With the largest 64-bit maximum the limited reader overflows and keeps nothing
  (`BodyStorage.KeptWholeIff`).

## Model

| member | source | states |
|---|---|---|
| RateLimiter.InMemoryRateLimiter.Request | common/rate-limit.go:45-70 | one request on the stored queues: append below the limit, shift out the oldest when its window is over, refuse otherwise; no other key is touched |
| RateLimiter.InMemoryRateLimiter.ClearExpiredItems | common/rate-limit.go:28-42 | a sweep, walking keys in any order, removes exactly the keys idle for longer than the expiration |
| RateLimiter.DecisionRefines | common/rate-limit.go:45-70 | within the bound, a decision after any run of requests and sweeps is the one the complete log of accepted times calls for |
| RateLimiter.UnsoundLimitIsExceeded | common/rate-limit.go:20-37 | with that sweep, outside the bound there is a run in which the limiter lets through a request the complete log refuses |
| RateLimiter.RefinesFullLogIff | common/rate-limit.go:14-70 | with the sweep of a positive expiration, all decisions in all runs equal the complete log's, if and only if each limit is at least 1 and its window at most expiration + 1, the bound the configuration asks for (`common/constants.go`) |
| RateLimiter.RefinesUnsweptIff | common/rate-limit.go:20-22 | without a sweep, which an expiration of zero does not start, all decisions in all runs equal the complete log's if and only if each limit is at least 1 |
| RateLimiter.RunTracks | common/rate-limit.go:28-70 | in every run the accepted times are the reference log, and the stored queue is the end of it with everything forgotten already expired |
| RateLimiter.SweepsAndOtherKeysAreInvisible | common/rate-limit.go:28-70 | removing all sweeps and all other keys' requests from a run changes no decision of a key |
| RateLimiter.AcceptsSpanTheWindow | common/rate-limit.go:51-63 | any max + 1 consecutive accepted requests of a key span at least the window |
| AssetListPages.PageSets.Acquire | controller/asset_list_pages.go:96-106 | joins the key's generation unless it has started or expired, otherwise displaces it by a new one; counts the reader |
| AssetListPages.PageSets.Release | controller/asset_list_pages.go:108-119 | uncounts the reader; the last one unregisters the generation only if it still holds its key, returns its bytes and drops its pages |
| AssetListPages.PageSets.Start | controller/asset_list_pages.go:129-133 | freezes the generation and changes nothing else |
| AssetListPages.PageSets.Cached | controller/asset_list_pages.go:121-126 | finds a page exactly when the generation retains it |
| AssetListPages.PageSets.Keep | controller/asset_list_pages.go:175-182 | retains and charges a page only while the generation has readers and the global budget allows it |
| AssetListPages.AcquireKeepsInv | controller/asset_list_pages.go:96-106 | acquiring keeps: global bytes are the sum over generations with readers, within budget; registered generations have readers; empty ones hold nothing |
| AssetListPages.ReleaseKeepsInv | controller/asset_list_pages.go:108-119 | so does releasing, and a generation without readers ends without pages and bytes |
| AssetListPages.KeepKeepsInv | controller/asset_list_pages.go:175-182 | so does retaining a page, even when it replaces one under the same key |
| AssetListPageRuns.EveryServedPageIsFresh | controller/asset_list_pages.go:128-184 | in every interleaving of acquire, start, cached reads, shared and abandoned fetches and release, no scan is handed a page whose fetch began before the scan acquired its generation |
| AssetListPageRuns.StepFresh | controller/asset_list_pages.go:81-94 | each single step keeps freshness of every scan, shared call, retained page and served page |
| AssetListPageRuns.BudgetIsConserved | controller/asset_list_pages.go:94-119 | in every reachable state the global count is the sum over generations with readers, displaced ones included, lies in 0..64 MiB, and readers are the scans still holding on |
| AssetListPageRuns.DeadForever | controller/asset_list_pages.go:112-118 | once a generation has no reader it never gains a reader, a page or a byte again, whatever happens next |
| AssetListRegistry.ReleasedRegistrationIff | controller/asset_list_pages.go:108-119 | a release takes away a registration exactly when it is of its own generation and by its last reader; every other key keeps what it is registered to |
| AssetListRegistry.AcquiredIff | controller/asset_list_pages.go:96-106 | an acquire returns the registered generation exactly when that has neither started nor expired, otherwise a new one that expires after the timeout; no other key changes |
| AssetListRegistry.RegistrationEndsIff | controller/asset_list_pages.go:96-119 | in any reachable state a step ends a registration exactly when it is the release by the generation's own last reader, or an acquire of its key after it has started or expired |
| AssetListRegistry.RegistrationLasts | controller/asset_list_pages.go:96-119 | over any run without these two kinds of step a generation stays registered, releases of displaced generations included |
| AssetListRegistry.NextScanJoinsIff | controller/asset_list_pages.go:96-106 | after any run, the next scan of a key joins the registered generation exactly when that has neither started nor expired |
| AssetListRegistry.StartedIsNotJoined | controller/asset_list_pages.go:96-106 | once a scan has begun to read, no later scan joins its generation, whatever happens in between |
| AssetListRegistry.JoinsInTime | controller/asset_list_pages.go:96-106 | a scan that joins a generation does so within the timeout of the scan that opened it |
| AssetListRegistry.KeptIff | controller/asset_list_pages.go:175-182 | a fetched page is retained exactly while the generation has a reader and its body, list and rows fit what is left of 64 MiB |
| AssetListRegistry.BudgetBoundsPages | controller/asset_list_pages.go:175-182 | in every reachable state, anything that counts for no more than a page's charge is bounded by 64 MiB over the pages a generation retains |
| AssetListDoubleCharge.ChargedOnceUnlessAbandoned | controller/asset_list_pages.go:165-184 | in runs where no last waiter walks away from a call whose page has arrived, no page is stored twice in a generation, and each generation charges exactly the pages it retains; calls abandoned earlier are cancelled |
| AssetListDoubleCharge.StepChargesOnceIff | controller/asset_list_pages.go:177-181 | a step keeps the charges exact exactly when it does not store a page that is already retained |
| AssetListExposure.DoubleChargeIff | pkg/inflight/group.go:59-79 | in a run that has abandoned no call whose page had arrived, a step makes a double charge possible, without another such step, exactly when it abandons such a call, another scan of the generation can still read, and the generation leaves room for two of the lightest pages |
| AssetListDoubleCharge.AbandonedFetchIsChargedTwice | pkg/inflight/group.go:59-69 | a reachable state in which one retained page is charged twice, because an abandoned call and its successor both finished |
| AssetListScan.RecordBatch | controller/asset_list.go:117-142 | one batch of the ownership walk extends the ownership of what came before it |
| AssetListScan.RecordBinding | controller/asset_list.go:118-140 | one binding: admitted by project, ID and filter, or skipped; its canonical ID, proof, group and handle are recorded |
| AssetListScan.LoadOwnership | controller/asset_list.go:109-150 | the walk over all batches yields the ownership of their concatenation, and the owned count is the number of distinct admitted resources |
| AssetListScan.ProofsAreExact | controller/asset_list.go:131-133 | a resource has a proof exactly when an admitted binding stands for it, and its proof is such a binding's stored handle |
| AssetListScan.HandlesAreExact | controller/asset_list.go:132-139 | a handle is owned exactly when an admitted binding names it, and leads to a resource so named |
| AssetListOwnership.LastProof | controller/asset_list.go:118-133 | told by the fields of the bindings: a resource has a proof exactly when a binding of a compatible project that passes the filter stands for it; the last such binding's handle is the proof |
| AssetListOwnership.LastGroup | controller/asset_list.go:134-136 | a resource has a group exactly when groups are filtered and such a binding names one; the last that does decides |
| AssetListOwnership.LastHandle | controller/asset_list.go:132-139 | a handle is owned exactly when such a binding is stored under it or stands for it; the last one says which resource it leads to |
| AssetListScan.FilterRows | controller/asset_list.go:247-264 | the row loop of one page as a fold over its rows |
| AssetListScan.ScanAssetList | controller/asset_list.go:242-320 | the scan loop with its stop rules, loop detection, refusals and deadline, as one function of the supplier |
| AssetListScan.VisitAllSummarises | controller/asset_list.go:247-264 | for any rows the loop has collected: the distinct owned resources, the number of accepted first appearances, their window, and its proofs |
| AssetListExact.HonestScanIsExact | controller/asset_list.go:242-320 | for pages that end honestly the scan returns exactly the window of the filtered, deduplicated list and its whole length, or the loop error, the latter only if two non-final pages share a fingerprint |
| AssetListExact.NothingNewAfterAll | controller/asset_list.go:270-272 | once every owned resource has appeared, no continuation of the list changes the result |
| AssetListExact.CursorScanIsExact | controller/asset_list.go:273-274 | over a chain of distinct cursors the scan is exact |
| AssetListExact.NumberedScanIsExact | controller/asset_list.go:275-289 | over numbered pages with distinct rows, total absent or right, the scan is exact and never reports a loop, within one page more than the full pages |
| AssetListExact.ScanStopsWithin | controller/asset_list.go:293-303 | for any supplier the scan ends by itself within one page more than there are distinct fingerprints |
| AssetListExact.FinishedIsExact | controller/asset_list.go:242-323 | for any supplier, a finished scan is the exact window of the rows of the pages it read: those the supplier served from the first page on, up to the first one that stops the scan |
| AssetListExact.PagesReadOnce | controller/asset_list.go:304-316 | the supplier determines the pages that are read |
| AssetListOutcomes.ScanEndsIff | controller/asset_list.go:242-323 | a scan has an outcome exactly when pages that the supplier serves lead to it: the exact slice of the pages up to one that stops it, a repeated fingerprint, the supplier's answer to the next request, or the end of the deadline |
| AssetListOutcomes.RefusedIff | controller/asset_list.go:316-319 | the supplier's refusal is the outcome exactly when it answers the request after pages that neither stop the scan nor repeat a fingerprint, within the deadline |
| AssetListOutcomes.FailedIff | controller/asset_list.go:311-314 | an upstream failure is the outcome exactly when that request fails instead |
| AssetListOutcomes.RepeatedIff | controller/asset_list.go:293-303 | the loop error is the outcome exactly when the last page read shows an earlier one's fingerprint and does not stop the scan |
| AssetListOutcomes.InterruptedIff | controller/asset_list.go:243-245 | the scan is interrupted exactly when the deadline ends while the supplier still serves such pages |
| AssetListExact.LoadedScanIsExact | controller/asset_list.go:109-323 | loading, then scanning pages that end honestly, yields the exact window of the rows that admitted bindings name |
| AssetListProofs.CoveredIff | controller/asset_list.go:262 | the proofs recorded for a page prove each of its rows exactly when no two of its resources share a stored handle |
| AssetListProofs.BlankHandlesHideAProof | controller/asset_list.go:118-133 | two bindings without a handle, loaded by the ownership walk, leave one of their resources unproved |
| AssetListProofs.Revalidate | controller/asset_list_inflight.go:178-191 | the loop over the bindings found succeeds exactly when it validates as many handles as the page has proofs |
| AssetListProofs.CountTestIff | controller/asset_list_inflight.go:178-190 | the count test succeeds exactly when the number of unproved handles equals the number of blank bindings that slipped in |
| AssetListProofs.CountTestIsCoverage | controller/asset_list_inflight.go:174-190 | if only requested handles are found, the count test succeeds exactly when every proof still has a binding of the right resource, kind and project |
| AssetListProofs.CheckedPageIff | controller/asset_list_inflight.go:174-190 | with handles unique per binding, the count test of a page of owned rows succeeds exactly when every row is proved |
| AssetListProofs.ReturnedItemsAreProved | controller/asset_list_inflight.go:156-160 | with handles unique per binding, whatever the supplier served, the returned items are those of the window of the pages that were read, and the final check succeeds exactly when every row of that window is owned and its resource has such a binding |
| AssetListCursor.IssueThenParse | controller/asset_list.go:96-105 | an issued token is read back as its offset exactly when offset + size does not overflow |
| AssetListCursor.ParseThenIssue | controller/asset_list.go:97-104 | an accepted token is reissued as itself exactly when its number has no sign and no leading zero |
| AssetListCursor.PageOffsetIff | controller/asset_list.go:73-76 | the page-number guard accepts exactly the pages whose end fits an int |
| AssetListCursor.PageStarts | controller/asset_list.go:73-76 | page 1 starts at 0 and every other accepted page where the page before it ends |
| AssetListCursor.PagesAreTheList | controller/asset_list.go:73-76 | over a list that stays put, pages 1 to n hold its first n times size items, without gap or repeat |
| AssetListCursor.NumberedPages | controller/asset_list.go:73-76 | so a client asking for page after page of a page-number supplier sees the filtered list from its first resource on |
| AssetListCursor.CursorPages | controller/asset_list.go:73-76 | and so does one of a supplier that chains its pages by cursors |
| AssetListCursor.PlusIsIgnored | controller/asset_list.go:100-103 | a plus sign before the number of an issued token changes nothing |
| AssetListCursor.ZeroIsIgnored | controller/asset_list.go:100-103 | nor does a leading zero |
| AssetListCursor.MinusIsRefused | controller/asset_list.go:100-103 | a minus sign is refused, but for a negative zero |
| AssetListCursor.BothTokensAgree | controller/asset_official_response.go:387-392 | the official envelope computes the same next token as the scan |
| AssetListCursor.WalkIsWholeList | controller/asset_list.go:353-362 | over a stable list, following issued tokens with any allowed page sizes returns the whole list once, in order, and ends |
| AssetListCursor.NumberedWalk | controller/asset_list.go:219-368 | the same for the scan itself over a page-number supplier |
| AssetListCursor.CursorWalk | controller/asset_list.go:219-368 | the same for the scan over a cursor supplier |
| ModelSync.Channel.Check | controller/channel_upstream_update.go:507-554 | a check computes the pending lists from the model text, rules and upstream list and records or applies them |
| ModelSync.Channel.Persist | controller/channel_upstream_update.go:531-543 | automatic application merges the additions and clears the detected list; otherwise both lists are recorded |
| ModelSync.Channel.Apply | controller/channel_upstream_update.go:939-973 | applying a selection: the new model text, ignore list, remaining lists and report |
| ModelSync.MergeProps | controller/channel_upstream_update.go:112-126 | merging any two lists keeps the normalized base as a prefix, adds no duplicates, and holds exactly the normalized names of both |
| ModelSync.ApplySelectedProps | controller/channel_upstream_update.go:150-155 | for any lists the result holds exactly the additions and what was not removed, add winning over remove, in the order of the merged list |
| ModelSync.PendingAddProps | controller/channel_upstream_update.go:218-232 | pending additions are exactly the upstream names neither local, nor redirect targets, nor ignored |
| ModelSync.PendingRemoveProps | controller/channel_upstream_update.go:233-241 | pending removals are exactly the local names neither redirect sources nor offered upstream |
| ModelSync.PendingAreDisjoint | controller/channel_upstream_update.go:184-243 | no name is pending for addition and removal at once |
| ModelSync.PendingAddsArePartitioned | controller/channel_upstream_update.go:942-958 | each pending addition is added, or ignored, or remains; added exactly when selected, remaining exactly when neither; an added name is off the stored ignore list, an ignored one that is not added is on it |
| ModelSync.StoredIgnores | controller/channel_upstream_update.go:954-957 | the stored ignore list afterwards: what was on it or is ignored now, without the added names |
| ModelSync.PendingRemovalsArePartitioned | controller/channel_upstream_update.go:944-959 | each pending removal is removed or remains; it is removed exactly when selected and not also added |
| ModelSync.RepeatIsNoOpIff | controller/channel_upstream_update.go:926-974 | repeating a request leaves the models alone exactly when no comma-free name was selected for addition and for a pending removal |
| ModelSync.AddedIsReadBackIff | controller/channel_upstream_update.go:950-952 | an added name is a model of the channel afterwards exactly when it holds no comma |
| ModelSync.DetectionRepeatsSafely | controller/channel_upstream_update.go:926-974 | after any detection, any request can be repeated without effect |
| ModelSync.SyncIsFixpointIff | controller/channel_upstream_update.go:184-243 | after detecting and applying everything, a second detection finds nothing, exactly when no added name holds a comma |
| ModelSync.AutoApplyIsFixpointIff | controller/channel_upstream_update.go:531-543 | after an automatic application, a second detection has nothing to add exactly when no added name holds a comma |
| ModelSync.DetectedAreCountedOnce | controller/channel_upstream_update.go:725-730 | the count of a detection run is the number of names detected, whether they were applied at once or recorded |
| ModelSyncIgnores.NormalizeMembers | controller/channel_upstream_update.go:105-110 | a normalized list holds exactly the trimmed texts of the raw list, blank ones apart |
| ModelSyncIgnores.FirstOccurrencesStay | controller/channel_upstream_update.go:105-110 | names keep the order in which they first stand in the list |
| ModelSyncIgnores.MergeIsNormalize | controller/channel_upstream_update.go:112-126 | merging two lists is normalizing one after the other |
| ModelSyncIgnores.DetectedIff | controller/channel_upstream_update.go:215-232 | a name is detected exactly when the upstream lists it, the channel lacks it, no redirect leads to it, and no entry of the stored ignore list names it or matches it as a regular expression |
| ModelSyncIgnores.MissingIff | controller/channel_upstream_update.go:233-242 | a model is recorded as missing exactly when no redirect starts from it and the upstream does not list it |
| ModelSyncIgnores.DetectedInOrder | controller/channel_upstream_update.go:215-232 | detected names stand in the order of the upstream's list |
| ModelSyncIgnores.IgnoredForGood | controller/channel_upstream_update.go:222-228 | a pending name that a request ignored and did not add, and that does not begin as a regular expression, is neither detected nor added by any later check in either mode or any later request |
| ModelSyncIgnores.MatchedForGood | controller/channel_upstream_update.go:222-228 | the same for names that a stored regular expression matches, as long as no upstream offers the entry's own text as a model |
| ModelSyncIgnores.ModelsAfterCheck | controller/channel_upstream_update.go:527-545 | the models after a check are those before it and, if it applies what it finds, the comma-separated parts of the added names |
| ModelSyncIgnores.IgnoredIsNoModel | controller/channel_upstream_update.go:222-228 | checks do not make an ignored name a model of the channel, as long as no upstream name holds a comma |
| ModelSyncIgnores.IgnoredArrivesByComma | controller/channel_upstream_update.go:222-228 | a concrete upstream name with a comma brings an ignored name in |
| Text.ReadBackIff | model/channel.go:359-364 | a joined list is read back unchanged exactly when no part holds the separator and neither end is blank |
| Text.PartIsReadBack | model/channel.go:359-364 | a part without the separator is read back from the joined text, whatever the other parts hold |
| Text.SplitTrimmedOfJoin | model/channel.go:226-248 | joined texts are read back as all their lines without the blank ones at both ends |
| MultiKey.Channel.DeleteKey | controller/channel.go:2064-2129 | deleting one key: the errors, the refusal to delete the last key, the new text, size and reindexed maps |
| MultiKey.Channel.DeleteDisabledKeys | controller/channel.go:2144-2197 | deleting the automatically disabled keys: the reply, the count, and the new text, size and reindexed maps |
| MultiKey.Without | controller/channel.go:2082-2114 | the reindexing loop of delete_key keeps the other positions with what the maps say about them |
| MultiKey.WithoutDisabled | controller/channel.go:2145-2182 | the reindexing loop of delete_disabled_keys, with its count |
| MultiKey.Channel.DisableKey | controller/channel.go:1908-1936 | disabling one key by hand sets its status and nothing else |
| MultiKey.Channel.EnableKey | controller/channel.go:1951-1978 | enabling one key clears its entry in all three maps |
| MultiKey.Channel.EnableAllKeys | controller/channel.go:1993-2002 | enabling all keys empties the three maps |
| MultiKey.Channel.DisableAllKeys | controller/channel.go:2017-2061 | every enabled key below the size becomes manually disabled and is counted; without any, the request is refused |
| MultiKey.DisabledAt | controller/channel.go:2030-2041 | of all statuses, exactly the enabled ones below the size become manually disabled |
| MultiKey.DeleteKeyViewIff | controller/channel.go:1810-1855 | the status view after delete_key is the old one without that row, exactly when the remaining keys are read back |
| MultiKey.DeleteDisabledViewIff | controller/channel.go:1810-1855 | the status view after delete_disabled_keys is the old one without the automatically disabled rows, on the same condition |
| MultiKeyDeletion.DeleteKeyReplies | controller/channel.go:2064-2115 | which answer a deletion gets, for every index and size: no index, out of range, the last key, or deleted; the last key is refused exactly when no other is read from the text |
| MultiKeyDeletion.AfterDeleteKey | controller/channel.go:2083-2124 | after a deletion the size is the number of keys left, and under the shifted indices the three maps say exactly what they said, but for the status of enabled keys |
| MultiKeyDeletion.DeleteDisabledReplies | controller/channel.go:2144-2190 | nothing is deleted exactly when no key was disabled automatically |
| MultiKeyDeletion.AfterDeleteDisabled | controller/channel.go:2153-2197 | afterwards every key that stays is found behind those that stayed before it, with its status, time and reason if it is not enabled, and nothing else is recorded |
| MultiKeyDeletion.KeysAfterDeleteDisabled | controller/channel.go:2168-2196 | the text is that of the keys that stay, in their order |
| MultiKeyDeletion.NoneStaysIff | controller/channel.go:2144-2197 | unlike a single deletion this one leaves no key exactly when all were disabled automatically |
| MultiKey.DeleteLineViewIff | controller/channel.go:2125-2129 | for keys kept as lines, delete_key removes exactly its row unless a blank key comes to stand first or last |
| MultiKey.DeleteDisabledLinesViewIff | controller/channel.go:2193-2197 | so does delete_disabled_keys |
| MultiKey.ReadsBackIff | model/channel.go:226-248 | joined keys that are no JSON array are read back exactly when none holds a line break and neither end is blank |
| MultiKey.BlankLineShiftsIndices | controller/channel.go:2125-2129 | a blank line in the key text makes one deletion drop two rows and enable a disabled key |
| MultiKey.ToggleRows | controller/channel.go:1908-1978 | disabling one key sets its status and shows the time and reason stored for it, enabling it clears its row; all other rows stay |
| MultiKey.EnabledIsForgotten | controller/channel.go:1951-1990 | a key that was enabled and is disabled by hand later shows no time and no reason |
| MultiKey.AppendKeys | controller/channel.go:1319-1340 | the append loop adds the new keys after the existing ones |
| MultiKey.FreshIsExact | controller/channel.go:1319-1338 | exactly the trimmed, non-blank keys that are new are added, each once |
| MultiKey.FreshKeepsOrder | controller/channel.go:1328-1340 | added keys stand in the order in which they are first given |
| MultiKey.AppendReadsBackIff | controller/channel.go:1286-1341 | appending to a text that is no array keeps every old key at its index and adds exactly the new ones, if and only if no added key holds a line break, the text is more than line breaks, and the joined text is not read as an array |
| MultiKey.AppendKeepsRows | controller/channel.go:1340-1341 | under that condition the old rows of the status view are a prefix of the new view, with one more row for each new key |
| MultiKey.ArrayAppendIff | controller/channel.go:1269-1285 | when the joined keys hold no line break, have no blank end and form no array: appending to a JSON array keeps the rows of the status view exactly when every element is written as it is decoded |
| MultiKey.ArrayAppendRowsIff | controller/channel.go:1269-1285 | whatever is appended to a JSON array, the rows of the status view stay exactly when the joined keys are read, line by line or as the array they form, from their start as the old elements |
| MultiKey.UndecodedArrayIsLost | controller/channel.go:1269-1288 | appending to a text that looks like an array but cannot be decoded keeps the rows of the view exactly when the lines of the new keys, or the array they form, begin with the old ones |
| AssetResponse.FilterFields | controller/asset_response.go:35-85 | the recursive filter with its depth limit |
| AssetResponse.FilterObject | controller/asset_response.go:46-64 | deleting and replacing entries in any order gives the same object |
| AssetResponse.FilterArray | controller/asset_response.go:65-83 | replacing items in place |
| AssetResponse.FilterStrips | controller/asset_response.go:35-85 | the filter gives up exactly on trees that go beyond the depth limit along public keys, and otherwise removes the internal entries and nothing else |
| AssetResponse.StripLookup | controller/asset_response.go:46-61 | exactly the places reached without an internal key survive, each stripped in turn |
| AssetResponse.FilterIsIdempotent | controller/asset_response.go:35-85 | filtering what was filtered changes nothing |
| AssetResponse.PublicKeepsOutcome | controller/asset_response.go:16-33 | the public response is successful exactly when the original is; it is withheld exactly when the tree is too deep |
| AssetResponse.PublicIsStripped | controller/asset_response.go:21-31 | the public response is the stripped original, with an error marker only in place of an error that redaction emptied |
| AssetResponse.NoInternalKeySurvives | controller/asset_response.go:46-53 | no internal key is on the way to any place of the public response |
| AssetInternalKeys.UnderscoresDoNotMatter | controller/asset_response.go:47 | an underscore anywhere in a key changes nothing about its being internal |
| AssetInternalKeys.CapitalsDoNotMatter | controller/asset_response.go:47 | nor does a capital for a small letter |
| AssetInternalKeys.SmallIsInternalIff | controller/asset_response.go:48-49 | a key of small letters is internal exactly when it is one of the twelve names |
| AssetInternalKeys.InternalIff | controller/asset_response.go:47-50 | a key is internal exactly when it is one of these names with any letters raised and any underscores put in |
| AssetInternalKeys.NoListedNameSurvives | controller/asset_response.go:46-53 | no such spelling of a listed name is on the way to any place of the public response |
| AssetInternalKeys.OthersSurvive | controller/asset_response.go:46-53 | and of a successful answer every other place is kept |
| AssetResponse.SuccessfulIff | controller/asset_access.go:473-513 | a response is successful exactly when it is an object or a list, whatever stands at the three places of an error is empty, nothing says it failed, and a code is null, 0 or 200 |
| AssetResponse.PublicLookup | controller/asset_response.go:21-33 | away from the places of an error the public response shows the stripped original, on public paths only |
| AssetResponse.EmptiedErrorIsMarked | controller/asset_response.go:24-31 | an error that redaction emptied is replaced, where it is first reported, by a code and a message in that place's spelling |
| AssetResponse.OutcomeFieldsArePublic | controller/asset_access.go:481-491 | none of the fields the success test reads is internal |
| AssetAliases.AliasesAreUnambiguous | controller/asset_official_response.go:293-302 | each spelling belongs to one field, no official name is a spelling, and none is listed twice |
| AssetOfficial.RenameEntry | controller/asset_official_response.go:304-311 | the spellings of one field, best first: the official name keeps its value or takes the best one's, and all spellings go |
| AssetOfficial.NormalizeAliases | controller/asset_official_response.go:303-312 | walking the table in any order gives the one result that mentions no order |
| AssetOfficial.RenamedIsAliased | controller/asset_official_response.go:303-312 | whichever entry comes next, the fields are the order-free result for the entries applied so far |
| AssetOfficial.OfficialErrorTwice | controller/asset_official_response.go:188-230 | converting an error that was converted changes nothing |
| AssetOfficial.OfficialStatusTwice | controller/asset_official_response.go:339-346 | so does case-folding a status |
| AssetNormalize.NormalizeFields | controller/asset_official_response.go:289-348 | the recursive conversion of a resource, aliases walked in any order at every level |
| AssetNormalize.ConvertItems | controller/asset_official_response.go:319-334 | the loop over the items, stopping at the first that cannot be converted |
| AssetNormalize.ConvertItem | controller/asset_official_response.go:289-292 | one item: a null is rejected, any other is normalized |
| AssetNormalize.AliasTable | controller/asset_official_response.go:293-302 | the table leaves the fields that the conversion itself reads alone |
| AssetNormalize.NormalizedIsSettled | controller/asset_official_response.go:289-348 | a normalized resource has no spelling left, an official error and status, and normalized items at every depth |
| AssetNormalize.NormalizeIsIdempotent | controller/asset_official_response.go:289-348 | normalizing a normalized resource changes nothing, recursively through items and errors |
| AssetOfficialFields.OfficialField | controller/asset_official_response.go:303-312 | an official field keeps its value, and without one takes that of the first of its spellings that is present |
| AssetOfficialFields.OtherField | controller/asset_official_response.go:303-312 | no spelling is left, and what the table does not mention is as it was |
| AssetOfficialFields.GroupIdMoves | controller/asset_official_response.go:313-318 | a group without an identifier is identified by its group ID, which moves; nothing else changes |
| AssetOfficialFields.Identifier | controller/asset_official_response.go:303-318 | a resource is identified by what its supplier calls its identifier, in the order of the table, and a group without one by what the supplier calls its group |
| AssetOfficialFields.ErrorCode | controller/asset_official_response.go:202-211 | the code of an error is the first non-empty text or number among Code, code and type, else the default |
| AssetOfficialFields.ErrorMessage | controller/asset_official_response.go:212-221 | its message is read from Message or message, else the default |
| AssetOfficialFields.ErrorKeepsTheRest | controller/asset_official_response.go:222-229 | its other fields stay |
| AssetOfficialFields.ErrorOfText | controller/asset_official_response.go:194-200 | a text becomes the message of an error; anything else but an object leaves only the defaults |
| AssetOfficialFields.StatusNames | controller/asset_official_response.go:339-346 | a status that spells one of the four names in any case is written as that name |
| AssetOfficialFields.OtherStatusStays | controller/asset_official_response.go:339-346 | every other status is left alone |
| AssetOfficialFields.RejectedIff | controller/asset_official_response.go:319-334 | a resource is rejected exactly when its items are neither null nor a list of resources that are not rejected |
| AssetOfficialFields.FirstFault | controller/asset_official_response.go:326-332 | the first item that cannot be converted says why |
| AssetOfficialFields.OfficialResource | controller/asset_official_response.go:289-348 | field by field, a normalized resource holds the official form of each item and of its error, and everything else as the aliases left it |
| AssetOfficialFields.ResourceStatus | controller/asset_official_response.go:339-346 | and its status in its official form, if it is a text or a number |
| AssetPinning.ChooseBinding | controller/asset_access.go:365-395 | the loop over a handle's bindings accepts one exactly when it alone fits the channel, scope and project pinned so far |
| AssetPinning.AssetAccessRequest.ResolveRoute | controller/asset_access.go:352-406 | the resolution loop over all handles |
| AssetPinning.AssetAccessRequest.ResolveRef | controller/asset_access.go:353-405 | one handle: unreadable, claimable later, refused, or accepted and pinned |
| AssetPinning.AssetAccessRequest.PrepareOn | controller/asset_access.go:442-466 | the serving channel must be the pinned one; waiting handles are then claimed in order |
| AssetPinning.ResolvesIff | controller/asset_access.go:352-406 | a request resolves exactly when no lookup fails and every prefix of its handles has exactly one consistent choice of bindings; the accepted bindings are that choice |
| AssetPinning.StepIff | controller/asset_access.go:365-395 | one more handle is accepted exactly when one more choice is possible, and only one |
| AssetPinningOutcomes.FailedIff | controller/asset_access.go:352-390 | resolving fails exactly when the handles up to some point leave one choice and the next cannot be looked up, or has a binding on a channel that matters and cannot be used |
| AssetPinningOutcomes.NotOwnedIff | controller/asset_access.go:355-396 | it is refused exactly when the next handle can be read, but leaves no choice or more than one, or may not be claimed |
| AssetPinning.ResolvedIsAgreed | controller/asset_access.go:352-406 | all accepted bindings share one channel and scope, and all their projects agree with each other and the requested one |
| AssetPinning.EveryHandleIsAnswered | controller/asset_access.go:352-406 | every handle is accepted once or waits once |
| AssetPinning.SameAnswerInAnyOrder | controller/asset_access.go:352-406 | two orders of the same handles that both resolve accept the same bindings, pin the same channel, scope and project, and leave the same handles waiting |
| AssetPinningGroups.GroupIsLast | controller/asset_access.go:402-404 | the group of a resolved request is that of the last accepted group handle |
| AssetPinningGroups.SameGroupInAnyOrder | controller/asset_access.go:402-404 | when the accepted group handles stand for one group, every order that resolves ends up with it |
| AssetPinningGroups.GroupIsFixedIff | controller/asset_access.go:402-404 | for handles that resolve in every order, the group is the same in all orders exactly when the accepted group handles stand for one group |
| AssetPinningGroups.OrderDecidesGroup | controller/asset_access.go:402-404 | swapping two handles of different groups changes the group of the request |
| AssetPinning.AllOrdersResolveIff | controller/asset_access.go:352-406 | all orders of a set of handles resolve exactly when each handle resolves alone and the set has a consistent choice of bindings |
| AssetPinning.OrderDecidesSuccess | controller/asset_access.go:393-398 | an ambiguous handle fails before a later one could pin the channel; the other order resolves |
| AssetPinning.PreparedIsPinned | controller/asset_access.go:442-466 | after preparation every handle has one binding, on the serving channel, with one scope and project |
| AssetClaims.PreparedClaims | controller/asset_access.go:445-466 | a prepared request is on the serving channel and in its scope; its waiting handles were claimed there in order, each with the requested or default project, or the first that an earlier claim named; the group is that of the last claimed group |
| AssetClaims.RefusedElsewhereIff | controller/asset_access.go:446-448 | it is refused exactly when it is pinned to another channel or scope |
| AssetVideoPinning.SortHandles | controller/asset_video_access.go:126-146 | each handle is looked up once; those with bindings are put before those to be claimed |
| AssetVideoPinning.LockHandle | controller/asset_video_access.go:148-247 | one handle of the second pass: its bindings, or a claim on the locked or fallback channel, then the fitting one |
| AssetVideoPinning.LockVideoChannel | controller/asset_video_access.go:124-261 | both passes, the aliases, and the final comparison with a locked channel |
| AssetVideoPinning.SortedOnce | controller/asset_video_access.go:126-146 | the two lists hold each handle of the request once, split by whether it is registered |
| AssetVideoPinning.LockedIsPinned | controller/asset_video_access.go:147-261 | a locked request has one accepted binding for every handle, all on the locked channel in one scope and project; the registered handles alone leave no other choice |
| AssetClaims.LockedClaims | controller/asset_video_access.go:148-174 | every unregistered handle of a locked request was claimed on an enabled channel: that of the handles before it, without any the locked one, without that the current one; with the project known by then |
| AssetClaims.LockedAliases | controller/asset_video_access.go:248-250 | each handle has its canonical ID as alias exactly when the locked channel renames and there is one; nothing else has an alias |
| AssetPinningOutcomes.SortStops | controller/asset_video_access.go:131-142 | the first handle that cannot be looked up or may not be claimed says why a request is refused |
| AssetPinningOutcomes.KnownRefusal | controller/asset_video_access.go:147-247 | if the registered handles alone do not resolve, the request is refused for the reason they are |
| AssetPinningOutcomes.ClaimOutcome | controller/asset_video_access.go:150-247 | an unregistered handle fails without a channel or an answer, is refused on a channel that is not enabled, and is otherwise accepted exactly when the answer joins what is pinned |
| AssetPinningOutcomes.UnlockedIff | controller/asset_video_access.go:256-258 | a request stays unlocked exactly when it names no handle |
| BodyStorage.BytesReader.Read | common/body_storage.go:62-69 | a read delivers what is left up to the buffer, or the end |
| BodyStorage.BytesReader.Seek | common/body_storage.go:71-78 | a seek moves to the wrapped 64-bit target unless it is negative |
| BodyStorage.File.Read | common/body_storage.go:196-203 | a file read, with its own rules for empty buffers, closed files and very large reads |
| BodyStorage.File.Seek | common/body_storage.go:205-212 | a file seek, which also refuses positions beyond the largest file |
| BodyStorage.File.ReadFull | common/body_storage.go:244-249 | the whole buffer is filled, however many reads it takes |
| BodyStorage.MemoryStorage.constructor | common/body_storage.go:52-60 | a memory storage starts open at position 0 and is counted once with its size |
| BodyStorage.MemoryStorage.Read | common/body_storage.go:62-69 | a read refines the memory side of the comparison |
| BodyStorage.MemoryStorage.Seek | common/body_storage.go:71-78 | so does a seek |
| BodyStorage.MemoryStorage.Close | common/body_storage.go:80-87 | closing uncounts the storage, only the first time |
| BodyStorage.MemoryStorage.Bytes | common/body_storage.go:89-96 | the whole payload, or the closed error |
| BodyStorage.MemoryStorage.NewReader | common/body_storage.go:98-108 | a reader of its own at position 0, or the closed error |
| BodyStorage.DiskStorage.constructor | common/body_storage.go:127-156 | a disk storage starts open at position 0 and is counted once with its size |
| BodyStorage.DiskStorage.Read | common/body_storage.go:196-203 | a read refines the disk side of the comparison |
| BodyStorage.DiskStorage.Seek | common/body_storage.go:205-212 | so does a seek |
| BodyStorage.DiskStorage.Close | common/body_storage.go:214-223 | closing closes the file and uncounts the storage, only the first time |
| BodyStorage.DiskStorage.Bytes | common/body_storage.go:225-257 | the whole payload, and the cursor is where it was |
| BodyStorage.DiskStorage.NewReader | common/body_storage.go:259-275 | a second file at position 0 over the same payload, or the closed error |
| BodyStorage.CreateBodyStorage | common/body_storage.go:286-304 | memory or disk by configuration and size, memory when the file fails, always holding the payload, and counted once on its side |
| BodyStorage.CreateFromReader | common/body_storage.go:307-348 | the body is too large exactly when the stream is longer than the maximum, on either path, unless the file cannot be made; the storage made is counted once, and nothing is counted without one |
| BodyStorage.RepliesAgreeIff | common/body_storage.go:62-275 | over any sequence of operations the two storages reply alike exactly when no telling operation occurs |
| BodyStorage.StepAgreesIff | common/body_storage.go:62-275 | one operation: replies agree exactly when it is not telling, and the storages then stay alike |
| BodyStorage.ReplayIsPayload | common/body_storage.go:22-29 | a new reader delivers the payload, whatever the sizes of the buffers it is read with |
| BodyPositions.MemorySeeksIff | common/body_storage.go:71-78 | memory moves exactly to targets between the start and the largest 64-bit number, counted from the start, the position or the end, and stays otherwise |
| BodyPositions.DiskSeeksIff | common/body_storage.go:205-212 | a file moves exactly to targets between the start and the largest file |
| BodyPositions.SeekThenRead | common/body_storage.go:62-78 | on both storages a seek into the payload, from any base, and enough reads of any sizes deliver the rest of the payload from there |
| BodyPositions.ClosedRefuses | common/body_storage.go:62-108 | a closed storage refuses every operation of its own, stays closed, and can be closed again |
| BodyPositions.ReadersOutliveTheStorage | common/body_storage.go:22-29 | readers opened before reply, over any sequence of their operations, as if the storage had not been closed |
| BodyPositions.CursorsAreIndependent | common/body_storage.go:22-29 | no operation of one reader moves the storage or another reader, and none of the storage moves a reader |
| BodyStorage.KeptWholeIff | common/body_storage.go:329-335 | the limited reader keeps a body within the maximum whole, except for the largest 64-bit maximum |
| BodyStorage.CacheStats.DecrementDiskFiles | common/disk_cache_config.go:115-122 | the file counters are lowered and clamped at zero |
| BodyAccounting.RunsAreBalanced | common/disk_cache_config.go:108-134 | over any interleaving of atomic steps of creations and repeated closes, the counters are the number and size of storages counted and not yet uncounted, and no clamp ever fires |
| BodyAccounting.NextKeepsBalance | common/disk_cache_config.go:108-134 | each single atomic step keeps that balance |
| BodyAccounting.TakenOnce | common/body_storage.go:214-223 | a storage takes each of its steps, the uncounting ones included, at most once |
| BodyAccounting.AllGoneMeansZero | common/disk_cache_config.go:108-134 | after a run in which every storage was closed and uncounted, all counters are zero |
| OggWalk.GetOpusDuration | common/audio.go:196-254 | the loop returns the walk's result over 48000; it ends because each turn moves forward |
| OggWalk.OneTurn | common/audio.go:207-249 | one turn: end, step one byte, or skip a page |
| OggWalk.SkipPage | common/audio.go:235-248 | the segment table and the body it announces are skipped |
| OggWalk.WalkFindsLargest | common/audio.go:196-254 | for well-formed pages with anything but a page before, between and after them, the result is the largest granule position, or 0 |
| OggWalk.WalkShifts | common/audio.go:207-249 | what was walked over has no influence on what follows |
| OggWalk.GranuleSurvives | common/audio.go:229 | a granule position, -1 included, survives its little-endian encoding |
| OggWalk.WalkFindsAHeader | common/audio.go:207-249 | on arbitrary bytes the result is never negative and is 0 or the granule position of a complete header |

## Left out

- Transport, signing, request contexts, logging and JSON parsing: a page, a response and a request arrive parsed.
- Whitespace in JSON: the source compares some raw texts (`{}`, `null`), the model compares trees, so `{ }` counts as `{}`.
- Number texts: a number carries its source text, the text it prints as and whether it is zero; how these relate is not modelled.
- Reads without a page set, with a cookie jar or a body that cannot be replayed: they bypass the shared pages.
- Failed database writes: a check, an apply or a key change is modelled up to the write, which is taken to succeed.
- The minimum interval between checks, and a failed fetch of the upstream list: both leave the models alone.
- Rewriting totals, page numbers and cursors inside the supplier's own envelope: plain field assignments.
- Sharing whole scans between identical requests: the model checks each caller's final authorization, not the sharing.
- The status view's pages, filters, counts and shortened keys: the view here is the full list of rows.
- The decoded key cache of a channel, and reading Vertex keys from JSON: keys are taken from the text, new keys arrive as a list.
- MultiKey.ArrayAppendIff: speaks of joined keys that are read back; `ArrayAppendRowsIff` has no such condition.
- MultiKey.DeleteLineViewIff: speaks of texts that are not read as arrays, before and after; when the remaining keys happen to form one, `DeleteKeyViewIff` gives the condition.
- AssetListExposure.DoubleChargeIff: a scan may ask for any page next; which pages a supplier's list leads it to is not part of the page cache.
- RateLimiter.InMemoryRateLimiter.Request: the maximum is a natural number; a negative one makes the original fail while allocating.
- Aliasing of the bytes a memory storage returns: the payload is a value here.
- I/O failures of an opened cache file, its removal by cleanup, and counter resets.
- BodyAccounting.RunsAreBalanced: counters are unbounded; the total size of live bodies is taken to fit 64 bits.
- Texts of errors: the model tells kinds of failure apart, not their messages.
- AssetVideoPinning.LockVideoChannel: a channel's tests (enabled, protocol, ability, specific token, endpoint and key of the YH profiles) are folded into what the channel offers; a fallback channel that cannot be read counts as a failure, whatever its error.
- Readers that deliver fewer bytes than they have: the Ogg walk ends at a short read, so it is modelled over byte readers.
- Other duration formats, channel health, billing, relay conversion, and the service and model layers behind the lookups.
