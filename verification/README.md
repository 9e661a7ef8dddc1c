# google-drive-nodejs: metadata sync, namespace index and FUSE handlers in Dafny

This project models the pure logic inside a read-only FUSE mount of Google
Drive. Two source files hold it:

- `lib/google_drive.js` keeps an in-memory cache of Drive file records and a
  change cursor (`largestChangeId`). A sync run (`_loadChanges`) pages through
  the Drive change list, then folds the gathered changes into the cache.
  `_buildIndexes` then rebuilds a path index, per-folder `childItems` lists and
  `totalSize` from the flat, multi-parent record store. `getItemByPath` reads
  the path index. `getFileBytesByRange` decides what to do with each HTTP reply
  to a ranged content request.
- `lib/google_drive_fs.js` holds the FUSE handlers `_getattr`, `_readdir`,
  `_open` and `_read`. Each one turns a path-index lookup into a POSIX return
  code and a reply.

Modules, one per file:

| file | module | models |
|---|---|---|
| wrappers.dfy | `Wrappers` | `Option` (a possibly `undefined` property) and `Result` |
| drive.dfy | `Drive` | file resources, stored records with their `type` tag, and the store: a map plus the key enumeration order of the JavaScript object |
| changes.dfy | `Changes` | applying one change and a batch of changes to the store |
| indexer.dfy | `Indexer` | `getParentPaths`, the main loop of `_buildIndexes`, child lists, `totalSize`, `getItemByPath` |
| namespace.dfy | `Namespace` | theorems about a rebuilt index, stated against the parent lists of the store |
| sync.dfy | `Sync` | paging through the change list and committing the cursor |
| fetch.dfy | `Fetch` | the reply decision of `getFileBytesByRange` and its retry chain |
| handlers.dfy | `Handlers` | the four FUSE handlers and their link to a rebuilt index |

Parent paths are specified by *chains*. A chain from item `x` is a sequence of
stored items that starts at `x`. Each item in it has a non-root parent entry
naming the next one, and the last item has a parent entry with `isRoot` set.
The path of a chain is `"/" + title(last) + ... + "/" + title(x)`.
`getParentPaths` has no cycle guard. The model resolves with a stack of the
items whose resolution is in progress. Meeting one of them again gives the
error `ParentCycle`, where the source recurses until the JavaScript stack
overflows. A found parent that is a file gives the error `ParentNotFolder`,
where the source throws when it calls `indexOf` on the missing `childItems`.
Both errors abort the rebuild before the new index is installed, as both
exceptions do in the source.

Behaviour of the code worth knowing:

- An item whose parents are all missing from the store, and which has no
  root entry, gets no index entry (`Namespace.OrphanHasNoPath`). More
  generally, an item that no chain connects to the root has no path
  (`Namespace.UnreachableHasNoPath`).
- `getParentPaths` has no guard against parent cycles.
- A forbidden reply is retried without bound when `dontRetry` is unset (see
  Findings). The one caller, `_read`, passes its callback in that argument
  slot, so from `_read` the defect stays latent behind that mismatch.
- `"/"` maps to the root folder only while no item directly under the root has
  an empty title. Such an item has the path `"/"` and overwrites the root entry
  (`Namespace.SlashIsRoot`).
- The cursor starts as the number `1`, while Drive sends `largestChangeId` as a
  decimal string. The `===` test of a first run therefore never finds the cache
  up to date (`Sync.FirstRunNeverUpToDate`). The model keeps this apart with a
  tagged cursor value, `Sync.ChangeId`.
- Child lists, and so `readdir` listings, hold their items in the order of
  their first push during the rebuild. The store keeps ids in the order a
  JavaScript object enumerates them: a new id goes last, and a deletion keeps
  the order of the rest. When two items have the same path, the one that comes
  later in that order wins the index entry (`Namespace.LastPlacerWins`).

## Model

| member | source | states |
|---|---|---|
| Drive.Tag | lib/google_drive.js:139 | a stored record is tagged `Folder` exactly when its MIME type is the Drive folder type, and `File` otherwise; untagging gives back the file resource unchanged |
| Changes.ApplyChange | lib/google_drive.js:136-141 | a deletion removes its `fileId` and any other change stores the tagged file under it; every other key keeps its entry, and the store stays a duplicate-free key order matching the map; a new id is enumerated last, an existing id keeps its place, and a deletion leaves the other ids in order |
| Changes.Without | lib/google_drive.js:137 | deleting a key from the enumeration order removes exactly that key, and the order stays free of duplicates |
| Changes.WithoutKeepsOrder | lib/google_drive.js:137 | deleting a key keeps every other pair of keys in the enumeration order they had |
| Changes.ApplyChanges | lib/google_drive.js:135-142 | after a batch, each id holds what the last change naming it left, and ids no change names keep their entry (changes apply in order, so the last one wins) |
| Changes.ApplyChangesSplit | lib/google_drive.js:122 | applying the concatenated changes of several pages equals applying the pages one after another |
| Changes.ReapplyKeepsItems | lib/google_drive.js:135-142 | applying the same batch a second time leaves every stored record as it is |
| Sync.Gather | lib/google_drive.js:113-131 | paging completes only with a cursor different from the stored one |
| Sync.GatherNeverUpToDate | lib/google_drive.js:117 | paging never stops as up to date when no page carries a cursor strictly equal to the stored one |
| Sync.FirstRunNeverUpToDate | lib/google_drive.js:14 | from the initial cache, whose cursor is the number 1, pages with string cursors never count as up to date |
| Sync.LoadChanges | lib/google_drive.js:102-155 | a run that does not complete leaves cache and cursor untouched; a first page reporting the stored cursor ends the run as up to date (every other halt is stated by Sync.SyncHalts); a committed run moves the cursor, and reports exactly `Build` of the committed store: its index when the rebuild succeeds, its error when it fails |
| Sync.GatherFinal | lib/google_drive.js:113-149 | paging completes exactly when some page k ends it: every page up to k reports a new cursor, every page before k has a next-page token, and page k has none; the gathered changes are then those of pages 0..k in order, with page k's cursor |
| Sync.SyncCommitsAtFinalPage | lib/google_drive.js:117-146 | a run changes the cache exactly when a final page exists; the cursor then becomes that page's `largestChangeId` and the store receives the changes of every page up to it, so the cursor is never written part-way |
| Sync.GatherHalts | lib/google_drive.js:113-131 | paging halts with an error exactly when the first reply it reaches that is not a page asking for more is a failed request (line 116), as up to date exactly when that reply is a page carrying a cursor `===` the stored one (line 117), and waits exactly when every reply is a page asking for more |
| Sync.SyncHalts | lib/google_drive.js:113-131 | the same three halts, stated for the status `_loadChanges` reports with the cache untouched: a failed request reached by paging is an error, a reached page with the stored cursor means up to date |
| Indexer.ParentPaths | lib/google_drive.js:179-210 | every child-list push made while resolving an item is justified by a parent entry: a root push by an `isRoot` entry, a folder push by an entry naming that stored folder |
| Indexer.EntryPaths | lib/google_drive.js:185-207 | the pass over the parent entries only makes justified child-list pushes |
| Indexer.Contribution | lib/google_drive.js:186-205 | one parent entry only makes justified child-list pushes |
| Indexer.Place | lib/google_drive.js:217-221 | the index gains exactly `pp + "/" + title` for each parent path `pp`, all mapped to the item, and every other key keeps its entry |
| Indexer.Walk | lib/google_drive.js:212-222 | the index built by the main loop keeps `"/"`, refers only to stored items, and every push is justified |
| Indexer.Containers | lib/google_drive.js:162-172 | the root and exactly the stored folders start with an empty child list |
| Indexer.Attach | lib/google_drive.js:189-198 | replaying the pushes keeps each list's starting items as its prefix, never puts an item on a list twice, and leaves an item on a list exactly when it was there already or some push put it there |
| Indexer.AttachFollowsFirstPushes | lib/google_drive.js:189-198 | every item a replay adds to a list was pushed onto it, and the added items stand in the order of their first pushes |
| Indexer.SizeOf | lib/google_drive.js:174-176 | an item adds its `fileSize` to the total, and nothing when it has none |
| Indexer.TotalSize | lib/google_drive.js:165-176 | the running total over the keys is at least each key's size, and is 0 exactly when every key adds nothing |
| Indexer.Build | lib/google_drive.js:159-230 | a rebuilt index maps `"/"`, refers only to stored items, gives the root and every folder a child list, no child list holds an item twice, and `totalSize` is the size sum over the stored keys |
| Indexer.GetItemByPath | lib/google_drive.js:51-53 | a lookup finds a node exactly for the paths the index holds |
| Namespace.EntryPathsCover | lib/google_drive.js:185-207 | a successful pass over the parent entries includes every path and push that each entry contributes |
| Namespace.PathsSound | lib/google_drive.js:179-210 | every parent path found for an item is the parent path of a chain from that item to the root |
| Namespace.EntryPathsSound | lib/google_drive.js:185-207 | the same for the pass over the parent entries |
| Namespace.ContributionSound | lib/google_drive.js:186-204 | the same for one entry: a root entry gives `""`, and a folder entry gives `pp + "/" + title(P)` for a parent path `pp` of the folder P |
| Namespace.PathsComplete | lib/google_drive.js:179-210 | every chain from an item to the root gives one of the parent paths found for it |
| Namespace.AscentAvoidsStack | lib/google_drive.js:193-200 | a successful resolution never meets an item still being resolved on any ascent of parent entries, and no ascent returns to its start |
| Namespace.LinksComplete | lib/google_drive.js:186-198 | resolving an item pushes it onto the root list if it has an `isRoot` entry, and onto the list of every stored parent it names |
| Namespace.WalkVisits | lib/google_drive.js:212-222 | a successful main loop resolved every key, kept all of its pushes and placed all of its paths |
| Namespace.WalkSound | lib/google_drive.js:212-222 | every index entry is `"/"` for the root, or a parent path of the item it maps to followed by the item's title |
| Namespace.LastPlacerWins | lib/google_drive.js:212-221 | of the keys that place a path, the one enumerated last owns the index entry: a later assignment overwrites earlier ones |
| Namespace.WalkSucceeds | lib/google_drive.js:212-222 | the main loop succeeds when every key resolves |
| Namespace.IndexPaths | lib/google_drive.js:217-221 | in a rebuilt index the root's only path is `"/"`; every item entry is the path of a chain from that item to the root; and the path of every chain is in the index |
| Namespace.UnreachableHasNoPath | lib/google_drive.js:212-221 | an item that no chain of parent entries connects to the root gets no index entry |
| Namespace.OrphanHasNoPath | lib/google_drive.js:180-195 | an item without a root entry whose parent ids are all missing from the store gets no index entry |
| Namespace.SlashIsRoot | lib/google_drive.js:162-163 | `"/"` maps to the root folder when no item directly under the root has an empty title |
| Namespace.ListedIffLinked | lib/google_drive.js:189-198 | an item is on a rebuilt child list exactly when some push of the main loop put it there |
| Namespace.LinkedIffGenuine | lib/google_drive.js:186-198 | the pushes of the main loop are exactly those the stored parent entries justify |
| Namespace.RootChildren | lib/google_drive.js:186-190 | the root lists exactly the stored items that have an `isRoot` parent entry, each once |
| Namespace.FolderChildren | lib/google_drive.js:193-198 | a folder lists exactly the stored items that have a parent entry naming it, each once |
| Namespace.ChildrenInPushOrder | lib/google_drive.js:186-198 | every child list of a rebuilt index is in the order in which the main loop first pushed its items |
| Namespace.BuildNeedsFolderParents | lib/google_drive.js:197 | a rebuild succeeds only if every parent entry that names a stored item names a folder |
| Namespace.BuildNeedsNoCycle | lib/google_drive.js:200 | a rebuild succeeds only if no ascent of parent entries comes back to where it started |
| Namespace.RankedPathsSucceed | lib/google_drive.js:179-210 | in an acyclic store whose parents are folders, resolving an item succeeds whenever every item on the stack ranks above it |
| Namespace.RankedEntriesSucceed | lib/google_drive.js:185-207 | the same for the pass over the parent entries |
| Namespace.RankedContributionSucceeds | lib/google_drive.js:186-205 | the same for one parent entry |
| Namespace.AcyclicBuildSucceeds | lib/google_drive.js:159-230 | a store whose parent graph has a decreasing ranking and whose parents are folders always rebuilds |
| Namespace.TotalSizeWithout | lib/google_drive.js:174-176 | taking one key out of the size sum takes out exactly its size |
| Namespace.TotalSizeIgnoresOrder | lib/google_drive.js:165-177 | `totalSize` depends only on the stored records, not on their enumeration order, and so not on how many paths an item has |
| Fetch.Decide | lib/google_drive.js:65-81 | a 403 reply without `dontRetry` refreshes and retries; otherwise any status but 206 is an error carrying the status; 206 delivers the body; a transport error is an error |
| Fetch.Run | lib/google_drive.js:57-82 | a fetch is still waiting exactly while every request so far was forbidden and got a fresh URL; otherwise it answers as the request the chain ends at: the 206 body, the error status or transport error of that reply, or a failed refresh |
| Fetch.FetchAsWritten | lib/google_drive.js:74 | as written, the fetch is still waiting exactly while every request so far was forbidden and got a fresh URL, whatever their number |
| Fetch.FetchRetryOnce | lib/google_drive.js:74 | with the retry flag passed on, the fetch can be waiting only while at most one request has been answered |
| Fetch.AsWrittenRetriesForever | lib/google_drive.js:74 | as written, any number of 403 replies leaves the fetch waiting on yet another request |
| Fetch.RetryOnceSettles | lib/google_drive.js:67-75 | once the retry passes `dontRetry` on, every fetch is answered after at most two requests: as the first request settles, or, when it was refused and refreshed, as the second one settles |
| Fetch.RetryOnceReportsForbidden | lib/google_drive.js:67-77 | once the retry passes `dontRetry` on, a URL still refused after its refresh is reported as HTTP status 403 |
| Handlers.ToInt32 | lib/google_drive_fs.js:96 | `n \| 0` is the signed 32-bit value congruent to n modulo 2^32, and n itself below 2^31 |
| Handlers.DateOf | lib/google_drive_fs.js:82-85 | a time is set exactly when the record carries a non-empty date |
| Handlers.Getattr | lib/google_drive_fs.js:75-103 | ENOENT (-2) with no stat for a missing path; a folder gets size 4096 and mode 040555; a file gets `fileSize \| 0` and mode 0100444; atime and mtime are the record's `lastViewedByMeDate` and `modifiedDate`, set only when those are truthy (lines 82-85) |
| Handlers.Readdir | lib/google_drive_fs.js:113-124 | -2 for a missing path and -22 for a file; a folder lists ".", ".." and then each child's title in child-list order (first-push order, `Namespace.ChildrenInPushOrder`), so its length is the number of children plus 2 |
| Handlers.Open | lib/google_drive_fs.js:136-141 | open returns 0 exactly when getattr finds the path and -2 otherwise, whatever the flags |
| Handlers.Read | lib/google_drive_fs.js:155-165 | -2 for a missing path, -1 for a folder or a file without download URL; otherwise -16 when the fetch fails and the fetch's byte count when it succeeds |
| Handlers.GetattrFindsNamespace | lib/google_drive_fs.js:76-77 | over a rebuilt store, getattr succeeds exactly on `"/"` and on the paths of chains to the root |
| Handlers.ReaddirListsChildren | lib/google_drive_fs.js:118-123 | over a rebuilt store, a folder's listing holds, after "." and "..", the titles of its child list; that list holds each item attached to the folder exactly once and nothing else |
| Handlers.AttachedExactly | lib/google_drive.js:186-198 | the child list of the root or of a folder holds exactly its attached items, each once |

## Left out

- Network calls: Drive discovery, `about.get` with its quota logging, `changes.list`, `files.get` and the signed `auth.request` are foreign calls. The model takes their replies as inputs: a sequence of page replies, and a sequence of fetch rounds.
- The request parameters of `changes.list` (`maxResults` 100, `startChangeId`, `pageToken`) are not modelled, because the replies are given.
- The JSON snapshot (`_loadCache`, `_saveCache`, ENOENT tolerance) is file I/O. A committed run returns the new cache, but writing it is not modelled.
- The 10-second `setInterval` sync and any overlap between runs are timers and concurrency, and are not modelled.
- FUSE mounting and config handling (`load`, `newConfig`, `_startFS`) are I/O and interactive input.
- `_read` calls `getFileBytesByRange` with arguments that do not match its signature, and copying bytes into the buffer is I/O. The content fetch in `Handlers.Read` is an opaque oracle from (id, offset, length) to an error or a byte count.
- The retry updates the item's `downloadUrl` in place. The model returns only the fetch result, and does not model that update.
- `new Date(...)` parsing is not modelled: atime and mtime carry the date strings as Drive sends them.
- `fileSize` is Drive's decimal string. The model holds its value as a natural number. `totalSize` is summed without the floating-point rounding that JavaScript numbers have above 2^53.
- Items are keyed by the change's `fileId`. `_buildIndexes` re-keys them by `item.id`, which is the same id for every change Drive sends.
- JavaScript enumerates integer-like object keys before all others. The store order models only insertion order, because Drive ids are not integer-like.
- Logging (`console.warn`, `logWithTimestamp`, `bytesToSize`) is output only.
- lib/utils.js, app.js, lib/profile.js, lib/google_auth.js and lib/health_logger.js are not part of this model. They hold date formatting, floating-point size formatting, CLI dispatch, config persistence, OAuth setup and telemetry.
- Namespace.AcyclicBuildSucceeds: the failure conditions are proved in two parts. A successful rebuild has folder parents and no cyclic ascent (`BuildNeedsFolderParents`, `BuildNeedsNoCycle`). Folder parents plus a decreasing ranking give success. The proof does not show that a cycle-free finite graph always has such a ranking.
- Sync.LoadChanges: when the rebuild fails, the source has already changed the in-memory cursor and records and then throws. The model returns that changed cache with `IndexFailed`, and does not model the process ending.

## Findings

| source | as written | input that shows it | evidently intended | confidence | as-written member | corrected member |
|---|---|---|---|---|---|---|
| lib/google_drive.js:74 | after refreshing the download URL, the retry passes `false` as `dontRetry`, so a second 403 refreshes and retries again | a call with `dontRetry` unset, and a server that answers 403 to every ranged request (for example a rate limit): the fetch never completes and never reports an error; latent from `_read` at lib/google_drive_fs.js:160, which passes a function (truthy) in the `dontRetry` slot | the retry passes `true`, so a second 403 is reported as an HTTP error and a fetch makes at most two requests | high, not executed | Fetch.AsWrittenRetriesForever | Fetch.RetryOnceSettles |

`Fetch.FetchAsWritten` models the code as written, and `Fetch.FetchRetryOnce` is the corrected definition. `Fetch.RetryOnceReportsForbidden` proves the other half of the intended behaviour: a second 403 is reported as HTTP status 403. `Handlers.Read` treats the fetch as an oracle, so its contract holds under either definition.
