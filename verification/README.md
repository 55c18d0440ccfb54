# A verified model of the repository engine

This project models the parts of a content-addressed backup repository on which the safety of the data rests, and proves what they promise. Blobs (chunks of file data and serialized directory trees) are stored in pack files, an index tells where each blob is, snapshots point at trees, and lock files keep conflicting operations apart.

| file | what it models |
|---|---|
| `Common.dfy` | types that several components use |
| `Locks.dfy` | the lock protocol over a shared directory of lock files, as steps of any number of interleaved processes |
| `TreeStream.dfy` | the scheduler that walks directory trees in parallel, and the collection of used blobs on top of it |
| `Bits.dfy`, `HashedArrayTree.dfy`, `IndexMap.dfy` | the in-memory hash table of the index: a growable array of blocks and a chained hash table inside it |
| `BlobIndex.dfy`, `Index.dfy` | one index: as a value with its laws, and as the object that holds two hash tables |
| `IndexFiles.dfy` | writing indexes to files, reading them back, and rewriting all indexes |
| `MasterIndex.dfy` | the collection of all indexes under concurrent use |
| `Filter.dfy` | include and exclude patterns with `**`, and the pruning of directories |
| `Policy.dfy` | the expiry policy that selects the snapshots to keep |
| `Pack.dfy`, `PackerManager.dfy` | the pack file format and the filling of packs |
| `StreamPack.dfy`, `Repack.dfy` | streaming blobs out of packs and rewriting packs concurrently |
| `FilesWriter.dfy`, `RestoreRun.dfy`, `RestorePlan.dfy`, `Restore.dfy` | restoring files: writing them out of order, sparsely and by several workers, and planning the writes |

Conventions. Blob and file IDs are numbers (in pack headers: sequences of bytes). Protocols and concurrent objects are state machines: `Next` relates two states by one step, `Run` is a whole interleaving, and the main theorems speak about every state of every run. Loops and objects of the program are methods and classes that are proved against functions on values; the laws are lemmas about these functions. Choices that the program leaves to the scheduler, to map iteration or to the outside world are arbitrary in the model. Integers are unbounded unless a width is written out.

Where the program does less than its documentation suggests, the model follows the program:

* A pattern with two or more `**` fails to match some path that it describes (`MatchMayMiss` is an example), because each later `**` counts as one component in the length bound. `DecidesExactly` says that match decides the meaning of exactly the patterns with at most one `**`; on paths, which have at least one component, `**/**` is the only other one (`DecidesPathsExactly`). `MatchExact` says for every pattern which expansions are tried.
* Pruning is safe for exactly the directories that do not end in a slash (`PruningSafeExactly`). The root directory `/` is the one that a walk of a file system produces (`PruningAtSlash`).
* A plain refresh of a lock does not look whether its old file still exists. Mutual exclusion needs that nobody removes lock files of live locks (`RemovalBreaksExclusion`). A stale refresh that confirms a lock is right about it if and only if no plain refresh started after a lapse (`StaleRefreshExactly`, with a run in `BlindRefreshUncovers`).
* Saving an index gives the index its ID even when the write fails, so that its entries are merged although no file has them (`FailedSaveMerged`). In every run the merged entries are in index files except for those whose save failed (`SavingIsSafe`).
* When a new sparse file cannot be given its size, the write fails but the file stays in the table of open files (`AcquireWriter`).

## Model

| member | source | states |
|---|---|---|
| `LockProtocol.MutualExclusion` | restic/lock.go:109-199 | in every interleaving of acquiring, refreshing, releasing and crashing locks without removal of stale files, an exclusive holder is the only holder |
| `LockProtocol.ConflictNeedsLapse` | restic/lock.go:109-199 | even with removal of files judged stale, two conflicting locks are held together only if one of them was at some moment without any lock file |
| `LockProtocol.NoRemovalNoLapse` | restic/lock.go:260-278 | refreshing and releasing never leave an engaged lock without its file: the new file exists before the old one goes |
| `LockProtocol.StaleRefreshCovers` | restic/lock.go:281-340 | when the stale refresh of a lock that was not refreshed blindly has seen its old file the second time, the lock's files covered every instant since its creation, and no conflicting lock was acquired in between |
| `LockProtocol.StaleRefreshExactly` | restic/lock.go:281-340 | a confirmed lock was covered at every instant if and only if no plain refresh of it started after a lapse |
| `LockProtocol.AcquiredUnlapsed` | restic/lock.go:109-145 | newLock only returns locks that have had a file all the time |
| `LockProtocol.BecomesHeld` | restic/lock.go:109-199 | only a second check that has passed makes a lock held |
| `LockProtocol.ActorExcludes` | restic/lock.go:164-199 | of two conflicting locks past their last listing, at least one still has to load a file that makes its check fail, whatever step one of them makes |
| `LockProtocol.StepKeepsInv` | restic/lock.go:109-340 | every step of every lock, crashes and stale removals included, keeps the protocol invariant |
| `LockProtocol.RunKeepsInv` | restic/lock.go:109-340 | the invariant holds in every state of every run |
| `LockProtocol.LapsesAreForever` | restic/lock.go:260-340 | a moment without a file is never forgotten by the history of a run |
| `LockProtocol.AcquireAlone` | restic/lock.go:109-145 | after every run that has left no lock file an exclusive lock can be acquired, by the steps of newLock |
| `LockProtocol.AcquireShared` | restic/lock.go:109-199 | after every run in which all files present are of non-exclusive locks a further non-exclusive lock can be acquired; it is held then and all other locks are as before |
| `LockProtocol.SharedTogether` | restic/lock.go:109-199 | for every n there is a run at whose end n non-exclusive locks are held at once |
| `LockProtocol.LoadAllShared` | restic/lock.go:164-199 | a non-exclusive lock loads any number of files of non-exclusive locks without failing its check |
| `LockProtocol.RefreshHeld` | restic/lock.go:260-278 | every held lock can be refreshed; afterwards it is held under its new file, the old file is gone and nothing else has changed |
| `LockProtocol.RefreshStale` | restic/lock.go:281-340 | every held lock whose file exists can be refreshed as a stale one, with the same result |
| `LockProtocol.ReleaseHeld` | restic/lock.go:212-218 | every held lock can be released; it is not held then and its file is gone |
| `LockProtocol.RemovalBreaksExclusion` | restic/lock.go:381-401 | a run in which a live lock's file is removed as stale and two exclusive locks are held at once |
| `LockProtocol.BlindRefreshUncovers` | restic/lock.go:260-278 | a run in which a plain refresh without a look at the old file makes a later stale refresh confirm a lock that had lapsed |
| `TreeStream.FindUsedBlobs` | restic/find.go:25-60 | on every schedule of scheduler, loaders and consumer the loop ends; it succeeds if and only if every tree that a chain of directory nodes leads to, from a root and not through a known tree, is in the repository; then the trees streamed and the tree blobs added are exactly these, each streamed once; a data blob is in the result if and only if it was before or some file node of such a tree lists it; each root is reported once |
| `TreeStream.DrainedIsReachable` | restic/tree_stream.go:48-151 | when nothing is left on the way, the trees received are exactly those reachable from the roots without passing through known trees |
| `TreeStream.DrainedOnce` | restic/tree_stream.go:48-151 | no tree is received twice, and each root has been reported exactly once |
| `TreeStream.SkipKeeps` | restic/tree_stream.go:67-78 | dropping a known tree from the backlog keeps the scheduler invariant, root counters included |
| `TreeStream.ClaimKeeps` | restic/tree_stream.go:67-86 | taking an unknown tree from the backlog keeps the invariant |
| `TreeStream.SendKeeps` | restic/tree_stream.go:97-99 | handing a tree to a loader keeps the invariant |
| `TreeStream.ReceiveKeeps` | restic/tree_stream.go:101-143 | receiving a loaded tree and pushing its subtrees keeps the invariant: nothing reachable is forgotten, nothing else is visited, counters stay exact |
| `TreeStream.FinalBlobs` | restic/find.go:25-60 | the collected set is the earlier one plus the reachable trees and the data blobs of their file nodes |
| `TreeStream.SubtreesAre` | restic/tree.go:97-105 | the subtrees of a tree are exactly the IDs that its directory nodes name |
| `TreeStream.UsedIsReachable` | restic/tree_stream.go:48-151 | what the scheduler may visit is exactly what chains of directory nodes lead to |
| `TreeStream.UsedBlobsAre` | restic/find.go:40-58 | the collected set in terms of the nodes: tree blobs and data blobs, both directions |
| `TreeStream.CollectContents` | restic/find.go:47-54 | the loops over nodes and contents insert exactly the data blobs of the file nodes |
| `TreeStream.InitBacklog` | restic/tree_stream.go:59-64 | each root is in the backlog once, with a counter of one |
| `TreeStream.PushSubtrees` | restic/tree_stream.go:121-135 | subtrees are pushed without null IDs, and the root's counter grows by their number |
| `TreeStream.Stream.constructor` | restic/tree_stream.go:48-64 | the scheduler starts in a state that satisfies its invariant |
| `TreeStream.Stream.Drop` | restic/tree_stream.go:67-78 | the newest item of the backlog is skipped and its root's counter lowered, with a report when it reaches zero |
| `TreeStream.Stream.Claim` | restic/tree_stream.go:67-86 | the newest item of the backlog is remembered as seen and waits for a loader; fewer trees remain unclaimed |
| `TreeStream.Stream.Send` | restic/tree_stream.go:97-99 | the waiting item is with the loaders |
| `TreeStream.Stream.Receive` | restic/tree_stream.go:101-143 | any loaded tree is taken, its subtrees are pushed, and it waits for the consumer |
| `TreeStream.Stream.Deliver` | restic/tree_stream.go:145-148 | the received tree goes to the consumer |
| `TreeStream.Stream.Consume` | restic/find.go:40-58 | the consumer adds exactly the data blobs that file nodes of the tree list, or stops at a tree that could not be loaded |
| `HashedArrayTree.JoinedKeeps` | internal/index/indexmap.go:204-231 | joining blocks pairwise keeps the sequence of entries |
| `HashedArrayTree.JoinPairs` | internal/index/indexmap.go:204-231 | the loop joins the blocks in place into the new block list |
| `HashedArrayTree.Tree.constructor` | internal/index/indexmap.go:163-175 | a new tree is empty |
| `HashedArrayTree.Tree.Alloc` | internal/index/indexmap.go:177-183 | one entry is appended; the tree stays valid, which includes fewer than one block of unused slots and a block size whose square is at most max(16, 4 * size) |
| `HashedArrayTree.Tree.Index` | internal/index/indexmap.go:185-189 | mask and shift split a position into block and place in the block |
| `HashedArrayTree.Tree.Ref` | internal/index/indexmap.go:191-198 | the i-th entry is the i-th one allocated |
| `HashedArrayTree.Tree.Set` | internal/index/indexmap.go:191-198 | writing through a reference changes exactly that entry |
| `HashedArrayTree.Tree.Double` | internal/index/indexmap.go:204-231 | doubling the block size keeps all slots in order and leaves a quarter of the blocks used |
| `HashedArrayTree.Tree.Grow` | internal/index/indexmap.go:204-231 | afterwards there is room for one more entry, old slots are kept, new ones are zero, less than one block is unused |
| `IndexMap.ChainStep` | internal/index/indexmap.go:67-100 | every next index is smaller than its own, and following it skips only entries with other IDs |
| `IndexMap.ChainStart` | internal/index/indexmap.go:67-100 | the head of a bucket leads to all entries of an ID, newest first |
| `IndexMap.NewestFirstIs` | internal/index/indexmap.go:67-82 | the records of an ID are those at decreasing positions that cover exactly the positions with that ID |
| `IndexMap.RelinkStep` | internal/index/indexmap.go:102-113 | relinking one more entry into the larger table keeps the chains of the entries before it right |
| `IndexMap.LastInIsLast` | internal/index/indexmap.go:102-125 | the head of a bucket is the last entry hashed to it |
| `IndexMap.Map.constructor` | internal/index/indexmap.go:127-133 | a new table holds nothing |
| `IndexMap.Map.Add` | internal/index/indexmap.go:35-54 | the table holds its old records and the new one, in order, across growth |
| `IndexMap.Map.ForeachWithID` | internal/index/indexmap.go:67-82 | visits exactly the records of an ID, in reverse order of insertion |
| `IndexMap.Map.Get` | internal/index/indexmap.go:85-100 | returns the newest record of an ID, or nothing if there is none |
| `IndexMap.Map.Foreach` | internal/index/indexmap.go:57-64 | visits all records in order of insertion until the callback stops it |
| `IndexMap.Map.GrowBuckets` | internal/index/indexmap.go:102-113 | twice as many buckets, the same records, chains rebuilt |
| `IndexMap.Map.Relink` | internal/index/indexmap.go:102-113 | one step of the rebuild |
| `IndexMap.Map.Init` | internal/index/indexmap.go:127-133 | the first table has 64 buckets and no entries |
| `IndexMap.Map.Prepend` | internal/index/indexmap.go:35-54 | a new entry becomes the head of its chain |
| `IndexMap.Map.Hash` | internal/index/indexmap.go:115-125 | masking the hash gives a bucket: the hash modulo the number of buckets |
| `BlobIndex.StorePackAppends` | internal/index/index.go:132-146 | storing a pack appends exactly its blobs of each type |
| `BlobIndex.MergedIsUnion` | internal/index/index.go:455-499 | the merged entries are the union: the first index keeps its multiplicities, what only the second has appears once |
| `BlobIndex.MergedRecsPacked` | internal/index/index.go:455-499 | the shifted pack numbers still mean the same packs |
| `BlobIndex.MergePacked` | internal/index/index.go:455-499 | merging two indexes gives the merged entries for both blob types |
| `BlobIndex.MergeAnswers` | internal/index/index.go:455-499 | the merged index has a blob, and finds an entry, if and only if one of the two did |
| `IndexObject.FoundRecords` | internal/index/index.go:164-173 | looking up records and then their packs is looking up packed blobs |
| `IndexObject.FoundHas` | internal/index/index.go:164-173 | a lookup returns exactly the packed blobs with that ID |
| `IndexObject.FoundNonempty` | internal/index/index.go:176-181 | Has is true if and only if Lookup returns something |
| `IndexObject.HasIdenticalEntry` | internal/index/index.go:474-484 | true if and only if an identical packed blob is there already |
| `IndexObject.MergeEntry` | internal/index/index.go:486-492 | an entry is added unless an identical one is there |
| `IndexObject.MergeTable` | internal/index/index.go:469-493 | the loop over the second table adds exactly the shifted records that are new |
| `IndexObject.Index.constructor` | internal/index/index.go:57-61 | a new index is empty and not final |
| `IndexObject.Index.Store` | internal/index/index.go:72-80 | one record is appended to the table of its type |
| `IndexObject.Index.StorePack` | internal/index/index.go:132-146 | the index becomes the one with the pack stored; requires an index that is not final, else the program panics |
| `IndexObject.Index.AddToPacks` | internal/index/index.go:65-68 | the pack gets the next number |
| `IndexObject.Index.Lookup` | internal/index/index.go:164-173 | appends the found packed blobs, newest first |
| `IndexObject.Index.Has` | internal/index/index.go:176-181 | true if and only if the index has the blob |
| `IndexObject.Index.Finalize` | internal/index/index.go:381-387 | marks the index final and changes nothing else |
| `IndexObject.Index.SetID` | internal/index/index.go:404-420 | succeeds if and only if the index is final and has no ID |
| `IndexObject.Index.MergeFrom` | internal/index/index.go:455-499 | fails on an index that is not final; else becomes the merged index, the other one unchanged |
| `IndexFiles.GeneratePackList` | internal/index/index.go:320-354 | the list holds exactly the index's packed blobs, with multiplicity, each pack once |
| `IndexFiles.DecodeIndexBag` | internal/index/index.go:509-547 | decoding an index file gives back exactly the listed packed blobs |
| `IndexFiles.DecodeCount` | internal/index/index.go:509-547 | decoding an index file gives every packed blob, under its own type, as often as the file lists it under its pack |
| `IndexFiles.EachByPack` | internal/index/index.go:248-291 | in whatever order the map is iterated, the groups hold exactly the blobs outside blacklisted packs of a final index |
| `IndexFiles.KeptCount` | internal/index/index.go:248-291 | an entry is kept with its multiplicity, or not at all when the index is final and its pack is on the blacklist |
| `IndexFiles.WriteFile` | internal/index/master_index.go:340-350 | a written file adds exactly the index's blobs and its supersedes list |
| `IndexFiles.TakeOver` | internal/index/master_index.go:311-324 | wherever an index is cut for being full, written files and the open index together gain exactly the groups |
| `IndexFiles.Save` | internal/index/master_index.go:273-360 | wherever the files are cut, they list every packed blob exactly as often as the old indexes had it, not counting blacklisted packs of final indexes, and decoding them gives the same; an ID is obsolete if and only if it is an extra one or the ID of a final index, and if and only if a new file supersedes it |
| `MasterIndex.MergeFinalFinds` | internal/index/master_index.go:242-266 | merging final indexes changes no lookup |
| `MasterIndex.MergeFinalLeaves` | internal/index/master_index.go:242-266 | the first index stays, of the others exactly the final ones with an ID are taken out, and no other index changes |
| `MasterIndex.IndexedFinds` | internal/index/master_index.go:91-107 | a blob is indexed if and only if some lookup result exists for it |
| `MasterIndex.StoreTarget` | internal/index/master_index.go:159-178 | exactly one index changes, it is not final, and it gets exactly the blobs of the pack |
| `MasterIndex.StoreWhere` | internal/index/master_index.go:159-178 | this index is the first one that is not final, or a new one at the end when all are final |
| `MasterIndex.StoreFinds` | internal/index/master_index.go:159-178 | afterwards exactly the pack's blobs are found in addition |
| `MasterIndex.StepKeepsInv` | internal/index/master_index.go:68-266 | every step of every caller keeps the invariant |
| `MasterIndex.RunKeepsInv` | internal/index/master_index.go:68-404 | the invariant holds in every state of every run |
| `MasterIndex.HasNeverForgets` | internal/index/master_index.go:91-107 | once Has is true for a blob it stays true in the whole run |
| `MasterIndex.FindsExactly` | internal/index/master_index.go:39-48 | in every state of every run Lookup finds exactly the entries of the packs stored and the indexes inserted so far, however indexes were finalized, saved and merged |
| `MasterIndex.PendingExactly` | internal/index/master_index.go:68-178 | a blob is pending exactly from the call that granted it until a pack with it is stored |
| `MasterIndex.KnownExactly` | internal/index/master_index.go:91-107 | Has is true if and only if the blob was granted, or a pack or an inserted index with it has come in |
| `MasterIndex.AddPendingGrantsOnce` | internal/index/master_index.go:68-87 | of all calls for the same blob at most one returns true |
| `MasterIndex.SavingIsSafe` | internal/index/master_index.go:182-223 | each index is handed to one saver only; an index being saved is final and has no ID, so neither panic can happen; everything merged is in index files, except for entries whose save failed |
| `MasterIndex.FailedSaveMerged` | internal/index/master_index.go:363-394 | for every blob a run in which its index cannot be written, gets its ID, and is merged: the entry is found and no index file has it |
| `MasterIndex.MasterIndexes.constructor` | internal/index/master_index.go:25-32 | starts with one empty final index |
| `MasterIndex.MasterIndexes.AddPending` | internal/index/master_index.go:68-87 | true if and only if the blob was neither pending nor indexed; it is pending afterwards |
| `MasterIndex.MasterIndexes.StorePack` | internal/index/master_index.go:159-178 | the collection becomes the one with the pack stored, its blobs no longer pending |
| `MasterIndex.MasterIndexes.FinalizeFullIndexes` | internal/index/master_index.go:182-223 | exactly the open indexes that are full become final and are returned |
| `MasterIndex.MasterIndexes.MergeFinalIndexes` | internal/index/master_index.go:242-266 | the loop that compacts the slice in place computes the merged collection |
| `Filter.MatchExact` | internal/filter/filter.go:150-221 | match succeeds if and only if one of the expansions it tries fits the path |
| `Filter.ExpandedIs` | internal/filter/filter.go:150-166 | expanding one `**` after the other is replacing the i-th `**` by the i-th number of stars, all at once |
| `Filter.ChildMatchExact` | internal/filter/filter.go:118-138 | childMatch is true if and only if the pattern is not absolute or its parts before the first `**` fit the directory as far as both go |
| `Filter.MatchFinds` | internal/filter/filter.go:150-221 | a match comes from an expansion that was tried, also with a component matcher that may fail |
| `Filter.MatchMisses` | internal/filter/filter.go:150-221 | when match says no, no expansion that was tried fits |
| `Filter.MatchSound` | internal/filter/filter.go:150-221 | a match is one by the meaning of the pattern: some replacement of each `**` by stars fits |
| `Filter.MatchDecidesMeaning` | internal/filter/filter.go:150-221 | with at most one `**` match decides the meaning on every path |
| `Filter.DecidesExactly` | internal/filter/filter.go:150-221 | match agrees with the meaning for every matcher and path if and only if the pattern has at most one `**` |
| `Filter.DecidesPathsExactly` | internal/filter/filter.go:150-221 | on paths with at least one component it also does for `**/**`, and for no other pattern |
| `Filter.MissesShort` | internal/filter/filter.go:150-221 | with n of the `**`, an expansion by fewer than n - 1 stars is missed on a path of its length |
| `Filter.MatchFindsAbove` | internal/filter/filter.go:150-221 | a path that the pattern describes is matched at the latest a few levels further down |
| `Filter.MatchMayMiss` | internal/filter/filter.go:150-221 | `a/**/b/**/c` does not match `a/x/b/c` although it describes it |
| `Filter.MatchExtends` | internal/filter/filter.go:150-221 | what matches a path is not refused below it |
| `Filter.ChildMatchSound` | internal/filter/filter.go:118-138 | when childMatch says no, nothing below the directory matches |
| `Filter.PruneLoop` | internal/filter/filter.go:283-329 | the fold over the patterns keeps the pruning promise from any intermediate state, early stop and negations included |
| `Filter.ListFromMeans` | internal/filter/filter.go:283-329 | from any intermediate state the loop with its early stop gives the answer of the last pattern that matches, or what was found before if none does |
| `Filter.ListMeans` | internal/filter/filter.go:283-329 | a path is matched if and only if some pattern matches it and the last one that does is not negated; something below may match if and only if some pattern that is not negated allows it and no later negated one matches; it has an answer whenever the path is not empty and no pattern is bad |
| `Filter.PruningSound` | internal/filter/filter.go:283-329 | when the list says that nothing below a directory may match, it matches none of its descendants |
| `Filter.SlashRulesOut` | internal/filter/filter.go:283-329 | for a directory that ends in a slash the list rules out the entry that an absolute pattern of the same length matches |
| `Filter.PruningAtSlash` | internal/filter/filter.go:283-329 | the list rules out `/foo` below `/` and `/foo/bar` below `/foo/` although it matches them |
| `Filter.PruningSafeExactly` | internal/filter/filter.go:283-329 | pruning is safe for all matchers, pattern lists and descendants of a directory if and only if it does not end in a slash |
| `Filter.SplitConcat` | internal/filter/filter.go:60-66 | the components of a joined path are those of its two parts |
| `Filter.HasDoubleWildcard` | internal/filter/filter.go:140-148 | finds the first `**` |
| `Filter.MatchWindow` | internal/filter/filter.go:200-216 | the loop that compares from the last component backwards computes whether the window fits |
| `Filter.MatchPlain` | internal/filter/filter.go:178-220 | the loop over offsets, largest first, computes the match of a pattern without `**` |
| `Filter.AppendSuffix` | internal/filter/filter.go:156-165 | the suffix is written into the shared buffer after the stars, the rest of the buffer before it stays |
| `Filter.NextExpansion` | internal/filter/filter.go:156-165 | the shared buffer holds prefix and stars from one round to the next, and the round's pattern is the expansion with i stars |
| `Filter.RunMatch` | internal/filter/filter.go:150-221 | the recursion over the shared buffer computes match; it ends because each expansion has one `**` less |
| `Filter.RunChildMatch` | internal/filter/filter.go:118-138 | computes childMatch |
| `Filter.RunList` | internal/filter/filter.go:283-329 | the loop over the patterns with its early stop computes the fold, and its two answers are those of the last pattern that matches and of the patterns that are not taken back |
| `Policy.StableSortSorts` | restic/snapshot_policy.go:185-187 | newest first, a permutation, and snapshots of the same time keep their order |
| `Policy.KeptExactly` | restic/snapshot_policy.go:204-307 | a snapshot is kept if and only if a tag list, the within duration, a counted bucket or a within bucket keeps it |
| `Policy.ValIs` | restic/snapshot_policy.go:113-136 | two snapshots have the same bucket value if and only if their hour, day, ISO week, month or year, with all larger calendar fields, agree; no value is the initial one |
| `Policy.HasTagsIs` | restic/snapshot.go:165-176 | a snapshot has a tag list if it has all its tags; one without tags has the empty list and lists that begin with the empty tag |
| `Policy.HeadsCount` | restic/snapshot_policy.go:256-272 | the number of heads before a snapshot is the number of snapshots there that start a new period |
| `Policy.KeptIs` | restic/snapshot_policy.go:204-307 | a snapshot is kept if and only if it has all tags of a list, is within the duration, or starts a new period or is the oldest while the count lasts or the duration reaches |
| `Policy.ReasonsAre` | restic/snapshot_policy.go:234-306 | each reason is given if and only if its own condition on tags, times and periods holds |
| `Policy.CounterIs` | restic/snapshot_policy.go:297-302 | a reported counter is the configured count minus the number of snapshots that its bucket has kept so far |
| `Policy.ReasonAt` | restic/snapshot_policy.go:291-306 | the reasons of a kept snapshot stand at its place in the list of kept ones |
| `Policy.UnsetIsEmpty` | restic/snapshot_policy.go:103-110 | a policy counts as empty if and only if it has no tags, all counts are zero and all durations are zero |
| `Policy.SelectedLaw` | restic/snapshot_policy.go:185-310 | the stably sorted list is dealt out in order, to keep if and only if nothing is configured or some part of the policy keeps the snapshot |
| `Policy.SelectPartitions` | restic/snapshot_policy.go:204-307 | every snapshot is kept or removed, never both |
| `Policy.SelectDeals` | restic/snapshot_policy.go:234-307 | the loop deals the snapshots out to keep and remove, each in their order |
| `Policy.SelectedPartitions` | restic/snapshot_policy.go:185-310 | keep and remove are an order-preserving partition of the stably sorted list, and the reasons line up with keep |
| `Policy.ReasonsLineUp` | restic/snapshot_policy.go:291-306 | there is one reason per kept snapshot, in the same order |
| `Policy.SameHeads` | restic/snapshot_policy.go:256-289 | in the kept list a bucket sees the same heads of runs as in the whole list, as long as they were all kept |
| `Policy.KeptAgain` | restic/snapshot_policy.go:204-307 | a kept snapshot is kept again when the policy is applied to the kept list |
| `Policy.Idempotent` | restic/snapshot_policy.go:185-310 | applied to its own result the policy removes nothing |
| `Policy.BucketStep` | restic/snapshot_policy.go:256-272 | a bucket's counter and last value keep precisely its first heads and the oldest snapshot |
| `Policy.WithinStep` | restic/snapshot_policy.go:275-289 | a within bucket keeps precisely the heads within its duration and the oldest snapshot within it |
| `Policy.CountersAre` | restic/snapshot_policy.go:297-302 | the reported counters are the configured ones minus the heads kept so far |
| `Policy.LatestOfIs` | restic/snapshot_policy.go:145-161 | no snapshot before now is newer than the reference time, which is the time of one of them, or the zero time when none is after it |
| `Policy.FindLatestTimestamp` | restic/snapshot_policy.go:145-161 | the loop computes that reference time |
| `Policy.CountLoop` | restic/snapshot_policy.go:256-272 | the loop over the counted buckets gives exactly their reasons and next states |
| `Policy.WithinLoop` | restic/snapshot_policy.go:275-289 | the loop over the within buckets gives exactly their reasons and next states |
| `Policy.TagLoop` | restic/snapshot_policy.go:239-244 | one reason per tag list that the snapshot has |
| `Policy.ApplyLoop` | restic/snapshot_policy.go:234-307 | the main loop computes the selection and the reasons |
| `Policy.ApplyPolicy` | restic/snapshot_policy.go:185-310 | sorting and the loop compute the selection for every list and policy, the empty ones included; stated on tags, times and calendar periods, a snapshot is in keep if and only if nothing is configured or tags, a duration, a count or a duration of periods keep it |
| `Pack.Uint32RoundTrip` | pack/pack.go:73-106 | a 32-bit length can be read back from its four bytes |
| `Pack.ParseEntry` | pack/pack.go:316-349 | parsing a header entry gives back the blob, its type and its size, whatever follows |
| `Pack.ParseFormat` | pack/pack.go:316-349 | an entry is parsed if and only if its bytes are one: type byte 0 or 1 for plain, 2 or 3 for compressed data or tree, the lengths in four bytes with the lowest first, then the ID |
| `Pack.EntryFormat` | pack/pack.go:114-142 | what is written for a blob is an entry of this format, 37 or 41 bytes long |
| `Pack.EntriesFormat` | pack/pack.go:293-311 | a header text is parsed if and only if it is a sequence of such entries; the offsets are the sums of the lengths before |
| `Pack.HeaderFormat` | pack/pack.go:114-142 | what is written for a list of blobs is a text of this format |
| `Pack.HeaderFails` | pack/pack.go:114-142 | writing fails if and only if some blob has an invalid type |
| `Pack.ListFormat` | pack/pack.go:279-314 | a file is listed, with given blobs, if and only if it ends in a length, lowest byte first and within its bounds, before it a nonce and a sealed text that lists these blobs |
| `Pack.PackFileLayout` | pack/pack.go:73-106 | a finalized pack is the data, the nonce, the sealed header and their length |
| `Pack.HeaderRoundTrip` | pack/pack.go:114-142 | parsing a header gives back all blobs with their offsets |
| `Pack.PackRoundTrip` | pack/pack.go:279-314 | listing a finalized pack returns its blobs if and only if the header is within the maximum size; the file size is the sum of blobs and header |
| `Pack.CalculateHeaderSize` | pack/pack.go:358-364 | the header size is the fixed part plus the sizes of the entries |
| `Pack.MakeHeader` | pack/pack.go:114-142 | writes a text of the header format for the blobs in order; fails if and only if a blob has an invalid type |
| `Pack.ReadRecords` | pack/pack.go:200-237 | one read gives the header, or its true size, or the error for a bad length |
| `Pack.ReadHeader` | pack/pack.go:241-266 | at most two reads return exactly the header bytes, or the error |
| `Pack.List` | pack/pack.go:279-314 | returns blobs if and only if the file is of the pack format, and exactly those of its text, at running offsets; the size returned is four more than the length at the end of the file |
| `Pack.ReadEntries` | pack/pack.go:297-311 | the loop over the header text gives all entries with running offsets, or nothing when an entry is bad |
| `Pack.Packer.Add` | pack/pack.go:35-50 | appends the data and a blob at the old end; returns data and entry size |
| `Pack.Packer.Finalize` | pack/pack.go:73-106 | appends the encrypted header and its length, or leaves the file alone on an error |
| `PackerManager.AddedPack` | repository/packer_manager.go:68-113 | after adding a blob the pack has room for another, or is good to be queued |
| `PackerManager.GoodPackReadable` | pack/pack.go:200-237 | a queued pack's header passes the length checks of reading |
| `PackerManager.ContentsSnoc` | pack/pack.go:35-50 | a blob added at the end is found in the pack with its ciphertext, and those before it stay as they are |
| `PackerManager.QueuedPackLists` | pack/pack.go:161-165 | a queued pack, once finalized, lists exactly its blobs and has their ciphertexts at their offsets |
| `PackerManager.BooksAdd` | repository/packer_manager.go:68-113 | a blob added to the open pack keeps the books, whether the pack stays open or is queued |
| `PackerManager.BooksAlone` | repository/packer_manager.go:68-113 | a blob as large as a pack gets one of its own and keeps the books |
| `PackerManager.BooksFlush` | repository/packer_manager.go:53-66 | queueing the open pack keeps the books, with 36 bytes more per pack |
| `PackerManager.Manager.constructor` | repository/packer_manager.go:44-51 | starts without an open pack |
| `PackerManager.Manager.PickPacker` | repository/packer_manager.go:72-87 | the open pack, or a new one for a large blob or when there is none |
| `PackerManager.Manager.QueueIfFull` | repository/packer_manager.go:95-113 | a full pack is queued and no longer open; the size grows by 36, the fixed part of the header |
| `PackerManager.Manager.SaveBlob` | repository/packer_manager.go:68-113 | keeps the books: every saved ciphertext lies at the place of its blob in exactly one queued or open pack, queued packs are good, and the sizes of all packs are the returned sizes plus 36 per pack queued by Flush; a pack is queued exactly when it has reached the pack size or another entry might not fit, a blob as large as a pack alone; the size is that of ciphertext, entry and, for a queued pack, 36 |
| `PackerManager.Manager.Flush` | repository/packer_manager.go:53-66 | queues the open pack, if any, and keeps the books |
| `StreamPack.SortBlobs` | repository/repository.go:893-895 | any permutation sorted by offset |
| `StreamPack.AllGood` | repository/repository.go:948-982 | all blobs can be read in turn if and only if they do not overlap, are longer than a nonce, are accepted and the data reaches the end of the last one |
| `StreamPack.ReadOne` | repository/repository.go:948-982 | reads exactly the bytes of the blob; fails exactly on an overlap, at the end of the data and for a blob not longer than a nonce |
| `StreamPack.ReadBlobs` | repository/repository.go:934-1013 | hands out the blobs in order with exactly their bytes of the file; succeeds if and only if nothing overlaps, nothing is too short, the data suffices and the callback accepts |
| `StreamPack.StreamPackPart` | repository/repository.go:918-1015 | over any number of failed tries only right bytes are handed out; success means that nothing overlaps and every blob was handed out; without overlap it succeeds when some try delivers everything |
| `StreamPack.LoadPart` | repository/repository.go:904-916 | one more range is loaded and the cuts stay at the gaps |
| `StreamPack.StreamBlobs` | repository/repository.go:887-916 | the ranges loaded are consecutive, not empty, and cut exactly at gaps of more than 4 MiB; on success they cover all blobs; only listed blobs are handed out, with their bytes; with reliable loads it succeeds if and only if the sorted blobs do not overlap and are readable |
| `Repack.ConservedKept` | repository/repack.go:78-121 | at every step each blob to be kept is in exactly one place: still wanted, being saved, or saved |
| `Repack.AheadKept` | repository/repack.go:55-121 | a wanted blob stays with somebody who still has to deal with it |
| `Repack.CoveredKept` | repository/repack.go:55-121 | no wanted blob of the packs is lost, and nothing else is saved |
| `Repack.RunKeepsInv` | repository/repack.go:50-140 | the invariant holds in every state of every interleaving |
| `Repack.SavedExactlyOnce` | repository/repack.go:50-140 | on success exactly the blobs to be kept that occur in the packs were saved, each once, and exactly the others are left in the set |
| `Repack.CanFinish` | repository/repack.go:50-140 | every run can be continued to one in which repack has succeeded |
| `FilesWriter.ZeroPrefixLen` | restic/zeroprefix.go:6-21 | the length of the longest prefix of zeros |
| `FilesWriter.PatchAt` | internal/restorer/sparsewrite.go:12-37 | a positioned write changes its range, keeps the rest and fills a hole with zeros |
| `FilesWriter.SparseIsPlain` | internal/restorer/sparsewrite.go:12-37 | skipping the zero prefix gives the same file if and only if the file has zeros there already and need not grow just for zeros |
| `FilesWriter.Writer.constructor` | internal/restorer/fileswriter.go:32-40 | no file is open |
| `FilesWriter.Writer.AcquireWriter` | internal/restorer/fileswriter.go:45-89 | shares an open file, else creates and sizes it, else opens it, and fails when it does not exist; when sizing fails the call fails and the entry stays; other paths are unchanged |
| `FilesWriter.Writer.ReleaseWriter` | internal/restorer/fileswriter.go:91-101 | the last user closes the file |
| `FilesWriter.Writer.WriteAt` | internal/restorer/sparsewrite.go:12-37 | writes the blob, without its zero prefix when the file is sparse |
| `FilesWriter.Writer.WriteToFile` | internal/restorer/fileswriter.go:42-117 | acquires, writes and releases; the users of the file are as before, unless sizing failed |
| `RestoreRun.CountedKept` | internal/restorer/fileswriter.go:42-117 | the reference count is the number of workers that hold the file, and it is open exactly while there are any |
| `RestoreRun.OnceKept` | internal/restorer/filerestorer.go:259-284 | the first writer is alone until its write is done, and creates the file once |
| `RestoreRun.PutPiece` | internal/restorer/sparsewrite.go:12-37 | a write of a piece of the contents, sparse or not, makes its range right and spoils nothing that is right |
| `RestoreRun.GoodKept` | internal/restorer/fileswriter.go:42-117 | every step keeps the file right wherever a write is done |
| `RestoreRun.RunKeepsInv` | internal/restorer/filerestorer.go:259-284 | the invariant holds in every state of every interleaving |
| `RestoreRun.NeverStuck` | internal/restorer/fileswriter.go:42-117 | a file in use is never found closed, a later writer finds the file there, and it is created at most once |
| `RestoreRun.RestoredExactly` | internal/restorer/filerestorer.go:259-284 | once writes covering the file are done, in any order and number, the file is exactly the contents, was created once and is closed |
| `RestoreRun.OversizedEndsInZeros` | internal/restorer/fileswriter.go:69-86 | a sparse file with a recorded size larger than its contents ends in zeros |
| `RestorePlan.PlanFile` | internal/restorer/filerestorer.go:123-163 | succeeds if and only if all blobs are known; the file is added to exactly the packs it takes blobs from, a large file keeps its blobs by pack with their offsets, and the sparse flag is right |
| `RestorePlan.PlanFiles` | internal/restorer/filerestorer.go:114-163 | every needed pack is in the order once, with exactly the files that take a blob from it |
| `RestorePlan.CollectIds` | internal/restorer/filerestorer.go:217-228 | for a small file the offsets computed again are those of its blobs in this pack |
| `RestorePlan.CollectByPack` | internal/restorer/filerestorer.go:229-239 | for a large file the kept offsets are used, each blob found again in the index |
| `RestorePlan.CollectPack` | internal/restorer/filerestorer.go:200-240 | whichever way a file's blobs are kept, each blob gets exactly its offsets in each file and is streamed once |
| `RestorePlan.PlanTables` | internal/restorer/filerestorer.go:114-240 | every needed pack has one table, with exactly the offsets of the blobs that the files take from it; fails if and only if a blob is unknown |
| `Restore.PlannedWrites` | internal/restorer/filerestorer.go:114-240 | a write is planned for some pack if and only if it is that of a blob of the file at the sum of the lengths before it |
| `Restore.PlannedOnce` | internal/restorer/filerestorer.go:114-240 | over all tables a blob is to be written at an offset exactly as often as the file has it there |
| `Restore.FileRestored` | internal/restorer/filerestorer.go:114-291 | carrying out the planned writes in any order, interleaving and number leaves exactly the concatenation of the file's blobs |
| `Restore.RestoredFromTables` | internal/restorer/filerestorer.go:114-291 | when the writes in the tables are done, in any order, interleaving and number, the file is exactly the concatenation of its blobs |

## Left out

- Backends, HTTP, rate limits, retries with backoff and caches: a backend is what its files hold; StreamPack only sees what each try delivers.
- Encryption, compression, hashing and JSON: encryption is a pair of functions of which the second undoes the first, index files are values.
- Cancellation and error paths beyond the fact that an operation returns an error: they would add many easy cases.
- Clocks, calendars and time zones: times are numbers, a snapshot carries its calendar fields, the law of ApplyPolicy is about fields that a calendar can have (month, day, hour and week in their ranges), and the cutoff of a duration is an arbitrary function, before the latest time where idempotence needs it.
- Removing all locks by force, lock files without contents and listings that are not atomic: exclusion does not hold with them. Whether a lock file is stale (host names, process IDs, age) is arbitrary, except that a lock's newest file is not removed while its acquisition or its stale refresh is going on.
- The choice between the two loader channels for ordinary and for huge trees: the loaders are one pool.
- The table for blobs of invalid type in an index: an index has one table for data and one for trees.
- The blocks of the hashed array tree are values in the array of blocks, not arrays of their own; two references to the same block are not modelled.
- The master index refers to its indexes by name and keeps their values in a map; sharing an index object with other code is not modelled. Finalizing all open indexes is finalizing with every index being full.
- Reading index files into the master index (inserting an index is a step of its runs), Packs, ListPacks, LookupSize, Each and old index formats: easy members beside the ones modelled.
- Wrap-around of 64-bit sizes and offsets. The 32-bit fields of pack headers are modelled, and a blob too large for its index entry is refused by a precondition where the program panics.
- LockProtocol.StaleRefreshCovers: does not cover locks that were refreshed blindly, because the plain refresh of such a lock hides the gap (see StaleRefreshExactly and BlindRefreshUncovers).
- Policy.Idempotent: requires that no snapshot is in the future, that calendar buckets are not negative and that a nonzero duration reaches before the latest snapshot.
- Filter.MatchDecidesMeaning: does not hold with two or more `**` (see DecidesExactly).
- RestoreRun.RestoredExactly: requires that the recorded size of a sparse file is that of its contents, and that of other files not larger; OversizedEndsInZeros shows the difference.
- RestoreRun: its runs have no failing opens, truncations and writes; a failed write is reported and leaves the file as it is.
- StreamPack.StreamBlobs: the caller's list is sorted into a new one, not in place.
- Policy.ApplyPolicy: the caller's list is sorted into a new one, not in place.
- PackerManager: the temporary file and the upload of a queued pack.
- Snapshots, file system metadata, hard links, FUSE, dump, self-update and user interface.
