# Verification of the storage engine, router, scheduler and string writer

A Dafny 4.11 project. It models the parts of the repository that hold state or arithmetic worth proving,
and proves what they are for. `dafny verify dfyconfig.toml` checks all of it.

**Storage engine (boltdb).** Pages come from a copy-on-write allocator with one writer, many readers and
two meta slots. `FreelistClass.dfy` is the free list as an object (`Freelist.dfy`, `PageIds.dfy` are its
specification and page format). `Versions.dfy` is a step system: begin and end read, begin write, allocate,
free, prepare a commit, write one page slot, write the meta page, roll back, crash. `VersionSteps.dfy` proves
that every step keeps the invariant, `VersionRuns.dfy` draws the theorems about whole runs, and `Db.dfy` is
the database object, each method of which is proved to take the matching step. `Storage.dfy` says what it
means for a tree to be on file.

**B+tree.** `Nodes.dfy` is one node: put, del, size, split. `BTree.dfy` defines entries, page ids and shape
of a tree. `Lookup.dfy` relates search, put and delete to a plain sorted list, `Rebalance.dfy`,
`RebalanceRuns.dfy` and `RebalanceMarks.dfy` treat borrowing, merging, dropping and collapsing, one node and
whole runs. `Spill.dfy` is splitting and writing at commit, `Transaction.dfy` puts it all together.
`SpillLog.dfy` says which nodes spilling writes and where, `Images.dfy` what they are in the page file. `Commits.dfy`,
`CommitRuns.dfy` and `BucketCommit.dfy` show that a transaction on the tree is a run of the storage engine.
`Cursor.dfy` is the stack cursor as an object, `Bucket.dfy` the operations of a bucket through it, and
`NodePage.dfy` the byte layout of a node.

**Router (httprouter).** `Router.dfy` is the radix tree with registration and lookup, `RouterRoutes.dfy`,
`RouterRank.dfy` and `RouterLookup.dfy` prove it against a list of patterns, `RouterMatch.dfy` says what a match is,
and `RouterPanics.dfy` when a registration panics. `CleanPath.dfy` is the path cleaner.

**Scheduler (cron).** `Cron.dfy` is the loop's work on its entries, `CronRuns.dfy` whole runs of it, `CronLoop.dfy`
one turn on the object, `CronSpec.dfy` the search for the next activation time.

**String writer.** `Json.dfy` is the JSON string escaper, with a reader for the string grammar of section 7 of RFC 8259.

## What the proofs turned up

The model follows the code where it differs from its documentation or from what one would expect:

- A free list of 0xFFFF or more ids loses its largest id when it is read back (`freelist.go:152-161` against
  `:190`). `VersionRuns.DroppedExactly` and `VersionRuns.ReloadConservesIff` say exactly when pages are lost,
  `LossWitness.LossHappens` gives a run.
- If the sync that follows a successful meta write fails, Commit rolls back through the new meta page, and
  pages of open readers can become free. `VersionRuns.SyncFailureSafeIff` gives the condition,
  `SyncWitness.SyncFailureHappens` a run.
- Borrowing from the previous sibling can put the separators of a node in the wrong order, when keys below
  the separator of the first child were put in the same transaction. `RebalanceRuns.RebalanceMeaning` gives
  the condition, `RebalanceMarks.BorrowBelowHappens` a case. The puts by key that follow rely on that order.
- `Bucket.Delete` promises to do nothing for a missing key, but refuses it when the next entry of the leaf is a
  nested bucket (`Buckets.Bucket.Delete`, `Buckets.DeleteRefusesMissing`).
- The comment of `splitIndex` speaks of two remaining keys; the loop leaves at least three (`Nodes.IsCut`).
- The search for the next activation time can return a time whose second, or minute and second, are not of
  the schedule (`CronSpec.Next`, `CronSpec.CutsBack`, `CronSpec.CutBackHappens`).
- It promises the next time of the schedule, but can pass over earlier times in the hour of its result, because
  minutes and seconds are not reset when the field above them is advanced. `CronSpec.Next` says that it does exactly
  when `CronSpec.PassesOver` holds of the start, `CronSpec.PassOverHappens` gives a case.

## Model

| member | source | states |
|---|---|---|
| `FreelistObject.Freelist.constructor` | Godeps/_workspace/src/github.com/boltdb/bolt/freelist.go:17-22 | a new list is empty |
| `FreelistObject.Freelist.Allocate` | Godeps/_workspace/src/github.com/boltdb/bolt/freelist.go:63-101 | first fit: the lowest start of n consecutive free ids, which leave the list and the cache; 0 with nothing changed exactly when there is no such run |
| `FreelistObject.Freelist.Free` | Godeps/_workspace/src/github.com/boltdb/bolt/freelist.go:105-118 | a page and its overflow pages become pending under the transaction, in list and cache; the call needs none of them listed before |
| `FreelistObject.Freelist.Release` | Godeps/_workspace/src/github.com/boltdb/bolt/freelist.go:122-132 | the pending ids of every transaction up to the given one become free, all others stay pending, and the list stays ascending |
| `FreelistObject.Freelist.Rollback` | Godeps/_workspace/src/github.com/boltdb/bolt/freelist.go:135-143 | exactly the ids given back by that transaction are forgotten |
| `FreelistObject.Freelist.Write` | Godeps/_workspace/src/github.com/boltdb/bolt/freelist.go:175-194 | the page holds the ascending union of free and pending ids, with the count moved into the first word from 0xFFFF ids on |
| `FreelistObject.Freelist.Read` | Godeps/_workspace/src/github.com/boltdb/bolt/freelist.go:151-169 | the free ids become the sorted words of the page, and the cache is free plus pending |
| `FreelistObject.Freelist.Reload` | Godeps/_workspace/src/github.com/boltdb/bolt/freelist.go:197-221 | the free ids become those on the page that are not pending |
| `FreelistObject.Freelist.Reindex` | Godeps/_workspace/src/github.com/boltdb/bolt/freelist.go:224-234 | the cache is exactly free plus pending |
| `FreelistObject.Freelist.SizeInBytes` | Godeps/_workspace/src/github.com/boltdb/bolt/freelist.go:25-27 | the stored size counts every listed id once |
| `FreelistObject.Freelist.All` | Godeps/_workspace/src/github.com/boltdb/bolt/freelist.go:49-59 | all listed ids, ascending, each once |
| `FreelistObject.Freelist.PendingCount` | Godeps/_workspace/src/github.com/boltdb/bolt/freelist.go:40-46 | the number of distinct pending ids |
| `FreelistPage.ReadAfterWrite` | Godeps/_workspace/src/github.com/boltdb/bolt/freelist.go:151-194 | what a written list reads back as: every id, or from 0xFFFF ids on all but the last one |
| `FreelistPage.KeptElems` | Godeps/_workspace/src/github.com/boltdb/bolt/freelist.go:151-161 | on an ascending list that is every id below 0xFFFF ids, and otherwise all but the largest |
| `FreelistPage.ReservedHolds` | Godeps/_workspace/src/github.com/boltdb/bolt/tx.go:159-166 | size/pageSize+1 pages hold the list and its count word if and only if the list is short or the last page has a word to spare |
| `FreelistPage.ReservedSuffices` | Godeps/_workspace/src/github.com/boltdb/bolt/tx.go:159-166 | with a page size divisible by 8 the pages reserved in Commit always hold the list that is then written |
| `FreeIds.ReleaseKeeps` | Godeps/_workspace/src/github.com/boltdb/bolt/freelist.go:122-132 | release loses and duplicates no id |
| `FreeIds.GiveKeeps` | Godeps/_workspace/src/github.com/boltdb/bolt/freelist.go:105-118 | giving back a run adds exactly that run to the listed ids |
| `PageIds.SortCorrect` | Godeps/_workspace/src/github.com/boltdb/bolt/page.go:131-135 | sorting distinct ids gives an ascending list of the same ids |
| `VersionSteps.StepKeeps` | Godeps/_workspace/src/github.com/boltdb/bolt/tx.go:319-388 | every action of readers and writer, and a crash between any two of them, keeps the invariant: pages of the current version, free ids, pending ids and new pages stay apart, and every open version stays on file |
| `VersionSteps.BeginWriteKeeps` | Godeps/_workspace/src/github.com/boltdb/bolt/db.go:373-406 | releasing up to the oldest reader frees no page that an open version uses |
| `VersionSteps.BeginReleases` | Godeps/_workspace/src/github.com/boltdb/bolt/db.go:394-403 | beginning to write frees exactly the pending pages that no open reader can need |
| `VersionSteps.PrepareKeeps` | Godeps/_workspace/src/github.com/boltdb/bolt/tx.go:139-171 | replacing the free-list page at commit keeps the invariant |
| `VersionSteps.WriteMetaKeeps` | Godeps/_workspace/src/github.com/boltdb/bolt/tx.go:188-196 | publishing the new version keeps every open version readable |
| `VersionSteps.RollbackKeeps` | Godeps/_workspace/src/github.com/boltdb/bolt/tx.go:216-225 | a rollback at any point keeps the invariant |
| `VersionSteps.CrashKeeps` | Godeps/_workspace/src/github.com/boltdb/bolt/db.go:97-158 | a crash at any point, followed by reopening, keeps the invariant |
| `VersionRuns.SnapshotSafety` | Godeps/_workspace/src/github.com/boltdb/bolt/db.go:335-406 | in every reachable interleaving no page of the current version or of an open reader is free or among the new pages of the writer |
| `VersionRuns.SnapshotIsolation` | Godeps/_workspace/src/github.com/boltdb/bolt/tx.go:34-53 | an open reader reads the same tree from its root at any two points of a run |
| `VersionRuns.RunRecord` | Godeps/_workspace/src/github.com/boltdb/bolt/tx.go:131-204 | the tree committed under a transaction id is never replaced |
| `VersionRuns.CommitAtomicity` | Godeps/_workspace/src/github.com/boltdb/bolt/tx.go:131-204 | until the meta write, a crash at any point comes back with the previous version, its pages and its free list untouched |
| `VersionRuns.MetaWritten` | Godeps/_workspace/src/github.com/boltdb/bolt/db.go:649-662 | the meta write goes to the slot that is not current, the two transaction ids differ by one, and the new version is complete |
| `VersionRuns.RollbackExact` | Godeps/_workspace/src/github.com/boltdb/bolt/freelist.go:135-143 | rolling back restores the free list to what it was right after the writer began, for lists below 0xFFFF ids |
| `VersionRuns.DroppedExactly` | Godeps/_workspace/src/github.com/boltdb/bolt/freelist.go:151-161 | reading a list back drops nothing below 0xFFFF ids and exactly the largest id from there on |
| `VersionRuns.PageConservation` | Godeps/_workspace/src/github.com/boltdb/bolt/tx.go:319-350 | in every run that does not read back an overlong list, every page up to the high water mark is accounted for, in memory and on file |
| `VersionRuns.RestIsPartition` | Godeps/_workspace/src/github.com/boltdb/bolt/tx.go:352-388 | between transactions each page from 2 up is in exactly one of: tree, free-list run, free ids, pending ids |
| `VersionRuns.ConservationLaw` | Godeps/_workspace/src/github.com/boltdb/bolt/tx.go:319-350 | what one action adds to the lost pages: nothing, except the id dropped by reading back an overlong list |
| `VersionRuns.ReloadConservesIff` | Godeps/_workspace/src/github.com/boltdb/bolt/freelist.go:197-221 | a rollback or reopening accounts for every page if and only if the list is short or its largest id is still pending |
| `VersionRuns.SyncFailureSafeIff` | Godeps/_workspace/src/github.com/boltdb/bolt/tx.go:189-192 | a sync error after the meta page was written makes Commit reload through the new meta page; readers are then safe if and only if none holds a page the writer gave back |
| `LossWitness.LossHappens` | Godeps/_workspace/src/github.com/boltdb/bolt/freelist.go:151-161 | a run from a new file, a leaf of 0xFFFF pages written and replaced, after which reopening loses a page |
| `SyncWitness.SyncFailureHappens` | Godeps/_workspace/src/github.com/boltdb/bolt/tx.go:441-461 | a run from a new file in which such an error frees a page of an open reader |
| `Database.Db.constructor` | Godeps/_workspace/src/github.com/boltdb/bolt/db.go:237-282 | a new file: two meta pages, an empty free list, an empty leaf |
| `Database.Db.CurrentMeta` | Godeps/_workspace/src/github.com/boltdb/bolt/db.go:530-535 | one of the two meta pages, with a transaction id not below either |
| `Database.Db.BeginTx` | Godeps/_workspace/src/github.com/boltdb/bolt/db.go:335-371 | takes the begin-read step and keeps the invariant |
| `Database.Db.RemoveTx` | Godeps/_workspace/src/github.com/boltdb/bolt/db.go:409-430 | takes the end-read step for that transaction |
| `Database.Db.BeginRWTx` | Godeps/_workspace/src/github.com/boltdb/bolt/db.go:373-406 | takes the begin-write step: a page pending under a transaction is then free exactly when every open reader is newer, and nothing stays pending without readers |
| `Database.Db.OldestReader` | Godeps/_workspace/src/github.com/boltdb/bolt/db.go:393-403 | the least transaction id among the open readers, or the maximum |
| `Database.Db.Allocate` | Godeps/_workspace/src/github.com/boltdb/bolt/tx.go:391-405 | takes the allocate step: new pages come from the free list, or else from the end of the file |
| `Database.Db.TakePages` | Godeps/_workspace/src/github.com/boltdb/bolt/db.go:538-561 | first fit, and otherwise the high water mark moves by exactly the pages asked for |
| `Database.Db.FreePage` | Godeps/_workspace/src/github.com/boltdb/bolt/node.go:566-571 | takes the step of giving a page run back |
| `Database.Db.Prepare` | Godeps/_workspace/src/github.com/boltdb/bolt/tx.go:156-171 | takes the step that swaps the free-list page |
| `Database.Db.Write` | Godeps/_workspace/src/github.com/boltdb/bolt/tx.go:408-438 | writes every dirty page, each a step of its own, and clears the page cache |
| `Database.Db.WriteMeta` | Godeps/_workspace/src/github.com/boltdb/bolt/tx.go:441-461 | takes the step that publishes the new version |
| `Database.Db.Commit` | Godeps/_workspace/src/github.com/boltdb/bolt/tx.go:131-204 | a complete tree becomes current under the next transaction id, stored on file, and every reader keeps its own version |
| `Database.Db.Rollback` | Godeps/_workspace/src/github.com/boltdb/bolt/tx.go:216-225 | takes the rollback step |
| `Database.Db.Reopen` | Godeps/_workspace/src/github.com/boltdb/bolt/db.go:97-158 | takes the crash step: the free list is read through the current meta page |
| `Nodes.Node.Put` | Godeps/_workspace/src/github.com/boltdb/bolt/node.go:113-134 | replaces the entry under the old key, or inserts where that key belongs: afterwards the node has the new entry and all others under other keys |
| `Nodes.Node.Del` | Godeps/_workspace/src/github.com/boltdb/bolt/node.go:137-151 | removes the entry and marks the node, or does nothing: afterwards the node has all entries under other keys |
| `Nodes.PutMember` | Godeps/_workspace/src/github.com/boltdb/bolt/node.go:113-134 | putting a key is a map update, told by membership |
| `Nodes.DeleteMember` | Godeps/_workspace/src/github.com/boltdb/bolt/node.go:137-151 | deleting a key is a map removal |
| `Nodes.Node.Size` | Godeps/_workspace/src/github.com/boltdb/bolt/node.go:39-46 | header plus elements, keys and values |
| `Nodes.Node.SizeLessThan` | Godeps/_workspace/src/github.com/boltdb/bolt/node.go:51-60 | agrees with the full size although it stops early |
| `Nodes.Node.SplitIndex` | Godeps/_workspace/src/github.com/boltdb/bolt/node.go:292-312 | cuts after two elements, as far as the threshold allows, and leaves at least three |
| `Nodes.CutUnique` | Godeps/_workspace/src/github.com/boltdb/bolt/node.go:292-312 | there is only one such place |
| `Nodes.Node.SplitTwo` | Godeps/_workspace/src/github.com/boltdb/bolt/node.go:250-287 | cuts in two exactly when there are more than four elements and they do not fit a page |
| `Nodes.Node.Split` | Godeps/_workspace/src/github.com/boltdb/bolt/node.go:227-246 | the loop gives the parts of the recursive definition, and its first node is the original one |
| `Nodes.PartsConcat` | Godeps/_workspace/src/github.com/boltdb/bolt/node.go:227-246 | the parts put together are the original elements |
| `Nodes.PartsBounded` | Godeps/_workspace/src/github.com/boltdb/bolt/node.go:227-312 | after a split every part has at least two elements, every part but the last has two or is within the threshold, the last has at most four or fits a page |
| `Nodes.ThresholdShare` | Godeps/_workspace/src/github.com/boltdb/bolt/node.go:257-267 | the threshold is the share of the page that the fill percentage says, kept between 10 and 100 percent |
| `Nodes.PartsFitPage` | Godeps/_workspace/src/github.com/boltdb/bolt/node.go:227-312 | so after a split every part with more than four elements, or more than two if it is not the last, fits a page |
| `Keys.Search` | Godeps/_workspace/src/github.com/boltdb/bolt/cursor.go:250-263 | binary search for the first key not below, with the flag for an exact hit |
| `Keys.RankCorrect` | Godeps/_workspace/src/github.com/boltdb/bolt/node.go:119-119 | the position a key has or would have in sorted entries |
| `Keys.Lexicographic` | Godeps/_workspace/src/github.com/boltdb/bolt/cursor.go:301-301 | the order of keys is that of bytes.Compare: the first difference decides, and a prefix comes first |
| `Keys.PrefixTogether` | Godeps/_workspace/src/github.com/boltdb/bolt/cursor.go:102-116 | the entries whose keys begin with a prefix lie side by side, from the rank of the prefix on |
| `Rebalance.ChildIndex` | Godeps/_workspace/src/github.com/boltdb/bolt/node.go:78-81 | the key of a child leads back to its place in the parent |
| `Rebalance.QuarterPage` | Godeps/_workspace/src/github.com/boltdb/bolt/node.go:384-485 | a marked child is left alone exactly above a quarter of a page with more than one entry, or two children; otherwise it goes or gains one element |
| `Rebalance.ShiftLeft` | Godeps/_workspace/src/github.com/boltdb/bolt/node.go:448-463 | borrowing from the next sibling keeps both nodes in bounds around the new separator |
| `Rebalance.ShiftRight` | Godeps/_workspace/src/github.com/boltdb/bolt/node.go:464-472 | borrowing from the previous sibling does, too |
| `Rebalance.Merge` | Godeps/_workspace/src/github.com/boltdb/bolt/node.go:484-516 | two neighbours put together are a node within both ranges |
| `Rebalance.FixShape` | Godeps/_workspace/src/github.com/boltdb/bolt/node.go:384-520 | in every case the parent comes out sorted and bounding unless an element is borrowed from below a separator |
| `Rebalance.FixEntries` | Godeps/_workspace/src/github.com/boltdb/bolt/node.go:384-520 | in every case no entry is lost, duplicated or moved, and the pages given back are exactly those of the nodes that are gone |
| `Rebalance.BelowBreaks` | Godeps/_workspace/src/github.com/boltdb/bolt/node.go:464-478 | a borrow from below a separator leaves the parent unsorted |
| `RebalanceRuns.FixRootShape` | Godeps/_workspace/src/github.com/boltdb/bolt/node.go:399-423 | the root collapses into its only child and stays in shape |
| `RebalanceRuns.RebalanceMeaning` | Godeps/_workspace/src/github.com/boltdb/bolt/node.go:384-520 | rebalancing a node, with the whole way up, keeps all entries and pages; keys stay in order and separators bounding if and only if nothing is borrowed from below a separator |
| `RebalanceMarks.NeverBelow` | Godeps/_workspace/src/github.com/boltdb/bolt/node.go:464-478 | that cannot happen when no key lies below the separator of a first child |
| `RebalanceMarks.RebalanceKeepsBounds` | Godeps/_workspace/src/github.com/boltdb/bolt/node.go:384-520 | such trees keep their bounds under any rebalancing |
| `RebalanceMarks.BorrowBelowHappens` | Godeps/_workspace/src/github.com/boltdb/bolt/node.go:464-478 | two puts and two deletes on a tree as it is on file after which it does happen |
| `RebalanceMarks.RebalanceClears` | Godeps/_workspace/src/github.com/boltdb/bolt/node.go:384-391 | rebalancing takes the mark of its node away and leaves no new one |
| `RebalanceMarks.RunMeaning` | Godeps/_workspace/src/github.com/boltdb/bolt/bucket.go:586-593 | marked nodes in any order without such a borrow: at most as many turns as marks, all entries and pages kept, and in the end no node but the root is empty |
| `RebalanceMarks.EveryOrder` | Godeps/_workspace/src/github.com/boltdb/bolt/bucket.go:586-593 | a tree bounded from below can be rebalanced in every order of its marked nodes |
| `RebalanceMarks.CompleteRun` | Godeps/_workspace/src/github.com/boltdb/bolt/bucket.go:586-593 | and some order leaves no mark |
| `TreeLookup.PutMeaning` | Godeps/_workspace/src/github.com/boltdb/bolt/bucket.go:290-295 | putting a key into the tree is putting it into the list of entries, and bounds stay |
| `TreeLookup.DeleteMeaning` | Godeps/_workspace/src/github.com/boltdb/bolt/bucket.go:312-322 | deleting a key from the tree is deleting it from the list of entries |
| `TreeLookup.LeafMeaning` | Godeps/_workspace/src/github.com/boltdb/bolt/cursor.go:229-291 | the leaf a search ends in holds the key if any leaf does |
| `Buckets.Bucket.Get` | Godeps/_workspace/src/github.com/boltdb/bolt/bucket.go:255-268 | the value of the entry under the key, if there is one and it is not a nested bucket |
| `Buckets.Bucket.Put` | Godeps/_workspace/src/github.com/boltdb/bolt/bucket.go:273-300 | each error exactly in its case; otherwise the bucket has the new entry and all others under other keys |
| `Buckets.Bucket.Delete` | Godeps/_workspace/src/github.com/boltdb/bolt/bucket.go:305-325 | a map removal, refused exactly when the entry at or after the key in its leaf holds a nested bucket |
| `Buckets.DeleteRefusesMissing` | Godeps/_workspace/src/github.com/boltdb/bolt/bucket.go:312-319 | a missing key whose deletion is refused |
| `Buckets.Bucket.ForEach` | Godeps/_workspace/src/github.com/boltdb/bolt/bucket.go:343-354 | an error for a closed transaction; otherwise visits all entries once, in order, until the callback fails |
| `Cursors.Cursor.First` | Godeps/_workspace/src/github.com/boltdb/bolt/cursor.go:27-39 | position 0 and its entry, which has the least key in the order of bytes.Compare |
| `Cursors.Cursor.Last` | Godeps/_workspace/src/github.com/boltdb/bolt/cursor.go:43-56 | the last position and its entry |
| `Cursors.Cursor.Next` | Godeps/_workspace/src/github.com/boltdb/bolt/cursor.go:60-67 | one position on with its entry; at the end nothing changes and nothing is returned |
| `Cursors.Cursor.Prev` | Godeps/_workspace/src/github.com/boltdb/bolt/cursor.go:71-97 | one position back with its entry; before the first the stack is empty |
| `Cursors.Cursor.Seek` | Godeps/_workspace/src/github.com/boltdb/bolt/cursor.go:102-116 | the least key not below the given one in the order of bytes.Compare, or nothing; for a prefix the first of the entries that begin with it |
| `Cursors.Cursor.SeekLeaf` | Godeps/_workspace/src/github.com/boltdb/bolt/cursor.go:139-154 | the place of the key in its leaf, and nothing past the end of that leaf |
| `Cursors.Cursor.Search` | Godeps/_workspace/src/github.com/boltdb/bolt/cursor.go:229-313 | the descent ends at the rank of the key in the list of entries |
| `Cursors.Cursor.Advance` | Godeps/_workspace/src/github.com/boltdb/bolt/cursor.go:203-226 | the entry that follows the position, from inside or past the end of a leaf |
| `Cursors.Cursor.DescendFirst` | Godeps/_workspace/src/github.com/boltdb/bolt/cursor.go:157-175 | going down keeps the position |
| `Cursors.Cursor.DescendLast` | Godeps/_workspace/src/github.com/boltdb/bolt/cursor.go:178-199 | going down ends at the last entry below |
| `Cursors.Cursor.KeyValue` | Godeps/_workspace/src/github.com/boltdb/bolt/cursor.go:316-331 | the entry at the position of the stack in the list of entries |
| `Cursors.EntryAt` | Godeps/_workspace/src/github.com/boltdb/bolt/cursor.go:316-331 | a stack position is a position in the list of entries |
| `Spill.ChildrenInOrder` | Godeps/_workspace/src/github.com/boltdb/bolt/node.go:322-330 | the order of the children in the tree is the order of their first keys, by which the code sorts them |
| `Spill.CutUpWritten` | Godeps/_workspace/src/github.com/boltdb/bolt/node.go:336-366 | the parts of a split node stand side by side as children known by their first keys |
| `Spill.PutNodesIs` | Godeps/_workspace/src/github.com/boltdb/bolt/node.go:356-366 | putting them one by one by key replaces the entry of the child by theirs |
| `Spill.SpillNodeOk` | Godeps/_workspace/src/github.com/boltdb/bolt/node.go:316-380 | spilling a subtree keeps its entries; pages of nodes in memory are given back, all others stay, and every node written has the page the allocator gave it |
| `Spill.GrowOk` | Godeps/_workspace/src/github.com/boltdb/bolt/node.go:372-377 | new levels above a split root hold the same entries, and the recursion ends |
| `Spill.SpillMeaning` | Godeps/_workspace/src/github.com/boltdb/bolt/bucket.go:518-533 | spilling keeps the entries and leaves a tree with bounding separators and first keys, every new node on a page of its own |
| `Transactions.EditsMeaning` | Godeps/_workspace/src/github.com/boltdb/bolt/bucket.go:273-325 | a series of edits on the tree is the series on a sorted list |
| `Transactions.EditListIs` | Godeps/_workspace/src/github.com/boltdb/bolt/bucket.go:273-325 | after a series of edits each key has what the last edit of it put there, or what it had |
| `Transactions.TransactionMeaning` | Godeps/_workspace/src/github.com/boltdb/bolt/tx.go:139-157 | edits, rebalancing in any order without a borrow from below and spilling do to the bucket what the edits do to a sorted list, each key having the value of its last edit, and leave it fit for the next transaction, with every page kept, given back or new |
| `Transactions.TransactionRuns` | Godeps/_workspace/src/github.com/boltdb/bolt/bucket.go:586-593 | with no key put below the first one of the bucket, marked nodes can be rebalanced in every order, and some order leaves none marked |
| `Transactions.TransactionAlways` | Godeps/_workspace/src/github.com/boltdb/bolt/tx.go:139-157 | so then the transaction does what the edits do to a sorted list whatever the order, in at most as many turns as there are marks |
| `SpillLog.SpillLogged` | Godeps/_workspace/src/github.com/boltdb/bolt/node.go:336-353 | spilling leaves only nodes that were on file and nodes written now, each at the page allocated after those before it |
| `Images.StoredIs` | Godeps/_workspace/src/github.com/boltdb/bolt/node.go:347-353 | a tree of nodes is on file exactly when every node is on its page run, with its overflow pages |
| `Images.RunHolds` | Godeps/_workspace/src/github.com/boltdb/bolt/node.go:344-345 | the pages of a node hold it, with one page to spare at most |
| `Images.OnceIs` | Godeps/_workspace/src/github.com/boltdb/bolt/tx.go:367-388 | no page is referenced twice exactly when the runs of the nodes do not overlap |
| `Commits.BucketReady` | Godeps/_workspace/src/github.com/boltdb/bolt/tx.go:352-388 | a tree of old and new nodes, with the old and new pages less those given back, is on file in the view of the writer, and takes exactly the pages Commit needs it to take |
| `Commits.TransactionReady` | Godeps/_workspace/src/github.com/boltdb/bolt/tx.go:139-157 | however the writes of spilling and the frees of rebalancing and spilling are interleaved as steps of the writer, the tree of the edited bucket ends up complete, which is what Commit needs |
| `CommitRuns.EveryInterleaving` | Godeps/_workspace/src/github.com/boltdb/bolt/node.go:334-353 | each such interleaving can be carried out, with first-fit pages, and committed; the file then holds the edited bucket |
| `CommitRuns.CommitReaches` | Godeps/_workspace/src/github.com/boltdb/bolt/tx.go:155-196 | from a complete tree the steps of Commit lead to a file at rest with that tree as current version and every listed id in its list |
| `CommitRuns.TransactionCommits` | Godeps/_workspace/src/github.com/boltdb/bolt/tx.go:131-204 | any edits that put no key below the first one are a run of the engine from a file at rest to a file at rest that holds the edited bucket, and no page is lost |
| `CommitRuns.CreatedHolds` | Godeps/_workspace/src/github.com/boltdb/bolt/db.go:237-282 | a new file holds an empty bucket, so such transactions can follow it |
| `BucketCommit.SaveBucket` | Godeps/_workspace/src/github.com/boltdb/bolt/node.go:334-353 | the database object, writing the spilled nodes and giving back pages in any order and then committing, ends with the edited bucket as its current version |
| `NodePage.Write` | Godeps/_workspace/src/github.com/boltdb/bolt/node.go:184-223 | header, elements with positions counted from themselves, and data, byte by byte; nothing else is written |
| `NodePage.Read` | Godeps/_workspace/src/github.com/boltdb/bolt/node.go:154-181 | every element of the page and the first key |
| `NodePage.ReadAfterWrite` | Godeps/_workspace/src/github.com/boltdb/bolt/node.go:154-223 | what was written is what is read, for leaves and branches |
| `NodePage.ElementReads` | Godeps/_workspace/src/github.com/boltdb/bolt/page.go:90-121 | an element that was written is read through its own position |
| `NodePage.PagesHold` | Godeps/_workspace/src/github.com/boltdb/bolt/node.go:344-345 | size/pageSize+1 pages hold the node |
| `RouterRoutes.AddRouteAdds` | Godeps/_workspace/src/github.com/julienschmidt/httprouter/tree.go:74-186 | a registration that does not panic adds exactly its route, which was not there, and keeps the shape: first bytes as indices, distinct, one wildcard child |
| `RouterRoutes.InsertChildOnly` | Godeps/_workspace/src/github.com/julienschmidt/httprouter/tree.go:188-290 | the chain hung below a node holds exactly the one route |
| `RouterPanics.RegistrationExactly` | Godeps/_workspace/src/github.com/julienschmidt/httprouter/tree.go:74-240 | one more registration succeeds exactly when its parameters have names and it conflicts with no pattern registered before: equal to it, parting from it where one goes on with a parameter, or parting from it inside the name of one |
| `RouterPanics.BuildExactly` | Godeps/_workspace/src/github.com/julienschmidt/httprouter/tree.go:74-240 | a list of registrations succeeds exactly when names are there and no two patterns conflict, so in every order or in none |
| `RouterPanics.WalkExactly` | Godeps/_workspace/src/github.com/julienschmidt/httprouter/tree.go:82-182 | the insertion loop panics at a node exactly when a route below it conflicts, or a name is missing |
| `RouterPanics.InsertExactly` | Godeps/_workspace/src/github.com/julienschmidt/httprouter/tree.go:188-229 | the chain for a pattern can be hung below a node without children exactly when its parameters have names |
| `RouterRank.AddRouteRank` | Godeps/_workspace/src/github.com/julienschmidt/httprouter/tree.go:53-186 | every registration keeps priority equal to the handles below, children in non-increasing priority, and maxParams large enough |
| `RouterRank.MoveDescending` | Godeps/_workspace/src/github.com/julienschmidt/httprouter/tree.go:53-70 | moving a child up restores the order of priorities |
| `RouterLookup.LookupComplete` | Godeps/_workspace/src/github.com/julienschmidt/httprouter/tree.go:297-413 | a matching pattern in the tree is found with its bindings |
| `RouterLookup.LookupSound` | Godeps/_workspace/src/github.com/julienschmidt/httprouter/tree.go:297-413 | what is found belongs to a pattern in the tree that matches |
| `RouterMatch.MatchMeaning` | Godeps/_workspace/src/github.com/julienschmidt/httprouter/tree.go:297-365 | a pattern matches a path with bindings exactly when the path is the pattern with these values in place of its parameters, each within a segment, the last not empty at the end |
| `RouterLookup.GetValue` | Godeps/_workspace/src/github.com/julienschmidt/httprouter/tree.go:297-413 | the lookup loop computes the recursive lookup and never exceeds the room for parameters |
| `RouterLookup.BuildHolds` | Godeps/_workspace/src/github.com/julienschmidt/httprouter/tree.go:74-186 | after any sequence of registrations the tree holds exactly the registered routes, each pattern once |
| `RouterLookup.BuildRanked` | Godeps/_workspace/src/github.com/julienschmidt/httprouter/tree.go:53-186 | and keeps its ranks; the priority of the root counts the routes |
| `RouterLookup.RouterCorrect` | Godeps/_workspace/src/github.com/julienschmidt/httprouter/tree.go:74-413 | a path is answered with a handle and bindings exactly when a registered pattern with that handle matches it with them |
| `CleanPath.CleanPath` | Godeps/_workspace/src/github.com/julienschmidt/httprouter/path.go:21-110 | the loop over a lazily made buffer gives the elements left on a stack, with the rule for the last slash, all indices in bounds |
| `CleanPath.BufApp` | Godeps/_workspace/src/github.com/julienschmidt/httprouter/path.go:113-123 | appends one byte, making the buffer only when the path differs there |
| `CleanPath.Backtrack` | Godeps/_workspace/src/github.com/julienschmidt/httprouter/path.go:64-81 | takes the last element and its slash away |
| `CleanPath.AppendElement` | Godeps/_workspace/src/github.com/julienschmidt/httprouter/path.go:83-96 | adds one element, after a slash if it is not the first |
| `CleanPath.CleanTwice` | Godeps/_workspace/src/github.com/julienschmidt/httprouter/path.go:8-20 | a clean path is left as it is |
| `CleanPath.CleaningRules` | Godeps/_workspace/src/github.com/julienschmidt/httprouter/path.go:8-20 | double slashes are one, a dot is nothing, two dots take the element before away, or nothing at the root |
| `Scheduler.Cron.Start` | github.com/robfig/cron/cron.go:157-162 | every entry is planned from the starting time |
| `Scheduler.Cron.Fire` | github.com/robfig/cron/cron.go:166-188 | runs and plans anew exactly the entries due at the effective time, although the loop stops at the first other one |
| `Scheduler.Cron.Add` | github.com/robfig/cron/cron.go:190-192 | a new entry is planned from the time last seen |
| `Scheduler.Cron.Remove` | github.com/robfig/cron/cron.go:209-227 | takes the entry out, if it is there |
| `Scheduler.Cron.Snapshot` | github.com/robfig/cron/cron.go:245-257 | a copy by value |
| `SchedulerLoop.Turn` | github.com/robfig/cron/cron.go:163-206 | a turn of the loop on the object, with the entries in any sorted order, is a step of the run |
| `SchedulerRuns.EffectiveIsLeast` | github.com/robfig/cron/cron.go:75-90 | the first entry of any sorted order has the least time that is not zero |
| `SchedulerRuns.FiresExactly` | github.com/robfig/cron/cron.go:177-188 | a timer step runs exactly the entries whose next time is the least non-zero one, each once |
| `SchedulerRuns.StepKeeps` | github.com/robfig/cron/cron.go:157-207 | every turn of the loop keeps the history of each entry and its next and previous times in step |
| `SchedulerRuns.WholeRun` | github.com/robfig/cron/cron.go:157-207 | over a whole run the run times of an entry are the successive times of its schedule |
| `SchedulerRuns.WholeRunTimely` | github.com/robfig/cron/cron.go:157-207 | with advancing schedules jobs start in the order of their times and never early |
| `SchedulerRuns.RunsIncrease` | github.com/robfig/cron/cron.go:27-32 | and an entry never runs twice for the same time |
| `SchedulerRuns.StepIds` | github.com/robfig/cron/cron.go:157-207 | entries come by being added and go by being removed, and in no other way |
| `SchedulerRuns.RemovedForGood` | github.com/robfig/cron/cron.go:209-227 | the job of a removed entry does not start again |
| `CronSpec.Next` | github.com/robfig/cron/spec.go:58-225 | the search ends, and has no result if and only if no time of the schedule follows within the year limit; a result is later than the input with month, day and hour of the schedule, its minute and second match if and only if the search does not cut them back; it is the first time of the schedule after the input if and only if the search passes over none, which the start tells, and one passed over is in its own hour; with a star for the day of the month the weekdays decide, with a star for the weekday the days of the month, and without a star a day counts that either field has |
| `CronSpec.KnownDays` | github.com/robfig/cron/spec.go:230-238 | the calendar: the lengths of the months and what weekday a known day was |
| `CronSpec.MissedExactly` | github.com/robfig/cron/spec.go:190-222 | the search passes over a time of the schedule exactly from the starts from which it carries a minute or second past an earlier one |
| `CronSpec.PassOverHappens` | github.com/robfig/cron/spec.go:174-205 | a schedule and a time from which it does, with nothing cut back |
| `CronSpec.MonthPasses` | github.com/robfig/cron/spec.go:86-105 | a turn of the month loop passes over no time of the schedule, but in an hour the search will end in |
| `CronSpec.MinutePasses` | github.com/robfig/cron/spec.go:190-205 | a turn of the minute loop passes over none either, with the seconds cut back or not |
| `CronSpec.Found` | github.com/robfig/cron/spec.go:190-224 | where the search ends date and hour match, and minute and second if and only if it did not cut them back for good |
| `CronSpec.MinuteTurn` | github.com/robfig/cron/spec.go:190-205 | one turn of the minute loop gets later and records that the seconds were cut back; back at the top nothing stays cut back |
| `CronSpec.HourTurn` | github.com/robfig/cron/spec.go:207-222 | one turn of the hour loop gets later and records that minutes and seconds were cut back; back at the top nothing stays cut back |
| `CronSpec.CutBackHappens` | github.com/robfig/cron/spec.go:190-195 | a schedule and a time for which the seconds are cut back |
| `CronSpec.DayStep` | github.com/robfig/cron/spec.go:112-123 | the next day has the next day number and weekday |
| `Json.WriteJsonString` | helpers/ffjson.go:29-90 | the batched loop appends exactly the escape of each character, in quotes |
| `Json.RoundTripChars` | helpers/ffjson.go:29-90 | reading the escapes back gives the input with each invalid byte replaced by U+FFFD |
| `Json.RoundTrip` | helpers/ffjson.go:29-90 | the same for the whole string, and valid UTF-8 comes back unchanged |
| `Json.RuneMeaning` | helpers/ffjson.go:60-75 | what is taken for a character is the shortest encoding of a code point that is no surrogate |
| `Json.CharacterRead` | helpers/ffjson.go:60-75 | and the encoding of each such code point is taken for it |
| `Json.EscapedHarmless` | helpers/ffjson.go:36-81 | the output has no control character, no character with a meaning in HTML and no line separator |

## Left out

- Memory mapping, file locks, growing the mapping, torn or partial meta writes and checksums: a page slot and a
  meta page are each written in one step. Opening a file requires both metas to be valid, as the code does.
- Errors of the file system other than the sync after the meta write; they lead to the rollback that is modelled.
- Concurrency of goroutines below the level of these steps: the locks of the original make each step one action.
- Statistics, commit handlers, copying the file, the check goroutine (its condition is `VersionRuns.RestIsPartition`).
- Nested buckets, inline buckets and bucket sequence numbers: a nested bucket is a flagged value, and a bucket has
  a root page of its own. A page id of 0 for the root of an inline bucket is not part of this model.
- Machine widths: page ids, transaction ids and sizes are unbounded, except where a field of a page is written
  (count, positions, sizes and flags in `NodePage`, the count field of the free list).
- Rebalancing and spilling are modelled on tree values. The order of actions, the lookups by key and the marks
  are those of the code; the parent pointers, the node cache and sharing of nodes are not captured. The order in
  which the code goes through its node cache is arbitrary, and the theorems hold for every order.
- A page and the node read from it are one thing to the cursor and to lookups, which search both in the same way.
- Registration in the router is modelled on tree values by recursion, as is the lookup it is compared with; the
  sharing of slices between nodes in the code is not captured. The lookup loop is a loop.
- Catch-all routes, redirects for trailing slashes and case-insensitive lookup. Patterns have at most one parameter
  in a segment and fewer than 255 in all, and handles are not nil.
- `Cursor.Delete` and cursors over a bucket that is being changed. First, Last, Next, Prev and Seek are for trees with no
  empty node but the root, which is what every transaction leaves (`Transactions.TransactionMeaning`); a cursor does
  not skip an empty leaf.
- Sorting is any sorted order of the entries in the scheduler; the running of jobs is their being started.
- The clock, timers and channels of the scheduler are parameters and events; stopping it ends a run.
- Daylight saving time, time zone data and the parsing of schedules. A step of 0 in a schedule is not part of this model.
- The integer formatter beside the string writer, and the HTTP handlers, sessions, commands and front end.
