# mykv, modelled and proved in Dafny

mykv is an embedded key-value store: a B-tree of pages, transactions that work on
an overlay of changed nodes and commit through a whole-page redo log, and
collections whose metadata are items of one more collection. This project models
it in three layers and proves what each promises.

* **The B-tree over a page store.** `Trees` gives the meaning: a tree of pages and
  its in-order items. `TreeSearch`, `TreePut` and `TreeRemove` say what findKey,
  Put and Remove do to a tree; `RemoveProofs`, `RunsLow`, `PutBounds` and `FillExact` prove
  that this is map update and map deletion, and when the byte-size fill rules keep
  their promises. `RemoveOutcome` says what Remove does where it is not. `Engine`, `NodeOps`, `Walks`, `PathWork` and `Collections` are the
  code itself: node objects shared by reference, an overlay over decoded pages,
  breadcrumbs, and upward loops, each method proved against the tree functions.
* **Transactions and crashes.** `Replay`, `Crash` and `Storage` are the redo log as
  a machine of single file operations with a crash possible between any two, in
  recovery too; `Locks` is the two-lock scheme as a machine of interleaved steps, and `LockProgress` what it lets happen;
  `Commits`, `Sessions`, `Transactions` and `Opening` are commit, rollback,
  collection handles, metadata flush and opening. `Forest`, `Lifecycle`,
  `Database` and `Histories` say what a transaction means: page ownership, and a map
  from collection names to items and issued IDs.
* **The byte layouts.** `Bytes`, `NodeCodec`, `NodeLayout`, `ChildFields`, `NodeShapes`, `ChanceNode`,
  `WalCodec` and `HeadCodec` are the slotted node page, the log file, the freelist and meta pages
  and collection values, written into buffers and read back through offsets.

Two expressions of the code differ from its own comments, so the functions for
Remove take a `Mode`: `AsWritten` follows the expressions, `AsDocumented` the
comments. Results hold in both modes unless a row says otherwise.

`dafny verify dfyconfig.toml` checks the whole project.

## Model

| member | source | states |
|---|---|---|
| Engine.Node.FindKeyInNode | node.go:265-275 | binary search returns the first position whose key is not below the key sought, and whether it is the key |
| Engine.Node.AddItem | node.go:295-304 | the item stands at the index, everything else in its old order |
| Engine.Node.PutItem | collection.go:82-90 | a node's items become the old ones with the key replaced, or inserted in order |
| Keys.LessExact | node.go:269 | keys are ordered by the first byte that differs, and a proper prefix comes first |
| Fill.ValidItemExact | node.go:277-293 | an item is accepted exactly if key and value have at most 255 bytes each and, with 19 more, fit the page |
| NodeCodec.ValidatedAlone | collection.go:271-274 | an item is accepted exactly if a leaf with that item alone is |
| NodeCodec.ValidatedExact | node.go:277-293 | a node is accepted exactly if it has no children or one more than items, fields of at most 255 bytes, and 11 bytes, 6 an item and its cells fit the page |
| Engine.Freelist.GetNextPage | freelist.go:35-46 | on the fields: the last released page is taken off the list and the highest page stays; only without released pages the page after the highest is handed out |
| Engine.Tx.constructor | tx.go:17-31 | a transaction starts with no changes, over what is committed, with its own copy of the freelist |
| Engine.Tx.GetNode | tx.go:43-54 | what is read is the changed node of the page if there is one, else a copy of the one on disk; an error exactly if there is neither |
| Engine.Tx.WriteNode | tx.go:56-60 | from then on every reader of the page sees the node |
| Pool.HandedFresh | freelist.go:37-46 | pages handed out one after another are distinct, never page 0, and none was in use |
| Pool.HandedExact | freelist.go:35-46 | the i-th of n pages handed out is the i-th last released page, and after these the highest page plus one and so on; the highest page grows by exactly the pages that releases do not make up for |
| Pool.ReleasedIsNext | freelist.go:37-51 | a page just released is the next one handed out, and the freelist is then as before |
| Fill.GetSplitIndex | dal.go:120-134 | the first index at which header and elements outgrow the minimum, if it is not past the last element |
| TreeSearch.SearchFinds | node.go:229-263 | the search path ends at a node holding the key exactly if the tree holds it, and its item is the one of the in-order sequence |
| Walks.FindKeyHelper | node.go:244-263 | the breadcrumbs collected are the search path, the node returned is the one at its end, and the index the position of the key or of its insertion |
| Walks.GetNodes | collection.go:215-240 | following the breadcrumbs visits exactly the nodes on the search path |
| TreeOps.SplitPreserves | node.go:317-342 | a split leaves the in-order items and the height, and adds exactly the new page |
| TreeOps.RotateRightPreserves | node.go:434-462 | so does a rotation to the right, moving no page, for leaves and internal nodes |
| TreeOps.RotateLeftPreserves | node.go:464-492 | so does a rotation to the left |
| TreeOps.MergePreserves | node.go:494-518 | a merge leaves the in-order items and the height, and gives up exactly one page |
| NodeOps.SplitNode | node.go:317-342 | the three node objects hold what the split tree says |
| NodeOps.RebalanceRemove | node.go:344-390 | the siblings are tried left first, then right, then merged; the overlay then holds the rebalanced tree |
| TreePut.PutRefines | collection.go:44-115 | on trees of any height the result is the old map with the key set, keys in order, leaves at one depth, child counts right |
| TreePut.PutGains | collection.go:48-115 | the new tree has the old pages and those handed out, each once |
| TreePut.SplitKidExact | node.go:317-342 | a child over the maximum keeps the fewest leading items that outgrow the minimum, the next item goes up, and the rest goes to a new page; any other child stays |
| TreePut.GrowRootExact | collection.go:102-112 | a root over the maximum is split under a new root with one item; any other root stays |
| TreePut.PutFailsExact | collection.go:92-112 | Put indexes with -1 if and only if some node on the path, grown by the splits below it, is over the maximum and has no split index |
| PutBounds.PutSucceeds | collection.go:92-112 | if the thresholds are far enough apart (`Roomy`, exactly the condition of `FillExact.SplitExact`), Put never indexes out of range and leaves no node below the root empty |
| PutBounds.PutFits | collection.go:92-112 | if also the largest element is at most nine bytes more than what a split always leaves on the left (`KeepsFit`), and no node was over the maximum before, none is afterwards |
| FillExact.PutFitsExact | collection.go:92-112 | one split a level is enough on all sorted trees exactly under that condition |
| FillExact.SplitExact | dal.go:120-134 | whenever an item put outgrows a node, its split has an index and two non-empty halves, exactly if the maximum leaves room for two of the largest elements above the minimum (`SplitGap`), at every page size from 24 to 65536 and every minimum |
| FillExact.RebalanceMergeSize | node.go:377-389 | a node merged in rebalancing is smaller than twice the minimum and two of the largest elements, less three |
| FillExact.MergeExact | node.go:377-389 | every merge of sorted neighbours, on either side, fits the page exactly if the minimum is at most 11 bytes, so that nothing is merged, or under one inequality of page size and minimum |
| FillExact.DefaultMinimumTooHigh | dal.go:17-21 | the default minimum of half a page breaks that inequality at every page size |
| Collections.Collection.Find | collection.go:117-132 | the item found is what the collection's map has under the key |
| Collections.Collection.Put | collection.go:44-115 | the node objects, overlay, allocator, root and dirty mark end up as the tree function says; an item is too large exactly if a field is over 255 bytes or both and 19 bytes are over the page; the error cases change nothing |
| Collections.Collection.Remove | collection.go:134-193 | the same of Remove, with the pages to be released; it indexes out of range exactly if, in the tree before, the written descent from the child before the key runs out of children |
| Collections.Collection.ID | collection.go:32-42 | returns the counter and moves it on modulo 2^64; in a read transaction returns 0 and changes nothing |
| TreeRemove.RebalancePreserves | node.go:344-390 | rebalancing leaves the in-order items and the height, and loses only the page it reports |
| RemoveProofs.RemoveRefines | collection.go:134-193 | as documented and with any options, Remove on a tree of any height whose nodes have items is deletion from the map, and indexes nothing out of range; if the minimum is above 11 bytes, the nodes have items afterwards |
| RemoveProofs.RemoveAsWritten | node.go:415-424 | as written, with any options and from such a tree, it is deletion if and only if the nodes on the way to the predecessor have as many children as the node losing the item, and the root is not dropped wrongly |
| RemoveOutcome.WrittenPath | node.go:417-424 | the written descent takes child width - 1 at every level down to the leaves, and indexes out of range if and only if that path comes to an internal node with fewer children |
| RemoveOutcome.DocumentedPath | node.go:410-411 | the documented descent takes the last child of every node it visits, and never indexes out of range |
| RemoveOutcome.RemoveFailsExact | collection.go:134-193 | Remove indexes out of range exactly in that case, and never as documented |
| RemoveOutcome.WrittenOutcome | collection.go:134-193 | all that Remove as written can do: nothing, deletion, an index panic, or a move of the last item of the leaf reached to the place of the key, over all items between; and if the root is dropped for the wrong child, the loss of everything up to its item |
| RunsLow.DropsLeftChildExact | collection.go:185-190 | the root is dropped wrongly if and only if it has one item, the key is below its second child, its first child cannot spare an element, and the second child will be left below the minimum; what nodes will be left with is computed from the items on the path and beside it before the call |
| RunsLow.LeftWithIs | collection.go:173-183 | the items the upward loop leaves in a node are those computed from the tree before the call |
| RemoveProofs.DropsLeftChildOverLeaves | collection.go:185-190 | over leaves, the second child will be left with its items without the key |
| RemoveProofs.RemovePages | node.go:494-518 | with any options, Remove gives up exactly the merged pages and, if the root is dropped, its page |
| Witnesses.KeepsFilledExact | collection.go:173-183 | where Remove deletes the key, in either mode, it leaves an item in every node below the root on all trees if and only if the minimum is above 11 bytes |
| Witnesses.EmptiedLeafRead | node.go:426-428 | with a lower minimum an emptied leaf stays, and a tree that Remove leaves so makes the next removal look for the last item of a leaf without items |
| PathWork.RemoveItemFromInternal | node.go:398-432 | the item is replaced by the last one of the leaf reached, and the breadcrumbs to that leaf are returned: as written the index and then width - 1 at every level, and an index panic exactly if that runs out of children |
| PathWork.SplitUpwards | collection.go:97-107 | the upward loop of Put does to the overlay what the tree function says |
| PathWork.RebalanceUpwards | collection.go:173-183 | so does the upward loop of Remove |
| NodeCodec.ValidatedFits | node.go:205-227 | a validated leaf always fits its page, an internal node exactly if nodeSize and 4n+1 bytes do |
| NodeCodec.Serialize | node.go:92-160 | the loop over a buffer computes the page, or is an index panic |
| NodeCodec.Deserialize | node.go:162-203 | the loop over offsets, with 16-bit wrap-around, computes the node read, or is an index panic |
| NodeCodec.SerializedExact | node.go:92-160 | writing indexes out of range exactly if the directory or the cells outgrow the page by themselves |
| NodeLayout.FieldsAt | node.go:96-140 | byte 0 is 1 for a leaf and 0 else, then the number of items, the children beside the cell offsets at multiples of 2 or 10, and the last child |
| NodeLayout.ItemsAt | node.go:138-149 | cells lie end to end from one byte before the end of the page, each a length, a key, a length and a value |
| NodeLayout.DeserializedExact | node.go:162-203 | of any page of up to 65536 bytes, reading gives a node if and only if the items stand where the offsets point, 16-bit wrap-around included, and the children beside them |
| NodeCodec.PageRoundTrip | node.go:92-203 | a page of a node that fits is read back as that node |
| NodeCodec.ValidatedLeafRoundTrip | node.go:277-293 | every leaf that validate accepts is written and read back unchanged, whatever the buffer held |
| NodeCodec.LastChildExact | node.go:152-157 | an internal node whose items fit is read back whatever its last child is, exactly if its layout fits |
| NodeShapes.InternalRoundTripExact | node.go:205-227 | a validated internal node is read back with any children exactly if nodeSize and 4n+1 bytes fit, unless they miss by nine or ten bytes; all nodes of its field lengths are exactly if they fit; so are those with their keys in order, of at most 255 items or missing by something else |
| ChanceNode.ReadBackByChance | node.go:121-157 | a validated node ten bytes too large for its page that is read back whatever its last child is: for a single node, fitting is not necessary |
| WalCodec.EncodeWal | wal.go:49-96 | the log of any pages of the right size; an error exactly for another size |
| WalCodec.DecodeWal | wal.go:99-160 | reading computes no log, an error, or the pages to replay |
| WalCodec.PrefixRead | wal.go:107-137 | a log cut short anywhere, to nothing too, is no log; a whole one gives the pages written |
| WalCodec.WalRoundTrip | wal.go:49-160 | what is written is read back |
| WalCodec.ReplayExact | wal.go:99-160 | of all files below 2^63 bytes, pages are replayed if and only if the file is the log of exactly these pages, checksum included |
| WalCodec.NoWalExact | wal.go:99-137 | a file is no log if and only if it is missing, shorter than 28 bytes, or begins with the bytes of magic, version and page size but has another length than its count says; what is neither is an error |
| WalCodec.WalLayout | wal.go:49-96 | the place and the bytes of every field and record |
| HeadCodec.SerializeFreelist | freelist.go:53-65 | the freelist is written at the start of the page, or is an index panic if too long |
| HeadCodec.FreelistRoundTrip | freelist.go:53-80 | it is read back exactly if its length fits two bytes |
| HeadCodec.FreelistExact | freelist.go:67-80 | of all pages, one is read as a given freelist if and only if it begins with the bytes written for it |
| HeadCodec.FreelistLayout | freelist.go:53-65 | highest page, count and released pages, in their order |
| HeadCodec.MetaRoundTrip | meta.go:37-75 | the meta page is read back |
| HeadCodec.MetaExact | meta.go:53-75 | of all pages, one is accepted as meta page if and only if it begins with the bytes written for root and freelist page |
| HeadCodec.MetaLayout | meta.go:37-51 | the magic number D00DB00D and version 1, lowest byte first, then both page numbers |
| HeadCodec.CollectionRoundTrip | collection.go:242-265 | root and counter are read back exactly if both are 64-bit numbers |
| HeadCodec.CollectionExact | collection.go:253-265 | which values are read as a root and a counter, and which are an index panic |
| Replay.ApplyCompletes | wal.go:40-42 | writing the pages gives the same file whatever the pages held before, complete, torn or missing |
| Replay.OrderIrrelevant | tx.go:229-236 | with distinct numbers the order of the pages does not matter |
| Commits.CommitPagesApart | tx.go:223-253 | the pages of one commit have pairwise distinct numbers |
| Commits.CommitPages | tx.go:223-253 | one page a changed node in any order, the freelist with the deleted pages released, and the meta page; errors exactly where a node is refused or does not fit |
| Commits.CommitShows | tx.go:43-54 | the file then shows every node that the overlay showed |
| Commits.CommitReopens | tx.go:238-252 | and meta page and freelist page read as the new root and freelist |
| Commits.Commit | tx.go:80-110 | a commit publishes the overlay, root and freelist, and its first file operation logs exactly its pages; a failed one leaves file, pages, root and freelist alone |
| Commits.Rollback | tx.go:66-78 | rollback touches nothing committed |
| Storage.Dal.ApplyPagesWithWal | wal.go:19-30 | log, apply, sync, remove: the file gets the pages, by operations that are a run of the crash machine |
| Storage.Dal.RecoverWal | wal.go:32-47 | recovery ends with the file that opening is promised, by operations that are a run too |
| Crash.CrashAtomicity | doc/crash-safe-commits.md:122-138 | after a crash anywhere, with torn pages, opening gives exactly the store before or after the commit, and the latter once the log was synced |
| Crash.CrashExact | doc/crash-safe-commits.md:122-138 | what a crash may leave: anything on unsynced pages, any prefix of an unsynced log or none, and all else as it was |
| Crash.AnyPageMayTear | wal.go:19-47 | in every run, each page written since the last sync may hold any bytes after a crash |
| Crash.AnyPrefixMayStay | wal.go:49-96 | in every run, a crash while the log is written may leave any prefix of it, or no log |
| Crash.RecoveryStable | doc/crash-safe-commits.md:105-121 | no number of crashes in recovery changes what it ends with |
| Crash.CommitsAreAtomic | doc/crash-safe-commits.md:9-11 | over whole runs: between two idle states the store stays or takes the whole commit, and takes it once decided |
| Opening.Open | dal.go:63-84 | recovery, then meta page, then freelist, then nodes read from the file; an error exactly if the log is corrupt, or the recovered file has no good meta page or no freelist page where that says |
| Opening.CrashInCommit | dal.go:69-84 | after a crash at any point of a commit the file found on opening holds the whole old state or the whole new one, and the new one once decided |
| Transactions.CommitDurable | tx.go:98-100 | a commit whose nodes all fit leaves a file that holds its state, and is safe against a crash after each of its file operations, for every state that the file held before |
| Opening.OpenedIs | dal.go:74-84 | a database opened from a file that holds a state has its root, freelist and trees |
| Locks.SnapshotIsolation | db.go:72-76 | in every interleaving an active reader has the root, and reads the pages, of the last commit before it started |
| LockProgress.LockReadExact | db.go:72-76 | a new reader gets the lock if and only if the writer is absent, starting, building or releasing: only the apply phase keeps readers out |
| LockProgress.ReaderExact | tx.go:17-31 | with the lock, a reader can start, read and end whatever the writer does |
| LockProgress.LockWriteExact | db.go:78-82 | a writer can start if and only if there is none, and take commitLock if and only if it is building and no reader is left |
| LockProgress.BuildingExact | tx.go:66-78 | a writer can start, read pages and give up exactly in these states |
| LockProgress.CommittingExact | tx.go:91-110 | with commitLock a commit can fail or build any pages, and then nothing holds it up |
| LockProgress.ReaderGetsIn | doc/crash-safe-commits.md:33-38 | from every state of every run in which no commit is applied, a new reader becomes active in two steps and has the last commit, the writer left as it was |
| LockProgress.ReaderBesideWriter | doc/crash-safe-commits.md:13-14 | there are runs with an active reader beside a building writer |
| LockProgress.CommitCompletes | tx.go:80-110 | from every state with a building writer there is a continuation that commits any pages and publishes exactly them |
| LockProgress.AlwaysEnds | db.go:10-14 | from every state of every run all transactions can be brought to an end: no deadlock |
| Locks.LinearHistory | db.go:78-82 | every commit was built on the one before it |
| Locks.FailureChangesNothing | tx.go:94-97 | giving up or failing to build the pages leaves everything committed |
| Forest.PutInKeeps | collection.go:48-115 | Put in a collection keeps that every page in use has exactly one owner, and that the root collection lists the collections |
| Forest.RemoveInKeeps | collection.go:139-193 | so does Remove; a dropped root leaks its page |
| Lifecycle.CreateKeeps | tx.go:148-199 | so does creating a collection, also under a name in use or too long |
| Lifecycle.DropCollKeeps | tx.go:172-184 | so does deleting one, whose tree leaks |
| Database.OpRefines | tx.go:120-199 | every operation does to what is seen under any name what a map of maps would, and keeps the invariant |
| Database.ValidNameExact | tx.go:186-199 | a collection can be created exactly if its name has at most 255 bytes and fits the page with 35 more |
| Database.FlushOrderIrrelevant | tx.go:208-221 | whatever order the flush meets the collections in, the root collection ends up holding the same |
| Database.FlushSkips | tx.go:208-212 | what is not marked dirty is not flushed |
| Database.PublishKeeps | tx.go:224-227 | releasing the deleted pages on commit keeps the ownership of pages |
| Histories.HistoryKeeps | tx.go:80-110 | in every state of every history of transactions, meta page, freelist page, trees, leaked and free pages are disjoint and cover all pages |
| Histories.HistoryRefines | tx.go:80-221 | every history does to every name what the specification says: commit publishes, rollback forgets |
| Histories.AlwaysEnabled | db.go:72-82 | as documented, every operation is possible in every transaction, and commit and rollback end any |
| Histories.IdIsNext | collection.go:32-42 | the ID handed out is the number of IDs issued before it, modulo 2^64 |
| Histories.IdsOfTransaction | tx.go:208-221 | a committed transaction moves the count on by the IDs it took; a rolled back one does not |
| Histories.NeverHandedOutAgain | tx.go:62-64 | no page is handed out twice in one transaction, its flush included, also if deleted in between, and none reachable from the committed root |
| Histories.OpenedAsCommitted | tx.go:120-146 | collections opened through the committed root collection have the root, counter and contents the writer left |
| Sessions.Session.GetCollection | tx.go:120-146 | in a write transaction: the tracked handle, or one made from the metadata; none for a deleted or missing name |
| Sessions.GetCollectionToRead | tx.go:131-146 | in a read transaction: a new handle with the root and counter of the collection; none for a missing name |
| Sessions.Session.CreateCollection | tx.go:148-206 | pages, metadata and handle of the new collection; an error for a name too long |
| Sessions.Session.DeleteCollection | tx.go:172-184 | metadata and handle are gone, and the name is marked deleted |
| Sessions.Session.Put | collection.go:48-115 | Put through a handle takes the session to the state that the specification of the operation gives |
| Sessions.Session.Remove | collection.go:139-193 | so does Remove |
| Sessions.Session.NextId | collection.go:33-42 | so does ID, with the number it returns |
| Sessions.FlushMetadata | tx.go:208-221 | the loop over the handles, in any order, writes the metadata of every handle marked dirty |
| Transactions.Begin | tx.go:17-31 | a write transaction starts from what is stored |
| Transactions.BeginRead | db.go:72-76 | a read transaction finds what is stored |
| Transactions.Commit | tx.go:80-110 | flush and commit, if every changed node fits its page, leave stored and in the file exactly the state with the deleted pages released; a crash after any of the operations in its trace leaves the state before or that one |
| Witnesses.DroppedRootLosesKeys | collection.go:185-190 | a tree on which Remove as written loses two more keys |
| Witnesses.DescentStopsShort | node.go:417-424 | a tree on which Remove as written does not remove the key |
| Witnesses.NewDatabaseReopened | dal.go:93-110 | a database opened again before its first commit hands out the page of its root |
| Slices.AddKeepsRightHalf | node.go:325-332 | adding to the left half of a split node leaves the right half alone exactly for the first addition to a leaf |
| Slices.FirstChildReplaced | node.go:325-332 | an internal node whose right half gets a wrong first child |

## Findings

| what the code does | where | when it is right |
|---|---|---|
| The descent to the predecessor takes, at every node, the index of the last child of the node losing the item. | node.go:418 | Exactly if every node on the way has as many children as that node (`RemoveProofs.RemoveAsWritten`); a tree where it is wrong is in `Witnesses.DescentStopsShort`. Otherwise it is an index panic or moves another item to the place of the key, exactly as `RemoveOutcome.WrittenOutcome` says. |
| A root left empty is replaced by the first node of the search path, even if that was just merged away. | collection.go:188-190 | Exactly if the path does not go to the second child of a root with one item, whose first child cannot spare an element, while that second child will run low (`RemoveProofs.RemoveAsWritten`, `RunsLow.DropsLeftChildExact`); `Witnesses.DroppedRootLosesKeys` loses two keys. |
| The halves of a split share their arrays. | node.go:325-332 | Exactly for a leaf whose left half gets at most one item while both are in memory; never for an internal node whose left half gets a child (`Slices.AddKeepsRightHalf`). All other modules assume that nodes own their sequences. |
| A new database writes its freelist before its root page is allocated. | dal.go:93-110 | Not before the first commit (`Witnesses.NewDatabaseReopened`). Results about allocation are for freelists written by a commit. |
| nodeSize leaves out 4n+1 bytes of an internal page. | node.go:205-227 | Exactly if they fit as well (`NodeCodec.ValidatedFits`, `NodeShapes.InternalRoundTripExact`). If nine or ten bytes are missing, the last cell starts on the offset that leads to it, and a node may be read back by chance, whatever its children, from a copy of that cell elsewhere on the page (`ChanceNode.ReadBackByChance`); the exact condition is then about all nodes of the same field lengths. |
| Only a node below the minimum is rebalanced, and a node without items has 11 bytes. | node.go:344-390, node.go:426-428 | Exactly if the minimum is above 11 bytes (`Witnesses.KeepsFilledExact`); validate accepts lower ones, with which empty leaves stay and a later Remove indexes with -1 (`Witnesses.EmptiedLeafRead`). |
| Merging does not look at the page size. | node.go:377-389 | Exactly if the minimum is at most 11 bytes, or the page holds the largest node merged, which is about twice the minimum and two elements (`FillExact.MergeExact`, `LargestMerged`); at the default fill it never does (`FillExact.DefaultMinimumTooHigh`). |
| Splitting assumes thresholds far enough apart. | dal.go:120-134 | Exactly if the maximum is 8 bytes and two of the largest elements above the whole part of the minimum, or 11 bytes and two elements for a minimum below 11 (`FillExact.SplitExact`); Put indexes with -1 or leaves an empty half otherwise. |
| Put splits once a level. | collection.go:97-107 | Given that, exactly if the largest element is at most the whole part of the minimum and 7 bytes, or 17 bytes for a minimum below 11 (`FillExact.PutFitsExact`); otherwise the right half may stay over the maximum. |

## Left out

- Engine.Node: nodes own their item and child sequences; the sharing of arrays after a split is in `Slices` alone.
- Engine.Tx: a collection and a node get their transaction as an argument where the source stores a pointer in the node; the maps of collection handles are fields of `Sessions.Session`.
- Sessions.FlushMetadata: its frame allows any node object to change, since it does not follow which objects the overlay holds from turn to turn; what getNode sees is stated in full.
- Sessions.Session: one live handle a collection is assumed, as tracking makes it; a stale handle kept across a deletion or re-creation is not modelled.
- Crash.Begin: an I/O error inside a commit counts as a crash; the code would go on with half-applied pages.
- Crash.Finish: creating and removing the log file takes effect at once; the parent directory is never synced, as doc/crash-safe-commits.md:156-158 says.
- WalCodec.DecodeWal: the checksum is any function of the records; collisions are not considered, and a log not synced is left as some prefix of itself.
- FillExact.SplitExact: for page sizes up to 65536, whose offsets fit 16 bits; so are the other exact conditions of the fill rules.
- Collections.Collection.Remove: from trees whose nodes below the root have items, which Remove keeps exactly for minimums above 11 bytes; with lower ones the code may index with -1, and nothing is said of later calls. The invariant of `Forest` assumes such a minimum, and thresholds far enough apart for Put (`Usable`).
- NodeShapes.InternalRoundTripExact: for more than 255 items and nine or ten missing bytes the failing node is not shown to have its keys in order.
- Thresholds are real numbers; rounding of 32-bit floats is not modelled.
- Page numbers grow without bound in the allocator; 64-bit limits are premises where numbers are written.
- Options.validate, withDefaults and Close: checks and defaults of options are premises of the fill rules.
- newDal for a file that does not exist: not crash-safe, as it uses no log; only the freelist it writes is modelled.
- Lock fairness, starvation and deadlock by misuse: only which step is enabled when; that a commit waiting for commitLock also keeps new readers waiting, as Go's RWMutex does, is not modelled.
- Short reads and file offsets: the file is a map from page numbers to page contents.
- The command line, benchmarks, reports and the C programs.
