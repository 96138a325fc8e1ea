# A model of the store, its tables and its range scans

The program is an embedded database. Its bottom is a copy-on-write B+tree on pages of 4096 bytes, with snapshots for
readers, one write transaction at a time, a two-phase commit, and a free list that is stored in the pages it manages.
On top are typed rows with secondary indexes under an order-preserving encoding, and a query language whose filters are
narrowed to index ranges. This project models that stack in Dafny and proves what it promises.

How it is built, bottom up:

- **Pages.** `FreeList` treats the free list as a value: which page is the meta page, held by the tree, a list node or a
  free item. `TxPages` and `KvTx` are the classes that keep it in page buffers, in place. What an earlier saved list still
  relies on (`Needed`, `Keeps`) is stated once and carried through every operation. `FreeListWalk` reads lists back.
  `NodeLayout` and `ListLayout` are the bytes of both kinds of page, written in place into arrays, and `ByteRead` is
  lookup on those bytes.
- **Tree.** A tree on pages is described by a ghost value (`Trees`): its entries in order, its pages, its shape. `BTree`
  holds the insertion and deletion methods, `TreeEdit` and `TreeDelete` the facts about replacing and merging children,
  `BTreeRead` and `Iterator` lookup and iteration. The contract of each is about the sorted sequence or the map;
  `TreeShape` adds which entries lie in which node, as functions of the tree before.
- **Store.** `KvState` is a step machine whose every page has two images, what reads return and what a crash leaves.
  `KvSafety` proves its invariant, `KvGuarantees` what follows: isolation, recovery, durability, conservation of pages.
  `KvRun` and `KvStale` have runs that end where a guarantee has a condition. `KvStore` is the store's class; each method
  is shown to be a run of that machine. Its readers are in `ReaderHeap` and `SnapshotRead`, its mappings of the file in `Mmap`.
- **Rows.** `Encoding` and `RowCodec` are the byte codes, `Tables`, `TableAccess` and `Catalog` the rows, the indexes and
  the prefixes that keep tables apart, `TableText` the text definitions are stored as, `Scan` and `ScanRows` range scans.
  `CatalogRun` gives each version of a run its tables and rows, and `TableRun` has scans during such a run, and one run.
- **Queries.** `QlEval` evaluates filters, `QlRange` narrows them, `QlOutcome` says what a scan of given rows answers,
  `QlScan` reads the narrowed range, and `StoreQueries` joins this to the store's readers and transactions. `QlLaw` has
  the laws of filters and of their answers, `QlNarrow` says which rows each narrowed range holds, and `QlSample` has
  filters on which narrowing shows.
- **Formats.** `Format` has samples of stored keys, rows, definitions and nodes, byte for byte, so that both ends of a round
  trip cannot move together.

Inputs from outside are nondeterministic: whether a write or a sync succeeds, what a failed write leaves in a page, what
the kernel writes back and when, and the moment of a crash. A store may be told that no write and no sync of its file
fails (`reliable`). Exceptions are results (`Thrown`, `Rejected`, `Crashed`).

Seven promises do not hold without a condition, and the model keeps the code as it is:

- Deleting a key can overflow its parent's page, since the next key takes its place as separator and may be longer.
  `DeleteFits` is the exact condition, checkable before the call; `ReachOverflow` is nine calls that make it fail, and
  `NextNotLongerFits` a simple sufficient condition on the map. A row is deleted by a chain of such deletions:
  `ChainFits` is exact for it.
- A crash during the very first commit can leave a file without a signature, which no longer opens
  (`ReopensExactlyIf`, reached by `FirstCommitCrashReached`). Recovery is therefore stated once a meta page is on disk.
- `open` takes the meta page it reads as durable. That is right if and only if it is the one on disk
  (`OpenIsSafeExactlyIf`); after two failed syncs and no crash it need not be (`UnsyncedMetaReached`), and then one more
  transaction and a crash can lose a durable version's tree (`UnsyncedMetaHarms`). The machine's open step, and with it
  every statement about runs, has this as its condition.
- A narrowed range can be rejected by `db_scan`, because the tree is picked by `key1` alone (`AcceptedExactlyIf`,
  `NarrowingCanBeRejected`).
- A narrowed scan skips rows on which the filter would have failed, so it can succeed where a scan of the whole table
  does not: exactly if some row fails and none between the bounds does (`NarrowedAnswersAlikeExactlyIf`, for instance
  `NarrowingCanHideFailure`). Otherwise both return the same records.
- `table_new` checks neither that prefixes are left nor what type a column has. A new table leaves all tables consistent if
  the next prefix, counted without wrapping, and its number of indexes come to at most 2^32; otherwise the catalog's own
  prefix is among its prefixes and no rows at all account for the keys found there (`NewTableExactlyIf`, an instance in
  `PrefixesRunOut`). A column of type ERROR keeps a table empty (`ErrorColumnMeansNoRows`), and padding a bound over it throws:
  `RangeThrows` says for which filters, and `WholeScanThrowsExactlyIf` for which tables a scan without bounds does.
  Columns of the same name are accepted too, and rows and indexes stay in step with them.
- A table definition is read back as it was created if and only if its column names are words and its name is one line
  (`DecodeDefEncodeDef`); `table_new` accepts others too (`SpacedNameIsLost`).


## Model

| member | source | states |
|---|---|---|
| `KvSafety.RunKeepsInv` | src/storage/kv.cpp:305-402 | In every state of every run (opens, readers beginning and ending, updates, aborts, each page write, torn and failed writes, failed syncs, kernel write-back, meta writes, crashes) every version that may still be recovered or is still read is intact in both images of the file, and both images of the meta page name such a version. |
| `KvSafety.StepKeepsInv` | src/storage/kv.cpp:323-402 | Each single step of that machine keeps the invariant. |
| `KvGuarantees.SnapshotIsolation` | src/storage/kv.cpp:305-343 | While a reader stays open, whatever the writer, the kernel and other readers do in between, its version and root stay the same and no page of its tree changes. |
| `KvGuarantees.ReaderIntact` | src/storage/kv.cpp:311-321 | In any state, also in the middle of a commit or after a failed one, an open reader's tree is in the file exactly as it was committed. |
| `KvGuarantees.CrashRecovers` | src/storage/kv.cpp:350-380 | After a crash at any moment a file that has a meta page opens, as exactly one committed version no older than the last durable one, with its tree and its free list intact. |
| `KvGuarantees.EveryCrashRecovers` | src/storage/kv.cpp:350-380 | So in every run, once one commit is durable: crash and open always succeed, and readers then get the map of one committed version, at least the durable one. |
| `KvGuarantees.ReopensExactlyIf` | src/storage/kv.cpp:251-276 | A crash leaves a file that opens if and only if its meta page was ever written or no page of it was. |
| `KvRuns.FirstCommitCrashReached` | src/storage/kv.cpp:353-361 | A run from an empty file to that crash: open, begin, set, two buffered pages of which one is written and reaches the disk. |
| `KvRuns.UnsyncedMetaReached` | src/storage/kv.cpp:371-376 | A run from an empty file to the failing side of open: the first commit up to its meta page, then two failing syncs and a close. |
| `StaleMetas.UnsyncedMetaHarms` | src/storage/kv.cpp:289-293 | What that open can cost, on a run of two commits: the version opened on is taken as durable, the next transaction reuses a page of the version before it, the page reaches the disk, and after a crash the file opens on that older version, whose root page is now a leaf with a binding no version ever had. |
| `KvGuarantees.FirstCommitCrash` | src/storage/kv.cpp:256-276 | The failing side, in any state like it: while the very first commit writes its pages, one page reaching the disk before a crash leaves a file that does not open. |
| `KvGuarantees.OpenIsSafeExactlyIf` | src/storage/kv.cpp:289-293 | open takes the meta page it reads as durable: the invariant survives that if and only if the page read is the one on disk. |
| `KvGuarantees.UnsyncedMetaAtOpen` | src/storage/kv.cpp:289-293 | The failing side, in any state like it: after a failed last sync and a failed sync at close, open takes a version as durable that a crash would fall behind. |
| `KvGuarantees.DurableHasMeta` | src/storage/kv.cpp:374-379 | Once a commit is durable, the file always has a meta page. |
| `KvGuarantees.DurableStep` | src/storage/kv.cpp:353-380 | No step makes a durable version less durable or drops it from the history. |
| `KvGuarantees.DurableForever` | src/storage/kv.cpp:353-380 | Through any number of crashes, failed commits and reopenings, the versions up to one that was durable stay a prefix of every later history. |
| `KvGuarantees.MetaAccepted` | src/storage/kv.cpp:278-287 | The checks of read_root never reject the meta page of a committed version. |
| `KvGuarantees.MetaRejectedIf` | src/storage/kv.cpp:278-287 | A signed meta page is rejected exactly for one of these: version 0, fewer than two pages, a root or list page past the end, no list page, head behind tail. |
| `KvGuarantees.FaultsMayHappen` | src/storage/kv.cpp:350-402 | The faults the machine allows: stopping at any moment, any write failing or cut short, any sync failing with any part of the unsynced pages no longer to be written, write-back at any moment. |
| `KvGuarantees.AnyMixtureMayTear` | src/storage/kv.cpp:384-402 | A write cut short may leave each list slot as it was or as it was to be, independently. |
| `KvGuarantees.EarlyReturnIsExact` | src/storage/kv.cpp:353-357 | In every run, commit's comparison of the two roots finds "no writes" if and only if no set ran and no del returned true, across level drops and page reuse; the map is then unchanged. |
| `KvGuarantees.NoPageLeaks` | src/storage/kv.cpp:205-233 | At every commit and after every update of a running transaction, each page below the page count is exactly one of: the meta page, a page of the tree, a free list node, a free list item; none is lost and none occurs twice. |
| `KvGuarantees.ConservedBy` | src/storage/freelist.cpp:37-75 | The roles the free list keeps, with the tree on exactly the held pages, give that partition. |
| `KvSafety.BeginStep` | src/storage/kv.cpp:323-343 | begin with min_reader = min(durable version, oldest reader): the new transaction may reuse no page that a protected version needs. |
| `KvSafety.WriteStep` | src/storage/kv.cpp:384-402 | One page of the first phase written, or torn: no protected version notices, whichever pages have been written before. |
| `KvSafety.WriteBackStep` | src/storage/kv.cpp:350-361 | The kernel copying any bytes of any page to disk at any time keeps the invariant. |
| `KvSafety.PublishStep` | src/storage/kv.cpp:363-369 | Publishing the new version after the first sync keeps the invariant: it and every version still protected are intact on disk. |
| `KvSafety.WriteMetaStep` | src/storage/kv.cpp:374-374 | After the meta page write either version may be recovered, and both are intact. |
| `KvSafety.Sync2Step` | src/storage/kv.cpp:375-379 | After the second sync only the new version, or a later one, can be recovered, so its predecessor's pages become reusable. |
| `KvSafety.CrashStep` | src/storage/kv.cpp:350-352 | A crash, possible at any moment, keeps the invariant: what is on disk suffices. |
| `KvSafety.KillStep` | src/storage/kv.cpp:350-361 | The process may die at any moment, with readers and a transaction open, and leave the file as reads see it: the invariant holds. |
| `KvSafety.OpenStep` | src/storage/kv.cpp:251-295 | Opening whatever a crash or close left behind re-establishes the invariant. |
| `KvStore.KV.Open` | src/storage/kv.cpp:119-122 | Succeeds exactly if the file is empty or has a meta page; the fields then describe that page's version and its pages are mapped. The store is sound again if that page is the one on disk, and is not if reads return a newer one. |
| `KvStore.KV.ReadRoot` | src/storage/kv.cpp:251-295 | The fields describe the version that opening the file leads to; false exactly for a file with pages and no meta page. |
| `KvStore.KV.BeginRead` | src/storage/kv.cpp:311-316 | The reader takes the current version, root and mappings and is in the heap of open readers. |
| `KvStore.KV.EndRead` | src/storage/kv.cpp:318-321 | The reader, wherever it is in the heap, is taken out and no longer protects its version. |
| `KvStore.KV.Begin` | src/storage/kv.cpp:323-343 | Starts a transaction on the current version's map. It may reuse a page of the list if and only if the page was freed before the durable version and before the version of every open reader; min_reader is one of these versions. |
| `KvStore.KV.MinReader` | src/storage/kv.cpp:331-338 | The least of the durable version and the open readers' versions: not above any of them, and equal to one. |
| `KvGuarantees.ReusableExactlyIf` | src/storage/kv.cpp:331-338 | The same of any begin step of the machine. |
| `KvStore.KV.Set` | src/storage/kv.cpp:163-165 | Binds the key in the transaction's map and nothing else; false exactly for an empty or oversized key or oversized value, and then nothing changes. |
| `KvStore.KV.Del` | src/storage/kv.cpp:167-169 | Unbinds a present key; absent and rejected keys change nothing; the overflow assertion fires exactly if RootDeleteFits is false for how the tree stores its entries. |
| `KvStore.KV.TxGet` | src/storage/kv.cpp:193-203 | get in a transaction answers from its own map: its writes over the version it began on. |
| `KvStore.KV.Update` | src/storage/kv.cpp:171-180 | INSERT changes the value of no key that was there, and is refused exactly if the key was there; UPDATE leaves the keys the same, and is refused exactly if the key was not there; otherwise, within the limits, the key is bound to the value and nothing else changes. Reports the previous value. |
| `KvStore.KV.InsertTwice` | src/storage/kv.cpp:171-180 | Of two insertions of one key the first value stays, and the second is refused. |
| `KvStore.KV.DelReporting` | src/storage/kv.cpp:182-189 | The same as del, with the value removed; the overflow assertion fires under the same exact condition. |
| `KvStore.KV.ReadGet` | src/storage/kv_reader.cpp:5-7 | get of an open reader answers from the map committed at its version, whatever has happened to the file since. |
| `KvStore.KV.ReadSeek` | src/storage/kv_reader.cpp:9-11 | seek of an open reader lands on the nearest entry of the tree committed at its version. |
| `KvStore.KV.ReadPage` | src/storage/kv_reader.cpp:13-23 | No page of an open reader's tree is ever outside the mappings it copied when it began, so out_of_range is never thrown for one. |
| `SnapshotReads.GetDuringRun` | src/storage/kv_reader.cpp:5-28 | get of an open reader with every page read in a different state of a run: still the map of the version it began on. |
| `SnapshotReads.InPlaceThroughout` | src/storage/kv_reader.cpp:9-28 | In every state in which the reader is open its tree is in place, and an iterator can walk it. |
| `SnapshotReads.SeekDuringRun` | src/storage/kv_reader.cpp:9-28 | seek of an open reader with every page read in a different state of a run, and so every later step of its iterator: it stands in the sorted entries of the version the reader began on. |
| `KvStore.KV.Abort` | src/storage/kv.cpp:345-348 | Leaves every version and the file as they were. |
| `KvStore.KV.WritePages` | src/storage/kv.cpp:384-402 | Maps the file far enough, then writes every buffered page, in page order, up to the first failing write. |
| `KvStore.KV.FirstPhase` | src/storage/kv.cpp:359-369 | If every write and the sync succeed, exactly the transaction's version is appended to the history and the fields describe it; otherwise the history and the fields are unchanged. |
| `KvStore.KV.SecondPhase` | src/storage/kv.cpp:371-379 | Keeps the new version either way; it is durable, with its meta page on disk, exactly if the write and the sync succeed. |
| `KvStore.KV.Commit` | src/storage/kv.cpp:353-380 | The four outcomes of a commit and what each leaves as current and as durable version; readers are not affected. |
| `KvStore.KV.CloseFile` | src/storage/kv.cpp:124-137 | Closes once no reader and no transaction is open; the history and the durable version stay. |
| `Mmaps.PageGetMapped` | src/storage/kv_reader.cpp:13-23 | Exactly the pages below the mapped total are found, each at its own place in the file. |
| `Mmaps.ExtendMmap` | src/storage/kv.cpp:142-160 | At most one more mapping and none moved: none if enough is mapped; else of at least 64 MB and of what was mapped so far, and no larger than doublings of that need. |
| `TxPages.FreeList.PopHead` | src/storage/freelist.cpp:37-43 | 0 exactly if every item was freed at min_reader or later; else exactly the oldest item, which no protected version needs; a drained node goes back in as an item of the running version. Says exactly when that makes the file grow. |
| `TxPages.FreeList.Pop` | src/storage/freelist.cpp:14-35 | Takes the oldest item exactly if its version is before min_reader; on draining the head node the next node is there. |
| `TxPages.FreeList.PushTail` | src/storage/freelist.cpp:45-67 | The queue gains the page at its back with the running version; a full tail node is linked to a new one at once, taken from the front exactly if reusable, and never the item just pushed; the file grows by a page exactly if it is full and nothing is reusable. |
| `TxPages.FreeList.Refill` | src/storage/freelist.cpp:54-66 | The inner pop and link: one item leaves the front if it is reusable, else one page is appended; a node drained by that follows at the back. |
| `TxPages.FreeList.AppendItem` | src/storage/freelist.cpp:69-75 | Writes the slot past the last item in place; the list gains that item and no held page changes. |
| `TxPages.FreeList.LinkTail` | src/storage/freelist.cpp:61-62 | Writes next of the full tail node in place; the queue is the same. |
| `TxPages.QueueAfterPush` | src/storage/freelist.cpp:58-59 | The pop inside a push cannot take the item just pushed. |
| `FreeLists.HeadDecides` | src/storage/freelist.cpp:21-23 | If the head item is not reusable, none behind it is. |
| `FreeLists.HeadOnPage` | src/storage/freelist.cpp:19-33 | The head slot of the head page is the oldest item, and a full head node's next is the next node. |
| `FreeLists.PopPartitioned` | src/storage/freelist.cpp:25-34 | Taking an item keeps every page in exactly one role. |
| `FreeLists.PopKeepsSaved` | src/storage/freelist.cpp:77-79 | Taking a reusable item takes nothing a saved list or its tree still needs. |
| `FreeLists.AppendKeepsSaved` | include/storage/freelist.h:29-31 | Writing a slot past the tail changes nothing that a list saved earlier sees. |
| `FreeLists.LinkKeepsSaved` | include/storage/freelist.h:29-31 | Writing next of the full tail node changes nothing that a list saved earlier sees. |
| `FreeLists.KeepsTransitive` | src/storage/freelist.cpp:77-79 | Keeping a saved list intact composes over transactions as long as min_reader does not pass the version it was saved at. |
| `FreeListWalk.WalkIsQueue` | src/storage/freelist.cpp:14-35 | Walking the list from its persisted fields through its pages yields its items, oldest first. |
| `FreeListWalk.SavedListUnchanged` | include/storage/freelist.h:29-31 | Whatever has been pushed and popped since, walking from a saved state in the new pages yields the same items as before. |
| `FreeListWalk.ListsReadable` | src/storage/freelist.cpp:77-79 | In every state of every run, the list of every version that may be recovered or is read walks to its own items in both images of the file and in a running transaction's pages. |
| `ListLayouts.LNodeView.SetPtr` | include/storage/freelist.h:49-53 | In the page's bytes only this slot's page number changes; next and every other field read as before. |
| `ListLayouts.LNodeView.SetVersion` | include/storage/freelist.h:55-59 | In the page's bytes only this slot's version changes. |
| `ListLayouts.LNodeView.SetNext` | include/storage/freelist.h:43-47 | In the page's bytes only next changes. |
| `ListLayouts.FieldWritten` | include/storage/freelist.h:67-77 | A field stored reads back, and every disjoint field reads as before. |
| `ListLayouts.SlotsFillPage` | include/storage/freelist.h:17-19 | 255 slots are as many as a page has room for. |
| `ListLayouts.VersionBeforeIsOrder` | include/storage/freelist.h:21-24 | version_before on wrapped counters is the order of the versions they stand for if and only if they are less than half the range apart. |
| `KvTx.KVTX.PageNew` | src/storage/kv.cpp:205-213 | Stores the node on a page that was not held and that no protected version needs; no other held page changes. It takes the oldest listed page whenever that is reusable, and only otherwise the page after the last; the page count then does not grow, but for one corner: a list node drained by taking the page fills the last node, with no other page reusable to be the next. |
| `KvTx.KVTX.PageDel` | src/storage/kv.cpp:215-217 | The page is no longer held and is listed with the running version, and no page still held changes. The page count grows exactly if that fills the last list node and nothing is reusable. |
| `TxPages.PageBuffer.Use` | src/storage/kv.cpp:219-226 | Buffers the page without changing what the transaction sees. |
| `TxPages.PageBuffer.Append` | src/storage/kv.cpp:228-233 | A zeroed page at the end, numbered flushed + appended. |
| `ReaderHeaps.ReaderHeap.Push` | src/storage/reader_heap.cpp:8-13 | The members gain this reader; heap order and every back-pointer hold again. |
| `ReaderHeaps.ReaderHeap.Remove` | src/storage/reader_heap.cpp:15-26 | The reader in any slot leaves; the remaining multiset, heap order and back-pointers are kept. |
| `ReaderHeaps.ReaderHeap.Min` | src/storage/reader_heap.cpp:28-30 | A reader of the least version among the open ones, null exactly if there is none. |
| `ReaderHeaps.ReaderHeap.Up` | src/storage/reader_heap.cpp:42-51 | Sifting up the one misplaced slot restores heap order, with the same members. |
| `ReaderHeaps.ReaderHeap.Down` | src/storage/reader_heap.cpp:53-67 | True only if it restored heap order; false leaves everything and at most an upward misplacement. |
| `ReaderHeaps.RemoveStep` | src/storage/reader_heap.cpp:15-26 | Filling a slot with the last reader leaves at most that slot misplaced. |
| `ReaderHeaps.DownStep` | src/storage/reader_heap.cpp:53-66 | One swap with the smaller child moves the only misplaced slot down. |
| `ReaderHeaps.UpStep` | src/storage/reader_heap.cpp:42-50 | One swap with the parent moves the only misplaced slot up. |
| `ReaderHeaps.RootIsLeast` | src/storage/reader_heap.cpp:28-34 | In heap order the first slot is the least. |
| `Nodes.LookupLe` | src/storage/btree.cpp:255-272 | The last position whose key is at most the given one, -1 if there is none. |
| `Nodes.NodeSplit` | src/storage/btree.cpp:281-309 | For any node of at least two entries, each within half a page, that exceeds a page by at most one maximal entry: two non-empty halves, each within a page, that concatenate to it; the second loop never runs after the first has, and the split point is SplitAt's. |
| `Nodes.SplitNearMiddle` | src/storage/btree.cpp:281-309 | The split point is the middle whenever both halves fit; otherwise one more entry would not fit on the side it was moved away from. |
| `Nodes.SplitIfNeeded` | src/storage/btree.cpp:311-318 | The node itself exactly if it fits, else its two halves. |
| `NodeLayouts.OneNode` | src/storage/btree.cpp:6-33 | The bytes determine the node: no buffer is the bytes of two different nodes. |
| `NodeLayouts.EntryReads` | src/storage/btree.cpp:100-144 | The accessors read each entry's pointer, offset, key and value back as they were laid out. |
| `NodeLayouts.BNode.NodeAppendKv` | src/storage/btree.cpp:150-171 | Lays out the next entry behind those already there, disturbing none of them nor the header. |
| `NodeLayouts.BNode.GetKey` | src/storage/btree.cpp:129-135 | The key of that entry. |
| `NodeLayouts.BNode.GetVal` | src/storage/btree.cpp:137-144 | The value of that entry. |
| `NodeLayouts.BNode.GetPtr` | src/storage/btree.cpp:100-102 | The child pointer of that entry. |
| `NodeLayouts.BNode.NBytes` | src/storage/btree.cpp:146-148 | The size by which splits and merges are decided is the header plus the sizes of all entries. |
| `NodeLayouts.NodeAppendRange` | src/storage/btree.cpp:197-205 | The buffer gains exactly those entries of the other node, in order. |
| `NodeLayouts.BuildLeafInsert` | src/storage/btree.cpp:207-215 | The bytes built are the leaf with the pair inserted there. |
| `NodeLayouts.BuildLeafUpdate` | src/storage/btree.cpp:217-225 | The bytes built are the leaf with the pair replaced there. |
| `NodeLayouts.BuildLeafDelete` | src/storage/btree.cpp:227-231 | The bytes built are the leaf without that pair. |
| `NodeLayouts.BuildNodeMerge` | src/storage/btree.cpp:236-240 | The bytes built are both nodes' entries, one after the other. |
| `NodeLayouts.BuildReplace2Child` | src/storage/btree.cpp:242-250 | The bytes built are the node with two links replaced by one. |
| `NodeLayouts.BuildReplaceChildN` | src/storage/btree.cpp:361-372 | The bytes built are the node with one link replaced by the given ones. |
| `NodeLayouts.EncodePage` | src/storage/btree.cpp:179-192 | A page of 4096 bytes that decodes to the same node, for every node that fits one. |
| `NodeLayouts.ScratchSuffices` | src/storage/btree.cpp:327-336 | Whatever insertion writes into a leaf fits the two-page scratch buffer. |
| `BTrees.Insert` | src/storage/btree.cpp:486-515 | Refines map update, and makes exactly the tree GrownRoot gives: contents are the old map with the key bound; sorted keys, separators, uniform depth, sentinel and every page within 4096 bytes hold again; only held pages are used and none leaks; false exactly for a key or value over the limits. |
| `BTrees.TreeInsert` | src/storage/btree.cpp:323-346 | The new node holds the subtree's entries with the pair inserted, fits the scratch node, and swaps exactly the subtree's pages below it for the new ones. |
| `BTrees.InsertGrowth` | src/storage/btree.cpp:348-372 | A parent grows by at most one link, since the first keys of existing children do not change. |
| `BTrees.Remove` | src/storage/btree.cpp:520-540 | Refines map removal, and makes exactly the tree PrunedRoot gives, with all tree invariants kept, across merges and level drops; an absent key touches no page; the overflow assertion fires if and only if DeleteFits, a condition on the tree before the call, is false. |
| `BTrees.TreeDelete` | src/storage/btree.cpp:403-423 | Not found exactly if the subtree lacks the key, and then nothing changed; overflow exactly if DeleteFits is false; else the entries without the key. |
| `BTrees.NodeDelete` | src/storage/btree.cpp:425-463 | The same for a node whose child may merge with its left or right sibling, or vanish. |
| `BTrees.MergeChildren` | src/storage/btree.cpp:439-452 | The merged node takes the place of two children; contents, order and shape are kept, and the freed pages are exactly those no longer used. |
| `BTrees.ShouldMerge` | src/storage/btree.cpp:377-398 | No merge above a quarter page; else with the left sibling exactly if it fits together with it, else with the right exactly if that does; and returns that sibling's node. |
| `BTrees.SentinelStays` | src/storage/btree.cpp:490-495 | Removing a permitted key never removes the sentinel. |
| `BTrees.DroppedLevel` | src/storage/btree.cpp:533-536 | A root with one child gives way to that child, which is a complete tree of the same entries. |
| `TreeDeletes.EmptyChildIsAlone` | src/storage/btree.cpp:454-456 | The assertion "empty child but no sibling" never fires: an empty child always merges unless it is the only one. |
| `TreeDeletes.OtherSeparatorsDoNotGrow` | src/storage/btree.cpp:435-458 | A separator other than the deleted key keeps its key, so its node does not grow. |
| `TreeDeletes.FitsExactly` | src/storage/btree.cpp:425-463 | Where the child fits, the parent fits if and only if DeleteFits holds for it. |
| `DeleteLimits.ShortSuccessorFits` | src/storage/btree.cpp:425-463 | Deleting a key whose successor is no longer than it never overflows a page; in particular with keys of one length. |
| `DeleteLimits.NextNotLongerFits` | src/storage/btree.cpp:425-463 | The same in terms of the map alone: no overflow if the next larger key is not longer. |
| `DeleteLimits.OneLengthShort` | src/storage/btree.cpp:425-463 | With keys of one length that holds for every deletion, one after the other. |
| `OverflowRuns.ReachOverflow` | src/storage/btree.cpp:150-161 | Capacity is not unconditional: on an empty store eight sets succeed, and deleting a key that one of them bound then overflows the root page. |
| `OverflowRuns.WideOverflows` | src/storage/btree.cpp:435-458 | Why: in the tree of those sets the separator would become a key of 1000 bytes, for which the root page has no room. |
| `TreeShapes.BareDeleteFits` | src/storage/btree.cpp:425-463 | Whether a deletion fits depends on which entries lie in which node, not on page numbers. |
| `TreeShapes.ChainFitsEach` | src/storage/btree.cpp:425-463 | Deletions one after the other fit if and only if each fits the tree that those before it leave. |
| `TreeShapes.PrunedByMerge` | src/storage/btree.cpp:438-452 | A node whose child was rebuilt and merged is the one Pruned gives: the tree after a deletion is a function of the tree before. |
| `TreeShapes.GrownByReplace` | src/storage/btree.cpp:348-372 | The same for insertion, down to where a node is split. |
| `TreeShapes.RootGrowsIf` | src/storage/btree.cpp:489-514 | The root is split below a new one exactly if it outgrows a page; the first key of a store makes a leaf with the sentinel. |
| `TreeShapes.RootDropsIf` | src/storage/btree.cpp:533-536 | The root gives way to its child exactly if it is internal and has only one, and by one level only. |
| `Trees.SearchPath` | src/storage/btree.cpp:403-418 | The child a search descends into has every smaller key to its left and every larger one to its right. |
| `Trees.LinksSorted` | src/storage/btree.cpp:255-272 | Sorted contents give sorted separators, so an internal node can be searched. |
| `Trees.StoredFrame` | src/storage/btree.cpp:545-566 | A tree is stored the same as long as its own pages are. |
| `ByteReads.GetInBytes` | src/storage/btree.cpp:545-566 | get as it runs, on the bytes of pages: the value bound to the key in the tree that these bytes hold, each page read in a file state of its own. |
| `ByteReads.LookupLeInBytes` | src/storage/btree.cpp:255-272 | The binary search on a node's bytes, through its accessors. |
| `ByteReads.TreeInBytes` | src/storage/btree.cpp:179-192 | Every node of a tree that is in place has a page of 4096 bytes that holds exactly it. |
| `BTreeReads.Get` | src/storage/btree.cpp:545-566 | The value bound to the key in the tree's map, each page read answered by a possibly different state of the other pages; refused exactly for keys over the limits. |
| `Entries.AsMapInserted` | src/storage/btree.cpp:332-336 | Inserting into a sorted run is updating its map. |
| `Entries.AsMapRemoved` | src/storage/btree.cpp:409-414 | Removing from a sorted run is removing from its map. |
| `Entries.LookupExists` | src/storage/btree.cpp:255-272 | Every sorted run has a lookup position for every key. |
| `Iterators.Seek` | src/storage/btree_iter.cpp:96-106 | Lands on the nearest key satisfying the comparison, for all four, each node read in a view of its own; with none, before the first or after the last key. |
| `Iterators.NearestIs` | src/storage/btree_iter.cpp:96-106 | For each comparison where that is: the position right after the keys before it and right before the others. |
| `Iterators.CmpIs` | src/storage/btree_iter.cpp:6-15 | The four comparisons in terms of byte order, and which two point up. |
| `Iterators.SeekLe` | src/storage/btree_iter.cpp:82-94 | Lands on the last entry whose key is at most the given one, the sentinel if there is no other. |
| `Iterators.BIter.IsValid` | src/storage/btree_iter.cpp:60-65 | True exactly at an entry that is not the sentinel. |
| `Iterators.BIter.Deref` | src/storage/btree_iter.cpp:54-58 | The key and value at the iterator's position in the sorted sequence, whichever views its nodes were read in. |
| `Iterators.BIter.Next` | src/storage/btree_iter.cpp:73-77 | One position on in the whole tree's sorted sequence, across leaf boundaries, up to after the last; nodes it newly reads come from later views. |
| `Iterators.BIter.Prev` | src/storage/btree_iter.cpp:67-71 | One position back, down to the sentinel, also from after the last. |
| `Iterators.BIter.IterNext` | src/storage/btree_iter.cpp:43-51 | Steps a level to the subtree that begins where this one ends; false, changing nothing, exactly at the end. |
| `Iterators.BIter.IterPrev` | src/storage/btree_iter.cpp:32-40 | The mirror image, which may start after a node's last position. |
| `Iterators.OnPathInAnyView` | src/storage/btree_iter.cpp:9-30 | A path read from one view stands at the same position in every view in which the tree is in place. |
| `Iterators.NextThenPrev` | src/storage/btree_iter.cpp:67-77 | prev undoes next, also from before the first key and from the last. |
| `Iterators.PrevThenNext` | src/storage/btree_iter.cpp:67-77 | next undoes prev, also from after the last key. |
| `Iterators.FixedByOneStep` | src/storage/btree_iter.cpp:96-105 | The last key at most the given one is at most one step from the nearest that satisfies the comparison. |
| `OrderPreserving.EncodeIsOrderIsomorphism` | src/encoding/order_preserving.cpp:83-98 | For any two tuples of one schema, unsigned byte order of the codes equals column-by-column value order, and equal codes mean equal tuples. |
| `OrderPreserving.EncodeMonotone` | src/encoding/order_preserving.cpp:83-98 | Codes of different tuples differ at a byte both have, so whatever follows them does not matter. |
| `OrderPreserving.DecodeEncode` | src/encoding/order_preserving.cpp:100-117 | decode_values undoes encode_values for every typed tuple. |
| `OrderPreserving.EncodeDecode` | src/encoding/order_preserving.cpp:100-117 | Any bytes decode_values accepts are the code of the tuple it returns. |
| `OrderPreserving.EncodeInt64` | src/encoding/order_preserving.cpp:9-14 | Appends the integer with its sign bit flipped, most significant byte first. |
| `OrderPreserving.DecodeInt64` | src/encoding/order_preserving.cpp:16-26 | Reads eight bytes back, failing exactly if there are fewer. |
| `OrderPreserving.EscapeString` | src/encoding/order_preserving.cpp:28-43 | The loop computes the escape function, whose properties are the lemmas here. |
| `OrderPreserving.UnescapeString` | src/encoding/order_preserving.cpp:45-66 | The loop computes the partial inverse; failure is the exception for a bad escape. |
| `OrderPreserving.EscapeFacts` | src/encoding/order_preserving.cpp:28-43 | An escaped string has no zero byte, never starts with 0xff, and unescapes to the original. |
| `OrderPreserving.UnescapeFacts` | src/encoding/order_preserving.cpp:45-66 | Nothing but its own escape unescapes to a string. |
| `OrderPreserving.StrCodeOrder` | src/encoding/order_preserving.cpp:28-71 | Terminated escapes of different strings order as the strings, at a byte both have. |
| `OrderPreserving.EncodeValues` | src/encoding/order_preserving.cpp:83-98 | The code of the tuple, an error exactly if a value is an ERROR. |
| `OrderPreserving.DecodeValues` | src/encoding/order_preserving.cpp:100-117 | The only tuple of these types the bytes are the code of, or an error. |
| `RowCodec.PartialBoundCuts` | src/access/row_codec.cpp:36-56 | Comparing a full key with a padded partial bound is comparing its first columns with the bound's values, for all four comparisons. |
| `RowCodec.PaddingIsMax` | src/access/row_codec.cpp:41-54 | The padding is at least the code of every tuple of the columns it stands for. |
| `RowCodec.EncodeKeyPartial` | src/access/row_codec.cpp:36-56 | The padded bound; the exception exactly for an ERROR value, or an ERROR column reached while padding. |
| `RowCodec.OtherPrefixCmp` | src/access/row_codec.cpp:29-34 | Keys of another table or index lie entirely on one side of a bound. |
| `RowCodec.RangeStaysInPrefix` | src/access/scanner.cpp:77-96 | A range whose comparisons point in opposite directions holds no key of another prefix. |
| `RowCodec.KeysAreDistinct` | src/access/row_codec.cpp:29-34 | Keys are equal exactly if their prefixes and tuples are. |
| `RowCodec.DecodeKey` | src/access/row_codec.cpp:58-63 | The tuple behind the prefix, an error if the key is shorter than a prefix. |
| `RowCodec.DecodeKeyOfEncodeKey` | src/access/row_codec.cpp:29-63 | decode_key undoes encode_key. |
| `Tables.CheckIndexKeys` | src/catalog/catalog.cpp:39-67 | Refuses an index for one of four reasons and no other: it is empty, names a column the table does not have, names one twice, or has together with the primary key as many different columns as the table. An accepted result begins with the index, has distinct columns, exactly those of index and primary key, and fewer than the table. |
| `Tables.RefusedIf` | src/catalog/catalog.cpp:39-67 | These four reasons against the definition of an index that is well-formed. |
| `Tables.NormalizedIndexOk` | src/catalog/catalog.cpp:39-67 | A normalized index has distinct columns and holds the primary key. |
| `Tables.IndexTupleHasPk` | src/catalog/catalog.cpp:58-60 | Rows with the same index tuple have the same primary key. |
| `Tables.CheckRecord` | src/access/row_codec.cpp:77-109 | Accepts exactly records that supply these columns, with their types, and no others; the values come out in column order. |
| `Tables.NotSuppliedIf` | src/access/row_codec.cpp:77-109 | A record is malformed exactly for one of three reasons: a column missing, a value of another type, a column that is not asked for. |
| `Tables.FindIndex` | src/access/table_access.cpp:71-87 | -1 exactly if the primary key starts with the columns; else the shortest index that starts with them, of equally short ones the first; -2 exactly if none does. |
| `Tables.ChosenIsUnique` | src/access/table_access.cpp:71-87 | That choice is unique. |
| `TableAccess.DbUpdate` | src/access/table_access.cpp:27-52 | Afterwards the table's keys are exactly those of its rows with this one bound, one key per row in each index, and no key of another table has changed. Malformed if a column is missing or unknown; refused only for an INSERT of a row that is there or an UPDATE of one that is not, and never done then. The outcome is UpdateOutcome, whose causes are UpdateCauses; no crash if no old index key has a longer one next to it. |
| `TableAccess.UpdateCauses` | src/access/table_access.cpp:27-52 | Each outcome of an update exactly by its causes: refused by the mode; an exception for an ERROR value or a key or value over the limits; a crash if deleting the old index keys does not fit; else done. |
| `TableAccess.DeleteCauses` | src/access/table_access.cpp:54-69 | Each outcome of a delete exactly by its causes. |
| `TableAccess.DbDelete` | src/access/table_access.cpp:54-69 | Refused exactly if the row is not there, and done only if it is; after either the table's keys are exactly those of its rows without this one, and no key of another table has changed. An exception exactly for an ERROR value or an oversized key, a crash exactly if deleting the row's keys one after the other does not fit; never if none has a longer one next to it. |
| `TableAccess.ApplyIndexOp` | src/access/index_ops.cpp:9-37 | Brings every index in step with one row added or removed; the assertion on each key never fails. A removal crashes exactly if the chain of deletions does not fit; an addition throws exactly if an index key is too long. |
| `TableAccess.NextInChain` | src/access/index_ops.cpp:11-35 | One key of a chain of deletions: it fits exactly if the chain so far says so, and leaves the tree the rest of the chain is about. |
| `TableAccess.DecodeRow` | src/access/row_codec.cpp:65-75 | The key and value of a row decode to that row. |
| `TableAccess.IndexKeyAdded` | src/access/index_ops.cpp:22-28 | A new row's index key was not there, since no other row can have it. |
| `TableAccess.IndexKeyRemoved` | src/access/index_ops.cpp:29-31 | An old row's index key was there. |
| `TableAccess.IndexKeysDistinct` | src/access/index_ops.cpp:12-18 | Rows with different primary keys have different keys in every index. |
| `TableAccess.PrefixesApart` | src/access/row_codec.cpp:29-34 | A key has only one prefix. |
| `TableAccess.RowsAreUnique` | src/access/row_codec.cpp:29-75 | A table and a map leave only one set of rows. |
| `TableTexts.DecodeDefEncodeDef` | src/catalog/tabledef.cpp:5-70 | decode_table_def undoes encode_table_def if and only if the table name has no newline and every column name is a non-empty word without white space, which table_def_check does not ask. |
| `TableTexts.EncodeTableDef` | src/catalog/tabledef.cpp:5-27 | The loops write the text that the lemmas are about. |
| `TableTexts.DecodeTableDef` | src/catalog/tabledef.cpp:29-70 | The loops read back what DecodeDef says, false included. |
| `TableTexts.DecodedNames` | src/catalog/tabledef.cpp:29-70 | Whatever the text, the names read from it are words, and the table name is one line. |
| `TableTexts.ManyReads` | src/catalog/tabledef.cpp:41-60 | As many extractions as items were written return these items, whatever follows. |
| `TableTexts.ShortFits` | src/catalog/tabledef.cpp:29-45 | A definition whose text is short enough for a value fits the widths of the fields it is read into. |
| `Catalogs.AllocPrefix` | src/catalog/catalog.cpp:126-144 | Returns the stored next prefix and advances it by n modulo 2^32, changing no other key. |
| `Catalogs.TableDefCheck` | src/catalog/catalog.cpp:69-88 | Refuses a definition exactly if it has no name, not as many types as columns, no primary key column or too many, or an index refused for one of the four reasons. Otherwise only the indexes change: each begins with the one declared and leaves out a column of the table. |
| `Catalogs.TableNew` | src/catalog/catalog.cpp:146-165 | Each refusal has its exact causes, stated on the definition and the map; every index of a table created leaves out a column. Of a definition accepted: if the next prefix, counted without wrapping, and its number of indexes come to at most 2^32, all tables are consistent afterwards, the new one is empty and its definition is stored under its name; if they come to more, which nothing checks, no rows agree with the new table. |
| `Catalogs.NewTableExactlyIf` | src/catalog/catalog.cpp:146-165 | Both halves from the two writes of table_new: the catalog goes on if and only if prefixes are left. |
| `Catalogs.ForeignKey` | src/catalog/catalog.cpp:126-165 | The key of the prefix counter is not the key of any tuple, so a table that owns its prefix agrees with no rows. |
| `Catalogs.ForeignKeyThrows` | src/encoding/order_preserving.cpp:100-117 | Decoding that key as a row, or as an index entry, throws. |
| `Catalogs.PrefixesRunOut` | src/catalog/catalog.cpp:126-165 | An instance: a counter at 2^32 - 1 and a definition with two indexes that is accepted and gets prefix 1. |
| `TableAccess.ErrorColumnMeansNoRows` | src/encoding/order_preserving.cpp:83-98 | A table with a column of type ERROR has no rows. |
| `Catalogs.DoesKeepsCatalog` | src/access/table_access.cpp:27-69 | Creating a table, an update and a delete each leave all tables consistent and every key accounted for. |
| `Catalogs.MapDecidesCatalog` | src/catalog/catalog.cpp:101-108 | The map alone decides which tables there are, if their definitions can be read back, and what rows each has. |
| `Catalogs.DefinitionOf` | src/catalog/catalog.cpp:101-108 | A lookup by name returns the definition as created if and only if its names can be read back, and none for a name that no table has. |
| `Catalogs.SpacedNameIsLost` | src/catalog/catalog.cpp:69-88 | An instance: a definition with a space in a column name is accepted and does not come back. |
| `Catalogs.KeysBelow` | src/catalog/catalog.cpp:126-144 | Nothing lies under a prefix that has not been given out. |
| `Catalogs.CatalogAfterNew` | src/catalog/catalog.cpp:158-163 | The consistency of all tables together survives creating one while prefixes are left. |
| `Catalogs.CatalogAfterTableChange` | src/access/table_access.cpp:27-69 | The consistency of all tables together survives an update or delete on any one of them. |
| `Catalogs.OtherTableKept` | src/catalog/catalog.cpp:158-162 | An operation on one table leaves every other table's rows and indexes as they were. |
| `Catalogs.EmptyCatalog` | src/catalog/catalog.cpp:126-128 | A new store is consistent, with no tables. |
| `CatalogRuns.EveryVersionLabelled` | src/storage/kv.cpp:323-380 | In a run whose every commit was made from the current version's tables by creating tables, updates and deletes, each version of the history holds exactly the tables and rows of its label, each label made from the one before; so does what a commit under way will publish. |
| `CatalogRuns.RecoveredTables` | src/storage/kv.cpp:251-295 | After a crash anywhere in such a run the file opens on a version, at least the durable one, with exactly the tables and rows of its label. |
| `CatalogRuns.DurableTables` | src/storage/kv.cpp:353-380 | The labels up to a durable version stay a prefix of every later history of the run: what it put in the tables is never lost. |
| `CatalogRuns.ChainKeepsCatalog` | src/access/table_access.cpp:27-69 | Any number of these operations, one after the other, leave the resulting tables and rows exactly accounted for. |
| `CatalogRuns.CommitTables` | src/storage/kv.cpp:353-380 | Commit of a transaction made of operations on tables, on the store's object: the run stays of this kind; if the commit publishes, the new version's label is the tables and rows given, and every other version keeps its own. |
| `TableRuns.Session` | src/storage/kv.cpp:323-380 | A run that meets the hypothesis, on a new file: a table is created with a row and committed, the row is updated and committed, a reader gets the new row. If no write or sync fails and the values differ, both commits are durable. |
| `TableRuns.ScanDuringRun` | src/access/scanner.cpp:32-98 | A filtered scan by an open reader with every page, of the scanner and of each row's lookup, read in a different state of such a run: it answers, for every OFFSET and LIMIT, from the rows of the label of the version the reader began on. |
| `TableRuns.SnapshotLabel` | src/storage/kv.cpp:311-316 | An open reader's snapshot holds exactly the tables and rows of its version's label. |
| `Scans.ScanIsRange` | src/access/scanner.cpp:32-43 | Starting at the nearest key to the first bound and stopping at the first that fails the second visits exactly the entries between both, in key order or its reverse. |
| `Scans.Scanner.DbScan` | src/access/scanner.cpp:75-98 | Accepts exactly bounds in opposite directions that name a prefix of the tree picked by key1, with its types; then it throws exactly if a bound cannot be encoded or padded, and otherwise has exactly the range still to visit. A failed scan is left unpositioned. |
| `Scans.AcceptsIs` | src/access/scanner.cpp:75-90 | The bounds accepted: one comparison points up and the other down, and both keys name the first columns of the tree, with values of their types. |
| `Scans.Scanner.IsValid` | src/access/scanner.cpp:32-34 | True exactly while entries remain. |
| `Scans.Scanner.Next` | src/access/scanner.cpp:36-43 | Drops the first of the entries that remain. |
| `Scans.CheckBound` | src/access/scanner.cpp:16-29 | Accepts exactly keys that name a prefix of the columns, in order and with their types. |
| `ScanRows.ScanVisitsRows` | src/access/scanner.cpp:32-98 | The entries a scan visits are exactly the keys of the rows whose columns satisfy both bounds, never a key of another table or index. |
| `ScanRows.KeyMeetsBound` | src/access/row_codec.cpp:36-56 | A row's key meets an encoded bound exactly if its columns meet the bound's values. |
| `ScanRows.HitUnderPrefix` | src/access/scanner.cpp:82-96 | A key within both bounds is under the scanned tree's prefix. |
| `ScanRows.VisitedInOrder` | src/access/scanner.cpp:36-43 | Byte order of the keys visited is the order of the scanned columns. |
| `ScanRows.TreeKeysDistinct` | src/access/scanner.cpp:45-73 | Two rows never share a key of any tree, so each row is visited once. |
| `ScanRows.Deref` | src/access/scanner.cpp:45-73 | The row of the current entry, by its own key or through an index; the assertion that the row is there never fails. |
| `ScanRows.DbGet` | src/access/table_access.cpp:16-25 | The row with this primary key, nothing if there is none, malformed exactly for a record that is not a primary key, an exception exactly if it names an ERROR value. |
| `QlEvals.TruncDivMod` | src/ql/ql_exec.cpp:52-72 | The division and remainder used are those that truncate toward zero. |
| `QlEvals.DivisionFits` | src/ql/ql_exec.cpp:58-68 | Apart from division by zero and the smallest number by -1, a quotient or remainder always fits 64 bits. |
| `QlEvals.ConstantEverywhere` | src/ql/ql_range.cpp:100-103 | What evaluates against no row evaluates the same against every row. |
| `QlLaws.OrIsUnion` | src/ql/ql_exec.cpp:196-209 | If neither filter fails on a row: the scan with l OR r answers with exactly the records of the scan with l and of the scan with r, each once. |
| `QlLaws.AndIsIntersection` | src/ql/ql_exec.cpp:196-209 | With l AND r: exactly the records in both answers, although the range it narrows to is another one. |
| `QlLaws.NotIsComplement` | src/ql/ql_exec.cpp:185-194 | With NOT: exactly the records of the table that are not in the answer to the filter. |
| `QlLaws.NoFilterIsAll` | src/ql/ql_exec.cpp:90-114 | Without a filter: the record of every row, each once. |
| `QlLaws.ColumnAnswer` | src/ql/ql_exec.cpp:211-224 | With a comparison of a column and a constant of its type: exactly the rows whose value compares so, in numeric or byte order. |
| `QlLaws.NotEqualIsComplement` | src/ql/ql_exec.cpp:40-49 | With <>: exactly the records that = does not answer with. |
| `QlLaws.ConnectedRow` | src/ql/ql_exec.cpp:185-209 | Of one row: a connective fails exactly if a side fails, and otherwise selects as logic says. |
| `QlLaws.EvalParts` | src/ql/ql_exec.cpp:155-242 | An operator is evaluated from the values of both of its sides, also when the first would decide. |
| `QlLaws.Connectives` | src/ql/ql_exec.cpp:185-209 | AND, OR and NOT by truth table; they fail exactly if a side fails or is not a number. |
| `QlLaws.DeMorgan` | src/ql/ql_exec.cpp:185-209 | De Morgan's laws, failures included. |
| `QlLaws.Comparisons` | src/ql/ql_exec.cpp:40-49 | Each comparison is the negation of another and, seen from the other side, a third; at most is less or equal. |
| `QlLaws.ComparesAs` | src/ql/ql_exec.cpp:25-49 | Numbers compare as integers and strings byte by byte; a number does not compare with a string. |
| `QlLaws.ArithmeticIsExact` | src/ql/ql_exec.cpp:51-72 | Each result is the exact integer, and a failure exactly if that does not fit 64 bits, or on division by zero. |
| `QlLaws.ArithmeticNeedsNumbers` | src/ql/ql_exec.cpp:226-242 | It fails unless both sides are numbers. |
| `QlLaws.SubAfterAdd` | src/ql/ql_exec.cpp:51-72 | (x + y) - y is x, whenever x + y evaluates. |
| `QlLaws.TimesIsRepeatedAdd` | src/ql/ql_exec.cpp:51-72 | x * 0 is 0, and x * (k + 1) is x * k + x whenever it evaluates. |
| `QlLaws.QuotientAndRemainder` | src/ql/ql_exec.cpp:51-72 | x / y * y + x % y is x, whenever x / y evaluates. |
| `QlLaws.DividesTowardZero` | src/ql/ql_exec.cpp:51-72 | The remainder is smaller than the divisor and has the sign of the dividend. |
| `QlRanges.CollectSound` | src/ql/ql_range.cpp:80-106 | A row for which the filter is nonzero satisfies every bound collected. |
| `QlRanges.FitCols` | src/ql/ql_range.cpp:116-128 | A maximal run of equality columns and whether a range column follows. |
| `QlRanges.QlRange` | src/ql/ql_range.cpp:131-178 | The range made from the first tree of the highest score, the whole table when nothing can be narrowed. |
| `QlNarrowings.RangeIsExactly` | src/ql/ql_range.cpp:152-172 | The range made for a tree that fits holds exactly the rows with the values of its equalities in its first columns and, if a range column follows, a value within that column's limits. |
| `QlNarrowings.TermIs` | src/ql/ql_range.cpp:86-105 | The comparisons that narrow: all but <>, of a column with what evaluates, without a row, to a value of its type, turned round if the column is on the right. |
| `QlNarrowings.AddBoundIsExact` | src/ql/ql_range.cpp:48-76 | One more comparison narrows a column to exactly the values that meet both, but for a second equality and a limit at the value of the one there. |
| `QlNarrowings.CollectIs` | src/ql/ql_range.cpp:80-106 | AND narrows by both sides, and no other connective narrows. |
| `QlNarrowings.FitIsExactly` | src/ql/ql_range.cpp:116-128 | The equalities up to the first column without, and whether that one has a limit. |
| `QlNarrowings.BestIs` | src/ql/ql_range.cpp:139-150 | No tree has more equalities, or as many and a range where the one picked has none; and none before it as many. |
| `QlNarrowings.NarrowedIs` | src/ql/ql_range.cpp:131-178 | That range is used unless nothing narrows, or only an upper limit on an index's first column would; then the whole table is read. |
| `QlRanges.NarrowingIsSound` | src/ql/ql_range.cpp:131-178 | For every filter, table and well-typed row: if the filter keeps the row, the row lies within both bounds of the range. |
| `QlRanges.AcceptedExactlyIf` | src/access/scanner.cpp:82-90 | db_scan accepts the narrowed range if and only if the tree picked by key1 starts with key2's columns. |
| `QlRanges.AcceptedWhenKey2IsPrefix` | src/access/scanner.cpp:82-90 | So it is accepted whenever key2 names no more columns than key1. |
| `QlRanges.ThrowsOnlyWithErrorColumn` | src/access/row_codec.cpp:36-56 | Without columns of type ERROR no scan throws. |
| `QlRanges.WholeScanThrowsExactlyIf` | src/access/row_codec.cpp:41-54 | A scan of the whole table throws if and only if an ERROR column comes before the first string of the primary key. |
| `QlRanges.PlanIsUnique` | src/ql/ql_range.cpp:131-178 | A filter has one plan: the tree its range is made for, how it fits, and the tree that is read. |
| `QlLaws.PickedIs` | src/access/table_access.cpp:71-87 | The tree read: the primary key if it starts with key1's columns, else the shortest index that does, the first of equally short ones. |
| `QlLaws.ShorterIndexOrders` | src/access/table_access.cpp:71-87 | Of two indexes that start with the columns narrowed by, the rows come in the order of the shorter one. |
| `QlRanges.AcceptanceDecided` | src/access/scanner.cpp:82-90 | Whether a filter's range is accepted depends on the filter and the definition alone. |
| `QlSamples.NarrowingCanBeRejected` | src/access/scanner.cpp:82-90 | a = 1 AND c < 5 over indexes (a, b) and (a, c): the range made for the second is checked against the first and rejected. |
| `QlScans.ScanFiltered` | src/ql/ql_exec.cpp:76-115 | Rejected exactly by the condition above, an exception exactly if RangeThrows; else exactly ScanOutcome, for every OFFSET and LIMIT, of the rows of the narrowed range in the order of the tree picked: a failure if and only if the filter fails on a row read before the window is full, else the window of the rows kept. |
| `QlScans.GatherRows` | src/ql/ql_exec.cpp:90-114 | The loop computes that outcome of the rows it visits. |
| `QlScans.Visit` | src/access/scanner.cpp:32-98 | A scan visits every row between its bounds once and no other, in the order of the scanned columns, reversed when cmp1 points down. |
| `QlOutcomes.ListingIsUnique` | src/access/scanner.cpp:32-43 | There is only one such sequence of rows. |
| `QlOutcomes.KeptAreAllKept` | src/ql/ql_range.cpp:78-83 | The rows kept among those in the narrowed range are the rows kept of the whole table. |
| `QlOutcomes.Unwindowed` | src/ql/ql_exec.cpp:90-114 | Without OFFSET and LIMIT: a failure exactly if some row visited fails, else the records of all rows kept, each once. |
| `QlOutcomes.UnlimitedFailure` | src/ql/ql_exec.cpp:90-114 | Without LIMIT a scan fails if and only if the filter fails on some row visited. |
| `QlOutcomes.OutcomeIs` | src/ql/ql_exec.cpp:90-114 | For every OFFSET and LIMIT: a failure exactly if a row read fails, else the records of the window of the rows kept. |
| `QlOutcomes.ReadOfIs` | src/ql/ql_exec.cpp:90-114 | The rows read end exactly before the first row kept for which there is no room left; without LIMIT all are read. |
| `QlOutcomes.WindowIs` | src/ql/ql_exec.cpp:90-114 | OFFSET leaves out that many rows, LIMIT takes at most that many of the rest, and as many as there are. |
| `QlOutcomes.NarrowedAnswersAlikeExactlyIf` | src/ql/ql_range.cpp:131-178 | The narrowed scan and the scan of the whole table answer alike, but for the order, unless some row makes the filter fail and no row between the bounds does; then, and only then, the first succeeds and the second fails. |
| `QlSamples.NarrowingCanHideFailure` | src/ql/ql_exec.cpp:196-208 | a = 1 AND 10 / b > 0 with an index on a and one row, a = 2 and b = 0: the narrowed scan succeeds, the scan of the whole table divides by zero. |
| `StoreQueries.ReaderScan` | src/ql/ql_exec.cpp:256-258 | A filtered scan by a reader answers, for every OFFSET and LIMIT, from the rows of the version it began on. |
| `StoreQueries.WriterScan` | src/ql/ql_exec.cpp:260-262 | A filtered scan in a transaction answers, for every OFFSET and LIMIT, from its own rows. |
| `StoreQueries.AnswerIsUnique` | src/ql/ql_exec.cpp:76-115 | Filter, table, rows, OFFSET and LIMIT leave one answer, an exception of the scan included. |
| `StoreQueries.UnwindowedAnswer` | src/ql/ql_exec.cpp:76-115 | Unwindowed, that answer is the records of all rows kept, each once, or a failure because some row fails. |
| `StoreQueries.ReaderTableDef` | src/catalog/catalog.cpp:101-108 | A reader finds the definitions of the tables of its version. |
| `StoreQueries.WriterTableDef` | src/catalog/catalog.cpp:101-108 | A transaction finds these and the ones it has created itself. |
| `StoreQueries.ReaderGet` | src/access/table_access.cpp:16-25 | db_get by a reader is a lookup in the rows of its version. |
| `StoreQueries.WriterGet` | src/access/table_access.cpp:16-25 | db_get in a transaction is a lookup in its own rows. |
| `StoreQueries.UpdateRow` | src/access/table_access.cpp:27-52 | db_update with all tables kept consistent: one row of one table bound, or nothing changed when malformed or refused; refused exactly for an INSERT of a row that is there or an UPDATE of one that is not, if it can be stored at all. |
| `StoreQueries.DeleteRow` | src/access/table_access.cpp:54-69 | db_delete with all tables kept consistent: refused exactly if the row is not there, and done only if it is and its keys can be deleted; after either the table's rows are those before without it. |
| `StoreQueries.UpdateThenGet` | src/access/table_access.cpp:16-52 | After an update that succeeds, db_get returns the row. |
| `StoreQueries.DeleteThenGet` | src/access/table_access.cpp:16-69 | After a delete that succeeds or is refused, db_get finds no row. |
| `StoreQueries.InsertRowTwice` | src/access/table_access.cpp:16-52 | Of two insertions with one primary key the second is refused, and db_get returns the first row. |
| `Formats.NumberCodes` | src/encoding/order_preserving.cpp:9-14 | 1 and -1, byte for byte. |
| `Formats.StringCodes` | src/encoding/order_preserving.cpp:28-71 | Strings with each of the bytes that are escaped, byte for byte. |
| `Formats.KeyBytes` | src/access/row_codec.cpp:29-34 | A key: four bytes of prefix, most significant first, then the columns one after the other. |
| `Formats.StoredRow` | src/access/row_codec.cpp:29-34 | A row is stored as the code of its other columns under its prefix and primary key. |
| `Formats.StoredEntry` | src/access/index_ops.cpp:9-31 | And in each index as nothing, under the index's prefix and the row's values of its columns. |
| `Formats.CompletedIndexes` | src/catalog/catalog.cpp:58-60 | The primary key's columns that an index lacks follow its own, in their order; instances. |
| `Formats.CatalogKeys` | src/catalog/catalog.cpp:11-20 | The catalog's keys, byte for byte. |
| `Formats.FirstPrefixes` | src/catalog/catalog.cpp:158-163 | The prefixes of the first table of a store and of its indexes, and of one that reaches 2^32. |
| `Formats.DefinitionText` | src/catalog/tabledef.cpp:5-27 | The text of a table definition, byte for byte. |
| `Formats.NodeBytes` | src/storage/btree.cpp:6-33 | A leaf of one entry, byte for byte. |
| `Formats.Limits` | include/storage/btree.h:12-14 | Keys of 1 to 1000 bytes, values of up to 1000, pages of 4096, prefixes below 2^32. |

## Left out

- 64-bit wrap-around of versions and of the free list's counters: they are naturals; `VersionBeforeIsOrder` says how far apart wrapped versions still compare as these do.
- The bytes of the meta page: its fields are a value, and a file without a valid one is Unsigned.
- Torn meta pages: the program relies on that write being atomic, and so does the model.
- Exceptions half-way: DbUpdate may have written the row, or some index keys, when an index key turns out too long; its Thrown outcome promises nothing about the rows, as in the program, and the caller must abort.
- UpdateRow: for Thrown and Crashed states only when they occur, not what the tables then hold, for the same reason.
- Remove: when it reports Aborted the transaction is no longer described, since the program's assertion ends it there.
- ReaderScan: takes all its pages from one state of the file; with a state for every page read it is ScanDuringRun.
- DecodeTableDef: reads numbers without a sign, as they are written, and fails on a type number that is none of the three; the program would keep either.
- Insert: it and Remove use nodes as values with a size; that the builders' bytes are exactly such values is NodeLayouts, and that lookup may run on the bytes is GetInBytes, where page numbers are below 2^64.
- System calls, file descriptors, the directory sync, coalescing pages into one vectored write, and failing to map memory.
- Threads: sections under a mutex and the writer's lock are single steps; page writes, write-back and reads are not.
- The parser, the SELECT list, INSERT, UPDATE and DELETE statements, the facade classes, the table definition cache: delegation, or loops over the operations modelled here.
- Error messages: an error is an outcome without its text.
