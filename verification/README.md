# BadgerDB and the word locator: a Dafny model

The repository holds a small database engine (BadgerDB, in `p2` and `p3`) and a radix-tree
word index (`p1`). This project models the engine's storage path and the word index in
Dafny and proves what they keep. Each component has a specification on values (what the
structure means) and an imperative model in the source's own form (arrays, linked nodes and
fields changed in place), proved against it.

`dafny verify dfyconfig.toml` verifies everything.

| component | source | files |
|---|---|---|
| B+ tree index | `p3/src/btree.cpp`, `p3/src/btree.h` | `BTreeSpec` (trees), `BTreePages` (page layouts), `BTreeRep` (which pages hold which tree), `BTreeChain` (leaf chain), `BTreeScanSpec` (range queries), `BTreeIndex` (the index), `BTreeTheorems` |
| Buffer manager | `p2/src/buffer.cpp`, `p2/src/bufHashTbl.cpp`, `p3/src/buffer.cpp` | `HashTable`, `Clock`, `BufferSpec`, `BufMgr` |
| Slotted page | `p3/src/page.cpp`, `p3/src/page.h` | `SlotDirectory` (what the bytes mean), `SlottedPage` |
| Page file | `p2/src/file.cpp` | `PageLists` (the two lists), `PageFile` |
| File scan | `p3/src/filescan.cpp`, `p3/src/page_iterator.h` | `FileScan` |
| Radix tree, word extraction | `p1/wl.cpp` | `RadixShape` (trees by path), `Concordance` (the tree of a text), `Tokenizer`, `WordList` (the tree on the heap) |

`Storage` holds the identifiers they share.

## What the model assumes

**B+ tree.** The leaf and node capacities are any `L >= 1` and `N >= 2` (681 and 1022 in the
source). Keys are integers; a scan needs keys and bounds at most `INT_MAX`. Inserted record
ids have a page number other than 0, which the source uses as the end sentinel. Duplicate
keys are allowed in insertion; scans need distinct keys, as the comment at
`p3/src/btree.cpp:173` says. A pinned page is worked on as a copy that a dirty unpin writes
back; insertion pins no page twice at a time, so this does not differ from the shared frame.
The meta page is a page like any other: a new root writes its number and height there. The
file's `unsaved` set holds the pages written but not yet unpinned dirty; a clean unpin needs
another pin on such a page to remain, and between calls no page is unsaved. A fresh
page has all fields zero: the four bytes of a real fresh page that are not zero lie in a field
every split or new root overwrites. The `level` that `p3/src/btree.cpp:428` reads from a page
just unpinned is taken as still there.

**Buffer manager.** A client changes a page only while it has it pinned. The pool's invariant
survives an unpin exactly when the last client to let go of a changed page says it is dirty
(`MayUnPin`). The hash function is arbitrary. A file is known by its name; the empty name
belongs to no file. What the file does inside `allocatePage` and `deletePage` (the number it
picks, the next pointers it rewrites) is a parameter; `PageFiles.PageFile.AllocatePage` proves
that the number is not in use.

**Slotted page.** The slots are overlaid on the byte array as in memory: six bytes each, the
used flag in the first, 16-bit little-endian offset and length in the last four. The data
area may have any size below 65536 (8176 in the source), so no 16-bit field can overflow;
that is proved, not assumed. A record id that names this page has a slot number in
`1..num_slots`; the source does not check it.

**Page file.** The disk is a map from page number to page. Page 0 is the file header.

**Files, numbers, characters.** Page numbers, counts and the word counter are unbounded.
Characters are classified as in the "C" locale.

## Where the source does not do what one would expect

These are stated with the exact condition, and where it helps with a concrete case.

- A range query returns exactly the entries in range if and only if `ScanGuard` holds
  (`BTreeChain.ScanExact`, `BTreeIndexing.BTreeIndex.RunScan`). Outside it the source misses an
  entry equal to an inclusive upper bound (`MissesUpperBound`), returns the bound of an empty
  half-open range (`ReturnsExcludedBound`), or loses its way:
- A root made by a split never gets its key sentinel (`p3/src/btree.cpp:326-333`). The
  descent of `startScan` then runs into page 0 exactly when the root has one key, the node
  capacity is at least 3, and the low bound is positive and above that key (`LosesWay`,
  `LosesTheWay`, `QueryReadsPageZero`).
- A call of `startScan` with a low bound above its high bound is rejected only after both are stored
  (`p3/src/btree.cpp:356-364`), so a running scan goes on with them. What it still returns stays
  if and only if the new upper bound agrees with the old one on every entry behind the current
  one (`PendingSurvives`). On keys 3 and 7, after a start on [1, 10] and a rejected [20, 5], the
  scan returns 3 and then says it is complete (`RejectedRangeCutsScan`).
- Deleting a record on a tidy page, where empty records lie only at the boundaries between
  others, keeps it tidy if and only if the slot is `Deletable`: an empty record at the same
  offset is not moved (`p3/src/page.cpp:90`) and is left behind in the free space
  (`StrayRecord`). Updating one keeps it tidy if and only if the slot is `Deletable` or the new
  record starts where the old one did. A page without empty records is tidy and always meets
  the condition.
- Once an empty record lies in the free space, a later deletion counts the bytes to move from
  the wrong place. Every other slot number stays bound, but the records keep their bytes if and
  only if the deletion is `Lossless`: the bytes not reached equal those already at their new
  place. `DeletionLosesRecord` is a run in which a record stored as the byte 3 reads 0
  afterwards.
- Inserting a record into a page without unused slots fails with "slot in use", and leaves
  the header wrong, exactly when the free byte where the new slot's flag goes is not zero;
  compaction does not clear the bytes it vacates (`StaleByteRefusesInsert`). When it succeeds
  with a new slot, the page stays well formed if and only if no empty record lies in that slot's
  six bytes.
- Allocating a page keeps the two page lists if and only if the used list was not empty or at
  most one page was free (`p2/src/file.cpp:94-102`); `AllocationUnthreads` is a run after which
  no two lists fit the file.
- Inserting a word into the radix tree stores that word if and only if the first edge left
  in the middle is left right behind its first character (`p1/wl.cpp:324` with `:374`);
  otherwise a longer word is stored ("sofa" after "song" is stored as "soofa"). All look-ups in
  a loaded text are right if and only if no insertion splits later than that
  (`Concordance.LookupsExact`); `InsertedWordNotFound` is a text that breaks it.

## Model

| member | source | states |
|---|---|---|
| `BTreeIndexing.BTreeIndex.constructor` | p3/src/btree.cpp:45-137 | A new index over any relation is well formed, holds the relation's entries in the order the reference insertion gives, leaves nothing pinned or unsaved, and no scan is running. |
| `BTreeIndexing.BTreeIndex.Load` | p3/src/btree.cpp:113-130 | Inserting a run of records is the reference insertion of each in turn; the scan's fields and the pins stay. |
| `BTreeIndexing.BTreeIndex.WriteEmptyRoot` | p3/src/btree.cpp:98-111 | The two sentinels alone are an empty leaf. |
| `BTreeIndexing.BTreeIndex.InsertEntry` | p3/src/btree.cpp:308-340 | On every well-formed index one entry is added, behind those with keys not above its own; the meta page names the root and height afterwards, every page written is unpinned dirty, the height grows by at most one, the scan's fields stay, and the pins are what they were. |
| `BTreeIndexing.BTreeIndex.InsertUnderNode` | p3/src/btree.cpp:155-306 | A subtree laid out on pages takes an entry in: the pages afterwards hold the tree insertion yields, whole or in two halves with the separator announced, no other page changes, and no pin is left. |
| `BTreeIndexing.BTreeIndex.InsertInInner` | p3/src/btree.cpp:229-303 | The same for an inner node, through the child's insertion. |
| `BTreeIndexing.BTreeIndex.GoDown` | p3/src/btree.cpp:236-246 | The search stops at the child the separators choose, in bounds, and that child's subtree takes the entry. |
| `BTreeIndexing.BTreeIndex.StoreInInner` | p3/src/btree.cpp:254-302 | A separator and child that came up end in place, sentinels behind them, the node split if it was full. |
| `BTreeIndexing.BTreeIndex.SplitInner` | p3/src/btree.cpp:274-294 | A split inner node: the middle separator goes up, both halves end in their sentinels. |
| `BTreeIndexing.BTreeIndex.InsertInLeaf` | p3/src/btree.cpp:160-227 | A leaf page takes an entry in; its split links the new page into the leaf chain. |
| `BTreeIndexing.BTreeIndex.SplitLeaf` | p3/src/btree.cpp:196-218 | A split leaf: both halves end in their sentinels and the right sibling passes on. |
| `BTreeIndexing.BTreeIndex.GrowRoot` | p3/src/btree.cpp:326-338 | A split root becomes the first of two children of a new root, one level higher, and the meta page, unpinned dirty, says so. |
| `BTreePages.CopyArray` | p3/src/btree.h:389-398 | Copying through a temporary gives the target the source's old contents even when they overlap. |
| `BTreePages.LeafNode.FindPos` | p3/src/btree.cpp:172-182 | The position behind every entry with a key not above the new one; all accesses in bounds. |
| `BTreePages.LeafNode.Place` | p3/src/btree.cpp:184-193 | The slots then hold the entries with the new one in between. |
| `BTreePages.LeafNode.SplitInto` | p3/src/btree.cpp:204-214 | Both halves hold their part of the overfull leaf. |
| `BTreePages.NonLeafNode.Place` | p3/src/btree.cpp:264-271 | The slots then hold the separators and children with the new pair in between. |
| `BTreePages.NonLeafNode.SplitInto` | p3/src/btree.cpp:281-291 | Both halves hold what lies below and above the middle separator. |
| `BTreeSpec.InsertCorrect` | p3/src/btree.cpp:155-306 | Through any splits, the in-order contents change exactly as sorted insertion says; leaves stay level, nodes within capacity and half full, separators exact. |
| `BTreeSpec.InsertSortedKeepsSorted` | p3/src/btree.cpp:172-193 | The reference keeps key order. |
| `BTreeSpec.InsertSortedCounts` | p3/src/btree.cpp:191-193 | The reference adds exactly the one entry. |
| `BTreeRep.InsertPages` | p3/src/btree.cpp:198-218 | Insertion keeps every page of the subtree once and adds exactly the pages allocated. |
| `BTreeRep.InsertHead` | p3/src/btree.cpp:207-208 | The first page of the subtree's leaf chain stays first. |
| `BTreeRep.FinishHalves` | p3/src/btree.cpp:254-305 | Pages, tree and chain agree again after a child's split has been taken in. |
| `BTreeRep.RootHalves` | p3/src/btree.cpp:326-338 | The same for the new root. |
| `BTreeTheorems.LeafChain` | p3/src/btree.cpp:207-208 | Following the sibling numbers from the leftmost leaf meets every leaf once and yields the sorted contents. |
| `BTreeTheorems.SubtreeOccupancy` | p3/src/btree.cpp:196-214 | A subtree of height h below the root holds at least (N/2+1)^(h-1) * ((L+1)/2) entries. |
| `BTreeTheorems.HeightBound` | p3/src/btree.cpp:274-291 | An index of height h >= 2 holds at least 2*(N/2+1)^(h-2)*((L+1)/2) entries. |
| `BTreeTheorems.InsertAllSorts` | p3/src/btree.cpp:308-340 | Any run of insertions into an empty index yields the inserted entries, each once, in key order. |
| `BTreeTheorems.InsertAllStable` | p3/src/btree.cpp:172-182 | Entries with equal keys stay in insertion order. |
| `BTreeIndexing.BTreeIndex.StartScan` | p3/src/btree.cpp:342-494 | The outcome in every case. Bad operators change nothing; a low bound above the high one changes the stored query and nothing else; a descent that runs into page 0 (exactly when the root loses the way) has nothing pinned when it asks for it; otherwise the entries pending are those `ScanStart` says, and one page is pinned if and only if a scan is executing. |
| `BTreeIndexing.BTreeIndex.Descend` | p3/src/btree.cpp:381-444 | The descent arrives at the leaf for the low bound unless the root loses its way, with one page pinned. |
| `BTreeIndexing.BTreeIndex.ChooseChild` | p3/src/btree.cpp:398-419 | The child taken is the one the separators choose, or page 0 exactly when `LosesWay`. |
| `BTreeIndexing.BTreeIndex.FindStart` | p3/src/btree.cpp:448-473 | The loop over the leaf finds what `StartIn` says. |
| `BTreeIndexing.BTreeIndex.TrySibling` | p3/src/btree.cpp:481-493 | Without an entry in the leaf the scan goes on with the next leaf's first, or reports none. |
| `BTreeIndexing.BTreeIndex.ScanNext` | p3/src/btree.cpp:500-555 | Each call returns the first pending entry and leaves the rest pending, across leaves; then the scan is complete for every later call; the scan's page stays the only one pinned. |
| `BTreeIndexing.BTreeIndex.EndScan` | p3/src/btree.cpp:561-570 | Ends a running scan and gives its page back; fails when none is running. |
| `BTreeIndexing.BTreeIndex.RunScan` | p3/src/main.cpp:589-645 | On every index with distinct keys, a query with a valid range is answered with exactly the entries whose keys satisfy both comparisons, in key order, if and only if `ScanGuard` holds; what the caller gets is the record id of each of them, in that order. A query that is rejected returns nothing, and pins stay balanced. |
| `BTreeIndexing.BTreeIndex.Drain` | p3/src/main.cpp:612-638 | Calling scanNext to the end hands out the record id of every pending entry, in order, and leaves none. |
| `BTreeScanSpec.StartExact` | p3/src/btree.cpp:448-494 | On the reached leaf and those behind it, the scan's answer is the entries in range if and only if `Guard` holds. |
| `BTreeScanSpec.InRangeExact` | p3/src/btree.cpp:534-547 | The reference answer holds exactly the entries whose keys satisfy both comparisons, in key order. |
| `BTreeChain.ScanExact` | p3/src/btree.cpp:342-555 | On every tree with distinct keys, the scan starts and what it has pending is the entries in range if and only if `ScanGuard` holds: the root does not lose the way, and `Guard` holds at the leaf reached. |
| `BTreeIndexing.QueryExact` | p3/src/btree.cpp:342-555 | What a query gathered is the answer, and where record ids are distinct its record ids are the answer's, if and only if the guard holds. |
| `BTreeTheorems.MissesUpperBound` | p3/src/btree.cpp:467-468 | A single entry equal to an inclusive upper bound is missed. |
| `BTreeTheorems.ReturnsExcludedBound` | p3/src/btree.cpp:467-468 | An empty half-open range returns its bound. |
| `BTreeTheorems.LosesTheWay` | p3/src/btree.cpp:326-333 | A tree of two leaves and a query with an entry in range that starts on page 0. |
| `BTreeTheorems.QueryReadsPageZero` | p3/src/btree.cpp:342-444 | Two insertions into a new index and a query above both, which reads page 0. |
| `BTreeTheorems.RejectedRange` | p3/src/btree.cpp:356-364 | Two upper bounds leave the same entries of a sorted run if and only if they agree on each. |
| `BTreeTheorems.PendingSurvives` | p3/src/btree.cpp:356-364 | Under new bounds a running scan has the same entries pending if and only if both upper bounds agree on everything behind the current entry. |
| `BTreeTheorems.RejectedRangeCutsScan` | p3/src/btree.cpp:356-364 | A rejected start after which a running scan ends early. |
| `BTreeTheorems.QueryAfterInserts` | p3/src/main.cpp:589-645 | An index is built, takes more records in and is queried, from the contracts alone: the answer is the entries asked for among all records if and only if the guard holds, and the record ids returned are theirs, in order. |
| `HashTable.BufHashTbl.Insert` | p2/src/bufHashTbl.cpp:32-52 | For any hash function: adds a binding, or fails exactly when the key is bound. |
| `HashTable.BufHashTbl.Lookup` | p2/src/bufHashTbl.cpp:54-67 | Finds the bound frame, or fails exactly when the key is not bound. |
| `HashTable.BufHashTbl.Remove` | p2/src/bufHashTbl.cpp:69-90 | Takes exactly this binding out, every other stays, or fails exactly when the key is not bound. |
| `Clock.TwoRoundsSuffice` | p2/src/buffer.cpp:59-106 | Two rounds of the clock find a frame if and only if some frame is invalid or unpinned. |
| `Clock.SweepKeeps` | p2/src/buffer.cpp:66-84 | The clock changes only reference bits, and the frame it stops at is invalid or unpinned. |
| `Clock.FirstClock` | p2/src/buffer.cpp:59-84 | The loop that counts passes over its start terminates and gives second chances (`SecondChance`): the victim is the first frame from the hand on that is free, or unpinned and not referenced; where there is none, the first unpinned one; the reference bits of exactly the frames passed are cleared. |
| `Clock.SecondClock` | p3/src/buffer.cpp:58-103 | The same for the loop that counts frames. |
| `Clock.SweepChances` | p2/src/buffer.cpp:66-84 | For every pool and hand, two rounds pick that victim and clear those bits, and find nothing exactly when every frame is pinned. |
| `Clock.SomeVictim` | p2/src/buffer.cpp:59-106 | Every pool is in one of the three cases. |
| `Clock.ClocksAgree` | p3/src/buffer.cpp:58-103 | Both succeed on the same frames, pick the same victim and leave the same reference bits and hand. |
| `BufferSpec.EvictInvisible` | p2/src/buffer.cpp:86-96 | Giving up a frame changes no page's content if and only if the frame is dirty or agrees with the disk, which holds for every unpinned frame. |
| `BufferSpec.SweepSound` | p2/src/buffer.cpp:59-106 | The clock's whole effect keeps the pool's invariant. |
| `BufferSpec.OneFramePerPage` | p2/src/buffer.cpp:108-132 | No page sits in two frames. |
| `BufferSpec.WriteSound` | p2/src/buffer.cpp:131-131 | A client's change through a pinned frame changes that page's content only. |
| `BufferSpec.ForgetSound` | p2/src/buffer.cpp:203-207 | Dropping a frame without writing it back touches only its own page. |
| `BufferManager.BufMgr.constructor` | p2/src/buffer.cpp:44-55 | An empty pool shows the files' contents; no frame is valid and the hand is on the last. |
| `BufferManager.BufMgr.AllocBuf` | p2/src/buffer.cpp:59-106 | Succeeds exactly when some frame is invalid or unpinned; the frame is the one the second chance rule picks, and is now free; exactly its page's binding goes; the disk gains exactly its page if it was dirty, and no next pointer changes; no page's content changes, and of the other frames only reference bits. |
| `BufferManager.BufMgr.GiveUp` | p2/src/buffer.cpp:86-96 | A dirty victim's content reaches the disk, every next pointer there stays, nothing else on disk changes, and exactly its binding goes. |
| `BufferManager.BufMgr.ReadPage` | p2/src/buffer.cpp:108-132 | The outcome in every case. A cached page gets one more pin and its reference bit, and nothing else changes; another one takes the frame the second chance rule picks, clean, referenced and pinned once. No page's content, no other pinned frame and no next pointer changes. |
| `BufferManager.BufMgr.UnPinPage` | p2/src/buffer.cpp:134-151 | The page has one pin less and is dirty if it was or the caller says so; no other field and no other frame changes; or the error on an unpinned page. Contents stay; the pool stays sound if and only if the client that lets go of a changed page last says it is dirty. |
| `BufferManager.BufMgr.AllocPage` | p2/src/buffer.cpp:153-167 | A new blank page, pinned once, in the frame the second chance rule picks; every other page's content stays; the disk has the new page and exactly the next pointers the file was told to write. |
| `BufferManager.BufMgr.FlushFile` | p2/src/buffer.cpp:169-196 | Fails exactly on a pinned page of the file; never with "bad buffer" for a named file; on success no frame holds a page of the file and the disk has each dirty one's content, under the next pointer it had. Either way no content, no pinned frame, no next pointer and no other file's page changes, and a frame that changes was an unpinned one of the file and is cleared. |
| `BufferManager.BufMgr.DisposePage` | p2/src/buffer.cpp:198-214 | Exactly this page and its binding vanish, cached or not; the disk has exactly the next pointers the file was told to write; every frame but its own stays as it was, pins included. |
| `BufferManager.PinnedTwice` | p2/src/buffer.cpp:134-151 | A page read twice and unpinned twice can be flushed. |
| `BufferManager.LinkSurvivesFlush` | p2/src/buffer.cpp:184-189 | A page changed in the pool while the file links another behind it on disk: flushing writes the change and keeps the link. |
| `SlotDirectory.MoveRange` | p3/src/page.cpp:86-99 | The summed lengths are always the bytes between the free space and a non-empty hole; the least offset is where they start if no empty record lies in the free space; the move stays inside the page in any case. |
| `SlotDirectory.InsertTiles` | p3/src/page.cpp:189-192 | A record at the top of the free space keeps the tiling. |
| `SlotDirectory.DeleteTiles` | p3/src/page.cpp:75-115 | Deletion keeps the tiling if and only if the slot is `Deletable`. |
| `SlotDirectory.UpdateTiles` | p3/src/page.cpp:54-69 | An update keeps it if and only if the slot is `Deletable` or the new record starts where the old one did. |
| `SlotDirectory.NonEmptyDeletable` | p3/src/page.cpp:90-90 | Without empty records every slot is. |
| `SlotDirectory.DeleteRecords` | p3/src/page.cpp:75-115 | On every well-formed page, deletion unbinds one slot number only, and every other record keeps its bytes if and only if the deletion is `Lossless`. |
| `SlotDirectory.RemovedPacked` | p3/src/page.cpp:75-115 | The non-empty records fill the page without gap or overlap after any deletion. |
| `SlotDirectory.NoStrayLossless` | p3/src/page.cpp:86-108 | Deletion is lossless when no empty record lies in the free space. |
| `SlotDirectory.InsertRecords` | p3/src/page.cpp:189-196 | Storing a record binds its slot and keeps every other record's bytes. |
| `SlotDirectory.GrowKeeps` | p3/src/page.cpp:167-173 | Extending the directory keeps the page well formed if and only if the next free byte is zero and no empty record lies in the new slot's bytes. |
| `SlottedPage.Page.constructor` | p3/src/page.cpp:25-34 | An initialised page is tidy and holds nothing. |
| `SlottedPage.Page.InsertRecord` | p3/src/page.cpp:36-44 | Fails exactly when space or a clean slot byte is missing; otherwise binds the lowest unused slot number to the record and no other; the page stays well formed under exactly the condition above, and tidy if it was. |
| `SlottedPage.Page.GetRecord` | p3/src/page.cpp:46-52 | Returns the stored bytes, or fails exactly on a slot without a record. |
| `SlottedPage.Page.UpdateRecord` | p3/src/page.cpp:54-69 | Rebinds the same slot, or fails exactly when the record is missing or does not fit; directory, header and free space are then those of the deletion with the record stored at the top of the free space; the page stays well formed, the other records stay if and only if the deletion it begins with is `Lossless`, and a tidy page stays tidy under exactly the condition above. |
| `SlottedPage.Page.DeleteRecord` | p3/src/page.cpp:71-136 | On every well-formed page, unbinds exactly this slot, gives back all trailing unused slots and leaves exactly the directory and bytes compaction gives; the page stays well formed, the other records stay if and only if the deletion is `Lossless`, and a tidy page, whose records always stay, is tidy again if and only if the slot is `Deletable`. |
| `SlottedPage.Page.GetAvailableSlot` | p3/src/page.cpp:154-176 | The lowest unused slot, or one new slot. |
| `SlottedPage.Page.InsertRecordInSlot` | p3/src/page.cpp:178-199 | The outcome in every case, and the whole new state. |
| `SlottedPage.Page.CloseHole` | p3/src/page.cpp:80-115 | Compaction as a whole: directory, free space, every byte above the directory, and which records survive. |
| `SlottedPage.Page.Trim` | p3/src/page.cpp:117-135 | The directory ends at the highest used slot; records stay. |
| `SlottedPage.Page.NoEmptyRecords` | p3/src/page.cpp:71-136 | A page without empty records is tidy and can delete or update any of them. |
| `SlottedPage.StaleByteRefusesInsert` | p3/src/page.cpp:167-187 | Four insertions and a deletion that end in "slot in use" although there is room. |
| `SlottedPage.StrayRecord` | p3/src/page.cpp:90-90 | Three insertions and a deletion that leave an empty record in the free space. |
| `SlottedPage.DeletionLosesRecord` | p3/src/page.cpp:86-108 | One more insertion and one more deletion, after which a record that neither names has changed its bytes. |
| `PageLists.LinkThreads` | p2/src/file.cpp:84-148 | Linking a free page or a page past the end into the used list keeps both lists and their partition of the file. |
| `PageLists.UnlinkThreads` | p2/src/file.cpp:185-213 | So does moving a used page to the head of the free list. |
| `PageLists.WriteThreads` | p2/src/file.cpp:170-183 | So does rewriting a page with the next pointer found on disk. |
| `PageLists.NoLists` | p2/src/file.cpp:94-102 | No lists fit a file whose only used page points on to a free one. |
| `PageFiles.PageFile.constructor` | p2/src/file.cpp:226-231 | A new file is its header alone. |
| `PageFiles.PageFile.ReadPage` | p2/src/file.cpp:150-168 | Returns the page, or fails exactly when it is not in use. |
| `PageFiles.PageFile.WritePage` | p2/src/file.cpp:170-183 | Changes this page's body and keeps the next pointer on disk, changes no other page, or fails exactly on a deleted page. |
| `PageFiles.PageFile.AllocatePage` | p2/src/file.cpp:84-148 | A blank page not in use before; the file grows only when no page is free; the lists stay threaded if and only if the guard holds; where it does not, the whole header and every page are stated. |
| `PageFiles.PageFile.FindPredecessor` | p2/src/file.cpp:106-114 | The walk stops where the page belongs in ascending order. |
| `PageFiles.PageFile.DeletePage` | p2/src/file.cpp:185-213 | The page leaves the used list, whatever its place, and heads the free list. |
| `PageFiles.AllocationUnthreads` | p2/src/file.cpp:84-148 | Three allocations and two deletions after which no two lists fit the file. |
| `FileScans.GetNextUsedSlot` | p3/src/page_iterator.h:111-121 | The next used slot, or 0, without skipping a record. |
| `FileScans.FileScan.ScanNext` | p3/src/filescan.cpp:36-105 | Returns the first record still to come, skipping pages without records, with exactly its page pinned; at the end EndOfFile for ever with nothing pinned. |
| `FileScans.FileScan.GetRecord` | p3/src/filescan.cpp:109-112 | The bytes of the record just returned. |
| `FileScans.FileScan.Drain` | p3/src/btree.cpp:116-130 | Calling scanNext to the end yields every record to come, once. |
| `FileScans.RidsExact` | p3/src/filescan.cpp:36-105 | The records to come are exactly the used slots of the used pages. |
| `FileScans.RidsIncreasing` | p3/src/filescan.cpp:36-105 | They come strictly in (page, slot) order, so each once. |
| `RadixShape.CutKeeps` | p1/wl.cpp:254-264 | Splitting a node keeps the tree well formed and no word's list changes. |
| `RadixShape.LeafKeeps` | p1/wl.cpp:328-337 | A new leaf keeps the tree well formed and gives one new word its first occurrence. |
| `RadixShape.CountKeeps` | p1/wl.cpp:358-366 | Appending a count changes that word's list only. |
| `RadixShape.OnlyWay` | p1/wl.cpp:266-279 | With distinct first characters a child is the only way to what lies below it. |
| `RadixShape.CutStores` | p1/wl.cpp:368-375 | After a split the insertion goes on from the new node with all but one character. |
| `RadixShape.StoredIsWord` | p1/wl.cpp:320-378 | The stored word is the inserted one if the first edge left in the middle is left at index 1 (or none is), and a longer one otherwise. |
| `RadixShape.SofaBecomesSoofa` | p1/wl.cpp:324-375 | A concrete case. |
| `Concordance.GrownMeans` | p1/wl.cpp:320-378 | The tree insertion yields is well formed, and exactly the stored word's list grows, by the count given. |
| `Concordance.TreeMeans` | p1/wl.cpp:469-495 | The tree of a text lists, for every word, exactly the positions at which it was stored. |
| `Concordance.LogExact` | p1/wl.cpp:469-495 | Every word of a text is stored as itself if and only if no insertion splits an edge past its second character. |
| `Concordance.LookupsExact` | p1/wl.cpp:469-500 | Every word's list is its positions in the text, for all words, if and only if no insertion splits that late. |
| `Concordance.PositionsExact` | p1/wl.cpp:469-495 | Positions are strictly increasing and exactly the word's, so all words together have every position once. |
| `Concordance.SofaNotFound` | p1/wl.cpp:324-375 | The text "song sofa": no position is listed for its second word. |
| `WordLists.Diff` | p1/wl.cpp:237-252 | The first difference past index 0. |
| `WordLists.Dictionary.Next` | p1/wl.cpp:266-279 | The child whose edge begins with the character, or none. |
| `WordLists.Dictionary.Split` | p1/wl.cpp:254-264 | The split on the heap is the cut of the tree; its meaning stays. |
| `WordLists.Dictionary.Search` | p1/wl.cpp:281-318 | For n >= 1, the word's n-th count, or 0 exactly when it has fewer. |
| `WordLists.Dictionary.Step` | p1/wl.cpp:324-377 | One turn of the loop: the tree is the one insertion yields, or the walk goes on towards that same tree, past a label that comes next in the word, or past a split by one character only. |
| `WordLists.Dictionary.Insert` | p1/wl.cpp:320-378 | The tree on the heap becomes exactly `Grown`; one word's list grows, by the count given; which word, and that it is the inserted one if and only if no edge is first left past its second character. |
| `WordLists.Dictionary.New` | p1/wl.cpp:458-467 | An empty loadable dictionary. |
| `WordLists.Dictionary.Load` | p1/wl.cpp:469-495 | Loads once; the tree is then that of the text's words, and every word's list is exactly the positions at which an insertion stored it. |
| `WordLists.Dictionary.Locate` | p1/wl.cpp:497-500 | The n-th position of a word. |
| `WordLists.InsertedWordNotFound` | p1/wl.cpp:320-378 | Two insertions and a look-up of the second word that reports none. |
| `Tokenizer.ToLower` | p1/wl.cpp:40-50 | Every upper-case letter becomes the one 32 codes above, every other character stays, and no upper-case letter is left. |
| `Tokenizer.Parse` | p1/wl.cpp:397-446 | Appends exactly the maximal runs of digits, letters and apostrophes, in order, each spelled in lower case; every such character of the line lies in a run. |
| `Tokenizer.CharLaws` | p1/wl.cpp:46-46 | Which characters make up words, and what lower case is, by character code. |
| `Tokenizer.FindNext` | p1/wl.cpp:417-429 | The next word character, if any. |
| `Tokenizer.RunsUnique` | p1/wl.cpp:397-446 | A line has only one such list of runs. |

## Left out

- Streams, open counts, file existence and byte positions of pages in the file: the disk is a map.
- Opening an existing index file (`p3/src/btree.cpp:69-81`), the relation name and attribute offset in the meta page, key extraction from record bytes.
- What a scan does after its descent has reached page 0.
- Scans interleaved with insertions, and buffer exhaustion inside the index and the file scan (the buffer manager's own outcomes are modelled).
- The parts of `p3/src/buffer.cpp` other than its clock: they repeat `p2`.
- `p2/src/page.cpp` and `PageFile` in `p3/src/file.cpp`: twins of the modelled ones.
- `markDirty` of the file scan and the dirty mark it unpins with: the scan only reads.
- DOUBLE and STRING scans, BufStats, printing, exception texts, BlobFile.
- Command parsing and the console of `p1`; `SetLodable`, which nothing calls; the 32-bit wrap of the word counter.
- All of `p5`.
- SlottedPage.Page.GetRecord: slot numbers outside 1..num_slots on the same page are excluded, because the source then reads bytes that are no slot.
- SlottedPage.Page.UpdateRecord: slot numbers outside 1..num_slots on the same page are excluded, for the same reason.
- SlottedPage.Page.DeleteRecord: slot numbers outside 1..num_slots on the same page are excluded, for the same reason.
- PageFiles.PageFile.ReadPage: page number 0 is excluded, because the source then reads outside the pages, at the position of a page before the first.
- PageFiles.PageFile.WritePage: page numbers 0 and past the end are excluded, because the source then reads and writes where no page is.
- PageFiles.PageFile.DeletePage: page number 0 is excluded, as for reading.
- BufferManager.BufMgr.AllocPage: the number the file picks and the next pointers it rewrites are parameters; that it picks an unused number is proved in `PageFiles`.
- WordLists.Dictionary.Search: occurrence 0 is excluded, because the source then reads before the list.
- WordLists.Dictionary.Locate: occurrence 0 is excluded, as in Search.
