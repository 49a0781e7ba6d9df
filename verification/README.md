# A verified model of SQLite's B-tree layer and its neighbours

This project models the storage core of SQLite 3.7.14.1 in Dafny and proves what it is meant to guarantee. Each file
covers one component, in the form the source has: pages, cursors, bit vectors, hash tables, lock lists and backups are
classes whose methods change their fields; loops are loops; the mutex protocol is a transition system over any number of
connections.

- `CellFormat.dfy`: big-endian integers, varints, the layout of a cell, and the limits for local payload.
- `PageLayout.dfy`, `PageSpace.dfy`: the page-space allocator. A page is a byte array; its well-formedness is the
  partition into header, pointer array, gap, live cells, freeblocks and counted fragment bytes.
- `BalancePack.dfy`, `Balance.dfy`, `BalanceNonroot.dfy`, `BalanceBound.dfy`, `BalanceCells.dfy`, `BalanceTree.dfy`,
  `BalanceBytes.dfy`, `BalanceCascade.dfy`, `BalanceEntries.dfy`: `balance_nonroot`, from the packing loops to the
  effect on the pages of a tree and on pages of bytes, the cascade of balances up to the root, and the entries of whole
  subtrees. The left-to-right reading of all
  children of a parent is the meaning that is preserved; the number of pages needed and the sizes of the cells moved are
  derived from the file format.
- `Cursor.dfy`: search, insertion, scan, saving and restoring cursors on ordered trees of both kinds.
- `Payload.dfy`: cells with overflow chains, written, read back and freed.
- `Freelist.dfy`: the trunk and leaf list of unused pages as a set.
- `PtrMap.dfy`: the pointer map as a reverse index, moving a page, and the three callers that move pages.
- `AutoVacuum.dfy`, `VacuumCommit.dfy`: where pointer-map pages lie, the final size computed by a full auto-vacuum, and
  the loop that moves all pages in front of it.
- `SharedCache.dfy`: table locks and transactions of Btrees that share a cache, over whole runs.
- `BtMutex.dfy`: the mutex protocol of `sqlite3BtreeEnter`.
- `Backup.dfy`: the online backup, interleaved with writes to the source.
- `Bitvec.dfy`, `Hash.dfy`, `Stat3.dfy`: the bit vector, the hash table, and the sampler behind ANALYZE.
- `Arith.dfy`: facts about multiplication and division.

`dafny verify dfyconfig.toml` checks everything.

## Conventions

Pager calls are reads and writes of pages. Where an allocation or an operating system call can fail, the model lets it
fail at any time, or takes its outcome as a parameter (the faults of a backup or a bit vector, the allocations of a hash
table, the pages at hand for an overflow chain). Page numbers, counters and hashes are unbounded integers; where the
source relies on 32-bit arithmetic (the auto-vacuum formula, the distance of free pages, the sampler's random numbers,
`nRemaining` of a backup, the string hash) the wrap-around is written out. Keys are integers standing for a strict total
order; in the hash table they are byte strings compared after folding upper case to lower case. The size constants of
bit vectors are those of a 512-byte structure with eight-byte pointers. An outside decision (which page the allocator
returns, whether a lock on a file is granted, the next change of a tree) is a parameter.

Four promises turn out to hold only under a condition, and the model says exactly when:

- The guess in `getOverflowPage` returns the page that the chain names if and only if the page guessed is live or its
  pointer-map entry does not name the page asked about. While every page not in use is marked as free in the map, it is
  always right. `relocatePage` leaves the entry of the vacated page behind (`Relocate.StaleEntryMisleads`), but each of
  its callers restores the marks before anything else is read: `Relocate.Store.VacuumStep` cuts the page off,
  `CreateRoot` reuses it and `DropRoot` frees it.
- A finished backup has the byte length of its source except for a source that ends with its own pending-byte page and
  whose pages are smaller than those of the destination, or of the same size when the destination is a plain file that
  had another number of pages before the commit: the copy then ends at the pending byte (`Backup.EndsAtPendingPage`;
  `pager.c:6651` for equal sizes). No such source comes from this library: `allocateBtreePage` never leaves the
  pending-byte page as the last one (`btree.c:5888`, `Freelist.NextPage`), and `autoVacuumCommit` calls such a file
  corrupt (`AutoVacuum.FinalSize`). For every other source the lengths are equal.
- Pages that the pager does not write, leaves of the free list, are not reported to a backup. What has been copied
  agrees with the source after every growth by such pages if and only if they do not come to lie among the pages copied,
  or only on the pending-byte page (`Backup.GrowthSurvives`). A source cut below the pages copied that grows again by
  such pages differs from its copy (`Backup.UnreportedGrowth`); what differs is the contents of free pages. The bytes of
  such pages are kept apart (`stale`) in all statements about what a backup has copied.
- `nRemaining` of a backup is the 32-bit difference `nSrcPage + 1 - iNext`, which wraps when the source has become
  shorter than the part already copied.

The packing loop of `balance_nonroot` records for a full page a size that is two bytes too large; the model keeps this,
and the adjustment is proved correct with it.

## Model

| member | source | states |
|---|---|---|
| Varint.RoundTrip | sqlite-version-3.7.14.1/src/btreeInt.h:169-186 | reading a varint written by putVarint returns the value and the number of bytes written, for every unsigned 64-bit value and whatever follows |
| Varint.DecodeLocal | sqlite-version-3.7.14.1/src/btreeInt.h:169-186 | the decoder depends only on the bytes it reports as consumed |
| Varint.Format | sqlite-version-3.7.14.1/src/util.c:736-770 | the encoding has the least number of seven-bit groups, or nine bytes; all bytes but the last have the high bit, the last group is the least significant, and the groups in front encode the rest of the value |
| CellFormat.ParseLocal | sqlite-version-3.7.14.1/src/btree.c:1011-1093 | parsing depends only on the header bytes behind the child pointer |
| CellFormat.CellSizeInContext | sqlite-version-3.7.14.1/src/btree.c:1113-1184 | a cell keeps its size when other bytes follow it and when its child pointer changes |
| CellFormat.LocalBounds | sqlite-version-3.7.14.1/src/btree.c:1056-1092 | a payload that is spilled keeps between minLocal and maxLocal bytes on the page, and less than all of it |
| Payload.FewestPages | sqlite-version-3.7.14.1/src/btree.c:1056-1092 | of all amounts between the limits the one kept on the page is the least that needs the fewest overflow pages; a payload that fits stays whole |
| CellFormat.LocalFractions | sqlite-version-3.7.14.1/src/btree.c:2753-2776 | with the 23 bytes of a cell besides its payload, maxLocal is 64 of 255 parts of the page behind the header on index pages and all of it on table leaves, minLocal is 32 of 255 parts |
| CellFormat.PayloadSize | sqlite-version-3.7.14.1/src/btree.c:1021-1046 | the payload size read is that of the header varint, cut to the largest 32-bit value |
| CellFormat.FlagsRoundTrip | sqlite-version-3.7.14.1/src/btree.c:1533-1563 | each of the four kinds of page has exactly one flags byte, and decodeFlags refuses every other byte |
| PageLayout.HeaderFields | sqlite-version-3.7.14.1/src/btreeInt.h:111-135 | the fields of the page header follow one another without a gap up to the cell pointer array |
| CellFormat.SizeBounds | sqlite-version-3.7.14.1/src/btree.c:2773-2776 | from the local limits alone: three index cells with their pointers fit on a page, an interior table cell has at most 13 bytes, and every cell fits on an empty page |
| PageLayout.GapIsFragments | sqlite-version-3.7.14.1/src/btree.c:1490-1497 | two freeblocks at most three bytes apart have nothing but counted fragment bytes between them, so merging them never makes the fragment count negative |
| PageLayout.FreeStep | sqlite-version-3.7.14.1/src/btree.c:1463-1479 | linking a released extent into the freeblock chain keeps the partition of the page |
| PageLayout.MergeStep | sqlite-version-3.7.14.1/src/btree.c:1483-1507 | merging two freeblocks moves the bytes between them from the fragment count into the block and keeps the partition |
| PageLayout.TrimStep | sqlite-version-3.7.14.1/src/btree.c:1509-1517 | giving a leading freeblock to the gap keeps the partition |
| PageLayout.TakeStep | sqlite-version-3.7.14.1/src/btree.c:1364-1375 | taking a whole freeblock, up to three bytes becoming fragments, keeps the partition |
| PageLayout.ShrinkStep | sqlite-version-3.7.14.1/src/btree.c:1376-1387 | taking bytes from the end of a freeblock keeps the partition, the chain and the spacing of the blocks |
| PageLayout.GapStep | sqlite-version-3.7.14.1/src/btree.c:1405-1415 | taking bytes from the end of the gap keeps the partition |
| PageSpace.MemPage.FreeSpace | sqlite-version-3.7.14.1/src/btree.c:1427-1520 | freeSpace on a well-formed page: never corrupt; the extent joins the freeblocks, neighbours at most three bytes apart are merged, blocks stay sorted and more than three bytes apart |
| PageSpace.MemPage.Defragment | sqlite-version-3.7.14.1/src/btree.c:1215-1296 | defragmentPage on a well-formed page: never corrupt, every cell keeps its bytes in pointer order, and one gap of exactly nFree bytes remains |
| PageSpace.MemPage.AllocateSpace | sqlite-version-3.7.14.1/src/btree.c:1313-1416 | allocateSpace succeeds whenever nByte + 2 <= nFree, and returns a range apart from all live cells and above the enlarged pointer array |
| PageSpace.MemPage.PlaceCell | sqlite-version-3.7.14.1/src/btree.c:6464-6569 | insertCell with room: the new cell becomes cell i, the others keep their bytes and order, nFree drops by the cell and its pointer |
| PageSpace.MemPage.InsertCell | sqlite-version-3.7.14.1/src/btree.c:6464-6569 | insertCell: the cell, with its child pointer replaced when asked, becomes cell i, or joins the overflow list exactly when there is no room |
| PageSpace.MemPage.DropCell | sqlite-version-3.7.14.1/src/btree.c:6397-6439 | dropCell on a well-formed page: never corrupt, exactly cell idx disappears and nFree grows by the cell and its pointer |
| PageSpace.MemPage.InitFree | sqlite-version-3.7.14.1/src/btree.c:1576-1688 | btreeInitPage on a well-formed page recomputes exactly the cached nFree and reports no corruption |
| PageSpace.MemPage.Zero | sqlite-version-3.7.14.1/src/btree.c:1699-1731 | zeroPage makes a well-formed page without cells, with the flags byte of its kind stored and everything in front of the header left alone |
| PageSpace.MemPage.Assemble | sqlite-version-3.7.14.1/src/btree.c:6576-6617 | assemblePage stores exactly the given cells, in order, on a page without cells, and leaves no fragments |
| PageSpace.MemPage.FreeBytes | sqlite-version-3.7.14.1/src/btree.c:1655-1688 | the number of free bytes is determined by the cells alone |
| PageSpace.MemPage.FragmentBytes | sqlite-version-3.7.14.1/src/btree.c:1490-1497 | the bytes of the content area in no cell and no freeblock are as many as the fragment counter says |
| PageSpace.MemPage.Execute | sqlite-version-3.7.14.1/src/btree.c:6397-6569 | every run of insertCell, dropCell and defragmentPage keeps the page well formed and at most 62 fragment bytes, and gives exactly the cells that the run describes |
| BalancePack.StaysAhead | sqlite-version-3.7.14.1/src/btree.c:7303-7326 | no distribution of the cells gets further with its first i pages than greedily filled pages do |
| BalancePack.GreedyMinimal | sqlite-version-3.7.14.1/src/btree.c:7303-7326 | no distribution needs fewer pages than the greedy one |
| BalancePack.Greedy | sqlite-version-3.7.14.1/src/btree.c:7303-7326 | the first packing loop: a feasible distribution over at most NB+2 pages with the minimum number of pages; it reports corruption only when no distribution over NB+2 pages exists |
| BalancePack.EvenPair | sqlite-version-3.7.14.1/src/btree.c:7338-7369 | the inner adjustment loop keeps both pages within capacity and non-empty; it goes on until one more cell would make the right page heavier than the left one, and not further unless the right page was empty; in bulk it moves only what an empty page needs |
| BalancePack.EvenOut | sqlite-version-3.7.14.1/src/btree.c:7338-7369 | the right-to-left adjustment keeps every page within capacity and leaves none empty; every boundary lies where the inner loop takes it from the greedy one |
| BalancePack.OneExtraLeafCell | sqlite-version-3.7.14.1/src/btree.c:7303-7322 | leaf-data siblings that fit, with one extra cell on one of them, can be distributed over two pages more |
| BalancePack.OneExtraCell | sqlite-version-3.7.14.1/src/btree.c:7303-7322 | siblings that keep entries in the parent, with one extra cell, can be distributed over one page more |
| BalancePack.FitsByWeight | sqlite-version-3.7.14.1/src/btree.c:7303-7322 | cells that together weigh no more than m full pages fit on m pages when the entries between pages move up |
| Balance.FindOverflowCell | sqlite-version-3.7.14.1/src/btree.c:980-998 | findOverflowCell returns the cell that stands at that place when all overflow cells are in their places |
| Balance.LoadCells | sqlite-version-3.7.14.1/src/btree.c:7200-7280 | the cells loaded are the left-to-right sequence of the siblings' cells and the dividers between them, old right children becoming left children of the dividers; sizes are at least four |
| Balance.FlatReplaced | sqlite-version-3.7.14.1/src/btree.c:7484-7583 | replacing neighbouring pages by pages that read the same and end with the same right child leaves the reading of the whole row unchanged |
| Balance.FlatCut | sqlite-version-3.7.14.1/src/btree.c:7489-7583 | reading the newly cut pages with their dividers and right children gives back the cells |
| BalanceNonroot.SelectSiblings | sqlite-version-3.7.14.1/src/btree.c:7016-7057 | the window of siblings is determined: all children when there are at most three, else three of them, or two in bulk, with the page to be balanced in the middle unless it is the first or the last |
| BalanceNonroot.PullDividers | sqlite-version-3.7.14.1/src/btree.c:7058-7154 | exactly the divider cells of the window leave the parent, an overflow cell of the parent being among them |
| BalanceNonroot.SortPages | sqlite-version-3.7.14.1/src/btree.c:7443-7477 | the new pages are the same page numbers in ascending order |
| BalanceNonroot.Pack | sqlite-version-3.7.14.1/src/btree.c:7283-7369 | the cut positions put at least one cell on every page, none over capacity, on the minimum number of pages, and are those of the greedy pass evened out |
| BalanceNonroot.CutPages | sqlite-version-3.7.14.1/src/btree.c:7489-7583 | pages, right children and dividers are cut from the cells at those positions; a leaf-data divider is the key of the cell before it |
| BalanceNonroot.InsertDivider | sqlite-version-3.7.14.1/src/btree.c:6464-6569 | the divider becomes cell idx of the parent, stored when it fits and nothing overflowed before, otherwise as an overflow cell |
| BalanceNonroot.PushDividers | sqlite-version-3.7.14.1/src/btree.c:7484-7575 | the parent has the new dividers in place of the old ones, pointing to the new pages, and the slot behind them points to the last new page; its stored cells take no more than the bytes it had free; it has overflow cells exactly when its cells do not all fit |
| BalanceBound.FivePagesSuffice | sqlite-version-3.7.14.1/src/btree.c:7303-7322 | at most three siblings that fit, holding one cell too many, can be distributed over NB+2 pages |
| BalanceBound.NotCorrupt | sqlite-version-3.7.14.1/src/btree.c:7303-7322 | the corruption branch of the packing loop is taken only for siblings with more than one cell too many |
| BalanceBound.FourFit | sqlite-version-3.7.14.1/src/btree.c:7303-7322 | up to three siblings that keep entries in the parent, whose stored cells fit and which have at most four overflow cells, as a balance below can leave them, fit on NB+2 pages |
| BalanceBound.LeafFit | sqlite-version-3.7.14.1/src/btree.c:7303-7322 | leaf-data siblings whose stored cells fit and which have at most one overflow cell fit on NB+2 pages |
| BalanceBound.CorruptMeans | sqlite-version-3.7.14.1/src/btree.c:7303-7322 | a report of corruption means more than one cell too many, and a page overfull without its overflow cells or more of these than one insertion (leaves that hold the data) or a balance below (elsewhere) leaves |
| BalanceCells.StoredOk | sqlite-version-3.7.14.1/src/btree.c:1113-1180 | for the bytes of a cell, the size that balancing computes is cellSizePtr, and three such cells fit on a page (a leaf-data cell on an empty one) |
| BalanceCells.MovedDown | sqlite-version-3.7.14.1/src/btree.c:7243-7279 | a divider of an index that comes down to a leaf is a leaf cell, padded to four bytes when it is shorter |
| BalanceCells.MovedUp | sqlite-version-3.7.14.1/src/btree.c:7544-7562 | a leaf cell of an index that goes up as a divider is an interior cell of its true size, also when the leaf stored it padded |
| BalanceCells.KeyUp | sqlite-version-3.7.14.1/src/btree.c:7530-7543 | the key alone, left in the parent by a leaf-data page, is an interior cell of a table |
| BalanceCells.BalancedStored | sqlite-version-3.7.14.1/src/btree.c:7200-7583 | siblings and dividers made of cells of the file format meet the size bounds that balancing relies on, and the pages and dividers cut from them are again cells of the file format |
| BalanceTree.BelowKept | sqlite-version-3.7.14.1/src/btree.c:7200-7583 | the left-to-right reading of all children of the parent, entries, child pointers and the right child of the last page, is unchanged by the rewritten pages and dividers |
| BalanceTree.DividerIsLastKey | sqlite-version-3.7.14.1/src/btree.c:7530-7543 | on leaf-data pages the divider is the key of the last cell of the page to its left |
| BalanceTree.Tree.BalanceNonroot | sqlite-version-3.7.14.1/src/btree.c:6932-7583 | balance_nonroot: the window of children is replaced by at most five distinct pages in ascending order, the minimum number; the reading of all children with the last right child is unchanged; the parent's other dividers are as before and its stored cells fit; new pages are within capacity and non-empty; leaf-data dividers are the last keys on their left; other pages are untouched; corruption is reported only when the first sibling is page 1 or the siblings have more cells too many than an insertion (one) or, unless the leaves hold the data, a balance below (four) can leave; the window is that of SelectSiblings, the cells stand on the pages as the packing distributes them, and the parent overflows exactly when its cells do not all fit |
| BalanceTree.Tree.CopyUp | sqlite-version-3.7.14.1/src/btree.c:7585-7607 | an empty root takes over its only child exactly when the contents fit behind its header, and then holds what was below it before, including the right child |
| BalanceBytes.CapacityIsRoom | sqlite-version-3.7.14.1/src/btree.c:7296-7300 | the capacity of the balancing is the room on a real page: cells are within it exactly when header, cell pointers and the bytes of the cells fit, and what is left of it is what is free |
| BalanceBytes.WrittenFits | sqlite-version-3.7.14.1/src/btree.c:7283-7369 | every page that a balance writes fits on a page of bytes, its cells being cells of the file format |
| BalanceBytes.ParentOnPage | sqlite-version-3.7.14.1/src/btree.c:6464-6569 | the parent's stored cells fit behind its header, on page 1 behind the file header |
| BalanceBytes.StorePage | sqlite-version-3.7.14.1/src/btree.c:6576-6623 | assemblePage puts such a page on a page of bytes: its cells are then the images of the cells with their child pointers, and the free bytes are those counted |
| BalanceBytes.FewestRealPages | sqlite-version-3.7.14.1/src/btree.c:7296-7329 | no distribution of the cells over pages of bytes that all fit has fewer pages than balance_nonroot uses |
| BalanceBytes.AThirdFull | sqlite-version-3.7.14.1/src/btree.c:7838-7902 | balance leaves a page alone exactly when it has no overflow cells and at most two thirds of its bytes are free, so it is at least a third full |
| BalanceCascade.StoredKept | sqlite-version-3.7.14.1/src/btree.c:7200-7583 | after a balance all children of the parent and all its dividers are cells of the file format again |
| BalanceCascade.PathStep | sqlite-version-3.7.14.1/src/btree.c:7836-7975 | a balance below one page of a path leaves every page further up sound, the page itself being a child with at most four overflow cells |
| BalanceCascade.BalanceLevel | sqlite-version-3.7.14.1/src/btree.c:7836-7975 | one level of the loop of balance: the balance succeeds, the siblings around the child are balanced over as few pages as possible with the text below their parent kept, and the rest of the path is sound |
| BalanceCascade.Cascade | sqlite-version-3.7.14.1/src/btree.c:7836-7975 | the loop of balance over any path from above a leaf to the root, with the pages before each level and after the last: each level is called for, balances the siblings around the child over as few pages as possible and keeps the text below their parent; no level reports corruption; at the end the page reached is the root or needs no balance, the page the loop began with has no overflow cells, and no page but the one reached has come to have any, each level being determined by the window and the packing |
| BalanceCascade.OverflowRises | sqlite-version-3.7.14.1/src/btree.c:7836-7975 | over a run the overflowing pages are those at the start without the page it began with, and possibly the page above the level balanced last |
| BalanceEntries.BelowEntries | sqlite-version-3.7.14.1/src/btree.c:7200-7583 | the entries below a page, dividers of an index among them, are those of the text at the level of its children, in order |
| BalanceEntries.LevelKept | sqlite-version-3.7.14.1/src/btree.c:6932-7775 | one balance changes the entries below no page as high as the parent or higher, and the children of every page stay one level below it |
| BalanceEntries.RunKeepsEntries | sqlite-version-3.7.14.1/src/btree.c:7836-7975 | a whole run of balance changes no entry and no order below the page it reached, the root, or any other page at that height or above, in tables and in indexes |
| BtreeOrder.Sorted | sqlite-version-3.7.14.1/src/btree.c:5203-5393 | the entries of a well-formed tree of either kind are strictly ascending |
| Cursor.BtCursor.MoveToLeftmost | sqlite-version-3.7.14.1/src/btree.c:4996-5015 | the cursor reaches the first leaf entry at or below the current index |
| Cursor.BtCursor.First | sqlite-version-3.7.14.1/src/btree.c:5063-5085 | First is on the first entry with the whole tree ahead, or reports an empty tree |
| Cursor.BtCursor.Climb | sqlite-version-3.7.14.1/src/btree.c:5474-5484 | climbing to the next page with a cell left leaves exactly the same entries ahead, and ends only when none is |
| Cursor.BtCursor.Advance | sqlite-version-3.7.14.1/src/btree.c:5425-5503 | one step leaves exactly the first of the entries ahead behind, in tables and in indexes, or ends when it was the last |
| Cursor.SearchPage | sqlite-version-3.7.14.1/src/btree.c:5239-5366 | the binary search on a page, with or without bias: the cell compared last is the match, the last below, or the first above the key |
| Cursor.BtCursor.Moveto | sqlite-version-3.7.14.1/src/btree.c:5170-5393 | the search ends on the key, or at its immediate predecessor (negative result) or immediate successor (positive result) on the leaf that the separators above select for the key |
| Cursor.FoundPresent | sqlite-version-3.7.14.1/src/btree.c:5170-5393 | a search returns zero if and only if the key is in the tree, and is then on it |
| Cursor.InsertKeepsOrder | sqlite-version-3.7.14.1/src/btree.c:8099-8128 | putting the cell at the index that sqlite3BtreeInsert computes adds the key and nothing else and keeps the entries strictly ascending |
| Cursor.InsertWF | sqlite-version-3.7.14.1/src/btree.c:8099-8128 | the tree with the new cell is well formed again: order, and every separator bounds its neighbours |
| Cursor.Insert | sqlite-version-3.7.14.1/src/btree.c:8012-8128 | search and insertion give a well-formed tree with exactly the key added, or the same tree when the key is there |
| Cursor.InsertThenSearch | sqlite-version-3.7.14.1/src/btree.c:8012-8128 | after an insertion a search finds the new key and exactly the keys that were there before |
| Cursor.RebuiltOrder | sqlite-version-3.7.14.1/src/btree.c:8099-8128 | replacing a page of the stack replaces exactly its entries in the order of the whole tree |
| Cursor.BtCursor.SavePosition | sqlite-version-3.7.14.1/src/btree.c:632-685 | the saved key is the key of the current entry |
| Cursor.BtCursor.Restore | sqlite-version-3.7.14.1/src/btree.c:773-791 | the cursor returns to the saved key or next to it, and skipNext tells on which side |
| Cursor.BtCursor.Next | sqlite-version-3.7.14.1/src/btree.c:5425-5503 | Next goes to the least key of the present tree above the last one, also after a saved position and any change of the tree, or ends when there is none |
| Cursor.Scan | sqlite-version-3.7.14.1/src/btree.c:5063-5503 | over every run of First and Next with the tree replaced between calls: each key returned is the least key above the one before in the tree present at that call, the scan ends exactly when there is none, and every key that was in all the trees has been returned by the end |
| OverflowChain.ChainLength | sqlite-version-3.7.14.1/src/btree.c:6134-6136 | a chain has as many pages as clearCell's rounded-up quotient says |
| OverflowChain.WriteLast | sqlite-version-3.7.14.1/src/btree.c:6350-6376 | writing behind the bytes of the last page extends the content of the chain by them |
| OverflowChain.LinkLast | sqlite-version-3.7.14.1/src/btree.c:6338-6348 | linking an empty page behind a full one keeps the content of the chain |
| Payload.HeaderParses | sqlite-version-3.7.14.1/src/btree.c:6239-6262 | parsing the header written by fillInCell gives back the key and the payload size, for every kind of page |
| Payload.PageFile.FillInCell | sqlite-version-3.7.14.1/src/btree.c:6203-6384 | the cell and its overflow pages represent exactly the payload: local bytes, first overflow page, linked pages of usableSize-4 bytes; exactly the needed number of pages is used, FULL is returned if and only if fewer are to be had, and no other page changes; the child pointer stands in front |
| Payload.PageFile.AccessPayload | sqlite-version-3.7.14.1/src/btree.c:4421-4606 | a read of any range of the payload returns exactly those bytes, and a range beyond its end is refused |
| Payload.PageFile.RoundTrip | sqlite-version-3.7.14.1/src/btree.c:6203-6384 | what fillInCell stored is what accessPayload reads: with enough pages every range inside the payload is read back, and every other range is refused |
| Payload.PageFile.ClearCell | sqlite-version-3.7.14.1/src/btree.c:6113-6182 | the walk along the chain visits exactly the overflow pages of the cell, in order, as many as the rounded-up quotient says, and reports no corruption |
| Freelist.PageStore.FreePage | sqlite-version-3.7.14.1/src/btree.c:5963-6100 | freePage2: the set of free pages gains exactly the page; it becomes a leaf of the first trunk while that has fewer than usableSize/4-8 leaves and otherwise the first trunk; the header counts trunks and leaves; other pages are untouched |
| Freelist.PageStore.ClearChain | sqlite-version-3.7.14.1/src/btree.c:6113-6182 | the loop of clearCell with freePage2: exactly the pages of the chain join the free list, though freeing overwrites pages, and all other pages in use keep their contents |
| Freelist.Closest | sqlite-version-3.7.14.1/src/btree.c:5816-5839 | the leaf chosen is at the least distance from the page asked for, in 32-bit arithmetic |
| Freelist.DistanceIs | sqlite-version-3.7.14.1/src/btree.c:5819-5829 | the 32-bit distance of two page numbers less than half the range apart is their difference |
| Freelist.PageStore.SearchTrunks | sqlite-version-3.7.14.1/src/btree.c:5674-5879 | the loop through the trunks removes exactly the page returned, which is the one searched for, and ends because a free page is on some trunk; pages in use keep their contents |
| Freelist.PageStore.TakeFree | sqlite-version-3.7.14.1/src/btree.c:5631-5879 | from a non-empty list exactly the page returned is removed and the header count drops by one; a search returns the page searched for; otherwise it is the first trunk when that lists no leaves, else its first leaf, or the leaf closest to the page given |
| Freelist.PageStore.PromoteLeaf | sqlite-version-3.7.14.1/src/btree.c:5765-5809 | when a trunk with leaves is taken, its first leaf becomes the trunk in its place and lists the others |
| Freelist.PageStore.Allocate | sqlite-version-3.7.14.1/src/btree.c:5606-5948 | allocateBtreePage: never corrupt; removes exactly the page returned, which is the one asked for when an exact search asks for a free page; with an empty list it extends the file to the next page that is neither the pending-byte page nor a pointer-map page; pages in use keep their contents |
| Freelist.NextPage | sqlite-version-3.7.14.1/src/btree.c:5885-5914 | the new last page is the next one that can hold data, and every page passed over cannot |
| FreeTrunks.FewerThan | sqlite-version-3.7.14.1/src/btree.c:5624-5630 | free pages are fewer than the pages of the file, so the first corruption test cannot fire |
| PageGraph.RenamedCorrect | sqlite-version-3.7.14.1/src/btree.c:3208-3291 | if the entries of the moved page and of the pages it refers to are rewritten, a correct map is correct for the graph with that page renamed, be it a root or not |
| Relocate.SetChildPtrmaps | sqlite-version-3.7.14.1/src/btree.c:3080-3119 | the entries of all pages that a page refers to name the page, and no other entry changes |
| Relocate.ModifyPagePointer | sqlite-version-3.7.14.1/src/btree.c:3135-3197 | the one pointer to the moved page is replaced, which renames it on the whole parent |
| Relocate.Store.RelocatePage | sqlite-version-3.7.14.1/src/btree.c:3208-3291 | relocatePage onto a page not in use: the page graph is the old one with the page renamed, and the map again gives type and unique parent of every live page; a root takes the entry of the root it replaces |
| Relocate.Store.GetOverflowPage | sqlite-version-3.7.14.1/src/btree.c:4286-4349 | the guess through the pointer map returns the page that the chain names if and only if the page guessed is live or its entry does not name the page asked about; it always does while every page not in use is marked as free |
| Relocate.StaleEntryMisleads | sqlite-version-3.7.14.1/src/btree.c:4307-4327 | between a relocation and the removal or marking of the vacated page, a moment at which no caller looks, its entry would make the guess return it |
| Relocate.RenamedMarked | sqlite-version-3.7.14.1/src/btree.c:3208-3291 | after a relocation the vacated page is the only one more whose entry is out of date |
| Relocate.Store.MarkFree | sqlite-version-3.7.14.1/src/btree.c:5963-6100 | marking the vacated page as free restores that every page not in use is marked |
| Relocate.Store.VacuumStep | sqlite-version-3.7.14.1/src/btree.c:3314-3434 | incrVacuumStep with nFin zero: the last page moves or was free and is cut off with the map and pending-byte pages before it; the map is correct, every page not in use is marked again and all pages in use lie in the file; DONE exactly when the last page can hold data and no page is free, corruption exactly when it is a root and some page is free |
| Relocate.Store.VacuumAll | sqlite-version-3.7.14.1/src/btree.c:3314-3434 | steps until there is nothing to do, whichever free page the allocator returns each time: every page left is in use, the page graph is the old one with pages renamed, no page is lost; or a root is last |
| Relocate.Store.CreateRoot | sqlite-version-3.7.14.1/src/btree.c:8364-8442 | btreeCreateTable: the page in the way moves, the new root takes its place and its entry, and map and marks are right again |
| Relocate.Store.DropRoot | sqlite-version-3.7.14.1/src/btree.c:8650-8695 | btreeDropTable: the largest root takes the place of the one dropped, the page left is freed, and map and marks are right again |
| Relocate.EntrySlots | sqlite-version-3.7.14.1/src/btree.c:864-914 | pointer-map entries lie on their page and do not overlap |
| PtrmapPages.ClosedForm | sqlite-version-3.7.14.1/src/btree.c:838-852 | pages that can hold data up to n are n less the map pages and the pending-byte page |
| PtrmapPages.BehindMap | sqlite-version-3.7.14.1/src/btree.c:838-852 | the two pages behind a pointer-map page are not pointer-map pages |
| AutoVacuum.Exact | sqlite-version-3.7.14.1/src/btree.c:3504-3511 | the closed formula reaches a page with exactly nFree fewer data pages up to it, also when the pending-byte page lies in a group or displaces its map page |
| AutoVacuum.RawExact | sqlite-version-3.7.14.1/src/btree.c:3504-3511 | the same for the formula in 32-bit arithmetic |
| AutoVacuum.FinalSize | sqlite-version-3.7.14.1/src/btree.c:3488-3518 | nFin is neither a map page nor the pending-byte page, at most nOrig, and the data pages up to it are those up to nOrig less nFree; corruption is reported exactly when nOrig is not a data page |
| VacuumCommit.RoomLeft | sqlite-version-3.7.14.1/src/btree.c:3381-3392 | while a live page lies behind the final size the free list holds a page in front of it, so the loop that allocates until it finds one ends |
| VacuumCommit.Step | sqlite-version-3.7.14.1/src/btree.c:3314-3434 | incrVacuumStep with nFin above zero: a live page behind nFin moves to a free page up to nFin, whichever the allocator returns; DONE exactly when the page can hold data and the free list is empty, corruption exactly when it is a root and the list is not; map, marks and the free pages up to nFin are right for the next page |
| VacuumCommit.AutoVacuumCommit | sqlite-version-3.7.14.1/src/btree.c:3478-3540 | autoVacuumCommit: the database ends at the final size with every page that can hold data in use, its page graph the old one with the pages behind that size renamed to pages in front; corruption is reported exactly when the last page cannot hold data or a root lies behind the final size |
| SharedLocks.Shortcut | sqlite-version-3.7.14.1/src/btree.c:271-283 | comparing lock modes decides exactly the full conflict test |
| SharedLocks.BeginInv | sqlite-version-3.7.14.1/src/btree.c:2920-3038 | beginning a transaction that passed the checks keeps all lock and transaction invariants |
| SharedLocks.LockInv | sqlite-version-3.7.14.1/src/btree.c:326-381 | adding or raising a table lock that is not blocked keeps all invariants |
| SharedLocks.EndedInv | sqlite-version-3.7.14.1/src/btree.c:398-465 | ending or downgrading a transaction keeps all invariants |
| SharedCache.BtShared.Query | sqlite-version-3.7.14.1/src/btree.c:237-303 | querySharedCacheTableLock refuses exactly the requests that conflict with a lock of another Btree or with an exclusive writer, and a refused writer raises the pending flag |
| SharedCache.BtShared.SetLock | sqlite-version-3.7.14.1/src/btree.c:326-381 | the first entry of the Btree for the table is raised, or a new entry is put in front; it fails exactly when a new entry is needed and there is no memory, and then nothing changes |
| SharedCache.BtShared.LockTable | sqlite-version-3.7.14.1/src/btree.c:9645-9664 | refused exactly when blocked, out of memory exactly when a new entry is needed and there is none, otherwise the Btree holds the lock; the pending flag is raised exactly by a refused write lock |
| SharedCache.BtShared.BeginTrans | sqlite-version-3.7.14.1/src/btree.c:2907-3072 | a transaction begins exactly when no writer conflicts, the pending flag is clear, for an exclusive one all locks are its own, and the pager agrees; an earlier refusal changes nothing, a later failure is returned with the transaction begun, and while the flag is set nothing can begin |
| SharedCache.BtShared.ClearLocks | sqlite-version-3.7.14.1/src/btree.c:398-446 | exactly the locks of the Btree disappear; flags are cleared when the writer ends or two transactions were open |
| SharedCache.BtShared.EndTransaction | sqlite-version-3.7.14.1/src/btree.c:3606-3643 | the transaction ends or becomes a read transaction with all invariants kept; the pending flag clears only when the writer concludes or one transaction is left |
| SharedRuns.WriterAlone | sqlite-version-3.7.14.1/src/btree.c:237-303 | in every reachable state no two Btrees write, and two Btrees lock the same table only for reading |
| SharedRuns.ExclusiveAlone | sqlite-version-3.7.14.1/src/btree.c:2920-3038 | in every reachable state an exclusive writer is the only Btree in a transaction |
| SharedRuns.ExclusiveShutsOut | sqlite-version-3.7.14.1/src/btree.c:2920-3038 | over any run, from a step that begins an exclusive transaction until a step ends it: its Btree writes, every other Btree is without a transaction, none of its requests to begin or lock is enabled, and its query of any lock is refused |
| SharedRuns.ExclusiveBegan | sqlite-version-3.7.14.1/src/btree.c:3026-3038 | conversely the exclusive flag tells that such a transaction is open |
| SharedRuns.TransHistory | sqlite-version-3.7.14.1/src/btree.c:2890-3038 | the transaction of every Btree is what its last beginning or ending step says |
| SharedRuns.TableLockExcludes | sqlite-version-3.7.14.1/src/btree.c:237-388 | from the step that grants a table lock until its transaction is closed the lock is held, and no other Btree gets a conflicting one; a write lock excludes all others until it is ended or downgraded |
| SharedRuns.LockHasReason | sqlite-version-3.7.14.1/src/btree.c:316-388 | every lock in the list was granted, or came with the beginning of a transaction that is still open |
| SharedRuns.Admitted | sqlite-version-3.7.14.1/src/btree.c:2920-2985 | nobody is refused without a reason: without a writer any Btree may begin to read, and when none is in a transaction any may begin to write, also exclusively |
| SharedRuns.NotStarved | sqlite-version-3.7.14.1/src/btree.c:285-296 | after a writer has been refused a lock no transaction begins while its own goes on and another Btree is in one |
| SharedRuns.StepInv | sqlite-version-3.7.14.1/src/btree.c:237-465 | opening, beginning, locking, a refused lock and ending keep all lock and transaction invariants |
| SharedRuns.MovedReachable | sqlite-version-3.7.14.1/src/btree.c:237-465 | every operation leads from reachable states to reachable states |
| SharedRuns.NoneEntersWhilePending | sqlite-version-3.7.14.1/src/btree.c:2936-2960 | over any run, from a refused writer on until the flag clears: no Btree begins or upgrades a transaction, the writer stays, and at most nTransaction - 2 transactions are closed |
| SharedRuns.FlagCleared | sqlite-version-3.7.14.1/src/btree.c:427-446 | the step that clears the flag is the end of the writer's transaction or leaves the writer as the only Btree in a transaction |
| BtMutex.StepInv | sqlite-version-3.7.14.1/src/btmutex.c:27-149 | every step of every connection keeps lock fields, mutex ownership and progress consistent |
| BtMutex.WantCounts | sqlite-version-3.7.14.1/src/btmutex.c:70-149 | wantToLock is the number of calls of sqlite3BtreeEnter less those of sqlite3BtreeLeave, over any run of any connections |
| BtMutex.LockedWhileEntered | sqlite-version-3.7.14.1/src/btmutex.c:70-149 | after any run a connection that is not in a call has a Btree locked, and holds its mutex, if and only if it was entered more often than left |
| BtMutex.CanStep | sqlite-version-3.7.14.1/src/btmutex.c:70-133 | a call in progress can go on unless it waits for a mutex that somebody holds |
| BtMutex.CallEnds | sqlite-version-3.7.14.1/src/btmutex.c:70-133 | a call returns after at most 2n + 2 steps of its own for a list of n Btrees |
| BtMutex.HoldsLower | sqlite-version-3.7.14.1/src/btmutex.c:70-133 | in every reachable state a connection that may block on a mutex holds only mutexes below it in the sorted list |
| BtMutex.NoSelfWait | sqlite-version-3.7.14.1/src/btmutex.c:70-133 | a connection never waits for a mutex that it holds itself |
| BtMutex.NoDeadlock | sqlite-version-3.7.14.1/src/btmutex.c:54-133 | no reachable state has a cycle of waiting connections, of any length |
| BtMutex.SomeoneMoves | sqlite-version-3.7.14.1/src/btmutex.c:54-133 | from every waiting connection the chain of holders leads to one that is not waiting |
| BtMutex.ReturnedLocked | sqlite-version-3.7.14.1/src/btmutex.c:70-211 | when sqlite3BtreeEnter has returned, exactly the Btrees with wantToLock > 0 are locked and BtShared.db names the connection, in whatever order EnterAll visits them |
| BtMutex.MutualExclusion | sqlite-version-3.7.14.1/src/btmutex.c:27-52 | two connections never have the same BtShared locked |
| BtMutex.LinkSharable | sqlite-version-3.7.14.1/src/btree.c:2181-2216 | a new Btree is linked so that the list stays strictly sorted and loses nothing |
| BackupGeometry.PageSizes | sqlite-version-3.7.14.1/src/backup.c:234-242 | any two powers of two from 512 to 65536 divide one another and the pending byte |
| Backup.BackupOnePage | sqlite-version-3.7.14.1/src/backup.c:234-315 | every byte of the source page outside the pending-byte pages is at the same offset of the destination, and nothing outside the page changes |
| Backup.DestPages | sqlite-version-3.7.14.1/src/backup.c:485-500 | the destination page count covers the source, or stops at the pending byte exactly when the source ends on the destination's pending-byte page; it is the pending-byte page exactly for equal page sizes and a source that ends there |
| Backup.WriteExtra | sqlite-version-3.7.14.1/src/backup.c:513-549 | the source pages behind the pending one that lie on the destination's pending-byte page are written to the file |
| Backup.CommitSize | sqlite-version-3.7.14.1/src/pager.c:6649-6655 | the commit leaves a file of the page count, except that a file of another size is not made to end with the pending-byte page |
| Backup.Finish | sqlite-version-3.7.14.1/src/backup.c:456-573 | after DONE the destination agrees with the source except on the source's pending-byte page and the rewritten header fields; its length is the source's if and only if not (the source ends with its pending-byte page and the source page is smaller, or of equal size with a plain destination file of another page count); then it ends at the pending byte; the header has the schema version that follows the destination's, format versions 2 in WAL mode and those of the source otherwise, and the pager's change counter with the version number |
| Backup.WriteHeader | sqlite-version-3.7.14.1/src/backup.c:451-469 | the end of a backup stores the schema version after the one the destination had when it was locked, the format versions of a WAL destination, the change counter and the number of the library version, and nothing else |
| Backup.SchemaChanged | sqlite-version-3.7.14.1/src/backup.c:385-395 | the schema version of a finished destination differs from the one it had before |
| Backup.RefusalIs | sqlite-version-3.7.14.1/src/backup.c:360-412 | a busy source comes first, then the code of the destination lock, that of the source lock and unsuitable page sizes; only codes other than BUSY and LOCKED are final |
| Backup.StepsAdd | sqlite-version-3.7.14.1/src/backup.c:419-436 | going a pages and then b pages is going a + b pages, and one page is one page |
| Backup.EndsAtPendingPage | sqlite-version-3.7.14.1/src/backup.c:487-553 | such a source, with any page sizes, ends one page longer than its copy |
| Backup.BackupObject.CopyPages | sqlite-version-3.7.14.1/src/backup.c:422-436 | while no error occurs every byte below the next page agrees with the destination outside the pending-byte pages, and the next page is nPage pages further or behind the last |
| Backup.BackupObject.Step | sqlite-version-3.7.14.1/src/backup.c:340-603 | the result is determined for every state: a busy source gives BUSY and a refused lock its code, which stay in the backup and change nothing else; otherwise, faults apart, the step attaches the backup, advances by nPage pages or to the end, keeps the agreement and reports OK, or DONE with a complete copy, of the source's length under the condition of Finish and always when the source does not end with its pending-byte page; nRemaining is the 32-bit difference |
| Backup.BackupObject.SourceWrite | sqlite-version-3.7.14.1/src/backup.c:692-720 | a reported write to the source keeps the agreement and, without faults, the state of the backup; pages not copied yet are not copied |
| Backup.BackupObject.Update | sqlite-version-3.7.14.1/src/backup.c:692-720 | sqlite3BackupUpdate copies a page again exactly when it was copied before, changes nothing else, and keeps the agreement |
| Backup.BackupObject.SourceTruncate | sqlite-version-3.7.14.1/src/backup.c:407-422 | a shorter source keeps the agreement |
| Backup.BackupObject.Restart | sqlite-version-3.7.14.1/src/backup.c:730-738 | after a restart nothing counts as copied, whatever the source has become |
| Backup.BackupObject.SourceGrow | sqlite-version-3.7.14.1/src/pager.c:4505-4515 | after growth by pages that are not written and so not reported every byte below the next page agrees with the copy, except bytes of pages not reported, which are accounted for; none is added exactly when the new bytes below the next page are those of the copy |
| Backup.GrowthSurvives | sqlite-version-3.7.14.1/src/pager.c:4505-4515 | the agreement survives every such growth if and only if the new pages are not below the next page or lie on the pending-byte page |
| Backup.UnreportedGrowth | sqlite-version-3.7.14.1/src/pager.c:4505-4515 | three copied pages cut to one and grown again: page 1 and the new trunk page 3 are written and reported, the free leaf 2 is not; the backup reports DONE and its page 2 differs from the source |
| Backup.Interleave | sqlite-version-3.7.14.1/src/backup.c:340-738 | from OK, BUSY or LOCKED, through any sequence of reported writes, cuts, reported or unreported growth, foreign changes and steps with refused or granted locks, then a step over all pages: the moments of the run are returned, each led to by its event from the one before; the run ends with the first step that leaves a final code, and DONE means a complete copy of the source as the events have made it; when locks are refused only for the time being it ends with DONE; the schema version of the destination then follows the one that it had at the start |
| Backup.Happen | sqlite-version-3.7.14.1/src/backup.c:340-738 | what one event does to source, position and code of a backup, and that an event that does not apply changes nothing |
| Backup.StepEnds | sqlite-version-3.7.14.1/src/backup.c:340-603 | only a step ends a backup: with DONE or with the code of a lock that is an error for good |
| ProbeTable.Probe | sqlite-version-3.7.14.1/src/bitvec.c:157-167 | probing ends at the value or at the first empty slot of its sequence; it ends because a slot is always empty |
| ProbeTable.Inserted | sqlite-version-3.7.14.1/src/bitvec.c:257-260 | a new value at the first empty slot keeps every value reachable |
| ProbeTable.Rebuild | sqlite-version-3.7.14.1/src/bitvec.c:289-308 | rebuilding without one value keeps exactly the others |
| BitArray.SetOne | sqlite-version-3.7.14.1/src/bitvec.c:201-205 | setting one bit of the bitmap changes no other |
| BitArray.ClearOne | sqlite-version-3.7.14.1/src/bitvec.c:283-286 | clearing one bit of the bitmap changes no other |
| BitvecModule.Bin | sqlite-version-3.7.14.1/src/bitvec.c:144-153 | sub-vector numbers are in range and sub-vectors are smaller than the whole |
| BitvecModule.Test | sqlite-version-3.7.14.1/src/bitvec.c:139-168 | Test is true exactly for members of the set, in all three forms |
| BitvecModule.Bitvec.SetBit | sqlite-version-3.7.14.1/src/bitvec.c:183-261 | in all three forms: adds exactly the number; out of memory only where memory is needed, and then nothing but the number can have been added |
| BitvecModule.Bitvec.Split | sqlite-version-3.7.14.1/src/bitvec.c:233-256 | the table is turned into sub-vectors that hold all former values and the new one, and with memory it succeeds |
| BitvecModule.Bitvec.ClearBit | sqlite-version-3.7.14.1/src/bitvec.c:269-310 | exactly the bit is removed |
| BitvecModule.Set | sqlite-version-3.7.14.1/src/bitvec.c:183-261 | adds exactly i; out of memory only where memory is needed, and then nothing but i can have been added |
| BitvecModule.Clear | sqlite-version-3.7.14.1/src/bitvec.c:269-310 | Clear removes exactly i |
| BitvecModule.Run | sqlite-version-3.7.14.1/src/bitvec.c:121-310 | any sequence of operations answers for its set; it succeeds with memory, and always for sizes up to 3968 |
| BucketRuns.StrHash | sqlite-version-3.7.14.1/src/hash.c:58-68 | the hash depends only on the folded key |
| BucketRuns.FoldIgnoresCase | sqlite-version-3.7.14.1/src/hash.c:58-69 | exactly the keys that differ at most in the case of letters are the same to the table |
| BucketRuns.RunsInsert | sqlite-version-3.7.14.1/src/hash.c:74-115 | inserting in front of a bucket's first element keeps every bucket a contiguous run of the list |
| BucketRuns.RunsRemove | sqlite-version-3.7.14.1/src/hash.c:202-239 | removing an element keeps every bucket a contiguous run of the list |
| HashTable.Hash.FindElement | sqlite-version-3.7.14.1/src/hash.c:167-197 | the element with the key, compared without case, is found in its bucket if and only if it is in the table |
| HashTable.Hash.Find | sqlite-version-3.7.14.1/src/hash.c:245-263 | Find returns the data of the key compared without case, or 0 |
| HashTable.Hash.InsertElement | sqlite-version-3.7.14.1/src/hash.c:74-115 | linking keeps the doubly linked list, the runs and the contents |
| HashTable.Hash.RemoveElement | sqlite-version-3.7.14.1/src/hash.c:202-239 | unlinking removes exactly the key; the bucket count stays unless the table is empty, which gives up its buckets |
| HashTable.Hash.Rehash | sqlite-version-3.7.14.1/src/hash.c:124-161 | redistribution over the buckets asked for and allocated keeps the map; it takes place exactly when the number changes and there is memory |
| HashTable.Hash.Insert | sqlite-version-3.7.14.1/src/hash.c:279-336 | adds, replaces or removes the folded key and returns the former data; without memory for a new element the new data comes back and nothing has changed, and otherwise it succeeds |
| HashTable.Run | sqlite-version-3.7.14.1/src/hash.c:245-336 | any sequence of calls, with whatever allocations fail, answers like the map |
| Stat3.PeriodBound | sqlite-version-3.7.14.1/src/analyze.c:282-282 | the period is such that a run of at most nRow rows crosses it at most mxSample/3 times |
| Stat3.MinIndex | sqlite-version-3.7.14.1/src/analyze.c:365-391 | the rescan finds the least preferred sample that is not periodic |
| Stat3.Stat3Accum.Push | sqlite-version-3.7.14.1/src/analyze.c:310-393 | a push keeps order, bound and preference of the samples, logs exactly the sample, and fills the array before anything is dropped |
| Stat3.SomeCommon | sqlite-version-3.7.14.1/src/analyze.c:365-374 | a full array holds a sample that is not periodic, so the rescan ends |
| Stat3.PushAll | sqlite-version-3.7.14.1/src/analyze.c:310-393 | for every run: the samples logged are those of the run's keys with their counts, periodic flags and random numbers, and the samples kept are the right choice of them: in order, all periodic ones, at most a third periodic, and none left out that is better than a kept one |
| Stat3.Analyze | sqlite-version-3.7.14.1/src/analyze.c:258-393 | the same from stat3Init on, for every index, seed and number of samples |
| Stat3.PrnInjective | sqlite-version-3.7.14.1/src/analyze.c:331-331 | the random numbers of the sampler repeat none before they come back to the first |
| Stat3.Divisions | sqlite-version-3.7.14.1/src/analyze.c:282-335 | period and periodic samples are those of the divisions in the source |
| Stat3.ThirdPeriodic | sqlite-version-3.7.14.1/src/analyze.c:282-282 | in every reachable state at most mxSample/3 samples are periodic |
| Stat3.PeriodicKept | sqlite-version-3.7.14.1/src/analyze.c:330-352 | in every reachable state every periodic sample seen is still there |
| Stat3.BestKept | sqlite-version-3.7.14.1/src/analyze.c:330-352 | in every reachable state a sample seen and not kept is not periodic and at most as good, by (nEq, hash), as each kept sample that is not periodic |

## Left out

- Pager, journal, WAL, file locks and synchronisation: pages are a map, and an error of the pager is an outcome.
- Behaviour on corrupt files beyond showing that the corruption branches cannot be taken on well-formed ones.
- Secure delete, codecs, direct overflow reads, reference counts and the freeing of memory.
- `sqlite3BtreeDelete`, `balance_deeper` and `balance_quick`; the cascade of `balance` is modelled from the first call of `balance_nonroot` up to the root.
- BalanceEntries.RunKeepsEntries: the entries below pages lower than the level reached; those on the path exchange cells with their siblings, the others are as before.
- The updates of the pointer map inside `balance_nonroot` and `insertCell`.
- `sqlite3BtreePrevious` and `sqlite3BtreeLast`: the mirror image of the forward scan.
- The early return of `sqlite3BtreeMovetoUnpacked` for a cursor that is already in place, and the limit of twenty pages on a cursor's stack.
- The comparison of index records and collations: keys are a strict total order.
- The rollback after a corrupt database is found in `autoVacuumCommit`: the pager restores the pages.
- Btrees that are not sharable, the read-uncommitted flag and unlock notification in the shared cache.
- The mutexes of database handles, whose order is the caller's duty.
- Busy or locked outcomes in the middle of the copy loop of a backup; several backups attached to one source.
- Backup.WriteHeader: the change counter is the one that the pager of the destination writes; how it counts is not modelled.
- `stat3_get` and the code generators of ANALYZE.
- Stat3.Stat3Accum.Push: at least one sample is asked for; the source reads outside its array otherwise.
- BalanceTree.Tree.BalanceNonroot: cells carry a key and an image, and pages are values; that the cells are those of the file format is `BalanceCells.BalancedStored`, and that they fit on real pages byte by byte is `PageSpace.MemPage.Assemble`.
- Closing a Btree of a shared cache: it stays among the Btrees without a transaction.
- Cursor.Insert: the leaf is taken to have room for the cell; an overfull leaf goes to `balance`.
- Payload.PageFile.ClearCell: the pages are collected in order; putting them on the free list is `Freelist.PageStore.ClearChain`, on pages of words.
- Freelist.PageStore.Allocate: whether the pointer map calls the page asked for free is a parameter that must agree with the list.
- Cursor.Scan: changes of the tree are arbitrary well-formed trees; only one cursor is modelled.
- BitvecModule.Bitvec.SetBit: the loop down to the responsible sub-vector is a recursion.
- BitvecModule.Bitvec.ClearBit: the loop down to the responsible sub-vector is a recursion.
- HashTable.Hash.Insert: keys contain no zero byte, since the comparison of the source stops there.
