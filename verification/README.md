# A verified model of SQLite's storage engine and full-text index

The project models parts of the SQLite copy under `misc/sqlite` in Dafny and proves what they promise.
`dafny verify dfyconfig.toml` checks it. Each component is a module of its own:

- **Sibling rebalancing** (`Packing`, `Balance`): the two passes that pack cells on pages, and one whole
  balancing step on pages, dividers and parent.
- **A page's own allocator** (`PageLayout`, `PageAlloc`, `MemPage`): cells, freeblocks chained through
  the page's bytes, fragments, gap and defragmentation. From outside a page is a sequence of cells.
- **Overflow chains** (`Overflow`), **cursors** (`Cursor`, `CursorSearch`), **transactions and table
  locks** (`Trans`).
- **Freelist, pointer map, auto-vacuum** (`BtState`, `PtrMap`, `Freelist`, `Relocate`, `AutoVacuum`): up
  to the theorem about a whole auto-vacuum at commit, `AutoVacuum.AutoVacuumCommit`.
- **The btree mutex protocol** (`BtMutex`): interleaved steps of any number of connections.
- **The boolean expression compiler** (`Vdbe`, `ExprCode`, `ExprProof`, `ExprCoder`, `ExprMeaning`): the code
  emitted, run on a model of the virtual machine, against three-valued logic and the order of numbers.
- **Full-text search** (`Varint`, `DocList`, `DocMerge`, `PhraseMerge`, `DocUpdate`, `DocTrim`, `FtsIndex`,
  `FtsTable`, `FtsQuery`): from bytes to queries over rows.
- **Bitvec** (`Bitvec`), the **full-text hash table** (`FtsHash`), **Julian days** (`Calendar`).
- `Arithmetic` holds what several of them use.

Operations that change things in place are classes or methods with `modifies`; what they compute is
stated through functions or directly, and the laws about those functions are lemmas.

## Where the code does less than it promises

- **Exact page requests** (`btree.c:4072-4112`). A search of the freelist for one page also looks at the
  first leaf slot of trunks without leaves. If a stale word there is the number wanted, and is met before
  the page itself, the trunk's leaf count becomes 2^32-1 and the freelist is lost. `TakeFree` is right if
  and only if the page is met first (`RealFirst`); `StaleWordExample` is a list where it is not.
- **The first of March 300** (`date.c:352-353`). A quotient of exactly -1 is left as it is while its
  neighbours are rounded towards zero, so this one date is given back as the 29th of February 300.
  `Calendar.RoundTrip` proves that it is the only one from year 0 on.
- **Records on pages that are not intkey** (`btree.c:4350-4358`, `btree.c:4414-4429`). Behind a key the data
  is copied again instead of the zeros asked for; behind an empty key zeros are stored instead of the data.
  `Overflow.KeyedRecord` says exactly when that makes no difference, `KeyedExample` has an input for each.
- **Fractions as truth values** (`vdbe.c:1725-1812`). AND, OR and NOT of values round towards zero first,
  conditional jumps do not: `NOT 0.5` is true as a value and false as a condition. `FractionsDecide` and
  `ConditionMatchesValue` say exactly when the two agree.
- **The last half millisecond of a day** (`date.c:373-375`). Rounding makes 23:59:59.9995 and later
  24:00:00 of the same date. `Calendar.DateTime.ThereAndBack` says exactly when the hour is 24.
- **Recorded page sizes** (`btree.c:5104-5118`). They are two bytes too large on every page but the last;
  `AdjustPack` is proved to fit all the same.
- **Page 1 and the pointer map** (`btree.c:402-412`). The unsigned subtraction wraps for page 1, which
  is harmless for every page size without reserved bytes, but not for every number of usable bytes.

## Model

| member | source | states |
|---|---|---|
| `Packing.GreedyPack` | misc/sqlite/btree.c:5104-5118 | the left-to-right pass fills each page as far as it goes: every page fits, no page but the last could take the next cell, and the recorded sizes are right but for two bytes too many on every page except the last |
| `Packing.GreedyReachesFurther` | misc/sqlite/btree.c:5104-5118 | page by page, the left-to-right pass has placed at least as many cells as any other in-order packing |
| `Packing.GreedyUsesFewestPages` | misc/sqlite/btree.c:5104-5118 | no in-order packing of the same cells uses fewer pages |
| `Packing.LeftPackedPagesNonEmpty` | misc/sqlite/btree.c:5104-5118 | before the second pass every page but the last has a cell, and two where a divider is taken out |
| `Packing.LeftPackedDense` | misc/sqlite/btree.c:5104-5118 | where dividers are taken out, every page but the last takes more than a page together with its divider |
| `Packing.ShiftBoundary` | misc/sqlite/btree.c:5140-5146 | the boundary moves left to the first place where the right page has something and one more cell would make it the larger; both still fit and neither is empty |
| `Packing.AdjustPack` | misc/sqlite/btree.c:5130-5149 | after the right-to-left pass the same number of pages hold all cells in order, every page fits and none is empty, and every boundary is where ShiftBoundary puts it |
| `Balance.LoadPage` | misc/sqlite/btree.c:5025-5044 | the cells of one old sibling are appended, with their sizes |
| `Balance.LowerDivider` | misc/sqlite/btree.c:5045-5088 | the parent cell between two siblings becomes a cell of their level, with the size it has there |
| `Balance.SizeWhenLowered` | misc/sqlite/btree.c:5066-5082 | an index cell that goes down to a leaf loses its child pointer, but takes at least four bytes |
| `Balance.Gather` | misc/sqlite/btree.c:5021-5090 | apCell is the cells of the siblings and their dividers in key order, szCell their sizes |
| `Balance.Plan` | misc/sqlite/btree.c:5021-5149 | boundaries under which every page fits and none is empty, with as few pages as any in-order packing needs, and exactly those both passes lead to |
| `Balance.RaiseDivider` | misc/sqlite/btree.c:5273-5318 | the cell that goes up between two new pages, its child pointer and its size in the parent |
| `Balance.Distribute` | misc/sqlite/btree.c:5239-5337 | each new page gets its stretch of cells and its right pointer, each gap its divider |
| `Balance.DealtGathers` | misc/sqlite/btree.c:5239-5337 | reading the new pages and dividers left to right gives back exactly the cells that were collected |
| `Balance.DealtPreserves` | misc/sqlite/btree.c:5239-5337 | the cells come back in order, the last right pointer is kept, every page fits and none is empty |
| `Balance.DealtTable` | misc/sqlite/btree.c:5284-5297 | in a table each new divider is the last key of the page to its left, in the form fillInCell gives that key |
| `Balance.DealtOrdered` | misc/sqlite/btree.c:5284-5297 | ascending cells dealt out, with each divider repeating the last key to its left, are an ordered table |
| `Balance.TableKept` | misc/sqlite/btree.c:4931-5351 | balancing table leaves keeps every divider between the keys on its two sides, in the window and around it |
| `Balance.PagesPack` | misc/sqlite/btree.c:5104-5118 | pages that fit are one in-order packing of what they hold, of any kind |
| `Balance.SplitPacks` | misc/sqlite/btree.c:5104-5118 | pages that fit but for one cell can be packed with one page more, two in a table |
| `Balance.CellsAreSmall` | misc/sqlite/btree.c:1725 | with the default embedding fraction a cell without data beside its key takes less than two sevenths of a page |
| `Balance.PageCountBound` | misc/sqlite/btree.c:4840-4844 | siblings that fit need no further page; with one cell that did not go on its page they need one more, two in a table, so arrays of NB+2 entries suffice |
| `Balance.OverfullBound` | misc/sqlite/btree.c:4840-4844 | index leaves and interior pages need at most NB+2 pages even with all five overflow cells a page can carry |
| `Balance.SiblingWindow` | misc/sqlite/btree.c:4931-4957 | the children chosen are neighbours, include the page to be balanced and the one on each side of it, and are NB of them unless the parent has fewer |
| `Balance.SortPageNumbers` | misc/sqlite/btree.c:5205-5224 | the page numbers of the new siblings are put in ascending order, none lost or repeated |
| `Balance.NumberPages` | misc/sqlite/btree.c:5157-5224 | the new siblings get ascending page numbers: exactly the old ones as far as needed, and newly allocated ones for the pages beyond |
| `Balance.NumbersReused` | misc/sqlite/btree.c:5162-5178 | every old number is used again as far as there are pages, and every other one is newly allocated |
| `Balance.SpliceParent` | misc/sqlite/btree.c:5239-5351 | old dividers leave the parent, new ones take their place, and the pointer behind the last one is set |
| `Balance.SplicedChildren` | misc/sqlite/btree.c:5339-5351 | the parent's children are the old ones with the siblings replaced by the new pages |
| `Balance.RebuildSiblings` | misc/sqlite/btree.c:5021-5337 | the whole of the siblings' content, rebuilt: same cells in order, same last pointer, fitting non-empty pages, as few as possible and ending where both passes lead, dividers that repeat the last key in a table, the right numbers |
| `Balance.StoreAndSplice` | misc/sqlite/btree.c:5239-5351 | the new pages are stored and the parent points to them; siblings no longer needed are gone and no other page comes, goes or changes |
| `Balance.BalancedTree` | misc/sqlite/btree.c:5239-5351 | storing and splicing keep the in-order content and the children outside the window |
| `Balance.SameLevel` | misc/sqlite/btree.c:5239-5351 | levels that collect to the same cells hold the same keys and contents in order, and the same child pages in order |
| `Balance.LastRight` | misc/sqlite/btree.c:5341-5343 | the right-most pointer of the last child, which no cell carries, is kept |
| `Balance.BalanceWindow` | misc/sqlite/btree.c:4931-5351 | one balancing of a window of siblings: same keys and contents and same grandchildren in order, a table stays ordered, same other pages and dividers, fitting non-empty siblings, as few as possible, numbers reused |
| `Balance.BalanceSiblings` | misc/sqlite/btree.c:4931-5351 | balance_nonroot around any child: keys, contents and all grandchildren below the parent are unchanged in order, a table stays ordered by its dividers, the rebuilt pages fit, are not empty and as few as possible, never more than NB+2 for one cell too many, or five where cells are small; the other pages and dividers are untouched |
| `PageLayout.FragmentsAreTheRest` | misc/sqlite/btreeInt.h:142-149 | the fragment count is exactly the number of bytes of the content area that no cell and no freeblock covers |
| `PageLayout.TakeWhole` | misc/sqlite/btree.c:761-764 | a freeblock used whole leaves the rest of the page divided up as before, its surplus counted as fragment |
| `PageLayout.TakeTail` | misc/sqlite/btree.c:765-768 | a freeblock that gives its tail stays a freeblock, apart from the new region |
| `PageLayout.FreeCell` | misc/sqlite/btree.c:815-828 | a freed cell takes its place among the freeblocks without overlapping cell or freeblock |
| `PageLayout.MergeBlocks` | misc/sqlite/btree.c:830-847 | joining freeblocks less than four bytes apart swallows only fragment bytes, never more than are counted |
| `PageLayout.PopTop` | misc/sqlite/btree.c:849-856 | a freeblock at the start of the content area becomes part of the gap |
| `MemPages.MemPage.constructor` | misc/sqlite/btree.c:977-1002 | zeroPage: a page without cells, all of it free |
| `MemPages.MemPage.UseBlock` | misc/sqlite/btree.c:758-770 | space from a freeblock: the chain in the page bytes, the layout and the free-byte count stay right, no cell byte changes |
| `MemPages.MemPage.FindBlock` | misc/sqlite/btree.c:753-771 | the first freeblock of the chain that is big enough, if there is one |
| `MemPages.MemPage.Defragment` | misc/sqlite/btree.c:675-722 | all cells keep their bytes and order, freeblocks and fragments vanish into the gap, the number of free bytes is the same |
| `MemPages.MemPage.AllocateSpace` | misc/sqlite/btree.c:735-788 | a region of its own for the request whenever the page has that many free bytes, else 0; no cell is lost, moved out of order or changed |
| `MemPages.MemPage.ChainIn` | misc/sqlite/btree.c:815-828 | the freed region is linked into the chain in address order |
| `MemPages.MemPage.Coalesce` | misc/sqlite/btree.c:830-847 | afterwards all freeblocks are at least four bytes apart and the free bytes are the same |
| `MemPages.MemPage.FreeSpace` | misc/sqlite/btree.c:798-857 | exactly the region freed becomes free, the remaining cells keep their bytes |
| `MemPages.MemPage.DropCell` | misc/sqlite/btree.c:4510-4533 | the page is the sequence of cells without the dropped one, and its free bytes grow by the cell and its pointer |
| `MemPages.MemPage.InsertCell` | misc/sqlite/btree.c:4552-4613 | the cell becomes number i of all cells, on the page exactly when cell and pointer fit and no cell waits beside it, else beside it |
| `MemPages.MemPage.PutCell` | misc/sqlite/btree.c:4586-4613 | the page is the sequence of cells with the new one at its place |
| `MemPages.MemPage.FindOverflowCell` | misc/sqlite/btree.c:513-529 | cell i of all cells, those beside the page included |
| `MemPages.MemPage.InitPage` | misc/sqlite/btree.c:935-967 | what sqlite3BtreeInitPage adds up is the nFree the page carries; it never finds too many cells or a bad chain, and rejects only an empty child of a page other than page 1 |
| `Overflow.LocalBounds` | misc/sqlite/btree.c:570-606 | local payload stays between minLocal and maxLocal, and a surplus is kept local only if that fills every overflow page |
| `Overflow.LocalIsLeast` | misc/sqlite/btree.c:592-603 | if some number of local bytes within the bounds fills every overflow page, the least such number stays local, else minLocal |
| `Overflow.FewestOverflowPages` | misc/sqlite/btree.c:583-590 | a payload that fits is wholly local; no number of local bytes within the bounds needs fewer overflow pages |
| `Overflow.DefaultBounds` | misc/sqlite/btree.c:1725-1728 | the bounds that follow from the default fractions are in order and less than an overflow page apart |
| `Overflow.ChainLength` | misc/sqlite/btree.c:4279-4281 | a chain holding n bytes has exactly ceil(n/(usableSize-4)) pages |
| `Overflow.IntKeyRecord` | misc/sqlite/btree.c:4340-4433 | on intkey pages the bytes stored are the data followed by the zeros asked for |
| `Overflow.KeyedRecord` | misc/sqlite/btree.c:4350-4429 | on a page that is not intkey the stored bytes are key, data and zeros if and only if the data begins with that many zeros, since it is copied again instead of zeros; with an empty key, which makes the code copy no data at all, if and only if all of it is zero |
| `Overflow.KeyedExample` | misc/sqlite/btree.c:4350-4429 | a record with a key and one with an empty key that are stored wrong |
| `Overflow.RecordStored` | misc/sqlite/btree.c:4340-4433 | what is stored is the record asked for if and only if the page is intkey or the condition of KeyedRecord holds |
| `Overflow.NextChunk` | misc/sqlite/btree.c:4412-4429 | the next bytes of the payload, as many as fit |
| `Overflow.WriteOverflow` | misc/sqlite/btree.c:4364-4425 | bytes go to the last page of the chain or to a new page linked behind it |
| `Overflow.FillInCell` | misc/sqlite/btree.c:4309-4433 | the first nLocal bytes stay in the cell, the others are in a chain of the allocated pages, of exactly the computed length; no other page changes |
| `Overflow.ReadPayload` | misc/sqlite/btree.c:3074-3206 | any range within the payload is read exactly as stored, any range beyond it is an error, with and without the page cache, which stays right |
| `Overflow.ReadChain` | misc/sqlite/btree.c:3122-3199 | bytes across any number of overflow pages, starting at a cached page or at the first |
| `Overflow.ClearCell` | misc/sqlite/btree.c:4265-4297 | the pages given up are the pages of the chain, each once and in order |
| `Overflow.StoreAndRead` | misc/sqlite/btree.c:3074-3206 | a record stored by fillInCell, on an intkey page or not, is read back by accessPayload at every offset, with and without the cache, and again with what the cache then holds; the whole of it if and only if it is storable |
| `Freelist.FreePage` | misc/sqlite/btree.c:4166-4260 | freePage adds exactly its page, as last leaf of the first trunk or, if that is full, as first trunk; the list stays well formed, each page once, and the count is the number of pages |
| `Freelist.Closest` | misc/sqlite/btree.c:4081-4096 | the first of the leaves nearest to the page wanted |
| `Freelist.ClosestIsNearest` | misc/sqlite/btree.c:4081-4096 | its distance is the least among the leaves of the first trunk, and less than that of any leaf before it |
| `Freelist.TakeTrunk` | misc/sqlite/btree.c:4003-4070 | a trunk page leaves the list, with or without leaves, and nothing else does |
| `Freelist.TakeLeaf` | misc/sqlite/btree.c:4098-4112 | one leaf leaves its trunk and nothing else does |
| `Freelist.TakeFree` | misc/sqlite/btree.c:3954-4132 | exactly one page leaves the list: the wanted one if the pointer map says it is free, else the nearest leaf of the first trunk, or that trunk; a stale word met first spoils the list instead |
| `Freelist.SpoiledIsNoList` | misc/sqlite/btree.c:4072-4112 | after such a hit no chain of trunks at all can be read from page 1 |
| `Freelist.StaleWordExample` | misc/sqlite/btree.c:4072-4112 | a sound list on which an exact request goes wrong |
| `Freelist.NextPage` | misc/sqlite/btree.c:4133-4155 | the next page behind the end that is neither the pending-byte page nor a pointer-map page |
| `Freelist.AllocatePage` | misc/sqlite/btree.c:3938-4163 | a member of the list if it is not empty, the wanted one for an exact request and else the nearest leaf of the first trunk; with an empty list the next usable page of the file |
| `PtrMap.MapPages` | misc/sqlite/btree.c:402-412 | pointer-map pages are page 2 and every usableSize/5+1 pages further on; page 1 never is one |
| `PtrMap.PageOneWraps` | misc/sqlite/btree.c:402-412 | page 1 would count as a map page exactly for page sizes whose group size divides 2^32-1 |
| `PtrMap.EntriesApart` | misc/sqlite/btreeInt.h:531-546 | entries of different pages never overlap and lie inside their map page |
| `PtrMap.DataPagesClosed` | misc/sqlite/btree.c:402-412 | how many of the first k pages are not map pages |
| `PtrMap.FinalSize` | misc/sqlite/btree.c:2303-2321 | nFin is no map page and leaves exactly as many data pages as there are pages in use |
| `Relocate.RenamedRefers` | misc/sqlite/btree.c:2021-2067 | references read from a renamed page are the old ones with the page renamed |
| `Relocate.PtrmapPut` | misc/sqlite/btree.c:421-455 | the entry of a page is replaced |
| `Relocate.SetChildPtrmaps` | misc/sqlite/btree.c:1966-2004 | the entries of all children and overflow pages of a page now name it, and no other entry changes |
| `Relocate.ModifyPagePointer` | misc/sqlite/btree.c:2021-2067 | succeeds exactly if the page refers to the old number, and then every such reference is to the new one |
| `Relocate.RelocationExact` | misc/sqlite/btree.c:2070-2144 | a pointer map that is the exact inverse of the references is so again after a page is renamed |
| `Relocate.RelocatePage` | misc/sqlite/btree.c:2070-2144 | the pages are the old ones with the moved page renamed, and the pointer map is again their exact inverse |
| `AutoVacuum.StartsBalanced` | misc/sqlite/btree.c:2303-2321 | at nFin there are as many free pages below as pages in use above |
| `AutoVacuum.MoveBalances` | misc/sqlite/btree.c:2217-2242 | a move takes one page from above and one free page from below |
| `AutoVacuum.IsoMove` | misc/sqlite/btree.c:2070-2144 | a move keeps the database the same up to page numbers |
| `AutoVacuum.StepBack` | misc/sqlite/btree.c:2246-2249 | the next smaller page that is not a map page |
| `AutoVacuum.FindFree` | misc/sqlite/btree.c:2217-2233 | a free page at or below nFin is always found |
| `AutoVacuum.MoveLast` | misc/sqlite/btree.c:2208-2243 | the last page in use moves to a free page further down, references and pointer map following |
| `AutoVacuum.GiveUpFree` | misc/sqlite/btree.c:2192-2208 | a free last page is given up, and taken off the list when no final size is set |
| `AutoVacuum.IncrVacuumStep` | misc/sqlite/btree.c:2164-2251 | one step makes the file shorter by its last page and keeps everything in place; done exactly if nothing is free or the size is reached, corrupt exactly if the last page is a root |
| `AutoVacuum.CommitSize` | misc/sqlite/btree.c:2297-2321 | the size computed from the counts balances free pages below against pages in use above |
| `AutoVacuum.MoveAll` | misc/sqlite/btree.c:2323-2325 | the steps end, with the database the same up to page numbers and nothing at or below nFin moved |
| `AutoVacuum.AutoVacuumCommit` | misc/sqlite/btree.c:2287-2347 | succeeds if and only if no root lies beyond nFin; then the pages in use are exactly the data pages up to nFin, the same database under other numbers, pointer map exact, freelist empty |
| `AutoVacuum.NewFile` | misc/sqlite/btree.c:1799-1830 | a new file meets what every step requires |
| `Cursors.PathWhole` | misc/sqlite/btree.c:3348-3370 | a subtree and what lies to its sides are the entries of the whole tree, in order |
| `Cursors.Cursor.AtEntry` | misc/sqlite/btree.c:3348-3370 | the cell a cursor is at is the entry right after those to its left |
| `Cursors.Cursor.MoveToChild` | misc/sqlite/btree.c:3348-3370 | the cursor is before the first entry of the child |
| `Cursors.Cursor.MoveToLeftmost` | misc/sqlite/btree.c:3477-3490 | the cursor is at the first entry below its cell |
| `Cursors.Cursor.MoveToRightmost` | misc/sqlite/btree.c:3502-3520 | the cursor is at the last entry below its page |
| `Cursors.Cursor.MoveToParent` | misc/sqlite/btree.c:3400-3420 | the cursor is right behind the child it comes from |
| `Cursors.Cursor.First` | misc/sqlite/btree.c:3526-3544 | the first entry, or none exactly if the tree is empty |
| `Cursors.Cursor.ToLast` | misc/sqlite/btree.c:3550-3569 | the last entry, or none exactly if the tree is empty |
| `Cursors.Cursor.Forward` | misc/sqlite/btree.c:3794-3853 | one entry further on from any cell, across any number of levels, or the end |
| `Cursors.Cursor.Next` | misc/sqlite/btree.c:3794-3853 | the entry right after the current one, and no more exactly at the last |
| `Cursors.Cursor.Backward` | misc/sqlite/btree.c:3862-3915 | the entry before from any cell, or the end |
| `Cursors.Cursor.Previous` | misc/sqlite/btree.c:3862-3915 | the entry right before the current one, and no more exactly at the first |
| `Cursors.Scan` | misc/sqlite/btree.c:3794-3853 | First and then Next visits every entry exactly once, in order |
| `Cursors.ThereAndBack` | misc/sqlite/btree.c:3862-3915 | Previous undoes Next |
| `CursorSearch.EntriesIncreasing` | misc/sqlite/btree.c:3599-3762 | the entries of an ordered tree strictly increase |
| `CursorSearch.SearchPage` | misc/sqlite/btree.c:3658-3733 | the binary search ends on the key or right beside the place it would have, with the sign of the last comparison |
| `CursorSearch.MoveTo` | misc/sqlite/btree.c:3599-3762 | the cursor ends on the key or on its immediate neighbour in the order of the whole tree, *pRes telling the side, in index and LEAFDATA trees, biased or not; in an empty tree it is invalid and *pRes is -1 |
| `CursorSearch.FoundIff` | misc/sqlite/btree.c:3599-3762 | *pRes is 0 exactly if the key is in the tree |
| `Transactions.LockTableKeeps` | misc/sqlite/btree.c:95-213 | a lock granted never conflicts with one of another handle, nor breaks exclusivity |
| `Transactions.LockTableGrants` | misc/sqlite/btree.c:95-213 | a lock is granted exactly if no other handle is exclusive and none has a lock on the table, read locks for a reader aside; then it is held, every other lock stays, and a refusal changes nothing |
| `Transactions.BeginKeeps` | misc/sqlite/btree.c:1867-1957 | beginning a transaction keeps the counts, the single writer and exclusivity |
| `Transactions.BeginGrants` | misc/sqlite/btree.c:1867-1957 | a transaction begins exactly if nobody else writes, the file may be written and, for an exclusive one, nobody else has a lock; then only the state of the handle changes, and a refusal changes nothing |
| `Transactions.TouchChangesNothing` | misc/sqlite/btree.c:1746-1762 | lockBtreeWithRetry leaves the state as it was |
| `Transactions.CommitKeeps` | misc/sqlite/btree.c:2413-2458 | committing keeps the invariant |
| `Transactions.CommitEnds` | misc/sqlite/btree.c:2413-2458 | a commit leaves the handle in no transaction, without locks and exclusivity, and everything of the others as it was; it fails exactly for a writer whose pager fails, and then changes nothing |
| `Transactions.RollbackKeeps` | misc/sqlite/btree.c:2532-2593 | rolling back keeps the invariant |
| `Transactions.RollbackEnds` | misc/sqlite/btree.c:2532-2593 | so does a rollback, which never fails |
| `Transactions.CloseKeeps` | misc/sqlite/btree.c:1406-1457 | closing keeps the invariant and leaves no lock, transaction or exclusivity behind |
| `Transactions.Reachable` | misc/sqlite/btreeInt.h:585-590 | in every state reached by any opening, closing and other calls of any number of handles, with read_uncommitted switched at will, nTransaction counts the handles in a transaction, inTransaction is the highest of their states, at most one writes, no two locks conflict, and an exclusive handle holds every lock |
| `Transactions.Shared.QueryTableLock` | misc/sqlite/btree.c:95-141 | a lock may be had exactly under the rules for exclusivity, read-uncommitted and conflicting locks |
| `Transactions.Shared.LockTableFor` | misc/sqlite/btree.c:153-213 | the lock list with the lock added or strengthened |
| `Transactions.Shared.BeginTrans` | misc/sqlite/btree.c:1867-1957 | the state and result of the step, invariant kept |
| `Transactions.Shared.UnlockAllTables` | misc/sqlite/btree.c:221-242 | the handle's locks and its exclusivity are gone, the others stay |
| `Transactions.Shared.CommitPhaseTwo` | misc/sqlite/btree.c:2413-2458 | the state and result of the step, invariant kept |
| `Transactions.Shared.RollbackTrans` | misc/sqlite/btree.c:2532-2593 | the state of the step, invariant kept |
| `Transactions.Shared.CloseHandle` | misc/sqlite/btree.c:1406-1457 | the state of the step, invariant kept |
| `BtMutex.LocalInvKept` | misc/sqlite/btmutex.c:40-202 | what each program point knows about locked and wantToLock survives every step of the connection |
| `BtMutex.NextInv` | misc/sqlite/btmutex.c:40-202 | every step of any connection keeps the invariant of all |
| `BtMutex.RunInv` | misc/sqlite/btmutex.c:40-202 | it holds throughout every interleaved run |
| `BtMutex.HoldsOnlySmaller` | misc/sqlite/btmutex.c:64-88 | a connection that waits for a mutex holds only mutexes at smaller addresses |
| `BtMutex.NoWaitCycle` | misc/sqlite/btmutex.c:24-38 | no cycle of connections waiting for one another is reachable |
| `BtMutex.SomeOwnerRuns` | misc/sqlite/btmutex.c:24-38 | from any waiting connection some connection it waits for, directly or not, is not waiting |
| `BtMutex.BetweenCalls` | misc/sqlite/btmutex.c:40-112 | between calls a handle is locked exactly if wantToLock is positive |
| `BtMutex.EnterLocks` | misc/sqlite/btmutex.c:40-97 | over any run, sqlite3BtreeEnter returns with its handle locked and wanted once more, the mutex owned, and every other handle as it was |
| `BtMutex.LeaveUnlocks` | misc/sqlite/btmutex.c:102-112 | sqlite3BtreeLeave counts its handle once less and gives its mutex back exactly at the last time, every other handle as it was |
| `BtMutex.EnterLeave` | misc/sqlite/btmutex.c:40-112 | Enter and a later Leave of the same handle restore wantToLock and locked of every handle |
| `BtMutex.EnterAllReturns` | misc/sqlite/btmutex.c:159-184 | EnterAll leaves every handle locked, wanted once more than before |
| `BtMutex.LeaveAllReturns` | misc/sqlite/btmutex.c:186-202 | the last step of LeaveAll leaves every handle counted once less, locked exactly if still wanted |
| `BtMutex.EnterAllLocks` | misc/sqlite/btmutex.c:159-184 | over any run with other connections interleaved, EnterAll returns with every handle locked and wanted once more |
| `BtMutex.EnterAllLeaveAll` | misc/sqlite/btmutex.c:159-202 | over any run, EnterAll and a later LeaveAll restore wantToLock and locked of every handle, whatever other connections do meanwhile |
| `BtMutex.MutexArrayInsert` | misc/sqlite/btmutex.c:241-269 | the array stays sorted by address without duplicates, with the new handle in it |
| `Vdbe.RunInner` | misc/sqlite/vdbe.c:1631-1850 | running a stretch of code inside a larger one is running the stretch and then the rest |
| `ExprProof.SameOn` | misc/sqlite/expr.c:2171-2720 | an expression means the same under registers that agree where it looks |
| `ExprProof.TargetOk` | misc/sqlite/expr.c:2171-2720 | the code of sqlite3ExprCodeTarget leaves the value of the expression in the register it returns and touches no other register in use |
| `ExprProof.NullTestOk` | misc/sqlite/expr.c:2384-2398 | ISNULL and NOTNULL as values |
| `ExprProof.BetweenOk` | misc/sqlite/expr.c:2539-2562 | BETWEEN as a value |
| `ExprProof.CaseOk` | misc/sqlite/expr.c:2589-2646 | CASE takes the first WHEN that holds, with and without operand, else ELSE or NULL |
| `ExprProof.IfTrueOk` | misc/sqlite/expr.c:2893-3011 | the code of sqlite3ExprIfTrue jumps exactly if the expression is true, or is NULL with jumpIfNull set |
| `ExprProof.IfFalseOk` | misc/sqlite/expr.c:3022-3162 | the code of sqlite3ExprIfFalse jumps exactly if the expression is false, or is NULL with jumpIfNull set |
| `ExprProof.OppositeNegates` | misc/sqlite/expr.c:3032-3050 | the opcode chosen for a jump on false is the exact complement, NULL aside |
| `ExprProof.BetweenOperand` | misc/sqlite/expr.c:2969-2999 | the AND that BETWEEN is rewritten to means the same once the operand is in its register |
| `ExprProof.JumpFresh` | misc/sqlite/expr.c:2893-3162 | generated code resolves only labels of its own, each once |
| `ExprProof.LabelsExist` | misc/sqlite/expr.c:2893-3162 | addresses for all labels always exist |
| `ExprProof.ConditionCode` | misc/sqlite/expr.c:2893-3162 | for every source expression, row and comparison, jump code leaves at the target or at its end as three-valued logic demands |
| `ExprProof.ConditionMatchesValue` | misc/sqlite/expr.c:2893-3011 | an expression and all its logical operands mean the same as conditions and as values if and only if no fraction between -1 and 1 among the operands decides anything |
| `ExprProof.NotMatches` | misc/sqlite/vdbe.c:1761-1767 | NOT of an operand that means the same both ways does so exactly if the operand is no such fraction |
| `ExprProof.AndMatches` | misc/sqlite/vdbe.c:1725-1753 | AND does exactly if neither operand is such a fraction or one of them is zero |
| `ExprProof.OrMatches` | misc/sqlite/vdbe.c:1725-1753 | OR does exactly if neither operand is such a fraction or one of them truncates to true |
| `ExprProof.FractionsDecide` | misc/sqlite/vdbe.c:1725-1812 | as a condition the formula reads every fraction as true, as a value every fraction as false; so any AND, OR or NOT means the same both ways exactly if its formula does not depend on that reading |
| `ExprProof.FractionExample` | misc/sqlite/vdbe.c:1761-1812 | NOT 0.5 is true as a value and false as a condition, and (NOT 0.5) AND 0 is false as both |
| `ExprMeaning.Means` | misc/sqlite/expr.c:2171-2720 | the values and truths that the code is proved to compute are those of SQL: AND the smaller of false, NULL and true, OR the larger, NOT the opposite, comparisons those of numbers, CASE the first WHEN that holds |
| `ExprMeaning.ConditionMeans` | misc/sqlite/expr.c:2893-3162 | for every source expression and row over numbers, jump code goes to the target exactly if that truth is true, or false for IfFalse, or NULL with jumpIfNull set |
| `ExprMeaning.TargetMeans` | misc/sqlite/expr.c:2171-2720 | value code leaves that value in the register returned |
| `ExprMeaning.ComparisonsMean` | misc/sqlite/vdbe.c:1686-1694 | the code of IfTrue for each of the six comparisons of two numbers jumps exactly if it holds of them, and that for BETWEEN exactly if the number lies between the two |
| `ExprCode.CodeTarget` | misc/sqlite/expr.c:2171-2720 | code generation only appends: nothing emitted or resolved before changes |
| `ExprCode.IfTrue` | misc/sqlite/expr.c:2893-3011 | as CodeTarget; the recursion ends, through the BETWEEN rewrite too |
| `ExprCode.IfFalse` | misc/sqlite/expr.c:3022-3162 | as CodeTarget; the recursion ends, through the BETWEEN rewrite too |
| `ExprCoder.Coder.Target` | misc/sqlite/expr.c:2171-2720 | emitting into the program under construction gives the specified code |
| `ExprCoder.Coder.Case` | misc/sqlite/expr.c:2589-2646 | the loop over the WHEN clauses gives the specified code |
| `ExprCoder.Coder.JumpIfTrue` | misc/sqlite/expr.c:2893-3011 | emitting into the program under construction gives the specified code |
| `ExprCoder.Coder.JumpIfFalse` | misc/sqlite/expr.c:3022-3162 | emitting into the program under construction gives the specified code |
| `Varint.Put` | misc/sqlite/fts1.c:114-124 | the encoding of any 64-bit integer, one to ten bytes |
| `Varint.Get` | misc/sqlite/fts1.c:129-143 | the number that the bytes begin with, or failure after ten bytes with the high bit set |
| `Varint.RoundTrip` | misc/sqlite/fts1.c:114-143 | every 64-bit integer written is read back, whatever follows it |
| `DocLists.DocList.AddDocid` | misc/sqlite/fts1.c:296-303 | one more document without positions |
| `DocLists.DocList.AddPos` | misc/sqlite/fts1.c:306-326 | one more position of the last document |
| `DocLists.Reader.ReadDocid` | misc/sqlite/fts1.c:406-415 | the next document, its positions ahead |
| `DocLists.Reader.ReadPosition` | misc/sqlite/fts1.c:420-453 | the next column and position of the document, or -1 exactly at its end |
| `DocLists.Reader.SkipTo` | misc/sqlite/fts1.c:473-480 | past exactly the documents before the id |
| `DocLists.Reader.NextDocid` | misc/sqlite/fts1.c:667-670 | the next id, or 0 exactly at the end |
| `DocLists.ReadAll` | misc/sqlite/fts1.c:296-453 | reading back gives the documents and positions written |
| `DocLists.FormatExample` | misc/sqlite/fts1.c:156-200 | the bytes of a document with positions in two columns |
| `DocMerge.AndMerge` | misc/sqlite/fts1.c:762-788 | the intersection of two ascending lists, ascending |
| `DocMerge.OrMerge` | misc/sqlite/fts1.c:796-830 | their union, ascending |
| `DocMerge.ExceptMerge` | misc/sqlite/fts1.c:841-870 | their difference, ascending |
| `PhraseMerge.PhraseAtIs` | misc/sqlite/fts1.c:672-687 | a position of the right list is kept exactly if the one before it is in the left list |
| `PhraseMerge.MergePosList` | misc/sqlite/fts1.c:688-719 | one document with exactly the kept positions is written, none if there are none |
| `PhraseMerge.PhraseMerge` | misc/sqlite/fts1.c:730-753 | the documents in which the phrase occurs, with exactly the positions where it does |
| `PhraseMerge.PhraseDocsFind` | misc/sqlite/fts1.c:730-753 | each document of the right list is in the result exactly if a position is kept, with those positions |
| `DocUpdate.UpsertView` | misc/sqlite/fts1.c:583-620 | splicing changes what a list says about one document and keeps it sorted |
| `DocUpdate.OverlayView` | misc/sqlite/fts1.c:637-659 | the newer list wins for every document it mentions |
| `DocUpdate.ViewDetermines` | misc/sqlite/fts1.c:153-200 | a sorted list is determined by what it says about each document |
| `DocUpdate.SpliceElement` | misc/sqlite/fts1.c:583-620 | the bytes of one document are put in place of its old ones or in order |
| `DocUpdate.Update` | misc/sqlite/fts1.c:623-632 | a one-document list laid over another |
| `DocUpdate.Accumulate` | misc/sqlite/fts1.c:637-659 | a newer list laid over an older one, on bytes |
| `DocTrim.RestrictColumn` | misc/sqlite/fts1.c:526-548 | every document with its positions in one column |
| `DocTrim.DiscardEmpty` | misc/sqlite/fts1.c:552-577 | the documents that have positions |
| `DocTrim.RestrictView` | misc/sqlite/fts1.c:526-548 | restricting acts on each document by itself |
| `DocTrim.NonEmptyView` | misc/sqlite/fts1.c:552-577 | exactly the documents without positions go |
| `FtsIndex.RollUp` | misc/sqlite/fts1.c:3047-3073 | rolling a segment up into the next changes nothing of what the segments say |
| `FtsIndex.InsertTerm` | misc/sqlite/fts1.c:3016-3079 | after an insertion the segments say the same, but for the new entry; only segment 0 changes if it was absent or stays within 256 bytes, else the segments there are go up into the first that is not |
| `FtsIndex.SelectAll` | misc/sqlite/fts1.c:1390-1439 | the newest entry of every document, restricted to the column, those without positions left out |
| `FtsIndex.BuildTerms` | misc/sqlite/fts1.c:2970-3011 | every term of a text, with its positions unless the column is -1 |
| `FtsIndex.RowTerms` | misc/sqlite/fts1.c:3083-3110 | the terms of all columns of a row |
| `FtsIndex.RowPosAre` | misc/sqlite/fts1.c:2970-3011 | a term occurs in a row exactly where a token of that column is the term at that position |
| `FtsIndex.RowLegal` | misc/sqlite/fts1.c:306-320 | the positions of a row can always be encoded |
| `FtsTable.EntryAgrees` | misc/sqlite/fts1.c:3114-3147 | a term with a new entry agrees with the changed rows |
| `FtsTable.NoEntryAgrees` | misc/sqlite/fts1.c:3114-3147 | so does a term the row neither had nor has |
| `FtsTable.Table.AddEntries` | misc/sqlite/fts1.c:3188-3196 | exactly the listed terms get an entry, in any order |
| `FtsTable.Table.Insert` | misc/sqlite/fts1.c:3114-3123 | the row is there and the index agrees with all rows for every term; a taken id is refused |
| `FtsTable.Table.Delete` | misc/sqlite/fts1.c:3127-3131 | the row is gone and the index agrees with all rows for every term |
| `FtsTable.Table.Update` | misc/sqlite/fts1.c:3135-3147 | the row is changed and the index agrees with all rows for every term |
| `FtsTable.Table.Select` | misc/sqlite/fts1.c:1390-1439 | exactly the rows whose current text holds the term, with its exact columns and positions |
| `FtsTable.SelectedColumn` | misc/sqlite/fts1.c:1390-1439 | for one column these are the positions of the term among the tokens of that column |
| `FtsTable.SelectedAll` | misc/sqlite/fts1.c:1420-1438 | for all columns they are all its positions |
| `FtsQuery.PhraseMeans` | misc/sqlite/fts1.c:2587-2618 | a phrase ends at a place exactly if each of its words stands where it must |
| `FtsQuery.ListOfPhrase` | misc/sqlite/fts1.c:2587-2618 | the rows in which the phrase occurs |
| `FtsQuery.SatisfiesIs` | misc/sqlite/fts1.c:2793-2828 | a row satisfies the terms exactly if every group joined by OR has a term that matches, said without recursion |
| `FtsQuery.Query` | misc/sqlite/fts1.c:2775-2854 | the rows that satisfy every OR group and match no excluded term; only excluded terms is an error |
| `Bitvecs.Probe` | misc/sqlite/bitvec.c:115-121 | probing ends, at the value or at the empty slot where it belongs |
| `Bitvecs.Entered` | misc/sqlite/bitvec.c:150-170 | a value put where its probe ended is found from then on, and so are all others |
| `Bitvecs.Test` | misc/sqlite/bitvec.c:103-123 | true exactly for members, out of range included |
| `Bitvecs.Set` | misc/sqlite/bitvec.c:129-171 | one member more, in any representation |
| `Bitvecs.SetHash` | misc/sqlite/bitvec.c:150-171 | one member more, by probing or by conversion |
| `Bitvecs.Convert` | misc/sqlite/bitvec.c:157-168 | the split bitvec has the members of the hash table and the new one |
| `Bitvecs.Clear` | misc/sqlite/bitvec.c:177-201 | one member less, in any representation |
| `Bitvecs.ClearHash` | misc/sqlite/bitvec.c:189-200 | entering the others anew leaves exactly them |
| `Bitvecs.DivisorBounds` | misc/sqlite/bitvec.c:162 | the parts are smaller than the whole and cover it |
| `Bitvecs.BitSet.Has` | misc/sqlite/bitvec.c:103-123 | after any Sets and Clears, true exactly for the members |
| `Bitvecs.BitSet.Add` | misc/sqlite/bitvec.c:129-171 | the set grows by the number |
| `Bitvecs.BitSet.Remove` | misc/sqlite/bitvec.c:177-201 | the set shrinks by the number |
| `FtsHash.LinkedIn` | misc/sqlite/fts1_hash.c:161-182 | linking an element in before another keeps the list doubly linked |
| `FtsHash.InsertRun` | misc/sqlite/fts1_hash.c:161-182 | an element in front of its bucket lengthens that run and leaves every other bucket a run |
| `FtsHash.RemoveRun` | misc/sqlite/fts1_hash.c:240-272 | taking an element out leaves every bucket a run |
| `FtsHash.HashTable.InsertElement` | misc/sqlite/fts1_hash.c:161-182 | the element is on the list, every bucket is still a run of as many elements as it counts |
| `FtsHash.HashTable.Rehash` | misc/sqlite/fts1_hash.c:189-206 | all elements are kept, in new buckets that are runs again |
| `FtsHash.HashTable.FindElement` | misc/sqlite/fts1_hash.c:212-235 | the element with the key, or none exactly if there is none |
| `FtsHash.HashTable.RemoveElement` | misc/sqlite/fts1_hash.c:240-272 | the key is gone and nothing else |
| `FtsHash.HashTable.Find` | misc/sqlite/fts1_hash.c:278-290 | the data last stored for the key, or NULL |
| `FtsHash.HashTable.Insert` | misc/sqlite/fts1_hash.c:307-367 | the map with the key set, replaced or, for NULL data, removed; the old data is returned |
| `Calendar.JulianDayIs` | misc/sqlite/date.c:221-241 | the Julian day of a date in whole numbers |
| `Calendar.CorrectionIs` | misc/sqlite/date.c:351-353 | the century correction of computeYMD undoes that of computeJD except on the first of March 300 |
| `Calendar.FromJulianIs` | misc/sqlite/date.c:354-361 | year, month and day come back from the Julian count |
| `Calendar.RoundTrip` | misc/sqlite/date.c:343-364 | for every date from year 0 on and any time of day, computeYMD gives back the date computeJD was given, if and only if it is not the first of March 300 |
| `Calendar.NextDayIsOneMore` | misc/sqlite/date.c:221-241 | the next calendar day has a Julian day exactly one greater |
| `Calendar.Epoch` | misc/sqlite/date.c:221-242 | the Julian days of the first of January 2000 and 1970 |
| `Calendar.MillisecondsAre` | misc/sqlite/date.c:373-375 | the time of day is rounded to the nearest millisecond; the last half millisecond of a day becomes 24 hours |
| `Calendar.ZoneExample` | misc/sqlite/date.c:244-248 | a time one hour ahead at an example |
| `Calendar.DateTime.ComputeJD` | misc/sqlite/date.c:221-253 | the object gets the moment meant by its date, time of day and time zone, with 2000-01-01 for a missing date, and keeps or clears its other fields |
| `Calendar.DateTime.ComputeYMD` | misc/sqlite/date.c:343-364 | for every date from year 0 on, a Julian day that falls on it gives that date back, if and only if it is not the first of March 300; without a Julian day the date is 2000-01-01 |
| `Calendar.DateTime.ComputeHMS` | misc/sqlite/date.c:369-384 | hours, minutes and seconds that add up to the milliseconds of the day, minutes and seconds below 60 |
| `Calendar.DateTime.ThereAndBack` | misc/sqlite/date.c:221-402 | from date and time of day to the Julian day and back: the date returns unless it is the first of March 300, the time to the nearest millisecond, exactly if it is one |

## Left out

- The pager, the file system, journals and memory allocation, and the failures they report: operations
  are modelled where these succeed, or take their outcome as a parameter.
- balance_quick, balance_shallower and balance_deeper, and the loop that climbs to the root: one step of
  balance_nonroot is modelled, on any window of siblings.
- Balance.PageCountBound: for one cell too many, all that an insertion into a table leaf can leave; several
  on other pages are the subject of `Balance.OverfullBound`.
- MemPages.MemPage.InsertCell: the nSkip parameter, which leaves out bytes that the caller writes itself.
- MemPages.MemPage.Defragment: cell sizes are kept beside the pointers instead of being parsed from the
  cells, and the cell pointer array is a sequence rather than bytes of the page.
- The header of a cell (payload and key sizes as varints) and writing through accessPayload.
- AutoVacuum.AutoVacuumCommit: the file has no reserved bytes and ends before the pending-byte page, and
  no incremental step has run in the same transaction; `IncrVacuumStep` covers those steps one by one.
- AutoVacuum.IncrVacuumStep: with no final size set, requires that an exact request meets the page itself
  first, the condition of `Freelist.TakeFree`.
- Freelist.AllocatePage: requires of an exact request what `Freelist.TakeFree` proves to be necessary, and of
  the page count that it is not the one just before the pending-byte page, which sqlite3PagerPagecount never
  returns.
- Cursors: the empty page 1 that points to the real root, saved and restored cursor positions, and the
  shortcut for a cursor already in place. Keys are numbers that stand for their rank.
- Transactions: cursors do not appear, and freeing the shared structure after its last handle is closed
  is not modelled.
- BtMutex: every handle of a connection's list is one of its attached databases; sqlite3BtreeMutexArrayEnter
  with larger mutexes already held is not modelled.
- Expressions: strings, collations, affinity, CAST, IN, functions, the column cache and reuse of
  registers. Comparison is any three-way function; registers are always new.
- ExprProof.TargetOk: for expressions in which NOT is not applied to a register, which its code would
  overwrite; no source expression refers to a register.
- The tokenizer, snippets, offsets and the schema of the full-text table. The terms of one row are
  collected in a map, not in the hash table of `FtsHash`.
- DocLists.DocList.AddPos: byte offsets of terms (DL_POSITIONS_OFFSETS), which are compiled out by default.
- FtsQuery.Query: parsing the query string; row ids are positive, since 0 ends a merge.
- FtsQuery.ListOfPhrase: likewise for positive row ids.
- DocMerge.AndMerge: for positive ids.
- DocMerge.OrMerge: for positive ids.
- DocMerge.ExceptMerge: for positive ids.
- PhraseMerge.PhraseMerge: for positive ids and strictly increasing positions, which the tokenizer gives.
- PhraseMerge.MergePosList: for strictly increasing positions.
- Bitvecs.Set: the bits of the bitmap are booleans instead of bits of bytes; the parts of a split bitvec
  are values inside it, so sharing between bitvecs cannot be expressed. The size plus 62 fits 32 bits.
- Bitvecs.Clear: for numbers within the size; beyond it the source reads or writes outside its arrays.
- Bitvecs.ClearHash: likewise.
- Bitvecs.BitSet.Remove: likewise.
- PtrMap.MapPages: for pages before the pending-byte page.
- PtrMap.DataPagesClosed: for pages before the pending-byte page.
- PtrMap.FinalSize: for files without reserved bytes that end before the pending-byte page.
- AutoVacuum.StepBack: for files that end before the pending-byte page.
- AutoVacuum.CommitSize: as AutoVacuumCommit.
- AutoVacuum.MoveAll: as AutoVacuumCommit.
- FtsHash.HashTable.Insert: a failed allocation, keys not copied into the table, and, for tables with string
  keys, the empty key (hashed by what its buffer holds) and keys with a NUL (compared only up to it).
- Calendar.RoundTrip: exact arithmetic, not the rounding of floating point.
- Calendar.DateTime.ThereAndBack: parsing and modifiers, and local time.
