# Verified models of OidaDB

These Dafny modules model the parts of OidaDB that keep the most state, and prove what they
keep over every run. The C code is followed branch by branch; where its comments and the code
disagree, the models follow the code.

| file | what it models |
|---|---|
| `LookupTree.dfy`, `ObjectPages.dfy`, `LookupReader.dfy`, `Chapter.dfy` | the object chapter of an entity and the OID lookup tree over it: initial stack, appends, lookups, walks by `pright`, and lookups interleaved with appends |
| `FreeList.dfy`, `TrashChain.dfy`, `ObjectStore.dfy` | trash: the list of deleted rows inside a page, the chain of pages from `trashlast`, and creation, deletion and undeletion of objects on top of a chapter |
| `DeletedRefs.dfy`, `FilePartition.dfy`, `RecycledPage.dfy`, `DeletedPages.dfy` | the allocator of page straits: tables of deleted straits, the loaded window over their chapter, the partition of the whole file, and what becomes of it when the chapter grows by a page with old content |
| `BlockMath.dfy`, `Commits.dfy`, `Volume.dfy`, `Isolation.dfy`, `LockOrder.dfy` | the versioned block volume: where blocks stand, reading and committing a range, serializability of interleaved processes, and the order of page locks |
| `Circular.dfy`, `JobPipe.dfy`, `JobSlots.dfy` | the two-way pipe of a job over one ring, and the job slots with their counters, holds and round-robin searches |
| `Sequences.dfy` | sequences without repetitions, and those that differ at one place |
| `PageCache.dfy` | pinning and replacing pages in the cache |
| `Clutch.dfy` | the two-byte clutch lock of an entry |

Objects whose fields the program updates in place are classes, and buffers of fixed size are
arrays (the ring of a pipe, the job slots, the cache slots, the window of deleted pages, the
pages of a volume). Pages of the database file are values in maps that the methods rewrite one
at a time. Where a class has a ghost field, `Valid()` ties it to the real fields: the levels of
the lookup tree, the chain of trash pages, the owner of every page of the file, the bytes sent
and read. Concurrency is modelled by critical sections: each method of `Pipe`, `Slots` and
`Cache` is one, so a run is any sequence of calls; `Isolation`, `LockOrder`, `Clutch` and
`LookupReader` are step relations over any number of processes.

What comes out, in the order of difficulty:

* The lookup tree refines a plain sequence of page ids, for every depth and capacity; an append
  fails for lack of room exactly when the tree is full, and then leaves no trace. A lookup whose
  steps fall anywhere between the writes of appends is never lost and finds its page, as the
  entry never counts a page that is not routed.
* Checkouts and commits are serializable: in every run each call is answered as it was made, and
  takes effect at one point between its begin and its end, commits one after the other; a call
  comes to its end with every step that does not wait for a lock; no update is lost within 2^32 commits, and the exact
  condition under which an old version passes for current is proved (a multiple of 2^32 commits
  in between).
* The chain of trash pages can close into a loop, exactly when the page that is hung in front is
  the bottom page, and a run of three creations and three deletions gets there; every page with
  more than half of its rows free stays reachable all the same, faults always end, and creation
  without new pages fails only if no reachable page has trash.
* The file is partitioned into fixed, live, chapter and deleted pages through every allocation,
  and through every deletion but one: where the deleted chapter grows by a page that was itself
  deleted, the program links that page in as it reads, without clearing it. The condition on the
  content of that page under which the file is sound after the deletion is proved to be exact,
  and a run from an empty file shows a live page that the chapter names as deleted.
* With a window of one page, which the program accepts, an allocation that lets the window follow
  the chapter to the left reads a page it has just unmapped. That is proved to be the only
  allocation that crashes, and a run shows it.
* Both directions of a pipe are first in, first out over one ring, and the holds always agree
  with the byte counts. Jobs keep their type, number and owner until they are closed, and are
  passed over by fewer selects than there are slots.
* The cache replaces, of the pages that nobody holds, the one that was finished with the lowest
  score. Whoever waits for a byte of the clutch waits for somebody who owns it in a conflicting
  mode, and readers never wait for each other.

## Model

| member | source | states |
|---|---|---|
| `LookupTree.FullIffCapacity` | liboidadb-alpha/edba-pagecreates.c:241-260 | the climb meets only full pages exactly when the chapter holds refmax^(depth+1) straits |
| `LookupTree.LevelBound` | liboidadb-alpha/edba-pagecreates.c:241-335 | no level of a tree ever has more than refmax^d pages |
| `LookupTree.PlacesDistinct` | liboidadb-alpha/edba-pagecreates.c:296-335 | no lookup page stands at two places of the tree |
| `LookupTree.RoutedGrown` | liboidadb-alpha/edba-pagecreates.c:321-335 | storing the new reference on the first level with room routes the new strait and keeps every old route, on every level |
| `LookupTree.LinkedGrown` | liboidadb-alpha/edba-pagecreates.c:341-368 | after the way back down every page again names its parent, its left sibling and its first offset |
| `ObjectPages.ConcatAt` | liboidadb-alpha/edba-lookups.c:43-86 | page r of strait k is page k*straitc+r of the chapter |
| `ObjectPages.ChainFollows` | liboidadb-alpha/edba-page.c:77-121 | on every page of the chapter `pleft` is its own offset, and `pright` the next page or 0 at the end |
| `ObjectPages.FollowVisitsAll` | liboidadb-alpha/edba-page.c:77-121 | following `pright` m times from any offset reaches offset+m, and 0 past the last page |
| `ObjectPages.ChainedAppend` | liboidadb-alpha/edba-pagecreates.c:385-391 | linking the new strait behind the old last page keeps the whole chain |
| `LookupReader.StepOnPath` | liboidadb-alpha/edba-lookups.c:43-130 | each read of a lookup on a routed tree stays on the path to its offset, with end offsets in leaves and start offsets in branches |
| `LookupReader.GrowthKeepsPath` | liboidadb-alpha/edba-pagecreates.c:296-335 | growth of the tree takes no lookup under way off its path |
| `LookupReader.LockBytesApart` | liboidadb-alpha/edbl.c:222-230 | the bytes locked for reading a page and for adding to it are never the same, on any two pages |
| `LookupReader.InterleavedLookup` | liboidadb-alpha/edba-lookups.c:9-146 | a lookup of an offset below the ref0c that it read, started at the root that it read and interleaved in any way with the writes of appends, is never lost, ends within (depth+1)*refmax steps, and finds the page its offset had when it started |
| `Chapter.Chapter.EntrySet` | liboidadb-alpha/edba-ent.c:80-257 | a new entry has one lookup page on every level over one strait, and its chapter is that strait |
| `Chapter.Chapter.FirstLookups` | liboidadb-alpha/edba-ent.c:152-206 | lookup pages made from the deepest up, each naming the one before it |
| `Chapter.Chapter.FirstParents` | liboidadb-alpha/edba-ent.c:208-238 | every page of the stack then names its parent, and nothing else changes |
| `Chapter.Chapter.CreateObjects` | liboidadb-alpha/edba-pagecreates.c:536-597 | the pages of a new strait know their offsets and successors, and are chained for the trash from last to first |
| `Chapter.Chapter.LookupOid` | liboidadb-alpha/edba-lookups.c:132-146 | for every offset below ref0c the lookup is element `off` of the concatenated straits, and end-of-file otherwise |
| `Chapter.Chapter.LookupRec` | liboidadb-alpha/edba-lookups.c:9-130 | the recursive descent finds the page at the offset, whatever page on the path it starts from |
| `Chapter.Chapter.ScanLeaves` | liboidadb-alpha/edba-lookups.c:43-86 | the leaf scan by end offsets finds the page at the offset |
| `Chapter.Chapter.ScanBranches` | liboidadb-alpha/edba-lookups.c:93-130 | the branch scan by start offsets enters the child on the path to the offset |
| `Chapter.Chapter.LookupAmongAppends` | liboidadb-alpha/edba-lookups.c:9-146 | the same for the recorded history of all writes to a chapter and its entry: the page found is the one that stands there now |
| `Chapter.Chapter.PageAdvance` | liboidadb-alpha/edba-page.c:77-121 | advancing goes from offset to offset+1, and reports end-of-file at the last page without moving |
| `Chapter.LastLeafRefs` | liboidadb-alpha/edba-pagecreates.c:195-213 | the last leaf alone tells where the last strait starts and ends, from its own `pright` if it has one reference |
| `Chapter.Chapter.LastObject` | liboidadb-alpha/edba-pagecreates.c:190-213 | the old last object page is recovered from the last leaf-bearing page |
| `Chapter.Chapter.StoreReference` | liboidadb-alpha/edba-pagecreates.c:241-335 | the climb creates a sibling on every full level and stores on the first with room; with none it gives back every page and changes nothing |
| `Chapter.Chapter.Climb` | liboidadb-alpha/edba-pagecreates.c:241-319 | the climb ends on the first level with room, or at a full root, with siblings on exactly the levels below |
| `Chapter.Chapter.AddSibling` | liboidadb-alpha/edba-pagecreates.c:296-319 | the new sibling names what was created below it and its left neighbour, and starts at the end of the chapter |
| `Chapter.Chapter.FixParents` | liboidadb-alpha/edba-pagecreates.c:341-368 | on the way down every created page gets its parent, only parents change, and the deepest rightmost page is found |
| `Chapter.Chapter.Rollback` | liboidadb-alpha/edba-pagecreates.c:442-470 | the lookup pages created before the tree was found full are all given back |
| `Chapter.Chapter.Append` | liboidadb-alpha/edba-pagecreates.c:64-471 | an append adds one strait of unused pages to the end of the chapter, or fails; it fails exactly when ref0c == straitc*refmax^(depth+1), and then everything is as before |
| `Chapter.Chapter.Publish` | liboidadb-alpha/edba-pagecreates.c:385-409 | the last writes of an append leave a valid chapter whose contents grew by the strait, with the old trash chain untouched; ref0c is raised when the strait is routed already |
| `FreeList.LinksVisitTrash` | liboidadb-alpha/edba-objects.c:400-403 | following the links of a page ends in 0xFFFF after exactly trashc of them, and passes every row flagged deleted exactly once and no other |
| `FreeList.TrashFits` | liboidadb-alpha/edba-objects.c:400-403 | trashc never passes the number of rows, so it fits its 16 bits |
| `FreeList.InitObjects` | liboidadb-alpha/odbspec.c:47-83 | a new page is all trash, linked in row order |
| `FreeList.Pop` | liboidadb-alpha/edba-objects.c:214-262 | creation takes the first trash row, which was flagged deleted, and leaves the rest of the list |
| `FreeList.Push` | liboidadb-alpha/edba-objects.c:377-404 | deletion puts a live row in front of the list |
| `FreeList.SkipUnlinks` | liboidadb-alpha/edba-objects.c:503-520 | a list whose link before a row skips that row is the list without it |
| `FreeList.Unlink` | liboidadb-alpha/edba-objects.c:503-530 | undeletion finds the link to its row by searching from the header and takes exactly that row out; live rows are untouched |
| `FreeList.WriteKeepsList` | liboidadb-alpha/edba-objects.c:290-296 | what is written to a live row never damages the list |
| `TrashChain.ChainIsReachable` | liboidadb-alpha/edba-objects.c:126-188 | the chain consists of exactly the pages reached from trashlast, and ends exactly if it does not run into itself |
| `TrashChain.Popped` | liboidadb-alpha/edba-objects.c:160-187 | a trash fault loses no page but the one it leaves, and turns a loop back into a list |
| `TrashChain.Pushed` | liboidadb-alpha/edba-objects.c:428-461 | hanging a page in front loses no page, even if it was the bottom of the chain |
| `TrashChain.PushCloses` | liboidadb-alpha/edba-objects.c:428-461 | a chain that ends still ends after the push if and only if the page was not reachable before |
| `TrashChain.ChainCanClose` | liboidadb-alpha/edba-objects.c:428-461 | two pages on which the push closes the chain into a loop |
| `ObjectStore.ObjectStore.NothingLost` | liboidadb-alpha/edba-objects.c:353-355 | in every state each page with more trash rows than half of `objectsperpage`, and each page with a nonzero trashvor, is reachable from trashlast |
| `ObjectStore.ObjectStore.Fault` | liboidadb-alpha/edba-objects.c:160-187 | a trash fault moves trashlast on and keeps all of the above |
| `ObjectStore.ObjectStore.Faults` | liboidadb-alpha/edba-objects.c:126-188 | the fault loop ends, loop or not, having left exactly the pages without trash at the front of the chain; it comes to no page exactly if no reachable page has trash |
| `ObjectStore.ObjectStore.Grow` | liboidadb-alpha/edba-objects.c:126-150 | new pages come in as one chain, all trash, with no live row changed |
| `ObjectStore.ObjectStore.SeekTrash` | liboidadb-alpha/edba-objects.c:126-188 | no space exactly if no reachable page has trash and pages may not or cannot be added; then no page has more than half of its rows in the trash |
| `ObjectStore.ObjectStore.ObjectOpenC` | liboidadb-alpha/edba-objects.c:91-263 | creation returns a row that was not live and is now, changes no other row, and the row number it returns is that row of that page, the first with trash that faults lead to; when it fails and why, and that then no page is more than half free |
| `ObjectStore.ObjectStore.ObjectOpen` | liboidadb-alpha/edba-objects.c:41-89 | opening a row number lands on the same page and row that creation returned it for, and is end-of-file past the chapter |
| `ObjectStore.ObjectStore.ObjectDelete` | liboidadb-alpha/edba-objects.c:357-464 | the row is trash, no other row changed, and the page joins the chain exactly if this row brings its trash past half of its rows and it is not on the chain by the program's test |
| `ObjectStore.ObjectStore.ObjectUndelete` | liboidadb-alpha/edba-objects.c:466-535 | the row is live again with its content, no other row changed, and the chain stays as it is |
| `ObjectStore.ObjectStore.Write` | liboidadb-alpha/edba-objects.c:290-296 | writing a live row keeps every guarantee |
| `ObjectStore.ByteOffsetRoundTrip` | liboidadb-alpha/edba-objects.c:585-613 | the 16-bit byte offset of a row leads back to its number on every page of at most 64 KiB |
| `ObjectStore.PlacedRid` | liboidadb-alpha/edba-objects.c:238-240 | pleft*objectsperpage+row is the number of that row in the chapter |
| `ObjectStore.OidRoundTrip` | liboidadb-alpha/edba_u.h:119-123 | entry and row number are recovered from an OID |
| `ObjectStore.LoopArises` | liboidadb-alpha/edba-objects.c:91-464 | a run from a new entity of two pages with two rows each: three creations and three deletions leave a chain of trash pages that does not end |
| `DeletedRefs.Steal` | liboidadb-alpha/edbd-adddel.c:29-99 | pages are taken from the first reference that has as many, and refc, pagesc and the longest strait are exact again |
| `DeletedRefs.StoreOn` | liboidadb-alpha/edbd-adddel.c:241-281 | a strait is stored in the first reference that is null or that the program would merge it with, in the widths of the fields, whatever the page holds |
| `DeletedRefs.PlaceIfRoom` | liboidadb-alpha/edbd-adddel.c:233-263 | a page whose header agrees with its table has a place for a strait exactly if it is not full |
| `DeletedRefs.StoredIsInserted` | liboidadb-alpha/edbd-adddel.c:241-254 | on such a page the strait goes into the first null reference, is not merged, and the header agrees again |
| `DeletedRefs.CountsAfter` | liboidadb-alpha/edbd-adddel.c:69-84 | how the two counts of a page follow a change of one reference |
| `DeletedRefs.NeverMerges` | liboidadb-alpha/edbd-adddel.c:261-263 | two straits of at most 255 pages never reach the limit at which merging would be tried |
| `FilePartition.PartitionIsExact` | liboidadb-alpha/edbd-adddel.c:17-185 | no page is named by two references or stands in the chapter as well, and the pages in neither are exactly the fixed and the live ones |
| `FilePartition.TakenOut` | liboidadb-alpha/edbd-adddel.c:69-84 | recycling hands out pages that were in one reference, and the partition holds again |
| `FilePartition.PutIn` | liboidadb-alpha/edbd-adddel.c:244-254 | deleting moves live pages into one reference, and the partition holds again |
| `FilePartition.GrownBy` | liboidadb-alpha/edbd-adddel.c:134-181 | growing the file hands out its new pages, and the partition holds again |
| `FilePartition.Chaptered` | liboidadb-alpha/edbd-adddel.c:333-415 | a page that reads as zeros can become the last page of the chapter |
| `RecycledPage.FilledIff` | liboidadb-alpha/edbd-adddel.c:230-281 | however the new last page of the chapter reads once it took the strait, the file is sound exactly if the page names each page of the strait once and no other, has no right neighbour, and its header agrees with its table |
| `RecycledPage.RightIff` | liboidadb-alpha/edbd-adddel.c:241-281 | the store leaves the page so exactly if the content it had meets the condition `TakesOver` |
| `RecycledPage.MergedExample` | liboidadb-alpha/edbd-adddel.c:261-280 | the second part of that condition is met by some content: a reference next to the strait, so long that the sum wraps around in its 16 bits |
| `RecycledPage.TakenOverIff` | liboidadb-alpha/edbd-adddel.c:344-424 | a page of any content is linked in and takes the strait: the file is sound exactly if that content meets the condition |
| `RecycledPage.TakenElsewhere` | liboidadb-alpha/edbd-adddel.c:344-424 | if it has no place and another page takes the strait, no division of the file among owners is right |
| `DeletedPages.Window.ShiftRight` | liboidadb-alpha/edbd-adddel.c:360-388 | the window takes a page in at its right and drops its leftmost only if it is full; the pages mapped are those of the window |
| `DeletedPages.Window.Follow` | liboidadb-alpha/edbd-adddel.c:116-129 | the window drops its rightmost page and takes one in at its left, unless it has one page only: then the link to the left is read from a page that is no longer mapped |
| `DeletedPages.DeletedPages.Open` | liboidadb-alpha/edbd.c:414-445 | opening loads the longest segment of the chapter that fits, from its last page back |
| `DeletedPages.DeletedPages.Slide` | liboidadb-alpha/edbd-adddel.c:109-132 | the window follows the chapter to the left exactly if its rightmost page is empty and the chapter goes on, and crashes exactly if it does so with a single page; pages to its right stay empty |
| `DeletedPages.DeletedPages.AddInside` | liboidadb-alpha/edbd-adddel.c:17-185 | recycles from the first reference of the first window page that has the pages, and then writes nothing else; otherwise the file grows by pages that read as zeros. When it crashes the file is as before |
| `DeletedPages.DeletedPages.Add` | liboidadb-alpha/edbd-adddel.c:187-210 | no strait handed out overlaps a live, fixed or chapter page; the file grows exactly if no window page has the pages; it crashes exactly where the window slides with a single page |
| `DeletedPages.DeletedPages.NewChapterPage` | liboidadb-alpha/edbd-adddel.c:306-332 | the inner allocation neither slides a window that has pages nor grows the file for it, and takes the first page of the first strait of the window, as it reads |
| `DeletedPages.DeletedPages.MoveOn` | liboidadb-alpha/edbd-adddel.c:310-393 | the page to the right of a full window comes in, and has room |
| `DeletedPages.DeletedPages.GrowChapter` | liboidadb-alpha/edbd-adddel.c:320-424 | the chapter grows by one page of any content, and the search for a place is repeated; when the file is sound afterwards, and what the page then holds |
| `DeletedPages.DeletedPages.Settle` | liboidadb-alpha/edbd-adddel.c:230-282 | on a sound file the search stores the strait exactly if a page of the window has room, and the file is sound again |
| `DeletedPages.DeletedPages.Del` | liboidadb-alpha/edbd-adddel.c:212-429 | a deletion of any live strait succeeds and leaves a sound file, in which exactly this strait stopped being live, if and only if a page that the chapter grows by can take the strait over; the chapter grows exactly if the window is full with nothing to its right, and the file only for the first chapter page |
| `DeletedPages.NamedLive` | liboidadb-alpha/edbd-adddel.c:212-429 | a file whose chapter names a page that was live and not given back is sound for no owners |
| `DeletedPages.LivePageNamed` | liboidadb-alpha/edbd-adddel.c:17-429 | a run from an empty file: a page is written to and deleted, the chapter grows by it, and names a page that is live |
| `DeletedPages.WindowOfOne` | liboidadb-alpha/edbd-adddel.c:17-429 | a run from an empty file with a window of one page that ends in the crash, with the file intact |
| `BlockMath.PagesOfBlocks` | liboidadb/blocks/pages-blocks.c:42-52 | blocks stand on pages that are not descriptors, each on its own |
| `BlockMath.BlocksOfPages` | liboidadb/blocks/pages-blocks.c:42-52 | every page that is not a descriptor has a block |
| `BlockMath.PagesIncrease` | liboidadb/blocks/pages-blocks.c:42-52 | page order is block order |
| `BlockMath.GroupsBound` | liboidadb/blocks/pages-blocks.c:236-241 | a range needs at most (blockc+1021)/1023+1 group descriptors |
| `BlockMath.TurnOfGroup` | liboidadb/blocks/pages-blocks.c:59-67 | the group-splitting loops use exactly the descriptors computed beforehand and come to blockc blocks |
| `BlockMath.PlacesInGroup` | liboidadb/blocks/pages-blocks.c:165-233 | each requested block is met once, in order, on the page computed for it |
| `Commits.VersionCounts` | liboidadb/blocks/pages-blocks.c:431-441 | a block's version is the number of commits that covered it, modulo 2^32 |
| `Commits.SameVersionIff` | liboidadb/blocks/pages-blocks.c:404-417 | an old version passes for current if and only if the commits covering the block since then are a multiple of 2^32 |
| `Commits.SameVersionSameData` | liboidadb/blocks/pages-blocks.c:404-417 | within 2^32 commits, the same version means the same data |
| `Volume.Volume.GroupLoad` | liboidadb/blocks/pages-meta.c:127-169 | setting up a group descriptor changes no block |
| `Volume.Volume.BlocksCopy` | liboidadb/blocks/pages-blocks.c:165-233 | a copy returns data and version of every block of the range, across groups, and touches nothing else, for no blocks too |
| `Volume.Volume.GroupMap` | liboidadb/blocks/pages-blocks.c:251-309 | every block of the range is mapped to its group and its place there |
| `Volume.Volume.DataMap` | liboidadb/blocks/pages-blocks.c:314-378 | every block of the range is mapped to its page |
| `Volume.Volume.CheckVersions` | liboidadb/blocks/pages-blocks.c:401-421 | the versions match exactly if all of them do, and all current versions are reported either way |
| `Volume.Volume.CommitAttempt` | liboidadb/blocks/pages-blocks.c:380-446 | a commit replaces data and raises versions of the whole range, or fails for an outdated version or an empty range and writes nothing |
| `Isolation.StepKeeps` | liboidadb/blocks/blocks.c:174-281 | every step of every process keeps the invariant that memory under no commit in progress is what the log of commits makes of it |
| `Isolation.CallServed` | liboidadb/blocks/blocks.c:174-281 | in every run a process does what it was told when it was idle, with exactly these arguments, until it is idle again |
| `Isolation.IdleAgain` | liboidadb/blocks/blocks.c:174-281 | a process becomes idle only by a step of its own, with an outcome and holding no lock |
| `Isolation.StepProgress` | liboidadb/blocks/blocks.c:174-281 | every step of a call brings it nearer to its end, unless it waits for a lock that another process holds in a conflicting mode |
| `Isolation.StepLocks` | liboidadb/blocks/pages-blocks.c:69-84 | the locks of a process after each step: taken one by one in order before the first access, kept through all accesses, given back one by one after the last |
| `Isolation.GroupByGroup` | liboidadb/blocks/pages-blocks.c:165-233 | what a checkout reads next is data exactly until the group of the next version is through |
| `Isolation.Serializable` | liboidadb/blocks/blocks.c:174-281 | in every run, a process told to check out or commit a range answers that very call, from the step at which it is done until it is idle again: a checkout returns its blocks as the commits before one point of the serial order left them, a commit succeeds exactly if its versions are those of its blocks at that point, and is then the next commit of the order; the point lies between begin and end of the call |
| `Isolation.DistinctCommits` | liboidadb/blocks/blocks.c:223-281 | no two commits succeed as the same number of the serial order |
| `Isolation.EveryCommit` | liboidadb/blocks/blocks.c:223-281 | every commit of the serial order answers a call: its process was told at an earlier step of the run to commit just that data there, and was not idle until the commit took effect |
| `Isolation.SettledMemory` | liboidadb/blocks/blocks.c:223-281 | while no commit is writing, the memory is that of the serial execution of exactly the successful commits |
| `Isolation.NoLostUpdate` | liboidadb/blocks/pages-blocks.c:404-441 | in a run, a commit that was called after a checkout was done, with the versions which that checkout returned, and that succeeds, replaces what the checkout returned: with fewer than 2^32 commits between them, none covered its blocks |
| `LockOrder.WaitsForLater` | liboidadb/blocks/pages-blocks.c:69-76 | whoever is waited for waits, if at all, for a page later in the lock order |
| `LockOrder.NoWaitingCycle` | liboidadb/blocks/pages-meta.c:127-169 | processes never wait for each other in a circle, descriptor locks taken under block locks included |
| `LockOrder.NoDeadlock` | liboidadb/blocks/pages-blocks.c:69-84 | unless all are done, some process that is not done waits for nobody |
| `LockOrder.WaitsIff` | liboidadb/blocks/pages-blocks.c:69-76 | a process waits for the next block of its range exactly if another has it locked and one of the two commits, and for a descriptor exactly if another has that locked |
| `LockOrder.AdvanceLocks` | liboidadb/blocks/pages-blocks.c:69-84 | the page locks of a process after each step: block locks one by one in order, a descriptor lock for one step and only if the group was not set up |
| `LockOrder.AdvanceGroups` | liboidadb/blocks/pages-meta.c:127-169 | between taking and giving back its block locks a process comes by the descriptor of every group of its range, in order |
| `LockOrder.LocksExclude` | liboidadb/blocks/pages-blocks.c:69-84 | in every run a page is locked by one process alone, or is a block shared by checkouts |
| `LockOrder.AdvanceEnds` | liboidadb/blocks/pages-blocks.c:69-84 | a process that can go on comes nearer to its end with every step |
| `JobPipe.Pipe.Install` | liboidadb-alpha/edbs-jobs.c:561-580 | a new job starts with an empty ring and holds that agree with it |
| `JobPipe.Pipe.TermInstaller` | liboidadb-alpha/edbs-jobs.c:36-44 | the installer can renounce answers only while nothing was written by either side; any byte written refuses it |
| `JobPipe.Pipe.OneWay` | liboidadb-alpha/edbs-jobs.c:36-119 | then no answer is ever written or read, and the executor never has to wait for its end |
| `JobPipe.Pipe.TermExecutor` | liboidadb-alpha/edbs-jobs.c:45-67 | the executor ends only when all its bytes were read, and lets a waiting installer go |
| `JobPipe.Pipe.WriteBegin` | liboidadb-alpha/edbs-jobs.c:82-119 | a write is refused exactly if the executor makes it before the installer wrote anything, and dropped exactly if the executor makes it after the installer renounced answers, in which case it never answered; all others may go on, and nothing takes that away from them |
| `JobPipe.Pipe.Put` | liboidadb-alpha/edbs-jobs.c:163-181 | bytes go in at the head until the ring is full, wrapping around, and the stream grows by exactly these |
| `JobPipe.Pipe.WriteSection` | liboidadb-alpha/edbs-jobs.c:122-205 | one turn of a write sends a nonempty prefix of what is left, or reports a closed pipe or unread bytes of the other side; it never makes the other side wait |
| `JobPipe.Pipe.ReadBegin` | liboidadb-alpha/edbs-jobs.c:229-262 | a read is refused only where there is nothing to read: nothing was ever written, or no answer is wanted, or the executor ended and all it wrote was read |
| `JobPipe.Pipe.Take` | liboidadb-alpha/edbs-jobs.c:323-341 | bytes come out at the head until none is left or wanted, in the order they went in |
| `JobPipe.Pipe.ReadSection` | liboidadb-alpha/edbs-jobs.c:264-361 | one turn of a read returns the next bytes of the stream; after the executor ended there are none, so it is always end-of-file |
| `JobPipe.Pipe.Exchange` | liboidadb-alpha/edbs-jobs.c:122-366 | a write of any length against a read of any length, over a ring of any size that may hold bytes already, in any order of turns: the read gets what was in the ring and then what was written, the rest stays in the ring, and somebody can always take a turn |
| `JobSlots.Slots.Search` | liboidadb-alpha/edbs-jobs.c:422-447 | the circular search always succeeds, with the first slot of its kind |
| `JobSlots.Slots.JobInstall` | liboidadb-alpha/edbs-jobs.c:470-588 | an install is refused exactly after the stop, waits again exactly while no slot is empty, and otherwise stores its job type, without an owner and with a new number, in the first empty slot from where the last install left off; no other slot changes |
| `JobSlots.Slots.JobSelect` | liboidadb-alpha/edbs-jobs.c:372-468 | a select is refused exactly without an owner or after the stop with no new job, waits again exactly while the hold is up, and otherwise makes its caller the owner of the first new job from where the last select left off, type and number as installed; no other slot changes |
| `JobSlots.Slots.JobClose` | liboidadb-alpha/edbs-jobs.c:590-644 | a closed job leaves an empty slot, changes no other, and lets installers go on; counters and holds agree |
| `JobSlots.StoppedDrains` | liboidadb-alpha/edbs.c:241-254 | once the host is stopped nothing is installed, the new jobs it had are selected once each, and the hold of the selectors goes up again exactly with the last of them |
| `JobSlots.StoppedAndEmpty` | liboidadb-alpha/edbs.c:256-264 | when no slot has a job any more, which is what closing waits for, every slot is empty and stays so |
| `JobSlots.RunOk` | liboidadb-alpha/edbs-jobs.c:403-463 | in every run the two counters are exact, and while running the holds agree with them |
| `JobSlots.JobKept` | liboidadb-alpha/edbs-jobs.c:512-588 | from its install to its close a slot holds the job type that was installed and the number it was given, in every run |
| `JobSlots.OwnerKept` | liboidadb-alpha/edbs-jobs.c:449-463 | from its select to its close a job belongs to the worker that selected it, and nobody else selects it |
| `JobSlots.DistinctNumbers` | liboidadb-alpha/edbs-jobs.c:512-540 | no two installs of a run are given the same number |
| `JobSlots.WaitsCloser` | liboidadb-alpha/edbs-jobs.c:422-434 | every select of another job brings the search nearer to a job that waits |
| `JobSlots.BoundedBypass` | liboidadb-alpha/edbs-jobs.c:403-463 | fewer selects of other jobs than there are slots happen between a job's install and its own select |
| `JobSlots.OneOwner` | liboidadb-alpha/edbs-jobs.c:449-463 | a job that has an owner in some state keeps it, and is selected by nobody before it is closed |
| `PageCache.SomeSlotFree` | liboidadb-alpha/edbp.c:45-51 | with no more handles than slots, a handle without a slot finds one that nobody holds |
| `PageCache.UsingIsMapped` | liboidadb-alpha/edbp.c:422-432 | what a handle uses is the page it asked for, mapped, pinned, and in no other slot |
| `PageCache.FaultOk` | liboidadb-alpha/edbp.c:102-131 | giving an unlocked slot to another page keeps page ids unique, lock counts exact and pinned slots as they are |
| `PageCache.Cache.HandleInit` | liboidadb-alpha/edbp.c:342-366 | there are never more handles than slots |
| `PageCache.Cache.Search` | liboidadb-alpha/edbp.c:60-105 | the search finds the page if it is cached, and otherwise the unlocked slot with the lowest score |
| `PageCache.VictimIsLowest` | liboidadb-alpha/edbp.c:60-105 | in a valid cache the slot that the search ends with is, of those nobody holds, the one whose page was finished with the lowest score, and the first of these going around |
| `PageCache.Cache.Start` | liboidadb-alpha/edbp.c:376-410 | a start pins the slot that has the page and changes no other, or gives the page a slot nobody held, of those the one whose page was finished with the lowest score, and the first of these from `nextstart` |
| `PageCache.Cache.SwapDone` | liboidadb-alpha/edbp.c:157-193 | the slot of a loading handle then has its page mapped, and no other handle is affected |
| `PageCache.Cache.Finish` | liboidadb-alpha/edbp.c:207-247 | finishing takes back exactly one lock of its slot and stores the score, with page, id and every other slot as they were |
| `Clutch.StepKeeps` | liboidadb-alpha/edbl.c:202-220 | neither byte is ever owned in conflicting modes |
| `Clutch.ExclusiveAlone` | liboidadb-alpha/edbl.c:202-220 | an exclusive holder of the entry holds it alone |
| `Clutch.OnlyLeaving` | liboidadb-alpha/edbl.c:211-219 | once somebody who wants the entry exclusively owns the first byte, others only leave |
| `Clutch.EntersWhenEmpty` | liboidadb-alpha/edbl.c:213-215 | and it enters at its next step exactly if all others have left |
| `Clutch.FirstGranted` | liboidadb-alpha/edbl.c:211-212 | the first byte is granted to a shared requester exactly if nobody else owns it exclusively, and to an exclusive one exactly if nobody else owns it |
| `Clutch.SecondGranted` | liboidadb-alpha/edbl.c:213-215 | the same for the second byte and those who own the first |
| `Clutch.StepBytes` | liboidadb-alpha/edbl.c:202-220 | a step takes the first byte, or takes the second while it keeps the first, or releases the first, or releases the second, of one process and for the mode it asked for |
| `Clutch.SharedNeverWait` | liboidadb-alpha/edbl.c:202-220 | while nobody wants the entry exclusively no step ever waits |
| `Clutch.ModeKept` | liboidadb-alpha/edbl.c:202-220 | in every run a process goes through the clutch in the mode that it asked for |

## Left out

- DeletedPages.DeletedPages.Del: that a second search without a place ends in an error is the build with checks; without them the program goes on to grow the chapter. The page types it writes, and mappings that fail, are left out.
- Chapter.Chapter.EntrySet: validation of the structure and the type, and the roll-back when a page cannot be created or loaded; creating and loading always succeed.
- Chapter.Chapter.FirstLookups: the roll-back of pages when one cannot be created.
- Chapter.Chapter.FirstParents: the bail-out when a page cannot be loaded.
- Chapter.Chapter.CreateObjects: pages that cannot be created or loaded.
- Chapter.Chapter.StoreReference: pages that cannot be created or loaded on the way up.
- Chapter.Chapter.Append: pages that cannot be created or loaded, and the roll-back of a strait that was referenced already; of the failures only the full tree is modelled.
- PageCache.Cache.SwapDone: a mapping that fails.
- JobSlots.BoundedBypass: counts selects, not time; that somebody does select is not claimed, and after the host has stopped a select that takes the last job raises the hold again, although the comment on the hold limits that to a running host.
- JobPipe.Pipe.TermInstaller: the flags of a job are changed by the installer and by a first write outside of the mutex, and by the executor that ends inside of it, so that one change can undo the other; the model makes each of them one step.
- JobPipe.Pipe.WriteSection: liveness of the waits themselves, and an installer that waits for room when the executor ends, which nobody wakes. A write to an ended pipe is `ODB_EPIPE` as in the code; the header comment says 0.
- PageCache.Cache.Finish: the score is a parameter below the unsigned maximum; the formula from history and hints is left out, as are failed swaps and freeing handles.
- Isolation.Serializable: the volume is long enough before the run starts; data of one block is read and written in one step; calls that are refused before they lock anything (no buffer, a buffer too small or without versions, a volume opened for reading) are left out.
- JobSlots.DistinctNumbers: job numbers are unbounded; the program's wrap around after 2^64 installs.
- JobSlots.Slots.JobInstall: the name of the handle that a slot is marked with.
- LockOrder.NoDeadlock: locks for growing the file are not part of it.
- Volume.Volume.BlocksCopy: a copy of no blocks at the first block of a group, where the program computes a group count from an end before its start and returns a value it never set.
- Entry, row and trash locks inside the object code; chapters and trash are modelled as sequential, with lookups the only concurrent readers. The two lock bytes that keep appends and lookups apart on one page are taken as given.
- Strait exponents above 7, where the strait length no longer fits the 8 bits it is passed in.
- Dynamic pointers of structures, buffer map bits, users' row locks, and the network and worker layers.
- Updates in place of database pages: they are values rewritten in a map, so aliasing of mapped pages is not captured.
- The connection between the allocator of `DeletedPages` and the page ids that `Chapter` takes: a chapter takes any unused strait.
- Lock, futex and mutex primitives are ideal, and memory allocation always succeeds.
