# PolyStore and Filebench internals: a verified model

This project models the stateful core of the repository in Dafny and proves what that core promises.

* **AVL tree** of Filebench (`AvlShape`, `AvlRotation`, `AvlClimb`, `AvlSwap`, `AvlSearch`, `AvlRaze`, `AvlTree`). The
  iterative tree over entries with child, parent, child-index and balance fields, as a class whose methods write the
  links in place. A ghost shape says which tree the links stand for; `Exact` ties every link and every balance to it.
  Proofs about links are pure lemmas over a snapshot of memory, with a zipper (`Ctx`) for the path to the place of
  change.
* **File sets** (`Fileset`, `PopulateTree`, `Populate`), clients of that tree: entries that move between the trees for
  free, existing and missing files, circular selection past busy entries, and recursive population with the shape of the
  directory tree it makes.
* **Split files** (`SplitFile`, `DirectIo`, `DirectRuns`, `CachedSlots`, `CachedView`, `CachedStrays`, `CachedReadBack`,
  `CachedWrites`, `CachedStale`, `CachedRuns`, `CachedIo`, `Dispatch`): a file cut into nodes of 2 MiB, each in a window
  of one of two device files, read and written directly or through a write-back cache. The reference is one plain file:
  `Pread` and `Pwrite` are the POSIX operations on a byte sequence, used for the devices and for the whole file alike.
* **Thread pool** (`ThreadPool`, `ThreadPoolProgress`, `JobQueue`): the protocol of workers, semaphore, queue and
  waiters as a state machine whose steps are single accesses to shared state, with theorems over every run: safety, and
  coming to rest with all jobs done; the linked queue as a class.
* **Cache memory and placement** (`CacheMemory`, `Placement`): the per-CPU bitmap allocator and the scheduler's
  counters. `Common` holds what several modules share.

Where the code and what one would expect of it differ, the model follows the code and states exactly when the two agree:

* A write that ends exactly one byte into a new node loses that byte, because the loop for new nodes stops when one byte
  is left (`DirectIo.Fits`, `CachedWrites.Kept`). The file size is advanced all the same.
* A direct write that begins beyond the last node is stored at the wrong place, and one that leaves a gap at the end of
  the last node and continues in a new one is readable only if a new node lands on the same device (`DirectIo.Fits`).
* A cached write that begins after the end of the file, but inside the last node, exposes what its buffer holds there:
  zeros if the node has had its buffer since it was made, otherwise whatever recycled memory held. One that begins
  beyond the last node is stored at the beginning of a new node, wherever in the node it should begin. Which writes are
  right is `CachedWrites.Right`, and which can be read back is `CachedWrites.ReadsRight`.
* A cached read that begins in a last node of `s` bytes, `b` bytes after its start, returns bytes beyond the end of the
  file when it asks for more than `s - b` and fewer than `s` bytes (`CachedIo.OverReads`).
* Population numbers files and leaf directories from one each, and an entry is named by its number alone: two entries of
  a directory have the same name exactly when it holds entries made by both loops (`PopulateTree.NamesApart`).

Environment: clocks, random draws, placements chosen by the scheduler, the contents of recycled memory and what happens
in the background are parameters. Device reads and writes succeed. The interval tree is an ordered index
(`DirectIo.Lookup`).

## Model

| member | source | states |
|---|---|---|
| AvlTree.Avl.Find | benchmarks/filebench/fb_avl.c:244-277 | Finds the entry with the key, or proves its absence and gives the one gap where it belongs; the steps made are the depth of that place in the tree, which Fibonacci growth of the number of nodes bounds |
| AvlSearch.HeightBound | benchmarks/filebench/fb_avl.c:244-277 | A tree of height h with exact balances in -1..1 has at least Fib(h + 2) - 1 nodes |
| AvlTree.Avl.End | benchmarks/filebench/fb_avl.c:170-202 | The first or last element of the in-order sequence, null exactly when it is empty |
| AvlTree.Avl.Walk | benchmarks/filebench/fb_avl.c:123-164 | The true in-order neighbour on either side, null exactly at the end |
| AvlTree.Avl.Nearest | benchmarks/filebench/fb_avl.c:213-232 | The element next to an insertion point on either side |
| AvlRotation.SingleRotation | benchmarks/filebench/fb_avl.c:310-378 | The pointer writes of case 1 give the rotated tree: same order, links, exact balances, and the height reported |
| AvlRotation.DoubleRotation | benchmarks/filebench/fb_avl.c:379-460 | The pointer writes of case 2, proved as two single rotations through an intermediate memory |
| AvlTree.Avl.Rotation | benchmarks/filebench/fb_avl.c:294-460 | One rotation in place restores balance, keeps order and links, returns whether the subtree got shorter, and is counted |
| AvlTree.Avl.ClimbGrown | benchmarks/filebench/fb_avl.c:520-561 | The climb after an insertion ends with all balances exact; it makes at most one of the rotations that Rotation counts |
| AvlTree.Avl.Insert | benchmarks/filebench/fb_avl.c:473-561 | The in-order sequence gains the entry exactly at the gap; links, balances and count stay exact; at most one counted rotation |
| AvlTree.Avl.Add | benchmarks/filebench/fb_avl.c:614-628 | Keeps the keys increasing; an equal key leaves everything unchanged |
| AvlTree.Avl.SwapOut | benchmarks/filebench/fb_avl.c:673-730 | The exchange with the in-order neighbour through a placeholder: same order without the entry, same balances, all links right |
| AvlSwap.SwapWhole | benchmarks/filebench/fb_avl.c:702-730 | The exact pointer writes of the swap turn the links of the old tree into those of the new one, adjacent or not |
| AvlTree.Avl.ClimbShrunk | benchmarks/filebench/fb_avl.c:765-805 | The climb after a removal, with any number of rotations, ends with all balances exact and the order kept |
| AvlTree.Avl.Remove | benchmarks/filebench/fb_avl.c:653-805 | The in-order sequence loses exactly that entry; links, balances and count stay exact |
| AvlTree.Avl.DestroyNodes | benchmarks/filebench/fb_avl.c:958-1065 | Each call hands out the next element of the post-order, touching no element handed out before; the last one resets root and count |
| AvlTree.Avl.DestroyAll | benchmarks/filebench/fb_avl.c:937-1065 | A whole walk hands out every element once, children before parents, and leaves a null root and zero count |
| AvlRaze.RazeHere | benchmarks/filebench/fb_avl.c:1034-1052 | Balance leaves at most a lone leaf to the right of an element without a left child |
| Fileset.Move | benchmarks/filebench/fileset.c:222-228 | The entry leaves one tree and enters the other; it is never refused as a duplicate |
| Fileset.FindEntry | benchmarks/filebench/fileset.c:575-595 | The entry with the index, else the next higher, else the lowest; null exactly when the tree is empty |
| Fileset.SkipBusy | benchmarks/filebench/fileset.c:760-776 | The first entry in circular order that is not busy, null when there is none; terminates |
| Fileset.NoneIdle | benchmarks/filebench/fileset.c:760-776 | The circular scan finds nothing exactly when every entry is busy |
| Fileset.CircleIdle | benchmarks/filebench/fileset.c:760-776 | The circle from any position covers the whole tree |
| Fileset.Shelf.Pick | benchmarks/filebench/fileset.c:612-802 | Which tree, which start, first idle entry in circular order, nothing exactly when all of the tree is busy; busy flag, idle counter and rotors; invariant kept |
| Fileset.Shelf.PickWaiting | benchmarks/filebench/fileset.c:612-802 | Selection with its wait: it waits exactly while no entry is idle; the first release ends the wait, and then the entry released is picked, or nothing if it went to another tree; without a wait the outcome is that of Pick; busy flags, idle counter and rotors in both cases |
| Fileset.Shelf.Unbusy | benchmarks/filebench/fileset.c:809-960 | The entry ends in the one tree its flags name, not busy, counted as idle; waiters for it are woken exactly if it was busy and waited for; invariant kept |
| Fileset.Shelf.Enrol | benchmarks/filebench/fileset.c:1327-1347 | A new entry with the next index, the given kind, flags, parent and number joins the tree the flags name; all others stay as they are |
| Populate.FileSet.PopulateFile | benchmarks/filebench/fileset.c:1327-1363 | One more file, in the given directory with the given number, of the size drawn, for one entry and the nine bytes of its name; fails exactly when either is lacking |
| Populate.FileSet.PopulateLeafDir | benchmarks/filebench/fileset.c:1375-1408 | One more leaf directory in the given directory for one entry and the nine bytes of its name; fails exactly when either is lacking |
| Populate.ShortName | benchmarks/filebench/fileset.c:1351-1351 | No name is longer than eight digits, since there are not that many entries |
| Populate.FileSet.PopulateSubdir | benchmarks/filebench/fileset.c:1426-1539 | Keeps the tree in shape (Shaped: see Populate), adding one directory in the given place and otherwise only entries below it; terminates for any draws; never overshoots; fails only when there is no entry or no name left; from the root exactly the requested numbers; with roomy draws every nested call makes progress and an entry costs at most one entry and one name for each level |
| Populate.FileSet.FillWithFiles | benchmarks/filebench/fileset.c:1501-1517 | The loop over files or subdirectories: it puts entries numbered 1, 2 and so on in the directory, and all else in new ones; outside the root there are as many as the width allows, subdirectories too, unless the set wants no more; with its own progress and cost |
| Populate.FileSet.FillWithLeafDirs | benchmarks/filebench/fileset.c:1519-1536 | The same for leaf directories |
| Populate.FileSet.Populate | benchmarks/filebench/fileset.c:1551-1635 | Exactly the requested entries, with indices 0, 1, and so on, all distinct, all free and of their kind, and the sum of the sizes drawn, for any draws, unless entries or names run out. The tree is in shape: one root; every file and leaf directory is in a directory other than the root whose depth is at least the one drawn for it; every other directory is in the root or in one above its drawn depth; outside the root no number goes beyond the width drawn; numbers have no gaps and no duplicates for either loop. With roomy draws and a stated amount of memory it succeeds; one entry and one name for each made |
| PopulateTree.AddDir | benchmarks/filebench/fileset.c:1445-1463 | A directory put where one may come, above the drawn depth or in the root, next in number and within the width, keeps the tree in shape and is one deeper than its parent |
| PopulateTree.AddLeaf | benchmarks/filebench/fileset.c:1510-1511 | So does a file or leaf directory at the drawn depth or below |
| PopulateTree.Rooted | benchmarks/filebench/fileset.c:1426-1463 | In a tree in shape a directory at depth n is n - 1 steps from the root along parents |
| PopulateTree.NamesApart | benchmarks/filebench/fileset.c:1452-1453 | The names in a directory differ if and only if it does not hold entries made by both loops |
| SplitFile.WriteInNode | polylib/src/io_direct.c:279-316 | A write inside one window is the same write to the plain file; all other windows are untouched |
| SplitFile.AppendNode | polylib/src/io_direct.c:349-389 | A node at the rounded-up end of a device is aligned, disjoint from all windows, and appends to the plain file |
| SplitFile.SnugGrow | polylib/src/io_direct.c:349-373 | If the i-th window on each device is at i times the node size and the device ends in the last, so it is after a new node at the rounded-up end |
| SplitFile.SnugWrite | polylib/src/io_direct.c:279-316 | And after a write in a window |
| SplitFile.OneByteOnePlace | polylib/src/io_direct.c:349-373 | In a file in any reachable state every byte is on a device, and different bytes are at different places |
| SplitFile.ReadInNode | polylib/src/io_direct.c:52-90 | Reading from a window reads the plain file, shorter at its end |
| DirectIo.LookupFirst | polylib/src/indexing.c:46-53 | In a file without gaps the first overlapping node is the one the position is in |
| DirectIo.File.Read | polylib/src/io_direct.c:31-95 | Returns the slice of the plain file from the start up to its end, and moves the file position by it |
| DirectIo.File.Overwrite | polylib/src/io_direct.c:274-317 | The part of a write in existing nodes is the same part written to the plain file |
| DirectIo.File.Grow | polylib/src/io_direct.c:320-389 | New nodes take all bytes but an odd last one; each is on the device its placement says, in order, at the end of that device; where they lie, with and without a gap before them |
| DirectIo.FlushOutcome | polylib/src/io_direct.c:320-395 | A write that skips no node is kept entirely if it fits, and otherwise some byte cannot be read |
| DirectIo.TornStray | polylib/src/io_direct.c:320-395 | After any write that begins beyond the last node some byte within the size cannot be read |
| DirectIo.File.Write | polylib/src/io_direct.c:251-402 | The file stands for the plain file after the write if the write fits, and for no plain file at all if it does not. In any case the nodes there were stay, the new ones are on the devices the placements say, in order, and windows follow one another on each device; how many bytes are taken, and the size |
| DirectIo.File.Append | polylib/src/io_direct.c:98-247 | The same for a write at the current size |
| DirectIo.KeptAnywhere | polylib/src/io_direct.c:340-373 | Which writes are kept whatever the placements, exactly |
| DirectIo.LostByte | polylib/src/io_direct.c:320-320 | One byte more than a node, written at once, does not fit; one byte less or one more does |
| DirectIo.File.Run | polylib/src/io_direct.c:31-402 | Every run of reads, kept writes and appends moves the bytes that a plain file would, and leaves the split file standing for that plain file, at the same position, whatever the placements |
| DirectRuns.LastWriter | polylib/src/io_direct.c:251-402 | After any operations of a run, each byte of the plain file is the one that the last operation to write there wrote |
| DirectRuns.ReadsLastWrite | polylib/src/io_direct.c:31-402 | So a read in a run returns at each position what the last operation before it to write there wrote |
| DirectRuns.ReadsUnwritten | polylib/src/io_direct.c:31-95 | And where none did, what the file held at first, and zero after its end; and as many bytes as there are up to the end then |
| CachedSlots.AdmitKeeps | polylib/src/cache.c:139-146 | Loading a node into recycled memory gives a buffer that holds the node |
| CachedSlots.PutKeeps | polylib/src/io_buffered.c:404-437 | Writing into the buffer anywhere writes to the node, after what the buffer held up to there |
| CachedSlots.FlushKeeps | polylib/src/cache.c:285-295 | Writing back makes device and buffer agree |
| CachedSlots.GapShowsMemory | polylib/src/io_buffered.c:413-437 | A gap left by a write into a node without a buffer holds whatever the memory held |
| CachedSlots.GapExact | polylib/src/io_buffered.c:413-437 | Inside one node with a buffer, a write after the bytes in use does what a plain file would exactly when the buffer holds zeros in the gap (PristineGap and StaleGap: when that is certain, and only then) |
| CachedIo.Cache.Get | polylib/src/io_buffered.c:109-148 | Bytes of a node as the plain file has them; the invariant on buffers, flags, devices and lists is kept |
| CachedIo.Cache.Set | polylib/src/io_buffered.c:404-437 | A write anywhere in an entry, under its lock, is that write to the plain file extended by what the buffer, or the memory it gets, held between the end and the write |
| CachedIo.Cache.Add | polylib/src/io_buffered.c:471-534 | A new node at the device cursor, its bytes at the beginning: dirty, linked once; that cursor moves by one node and the other stays; at the end of full nodes the file grows by it |
| CachedView.PlacedApart | polylib/src/io_buffered.c:511-520 | When each cursor is as many nodes from the beginning as are on its device, windows are aligned, disjoint and below the cursors |
| CachedView.PlacedAdd | polylib/src/io_buffered.c:511-520 | A node at the cursor, and the cursor moved by one node, keeps the i-th node on each device at i times the node size and the cursors after the last |
| CachedIo.Cache.EvictFirst | polylib/src/cache.c:379-423 | Exactly the first entry of the queue is unlinked, written back if dirty, and loses its buffer; the file is unchanged |
| CachedIo.Cache.SyncSlot | polylib/src/cache.c:688-709 | Exactly that entry is written back and clean, safely even if the buffer was dropped before the lock was taken; the file is unchanged |
| CachedIo.Cache.Background | polylib/src/cache.c:365-540 | Any sequence of evictions, syncs and dispatches, in any state with windows and links in order, does what each action says; every state on the way stands for the same file if the first does |
| CachedIo.Cache.Run | polylib/src/io_buffered.c:58-555 | Over every interleaving of reader, writer, worker, sync and dispatch steps, every state reached stands for the plain file after the same writes, each read returns what that file holds, each background action does what it says, and nodes are added on the devices the steps say; what these runs compute is in the next five rows |
| CachedRuns.LastWriter | polylib/src/io_buffered.c:404-437 | After any steps of a run, each byte of the file is the one that the last step to write there wrote |
| CachedRuns.ReadsLastWrite | polylib/src/io_buffered.c:58-555 | So every read in a run returns at each position what the last step before it to write there wrote, whatever happened in between |
| CachedRuns.ReadsUnwritten | polylib/src/io_buffered.c:58-189 | And what the file held at first where no step has written |
| CachedRuns.RunCursors | polylib/src/io_buffered.c:511-520 | In every state of a run from an empty cache, each cursor is the node size times the number of steps that added a node on its device |
| CachedRuns.RunPlaces | polylib/src/io_buffered.c:500-520 | Each step that adds a node puts it on the device it says, after as many nodes as steps had put there before |
| CachedView.OneByteOnePlace | polylib/src/io_buffered.c:511-520 | In a cache in any reachable state different bytes belong at different device positions, below the cursors, and those of clean entries are there |
| CachedView.SaneUnique | polylib/src/io_buffered.c:58-189 | A cache in one state stands for at most one file |
| CachedIo.Cache.Read | polylib/src/io_buffered.c:58-189 | With anything happening in the background between nodes, the slice of the plain file; too many bytes exactly when OverReads |
| CachedIo.ReadOn | polylib/src/io_buffered.c:86-108 | The count computed for a node is right, except in a last node that the read begins in |
| CachedIo.OverReadExample | polylib/src/io_buffered.c:95-102 | Three bytes from position four of a six-byte file |
| CachedIo.Cache.Write | polylib/src/io_buffered.c:373-555 | For a write beginning anywhere, with anything happening in the background between nodes: how many bytes are taken, what gap is exposed, what state is reached, that it stands for the plain file after the write if and only if the write is Right, and that the written file is read back if and only if ReadsRight; the new nodes are on the devices in the placement sequence, in order, and windows follow one another on each device; the size is advanced in any case |
| CachedWrites.NearRight | polylib/src/io_buffered.c:400-535 | A write that begins in the contents or the last node is right exactly when it is kept and the gap exposed is zeros |
| CachedWrites.NearReads | polylib/src/io_buffered.c:58-189 | And every byte of the plain file after the write is read exactly then |
| CachedStrays.FarRight | polylib/src/io_buffered.c:471-535 | A write that begins further on is wrong, except for zeros in the node after a full one, with anything happening in the background |
| CachedReadBack.FarReads | polylib/src/io_buffered.c:471-535 | After such a write some byte of the plain file is not read, or read wrong, except for zeros that the new nodes have room for, exactly |
| CachedReadBack.SaneReads | polylib/src/io_buffered.c:86-148 | A cache that stands for a file is read, byte by byte, as that file, and nothing after its end |
| CachedIo.Cache.ReadByte | polylib/src/io_buffered.c:58-189 | A read of one byte, in any state: from the first node that has the position, if the byte is in use there |
| CachedWrites.PristineGap | polylib/src/io_buffered.c:496-497 | A node that has had its buffer since it was made exposes zeros, whatever memory holds |
| CachedStale.Evictable | polylib/src/cache.c:365-540 | From any state, background actions lead to one in which a given node has no buffer |
| CachedStale.StaleReached | polylib/src/io_buffered.c:413-437 | So from any state one is reached in which a write that leaves a gap in the node exposes what memory held, at once or after a reload |
| CachedIo.Cache.Grow | polylib/src/io_buffered.c:471-534 | New nodes take all bytes but an odd last one, with anything happening in the background before each; the file grows by them if they begin where its full nodes end; otherwise what the new nodes are |
| CachedIo.Cache.Fsync | polylib/src/cache.c:671-723 | Afterwards the devices alone hold the whole file |
| CachedIo.Cache.Free | polylib/src/cache.c:598-669 | From any mix of dirty, clean and evicted nodes, no buffer and no link is left and the devices alone hold the whole file |
| CachedIo.RebuildSane | polylib/src/cache.c:598-669 | Rebuilding from placement, offset and size gives the contents when nothing is dirty |
| Dispatch.MaskIsModulo | polylib/src/cache.c:467-467 | Masking with the number of queues less one is the remainder, for a power of two |
| Dispatch.EvenShares | polylib/src/cache.c:465-474 | Shares of the queues differ by at most one |
| Dispatch.ShareAt | polylib/src/cache.c:465-474 | Queue q of nr gets the entries dealt q-th, q + nr-th, q + 2 nr-th and so on, in order |
| Dispatch.Lists.Dispatch | polylib/src/cache.c:439-484 | The shortest oldest-first prefix of live entries that brings the total below the threshold, or all; dealt in turn, order kept; exactly the entries of removed files in that prefix leave, all other links are conserved |
| ThreadPool.StepInv | polylib/src/thpool.c:317-385 | Every step of every thread keeps the invariant |
| ThreadPool.RunInv | polylib/src/thpool.c:317-385 | The invariant holds in every state of every run, for any number of workers and waiters |
| ThreadPool.Counts | polylib/src/thpool.c:435-456 | In every state of every run there are as many jobs as push steps so far, and as many finished ones as finish steps |
| ThreadPool.EveryJob | polylib/src/thpool.c:435-488 | In every state of every run each job pushed is in the queue, with a worker, or finished |
| ThreadPool.NotStranded | polylib/src/thpool.c:435-488 | A job that some step has pushed is finished, with a worker, or in the queue, and then someone has posted, is about to, or has taken the token and not yet pulled |
| ThreadPool.NoSleepingOnTheJob | polylib/src/thpool.c:541-548 | When all workers sleep and nobody is pushing, the queue is empty and as many jobs have finished as push steps were made |
| ThreadPool.NeverStuck | polylib/src/thpool.c:317-385 | While there is work, some step that needs no outside cause is possible |
| ThreadPoolProgress.ComesToRest | polylib/src/thpool.c:317-385 | Left alone from any reachable state, the pool makes at most a stated number of steps, whatever the schedule |
| ThreadPoolProgress.AtRestAllDone | polylib/src/thpool.c:197-203 | When no step is possible without outside cause, the queue is empty, exactly as many jobs have finished, and as many finish steps been made, as there were push steps, every wait has returned and all workers sleep |
| ThreadPool.FirstInFirstOut | polylib/src/thpool.c:435-488 | The k-th push of a run puts job k at the end of the queue, and the k-th pull takes job k |
| ThreadPool.OneWorkerEach | polylib/src/thpool.c:349-376 | No job is with two workers, or with one after it has finished |
| ThreadPool.WaitIsSound | polylib/src/thpool.c:197-203 | A wait returns only when its last read of the queue length found the queue empty and every job pushed by a step before that read has finished |
| ThreadPool.SleepersHaveCause | polylib/src/thpool.c:197-203 | A sleeping waiter implies a job in the queue or a worker counted as working |
| JobQueue.Queue.Push | polylib/src/thpool.c:435-456 | Appends to the sequence that the links stand for |
| JobQueue.Queue.Pull | polylib/src/thpool.c:462-488 | Takes the first element; posts exactly when more than one was queued |
| CacheMemory.OneBit | polylib/src/util.c:112-122 | Setting or clearing a bit changes that bit and no other |
| CacheMemory.Decode | polylib/src/cache_mm.c:35-40 | Decoding inverts encoding for every byte of a buffer |
| CacheMemory.Apart | polylib/src/cache_mm.c:35-40 | Buffers lie in the mapping and share no byte |
| CacheMemory.LiveApart | polylib/src/cache_mm.c:83-110 | Buffers in use lie in the mapping, and different ones share no byte |
| CacheMemory.Allocator.Alloc | polylib/src/cache_mm.c:83-110 | The first free buffer of the CPU joins the live ones; none exactly when all 4096 bits are set |
| CacheMemory.Allocator.Free | polylib/src/cache_mm.c:112-125 | Exactly one bit is cleared, that of the buffer the address is in |
| Placement.Scheduler.Register | polylib/src/context.c:45-57 | A task with zero statistics, fast exactly if fewer tasks than the split point were active; usage still counts the fast tasks and stays within the split point, although the active count is tested |
| Placement.Scheduler.Delete | polylib/src/context.c:83-92 | The same when a task leaves |
| Placement.Scheduler.Epoch | polylib/src/placement.c:67-112 | The same over an epoch; exactly which tasks end up on the fast device, from the count of those before and after them; it ends at the split point, or every slow task is followed by one idle for too long; the total throughput |
| Placement.FullOrAllFast | polylib/src/placement.c:67-112 | An epoch without a demotion ends at the split point or with all tasks fast |

## Left out

- Fileset.Shelf.PickWaiting: other threads only release entries while one waits; selections by them in between are not modelled.
- Populate.FileSet.Populate: the letters of names, the size kept in each entry and the skip for a set that is already populated are not modelled.
- DirectIo.File.Write: exhaustion of the per-inode node table and races between two threads that extend one file are not modelled.
- CachedIo.Cache.Write: what is read back after a write beyond the last node is said for no background action between its nodes; writing such a node back may run over the next window.
- CachedIo.Cache.Add: memory for a buffer is always found. The callers do not handle poly_cache_mm_alloc returning NULL (polylib/src/io_buffered.c:132, 417, 496); CacheMemory.Allocator.Alloc says when it does.
- CachedIo.Cache.Run: one thread at a time adds nodes, as the kernel's inode lock ensures in the original.
- Dispatch.Lists.Dispatch: the 32-bit round-robin counter does not wrap; the overwritten total cache size is not a sum and is not described.
- ThreadPool.RunInv: destroying, pausing and resuming a pool are not modelled.
- JobQueue.Queue.Pull: clearing a queue is not modelled.
- Placement.Scheduler.Epoch: counters change atomically; the branch for file copies is not modelled.
- avl_insert_here and avl_update: positions come from a search here, and keys do not change.
- fileset_pickreset, which steps on from an entry already moved to another tree.
- poly_cache_drop, page-level caching and the policy that maps fast files instead of caching them.
- The end-of-file rule of cached appends; only the creation of their nodes, which cached writes share, is modelled.
- Truncation, the system-call shim, ioctl traffic, path handling and opening of files.
- The interval tree itself, statistics, random distributions, benchmarks and the other Filebench, GraphWalker and Redis code.
