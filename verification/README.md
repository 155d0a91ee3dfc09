# Verified models of the nginx core data structures

Dafny models of the self-contained, stateful parts of the C core in `client/src/core` (nginx 1.14.0), with proofs of
what those parts are for: the slab allocator, the red-black tree, the interprocess locks and the thread pool, the
open file cache, the output chain, the packed and the wildcard hash, the radix tree, HTTP dates, IPv6 text, and the
sorting of intrusive lists. All paths below are relative to the root of the repository.

How the models are built:

- **Words.** A machine word is a `nat` below 2^64. Bit operations, wrap-around and the signed reading of a word are
  written out (`Words.dfy`). Pages have 4096 bytes.
- **Objects updated in place** are classes: the nodes of the red-black tree are heap objects; the slab pool is arrays of
  descriptors, slots, statistics and words of memory; the packed hash is an array of bytes. Lists threaded through
  other structures (queues, radix nodes, cache entries, buffers) are stores whose indices are the pointers.
- **Methods are proved against a specification.** Ghost state names the abstract value (the in-order sequence of a
  tree, the partition of the pages and the chunks handed out, the ring of a queue, the map of a radix tree), the
  contracts say how it changes, and the lemmas say what it promises.
- **Protocols** (`Shmtx.dfy`, `Rwlock.dfy`, `ThreadPool.dfy`) are step systems: every atomic read, compare-and-set,
  addition and semaphore operation is one step, any process may take the next one, and the theorems hold in every
  state of every sequence of steps.
- **The outside world** enters as a parameter or an arbitrary choice: the file system answers one snapshot per call,
  the filter below the output chain takes any prefix of what it has and answers anything, a read from a file may fail
  or be deferred.

| files | what is modelled |
|---|---|
| `RbShape`, `RbOrder`, `RbTree` | red-black tree: rebalancing on values, the three orders, and the linked tree |
| `SlabList`, `SlabRuns`, `SlabSteps` | slab page layer: lists of descriptors, runs of pages, the effect of each write |
| `SlabChunks`, `SlabScan`, `SlabCuts`, `SlabBlocks` | slab chunk layer: three bitmap encodings, and the blocks handed out |
| `SlabPool` | the allocator itself |
| `Processes`, `Shmtx`, `Rwlock`, `ThreadPool` | locks and the queue of the thread pool |
| `FileCache`, `OpenFileCache` | open file cache: the invariant and what keeps it, the operations |
| `Bufs`, `OutputChain` | buffers, what a filter takes, and the output chain |
| `Hash`, `Wildcard`, `WildcardPacked` | packed hash; wildcard names and what matches best; their nested packed tables in memory |
| `Radix` | radix tree, 32 and 128 bits alike |
| `Calendar`, `HttpTime` | Gregorian calendar by stepping days; broken-down time, printing and parsing |
| `Inet6` | IPv4 and IPv6 text |
| `Queue` | linked rings: splicing, middle, stable sort |
| `Words` | words, bits and small arithmetic |

## Model

| member | source | states |
|---|---|---|
| SlabPool.SlabPool.constructor | client/src/core/ngx_slab.c:98-165 | a new pool is sound: its pages are one free run, no block is outstanding, every slot list is empty, and page area, descriptors and head fit between the two addresses given |
| SlabPool.PagesFit | client/src/core/ngx_slab.c:132-157 | the page area starts on the first page boundary behind the slots, statistics and descriptors, ends before the end, and leaves less than two pages unused |
| SlabPool.SlabPool.AllocLocked | client/src/core/ngx_slab.c:183-417 | a block is returned that was outstanding nowhere before, with every other block where and as long as it was and with all its words unchanged; none is returned only when, for a small request, every page is taken and on each page of chunks of that size a block is outstanding at every multiple of the size behind the bytes of the bitmap (one bit for each chunk of the page), and for a large one, when any that many pages in a row contain a taken one; `reqs` and `fails` of that slot count the call and no other statistic of another slot moves; the pool stays sound |
| SlabPool.SlabPool.FreeLocked | client/src/core/ngx_slab.c:460-675 | exactly an address that is outstanding is given back, all other blocks staying where they were with all their words unchanged; every other address is refused and nothing changes; requests and failures are not touched; the pool stays sound |
| SlabPool.SlabPool.OutstandingDisjoint | client/src/core/ngx_slab.c:183-417 | in a sound pool two blocks outstanding never overlap |
| SlabPool.SlabPool.OutstandingInside | client/src/core/ngx_slab.c:183-417 | a block outstanding lies inside the pages and behind the bitmap at the head of its page |
| SlabPool.SlabPool.NothingOutstanding | client/src/core/ngx_slab.c:734-811 | when nothing is outstanding the free list is one run of all pages and every slot list is empty |
| SlabBlocks.BlocksDisjoint | client/src/core/ngx_slab.c:183-417 | any two blocks of a laid out and consistently cut pool are disjoint, whatever their pages and sizes |
| SlabBlocks.BlockInside | client/src/core/ngx_slab.c:335-367 | a block ends inside the pages; a small chunk starts behind the bitmap words of its page |
| SlabBlocks.EmptyPool | client/src/core/ngx_slab.c:734-811 | without outstanding blocks the coalescing has left exactly one free run |
| SlabBlocks.BlockFits | client/src/core/ngx_slab.c:191-216 | the block is at least as long as the request; it has the minimum size for a request up to that, and is otherwise less than twice as long and less than a page longer |
| SlabBlocks.CountedChange | client/src/core/ngx_slab.c:249-249 | `used` and `total` of a slot go on telling the outstanding chunks and the capacity of its pages when a page changes and they move by the difference |
| SlabPool.SlabPool.AllocPages | client/src/core/ngx_slab.c:678-731 | the first n pages of a free run become a busy run and nothing else changes hands; null is returned only when no n adjacent pages are free |
| SlabPool.SlabPool.SplitRun | client/src/core/ngx_slab.c:687-696 | the rest of a longer run takes its place in the free list, with its head and end pointing to each other |
| SlabPool.SlabPool.FreePages | client/src/core/ngx_slab.c:734-811 | the pages become free, are joined with both neighbours if those are free, and no two free runs are adjacent afterwards |
| SlabPool.SlabPool.JoinNext | client/src/core/ngx_slab.c:754-773 | the run behind is absorbed if it is free; what follows then is taken |
| SlabPool.SlabPool.JoinPrev | client/src/core/ngx_slab.c:775-799 | the run before, found through the back pointer of its last page, absorbs the freed one if it is free; what precedes then is taken |
| SlabPool.SlabPool.ChunkShift | client/src/core/ngx_slab.c:208-216 | the loop finds the smallest shift, at least the minimum, whose chunks hold the request |
| SlabPool.SlabPool.AllocChunk | client/src/core/ngx_slab.c:218-409 | a chunk of that size not outstanding before is handed out; failure means that no page of the size has a free chunk and no page is free |
| SlabPool.SlabPool.AllocWhole | client/src/core/ngx_slab.c:191-205 | whole pages are handed out; failure means that no run of that many free pages exists |
| SlabPool.SlabPool.TakeSmall | client/src/core/ngx_slab.c:228-269 | a chunk free before is marked in the bitmap at the head of the page, and the page leaves its slot list exactly when it becomes full |
| SlabPool.SlabPool.TakeExact | client/src/core/ngx_slab.c:271-294 | the same with the bitmap in the descriptor word |
| SlabPool.SlabPool.TakeBig | client/src/core/ngx_slab.c:296-325 | the same with the bitmap in the upper half of the descriptor word |
| SlabPool.SlabPool.CutPage | client/src/core/ngx_slab.c:332-404 | a fresh page is cut into chunks, the first one behind the bitmap is handed out, and the page is the only one on its slot list |
| SlabPool.SlabPool.Relink | client/src/core/ngx_slab.c:500-512 | a full page that loses a chunk comes back to the head of its slot list with its kind |
| SlabPool.SlabPool.ReturnChunk | client/src/core/ngx_slab.c:484-615 | undoes the handing out of exactly that chunk; a page left empty goes back to the page layer |
| SlabPool.SlabPool.ReturnPages | client/src/core/ngx_slab.c:620-645 | undoes the handing out of exactly those pages |
| SlabChunks.Sizes | client/src/core/ngx_slab.c:335-342 | for every shift the chunks fill the page; the bitmap of a small page fits in the chunks reserved for it, needs the last of them, and leaves at least one chunk; other pages reserve none |
| SlabBlocks.NoChunkLeft | client/src/core/ngx_slab.c:335-367 | when no page is free and no page of the size has a free chunk, a block is outstanding at every address that a chunk of that size can have |
| SlabChunks.MarkCut | client/src/core/ngx_slab.c:236-247 | setting the bit of a free chunk, in any of the three encodings, adds exactly that chunk to those in use |
| SlabChunks.ClearCut | client/src/core/ngx_slab.c:490-498 | clearing the bit removes exactly that chunk, in any of the three encodings |
| SlabChunks.FullSmall | client/src/core/ngx_slab.c:251-256 | the words of a small page are all ones if and only if every chunk is in use |
| SlabChunks.FullExact | client/src/core/ngx_slab.c:280-280 | the descriptor word is all ones if and only if all 64 chunks are in use |
| SlabChunks.FullBig | client/src/core/ngx_slab.c:298-311 | the upper half equals the mask if and only if every chunk is in use |
| SlabChunks.EmptySmall | client/src/core/ngx_slab.c:514-531 | the bits other than those of the bitmap's own chunks are clear if and only if nothing is in use |
| SlabChunks.EmptyExact | client/src/core/ngx_slab.c:567-569 | the word is zero if and only if nothing is in use |
| SlabChunks.EmptyBig | client/src/core/ngx_slab.c:607-609 | the upper half is zero if and only if nothing is in use |
| SlabChunks.FreshSmall | client/src/core/ngx_slab.c:344-367 | the first words written mark the reserved chunks and the one handed out, and no other |
| SlabChunks.FreshBig | client/src/core/ngx_slab.c:391-399 | the first word marks one chunk and carries the shift, without one disturbing the other |
| SlabScan.FindSmall | client/src/core/ngx_slab.c:234-247 | the scan finds the lowest clear bit of the first word that has one |
| SlabScan.FindBig | client/src/core/ngx_slab.c:298-309 | the scan below the mask finds the lowest free chunk |
| RbTree.RbTree.Insert | client/src/core/ngx_rbtree.c:24-93 | the node enters the in-order sequence at one place and nothing else changes; the tree is again a linked red-black tree with correct parent pointers, of height at most 2 log2(n + 1); the sequence is sorted afterwards if and only if it was before and the order is coherent on the keys: always for plain and string order, for timers just when the keys lie in a window of half the range |
| RbTree.TimersUnsorted | client/src/core/ngx_rbtree.c:121-153 | three timers put in a new tree leave it unsorted |
| RbTree.RbTree.InsertBelow | client/src/core/ngx_rbtree.c:96-153 | the descent hangs the node, red, at a leaf whose path follows the order, for all three orders |
| RbTree.RbTree.PassRedUp | client/src/core/ngx_rbtree.c:53-57 | with a red uncle, recolouring moves the red-red conflict two levels up and changes no order |
| RbTree.RbTree.Straighten | client/src/core/ngx_rbtree.c:60-63 | an inner child is rotated outwards with the conflict left at the same depth |
| RbTree.RbTree.LiftParent | client/src/core/ngx_rbtree.c:65-67 | recolouring and rotating the grandparent removes the conflict |
| RbTree.RbTree.Rebalance | client/src/core/ngx_rbtree.c:46-92 | the loop restores all colour rules without changing the in-order sequence or the nodes |
| RbTree.RbTree.Delete | client/src/core/ngx_rbtree.c:156-320 | exactly the node leaves the in-order sequence, its links and key are wiped, the tree is again a linked red-black tree, and a sorted one stays sorted |
| RbTree.RbTree.DeleteSingle | client/src/core/ngx_rbtree.c:167-211 | a node with at most one child is spliced out, at the root too |
| RbTree.RbTree.DeleteDouble | client/src/core/ngx_rbtree.c:175-243 | a node with two children is replaced by its successor, adjacent or not, with a sentinel below it or not |
| RbTree.RbTree.SpliceMin | client/src/core/ngx_rbtree.c:200-243 | the successor takes place, colour and children of the node, and its own child is left with the right parent, even when that child is the sentinel |
| RbTree.RbTree.LiftSibling | client/src/core/ngx_rbtree.c:262-267 | a red sibling is rotated up: the missing black stays at the same node, whose sibling is now black |
| RbTree.RbTree.ReddenSibling | client/src/core/ngx_rbtree.c:269-271 | a black sibling with black children turns red and the missing black moves to the parent |
| RbTree.RbTree.LiftNephew | client/src/core/ngx_rbtree.c:274-279 | a red near nephew is rotated up, so that the far one is red |
| RbTree.RbTree.Repair | client/src/core/ngx_rbtree.c:281-285 | with a red far nephew the last rotation makes the whole tree red-black again |
| RbTree.RbTree.Fixup | client/src/core/ngx_rbtree.c:255-319 | the loop ends, and ends with a valid tree of the same in-order sequence, whichever sides and colours it meets |
| RbTree.RbTree.LeftRotate | client/src/core/ngx_rbtree.c:323-350 | the links of the window become those of the rotated shape and nothing outside it changes |
| RbTree.RbTree.RightRotate | client/src/core/ngx_rbtree.c:353-380 | the same on the other side |
| RbTree.RbTree.Min | client/src/core/ngx_rbtree.h:73-81 | the loop ends at the leftmost node, before which nothing of the subtree comes; in a sorted tree no key of the subtree comes before its key |
| RbTree.RbTree.Next | client/src/core/ngx_rbtree.c:383-409 | the node returned is the next in the in-order sequence; null exactly behind the last one; in a sorted tree the key of the next node does not come before that of the node |
| RbTree.RbTree.Lookup | client/src/core/ngx_string.c:1940-1980 | a node with that hash and string is found if and only if the sorted tree has one |
| RbOrder.SortedMeans | client/src/core/ngx_rbtree.c:96-153 | a sequence is sorted if and only if its keys ascend: numbers do not fall; timers are ever further ahead of the first one modulo 2^64, by less than half the range; strings go by number, then length, then the first byte that differs |
| RbOrder.MemcmpMeans | client/src/core/ngx_string.c:1920-1922 | the comparison of two strings of one length is negative if and only if the first byte that differs is smaller |
| RbOrder.NotLeftTransitive | client/src/core/ngx_rbtree.c:121-153 | the relation each insert function walks by is a weak order on coherent keys: all keys for plain and string order, a window for timers |
| RbOrder.TimerOrderNeedsWindow | client/src/core/ngx_rbtree.c:130-140 | three timers outside any window, each of which goes left of the next |
| RbOrder.SortedTimers | client/src/core/ngx_rbtree.c:130-140 | a sorted sequence of timers lies in the window that starts with its first one |
| RbOrder.FollowsSeparates | client/src/core/ngx_rbtree.c:96-118 | in a sorted tree the path of an insertion has all smaller-or-equal keys before it and all larger ones behind it |
| RbOrder.SearchedMisses | client/src/core/ngx_string.c:1940-1980 | what a search leaves aside cannot hold the key |
| Shmtx.MutualExclusion | client/src/core/ngx_shmtx.c:62-146 | in every state at most one process holds the lock, and then the lock word is its own non-zero id |
| Shmtx.WaitersBalance | client/src/core/ngx_shmtx.c:97-127 | the signed waiter count plus the semaphore plus the posts under way equals the processes registered as waiting, also while the count is negative |
| Shmtx.NoLostWakeup | client/src/core/ngx_shmtx.c:69-196 | if a process sleeps while the lock is free and the semaphore is zero, some other process is awake inside lock, or inside unlock with the waiters still to be looked at; one that merely tries the lock does not count |
| Shmtx.FreeLockTaken | client/src/core/ngx_shmtx.c:62-133 | a process that is not disturbed gets a free lock, by trylock in two steps and by lock, wherever it is awake in it, in at most four; trylock on a lock that is taken comes back without it |
| Shmtx.UnlockWakes | client/src/core/ngx_shmtx.c:136-196 | an unlock by the holder that is not disturbed frees the lock, and when more processes are registered as waiting than posts are there or under way it posts the semaphore once and counts one waiter less |
| Rwlock.LockWordMeans | client/src/core/ngx_rwlock.c:19-118 | in every state the word is all ones exactly while one writer and no reader holds the lock, and otherwise is the number of readers, across downgrades and retried compare-and-sets |
| Rwlock.WriterExcludes | client/src/core/ngx_rwlock.c:19-86 | while a process holds the lock for writing no other holds it at all |
| Rwlock.ReleaseIsOwn | client/src/core/ngx_rwlock.c:89-118 | a release or downgrade that takes effect takes away exactly the holder's own share |
| Rwlock.LockTaken | client/src/core/ngx_rwlock.c:19-86 | a writer that is not disturbed gets a free lock, and a reader a lock that no writer holds, counted once |
| Rwlock.LockReleased | client/src/core/ngx_rwlock.c:89-118 | a release that is not disturbed ends, also after a failed compare-and-set, and a downgrade leaves the lock with one reader |
| ThreadPool.ActiveInOnePlace | client/src/core/ngx_thread_pool.c:230-394 | in every state an active task is in exactly one of the queue, a worker, the done list or the detached batch, and any other task in none |
| ThreadPool.StartedInOrder | client/src/core/ngx_thread_pool.c:277-361 | tasks start in the order of posting, and each posting is completed at most once, and exactly once when it is no longer active |
| ThreadPool.WaitingMeans | client/src/core/ngx_thread_pool.c:257-327 | in every state `waiting` is the queue length, less the workers that have counted down and not dequeued yet, less one while a post is not counted yet |
| ThreadPool.QueueBounded | client/src/core/ngx_thread_pool.c:244-266 | in every state the queue has at most `max_queue` plus one task per thread |
| ThreadPool.NoTaskStranded | client/src/core/ngx_thread_pool.c:253-327 | while a thread sleeps, no more tasks are queued than threads are awake on their way to the queue; with a task queued and no thread on its way, every thread holds a task or has yet to come back for one |
| ThreadPool.NoCompletionLost | client/src/core/ngx_thread_pool.c:343-394 | while a completed task has not been fetched, the event loop has been notified or is fetching, or a thread is about to notify it; notifications that come together count once |
| ThreadPool.RefusedWhenFull | client/src/core/ngx_thread_pool.c:233-251 | a task may be posted if and only if it is not active; a post is refused only with at least `max_queue` tasks pending, and let through only with fewer than that many beyond those that threads are on their way for |
| ThreadPool.PostDone | client/src/core/ngx_thread_pool.c:239-273 | a post that is not disturbed appends its task and counts it, or, when `max_queue` are waiting, leaves everything as it was |
| ThreadPool.TaskRun | client/src/core/ngx_thread_pool.c:307-340 | a thread that is not disturbed runs the first pending task |
| OpenFileCache.Cache.constructor | client/src/core/ngx_open_file_cache.c:56-85 | an empty cache is sound |
| OpenFileCache.Cache.OpenCached | client/src/core/ngx_open_file_cache.c:143-486 | every field and the status returned are those of the entry or of the snapshot, whichever the code is to consult; entries, queue, tree and references change as the branch says; the cache is sound afterwards if and only if the inode clash below does not occur; every answer is what the last look at the file system told about the name, which is the present one or less than `valid` seconds old, and the file system is spared exactly when there was such a look with the same treatment of links and the entry was kept and is not known to be another file |
| OpenFileCache.ChangedDated | client/src/core/ngx_open_file_cache.c:271-486 | after a look at the file system every entry of the tree has the time and the outcome of the last look at its name |
| OpenFileCache.Cache.Serve | client/src/core/ngx_open_file_cache.c:230-269 | a current entry answers without a look at the file system and gains a reference |
| OpenFileCache.Cache.Reopen | client/src/core/ngx_open_file_cache.c:217-228 | an entry without a descriptor is opened again, or dropped when that fails |
| OpenFileCache.Cache.Retest | client/src/core/ngx_open_file_cache.c:271-349 | an entry that is not current is refreshed, reused, or taken off the tree while its users keep it; the result is sound if and only if there is no clash |
| OpenFileCache.Cache.NotFound | client/src/core/ngx_open_file_cache.c:352-358 | an unknown name is opened and cached, or answered with the error |
| OpenFileCache.Cache.Create | client/src/core/ngx_open_file_cache.c:360-430 | room is made by expiring at most three entries when the cache is full, fewer than three only when the last entry left is not idle, and the entry is at the head of the queue; the number of entries never exceeds the limit (one, if the limit is zero) |
| OpenFileCache.Cache.OpenAndStat | client/src/core/ngx_open_file_cache.c:839-945 | the descriptor handed back is either the old one or one freshly opened; nothing opened on the way is leaked |
| OpenFileCache.Cache.Cleanup | client/src/core/ngx_open_file_cache.c:1017-1028 | one reference is given back; the descriptor is closed only when no reference is left; the cache stays sound; at most two idle entries expire, and fewer only if the one at the end of the queue is not idle |
| OpenFileCache.Cache.CloseCached | client/src/core/ngx_open_file_cache.c:1031-1074 | the entry is freed, kept open, or kept without descriptor as its uses, references and `close` say |
| OpenFileCache.Cache.ExpireOld | client/src/core/ngx_open_file_cache.c:1094-1142 | only entries at the end of the queue go, the first of them by force if asked, the others only when idle too long; at most three |
| OpenFileCache.Cache.CacheCleanup | client/src/core/ngx_open_file_cache.c:88-140 | tree and queue are emptied, their entries freed and their descriptors closed once each, used or not; exactly the entries off the tree stay, with their descriptors; the cache is sound afterwards if and only if no entry of the tree was in use |
| OpenFileCache.CleanedInUse | client/src/core/ngx_open_file_cache.c:117-121 | a new cache, one file opened, and the cache destroyed: the descriptor is closed with a record of it outstanding |
| OpenFileCache.CollisionReached | client/src/core/ngx_open_file_cache.c:846-855 | a new cache and two calls reach an unsound cache: a file is opened, and then its name is a directory with the inode number of that file |
| OpenFileCache.OutOfTree | client/src/core/ngx_open_file_cache.c:343-349 | the entries outside tree and queue are exactly those marked for closing and still referenced, and their descriptors are open |
| OpenFileCache.SeenTells | client/src/core/ngx_open_file_cache.c:271-293 | what the second look returns for the descriptor and inode number of the entry is what entry and snapshot promise the caller, and descriptor and kind fit each other if and only if there is no clash |
| FileCache.HeldEntry | client/src/core/ngx_open_file_cache.c:436-446 | what an outstanding cleanup record refers to is there, has that descriptor open and no other owner, and counts its references |
| FileCache.Retired | client/src/core/ngx_open_file_cache.c:343-347 | taking a referenced entry off the tree and marking it keeps the cache sound |
| FileCache.Freed | client/src/core/ngx_open_file_cache.c:455-471 | freeing an unreferenced entry with its descriptor keeps the cache sound |
| FileCache.Returned | client/src/core/ngx_open_file_cache.c:1058-1073 | giving back a reference to an entry off the tree keeps the cache sound, and the last one frees it |
| OutputChain.Ctx.Output | client/src/core/ngx_output_chain.c:45-224 | on every answer but an error: the bytes sent, then those the filter keeps, then those left in the input are the bytes submitted, in order; at most `num` buffers are allocated; the context stays sound unless the filter wants nothing more; an answer from the filter leaves no input behind, and `Again` with input left means a read is pending or all buffers are in use; even after an error what was sent and is kept is a prefix of what was submitted; the filter is only ever called with buffers it can take, and is called once by a flush with nothing waiting |
| OutputChain.Ctx.constructor | client/src/core/ngx_output_chain.c:46-56 | a context with the configuration given and nothing waiting is sound |
| OutputChain.Ctx.ShortPath | client/src/core/ngx_output_chain.c:52-76 | when nothing waits, an empty chain or a single buffer that need not be copied goes straight to the filter, in one call and with no byte lost or reordered; in every other case the filter is not called |
| OutputChain.Ctx.Gather | client/src/core/ngx_output_chain.c:98-203 | the copy loop ends and moves input to the chain without losing or reordering a byte; every buffer in the chain is special or can be taken by the filter: sent from a file only if that is allowed and the file is not read past the page cache, in memory and in writable memory if that is needed; of the input dealt with exactly the buffers that are special or not empty and need not be copied are in the chain themselves; the loop stops early only at a buffer that must be copied, for want of a buffer to copy to or a pending read |
| OutputChain.Ctx.CopyNext | client/src/core/ngx_output_chain.c:141-202 | a buffer that must be copied is copied whenever there is a buffer to copy to and its bytes can be read; the copy is one the filter can take |
| OutputChain.Ctx.Run | client/src/core/ngx_output_chain.c:90-223 | the loop of gathering, filtering and taking back buffers ends and keeps every byte |
| OutputChain.Ctx.AsIs | client/src/core/ngx_output_chain.c:227-281 | a buffer may be passed on exactly when special, or readable the way the filter needs; its content is not changed by the flags set on it; one that may be passed on can be taken by the filter as it is left |
| OutputChain.Ctx.AlignFileBuf | client/src/core/ngx_output_chain.c:375-422 | only an unaligned or short direct read gets a buffer of its own, which ends on the next boundary |
| OutputChain.Ctx.GetBuf | client/src/core/ngx_output_chain.c:425-498 | a fresh empty buffer of the configured size, or of the size of the last small piece; one more is counted, and the limit is kept |
| OutputChain.Ctx.CopyBuf | client/src/core/ngx_output_chain.c:501-652 | as many bytes as fit are moved from the front of the source to the target, with the last flags exactly when the source is used up; an error or deferred read changes nothing; the copy is in temporary memory only, and also in the file just when source, configuration and direct I/O allow that |
| OutputChain.Ctx.UpdateChains | client/src/core/ngx_buf.c:183-222 | only buffers wholly sent are taken back, from the front of the busy list, those of this chain reset and put on the free list; no byte waiting is overwritten |
| OutputChain.Copied | client/src/core/ngx_output_chain.c:173-202 | copying into the buffer being filled and appending it to the chain keeps the bytes not sent and the places of all buffers |
| OutputChain.Released | client/src/core/ngx_buf.c:210-220 | resetting a buffer wholly sent changes no byte that waits |
| Bufs.UpdateSent | client/src/core/ngx_buf.c:270-313 | the chain returned holds exactly the bytes behind the first `sent`, and no buffer outside the chain changes |
| Hash.ChooseSize | client/src/core/ngx_hash.c:260-330 | the first size from the starting one whose 16-bit sums all pass is chosen, all before it failed; if none passes it is the maximum; it fails exactly when the maximum is zero or a key is too long for a bucket |
| Hash.SearchExact | client/src/core/ngx_hash.c:293-316 | the search accepts a size just when every bucket has room, for all keys that each fit in a bucket and all sizes, if and only if buckets are smaller than 2^15 + 8 bytes |
| Hash.AcceptedFits | client/src/core/ngx_hash.c:293-316 | with such buckets the layout of an accepted size fits in 16 bits |
| Hash.SearchInexact | client/src/core/ngx_hash.c:302-313 | for every larger bucket size, keys that one bucket is accepted for without having room |
| Hash.SearchRefuses | client/src/core/ngx_hash.c:311-313 | where the limit is a multiple of 2^16 every size is refused for any shorter key, also for a single key in a bucket of its own |
| Hash.ChosenFits | client/src/core/ngx_hash.c:284-332 | with buckets below 2^15 + 8 bytes, if any size allowed has room for the keys then the size chosen has room, fits in 16 bits, and is no larger, counting from a single bucket when no key is gone; for a large table with many keys only the last 1001 sizes are tried |
| Hash.RoomNeeded | client/src/core/ngx_hash.c:284-291 | as an element takes at least 16 bytes, sizes below the start of the search have no room |
| Hash.SearchWraps | client/src/core/ngx_hash.c:302-313 | with larger buckets the 16-bit sum wraps: two keys of 40000 bytes are accepted in one bucket of 50008 |
| Hash.Build | client/src/core/ngx_hash.c:332-423 | the table built is packed: every element lies at its place with value, length and lower-case name, every used bucket ends with a null value |
| Hash.PlaceInside | client/src/core/ngx_hash.c:399-413 | an element and the null word behind the last one lie inside the room of their bucket; elements and buckets are no longer than rounding to words and cache lines makes them |
| Hash.PlacesApart | client/src/core/ngx_hash.c:399-413 | no two elements overlap, in one bucket or in two |
| Hash.EndApart | client/src/core/ngx_hash.c:415-423 | the null word that ends a bucket overlaps no element |
| Hash.Find | client/src/core/ngx_hash.c:12-49 | the walk over the bytes returns the value of the first element of the bucket with that name, and zero exactly when there is none |
| Hash.BuildThenFind | client/src/core/ngx_hash.c:12-461 | built from distinct lower-case keys, the table returns the value of each key and zero for every other name |
| Hash.Init | client/src/core/ngx_hash.c:251-461 | the table is built with the first size accepted, or with the largest one when none is, and is packed whenever the buckets of that size fit in 16 bits; it is refused exactly when a key is too long for a bucket or no bucket is allowed |
| Hash.InitThenFind | client/src/core/ngx_hash.c:12-461 | choosing the size, building and finding in sequence agree with the map whenever the buckets of the size chosen fit in 16 bits, also where that is the fall back to the largest size |
| WildcardPacked.BuildThenFind | client/src/core/ngx_hash.c:52-606 | on nested packed tables in memory built from sorted, conflict-free names, the lookup returns the value of the longest matching pattern, or null if none matches; building fails only when some level's keys, no more and no longer than the names, are refused or too large for 16 bits |
| WildcardPacked.FindHead | client/src/core/ngx_hash.c:52-143 | hashing the last label, walking the packed bucket, telling data from tables by the two low bits, and falling back to the value of the level compute the specified lookup |
| WildcardPacked.Init | client/src/core/ngx_hash.c:464-606 | one packed level and those below it are added to the store, the tables there before staying as they are; for every name, what the level serves is the best match among the names given |
| WildcardPacked.InitGroup | client/src/core/ngx_hash.c:489-595 | the names sharing a last label become one value, data or the tagged address of a table, that serves every name ending in that label |
| WildcardPacked.LabelFound | client/src/core/ngx_hash.c:82-82 | what the packed hash of a level yields for a label stands for the entry of that label, and is null exactly when the level has none |
| Wildcard.GroupBest | client/src/core/ngx_hash.c:563-589 | the best match in a group is the best among its tails, else the bare name |
| Wildcard.BestIsOne | client/src/core/ngx_hash.c:464-606 | among sorted, conflict-free names the longest match is unique |
| Wildcard.MatchesMeans | client/src/core/ngx_hash.c:85-143 | a name matches a pattern if and only if it ends in a dot and the pattern with its labels put in order, or is that and the pattern is not a wildcard alone |
| Wildcard.DepthIsLength | client/src/core/ngx_hash.c:120-143 | of two patterns that match a name the one with more labels is the longer text |
| Radix.Tree.Find | client/src/core/ngx_radix_tree.c:236-263 | the value of the longest prefix in the map, or none exactly when no prefix is in it |
| Radix.Tree.Insert | client/src/core/ngx_radix_tree.c:108-170 | busy exactly when the prefix has a value, and then nothing changes; otherwise exactly it is added |
| Radix.Tree.Delete | client/src/core/ngx_radix_tree.c:173-233 | succeeds exactly when the prefix is present and removes exactly it, with the nodes that served only it |
| Radix.Tree.Alloc | client/src/core/ngx_radix_tree.c:463-488 | a node from the free list or a new one, in the tree nowhere |
| Radix.Tree.Prunes | client/src/core/ngx_radix_tree.c:205-230 | the loop upwards unlinks the leaf and every ancestor left without value and children, and no other |
| Radix.InsertThenDelete | client/src/core/ngx_radix_tree.c:108-233 | deleting what was freshly inserted restores the map and the set of nodes |
| Radix.NodesArePrefixes | client/src/core/ngx_radix_tree.c:205-230 | the nodes of the tree are exactly the root and the prefixes of what is in the map |
| HttpTime.Gmtime | client/src/core/ngx_times.c:327-429 | the fields are those of the date reached by stepping day by day from January 1, 1970, a Thursday, held at zero below and at the end of 9999 above |
| Calendar.GuessedYear | client/src/core/ngx_times.c:366-384 | the year guessed from the day number is right or one too high, never more |
| Calendar.DateFrom | client/src/core/ngx_times.c:386-420 | the formulas turn the day of the March year into month and day of the Gregorian calendar |
| Calendar.NumberDateAt | client/src/core/ngx_times.c:246-367 | the closed day number counts the days stepped, and the weekday goes with it |
| Calendar.LastDay | client/src/core/ngx_times.c:342-350 | 2932896 is the last day before the year 10000 |
| HttpTime.Print | client/src/core/ngx_times.c:282-297 | the text is the 29 characters of IMF-fixdate (section 7.1.1.1 of RFC 7231) |
| HttpTime.Parse | client/src/core/ngx_parse_time.c:14-277 | exactly the texts with a meaning are accepted, in the three formats, and their value is returned; what a text means is settled by the next rows |
| HttpTime.SecondsCount | client/src/core/ngx_parse_time.c:223-266 | for every day and time of the years 1 to 9999 written with that many digits, the range checks pass if and only if hour, minute and second exist and the day is at most the last of its month, and the formula then is the number of seconds |
| HttpTime.ImfMeans | client/src/core/ngx_parse_time.c:14-277 | an IMF-fixdate text with any digits means the instant it names, or nothing if hour, minute, second or day are too large |
| HttpTime.Rfc850Means | client/src/core/ngx_parse_time.c:14-277 | so does a text in the form of RFC 850, with the weekday in full and two digits of the year, for the years 1970 to 2069 |
| HttpTime.AsctimeMeans | client/src/core/ngx_parse_time.c:14-277 | so does a text in the form of asctime(), with the day in two digits, in one, or in one after a blank |
| HttpTime.Examples | client/src/core/ngx_parse_time.c:14-277 | the three spellings of the example date of section 7.1.1.1 of RFC 7231 mean 784111777 |
| HttpTime.Accepted | client/src/core/ngx_parse_time.c:14-277 | every text that means something contains one of the three forms, with the first letter of the month, exact separators and a time of day that exists, and means the instant it shows |
| HttpTime.DayZero | client/src/core/ngx_parse_time.c:224-235 | a text is accepted without naming a day of the calendar if and only if only its day, 0, is wrong |
| HttpTime.RoundTrip | client/src/core/ngx_times.c:282-429 | for every t from 0 to the end of 9999, the text printed for t means t |
| HttpTime.PrintThenParse | client/src/core/ngx_parse_time.c:14-277 | the two programs in sequence return t; negative times come back as 0, later ones as the last second of 9999 |
| Inet6.LongestRun | client/src/core/ngx_inet.c:304-330 | the loop finds the leftmost longest run of two or more zero words (section 4.2 of RFC 5952) |
| Inet6.HexPlain | client/src/core/ngx_inet.c:355-355 | a group is printed without leading zeros and in small letters (sections 4.1 and 4.3 of RFC 5952) |
| Inet6.DottedMeans | client/src/core/ngx_inet.c:337-346 | an address is printed with a dotted tail if and only if its first ten bytes are zero and the next two are 255, or are zero with a tail that has a first or second byte, or a third one and a last one other than 1 |
| Inet6.TextFits | client/src/core/ngx_inet.c:300-302 | the text never exceeds the length the caller must provide |
| Inet6.Parse | client/src/core/ngx_inet.c:62-175 | exactly the texts with a meaning are accepted and the address they mean is written, the part behind the double colon moved to the end in place |
| Inet6.CaseIgnored | client/src/core/ngx_inet.c:134-142 | texts that differ in the case of letters only mean the same |
| Inet6.PlainText | client/src/core/ngx_inet.c:85-149 | a text without dots that means something consists of hexadecimal digits and colons, with no five digits in a row and "::" in one place at most |
| Inet6.FullText | client/src/core/ngx_inet.c:62-175 | the text of an address with all eight groups means that address |
| Inet6.FullDotted | client/src/core/ngx_inet.c:106-124 | the text with six groups and a dotted tail means the address, unless the tail is four 255s |
| Inet6.InetAddr | client/src/core/ngx_inet.c:17-57 | the value of a dotted quad, and the all-ones error value for every other text |
| Inet6.RoundTrip | client/src/core/ngx_inet.c:62-367 | the text of an address means that address, unless the address is one of the two misread, whose text is rejected |
| Inet6.MisreadDotted | client/src/core/ngx_inet.c:113-121 | the addresses misread are exactly those printed with a dotted tail of four 255s |
| Inet6.PrintThenParse | client/src/core/ngx_inet.c:293-367 | printing and parsing in sequence gives the address back, if and only if it is not one of the two |
| Queue.Queues.Sort | client/src/core/ngx_queue.c:48-80 | the links form one ring again, of the sorted sequence of the same elements |
| Queue.Queues.Seek | client/src/core/ngx_queue.c:69-76 | the backward walk stops behind the last element not larger than the one to place |
| Queue.SortedAscends | client/src/core/ngx_queue.c:48-80 | the sorted sequence ascends and has the same elements, for any total preorder |
| Queue.SortedStable | client/src/core/ngx_queue.c:48-80 | elements not in the wrong order keep their order |
| Queue.Queues.Middle | client/src/core/ngx_queue.c:17-45 | the two cursors stop with the middle at index n / 2 |
| Queue.Queues.Remove | client/src/core/ngx_queue.h:80-82 | the ring without that element |
| Queue.Queues.InsertAfter | client/src/core/ngx_queue.h:33-40 | the ring with that element at that place |
| Queue.Queues.Split | client/src/core/ngx_queue.h:87-93 | two rings, the elements before and those from the one given |
| Queue.Queues.Add | client/src/core/ngx_queue.h:96-100 | one ring, the second list behind the first |

## Findings

Where the code does less than it is for, the model keeps the code, and the exact condition is proved.

| finding | source | proved by |
|---|---|---|
| An open entry of the file cache is compared with the file system by inode number alone. When the name has become a directory on another file system with the same number, the descriptor is kept with the new kind: a directory's entry then holds a descriptor that has just been closed, or that an entry off the tree owns. | client/src/core/ngx_open_file_cache.c:846-855 | `OpenFileCache.Cache.OpenCached`: the cache is sound after a call if and only if `Collides` is false, which is decided before the call from the entry, the request and the file; `OpenFileCache.CollisionReached` gets there from an empty cache |
| Destroying the cache closes the descriptors of all entries in the tree, also of those in use, whose records then refer to freed entries. | client/src/core/ngx_open_file_cache.c:117-121 | `OpenFileCache.Cache.CacheCleanup`: the cache is sound afterwards if and only if no outstanding record is for an entry in the tree; `OpenFileCache.CleanedInUse` gets there from an empty cache |
| The size search of the packed hash adds element sizes, and compares with the limit, in 16 bits. In large buckets a sum can wrap and an overfull bucket pass; a limit that is a multiple of 2^16 counts as zero and refuses every size. | client/src/core/ngx_hash.c:302-313 | `Hash.SearchExact`: the search is exact for all keys if and only if the bucket size is below 2^15 + 8; `Hash.SearchInexact` and `Hash.SearchWraps` give keys for one failure, `Hash.SearchRefuses` for the other |
| Two addresses, `::255.255.255.255` and `::ffff:255.255.255.255`, are printed as texts the parser rejects, because the value of the dotted tail is the error value. | client/src/core/ngx_inet.c:113-121 | `Inet6.RoundTrip` and `Inet6.PrintThenParse`: reading back fails if and only if `Misread` |
| A date whose day is 00 is accepted, and taken as the day before the first of the month. | client/src/core/ngx_parse_time.c:224-235 | `HttpTime.DayZero`: this happens if and only if everything else about the date and time exists; `HttpTime.DayZeroTaken` has a text |
| The order of timers is not transitive on arbitrary keys, and a tree of timers need not be sorted. | client/src/core/ngx_rbtree.c:130-140 | `RbTree.RbTree.Insert`: the tree is sorted after an insertion if and only if it was before and all keys, with the new one, lie in a window of half the range; `RbTree.TimersUnsorted` builds an unsorted tree of three |

## Left out

- Slab pool: allocation for the caller with logging, zeroing and junk fill (`ngx_slab_calloc`, debug code). They add nothing to the layout.
- SlabPool.SlabPool.FreeLocked: the address of one of the chunks that hold a bitmap, at the head of a page, is excluded, because the code would take it for a chunk handed out; so is an address in the slack behind the last page, because the code would read a descriptor that is not there.
- The back pointer of the last page of a new pool is not set by the code and never read; the invariant exempts it.
- RbTree.RbTree.Lookup: two strings with the same hash and length compare by `memcmp`; the string order is that of `ngx_str_rbtree_insert_value`, and trees built with another insert function are not searched.
- Shared mutex: the file-lock branch, `ngx_shmtx_force_unlock` after a crash, spin counts, pauses and semaphore errors. `ngx_spinlock.c` is not modelled.
- Read-write lock: spin counts and pauses.
- Thread pool: creation and destruction of threads, failing calls of the thread library and of the notification, and shutdown tasks.
- OpenFileCache.Cache.OpenCached: the branch without a cache, `test_only`, vnode events, the symlink walk with `openat`, read-ahead and direct I/O settings, and failing allocations; the tree is a map from names (hash order and string comparison are those of the red-black tree model); an entry has fewer than 2^24 - 1 users; the file system does not change during one call.
- OutputChain.Ctx.Output: asynchronous and threaded reads, and the switching of direct I/O, are arbitrary answers of the read; the submitted buffers do not carry the tag of the chain and do not wait in it already; chain links are sequences; alignment is a remainder; `NGX_SENDFILE_LIMIT` is off; a failing allocation is the error answer of a read.
- OutputChain.Ctx.CopyBuf: the flush and last flags are in its contract and not in a theorem about whole chains; a buffer that is reused keeps flags of its earlier use where the code does not set them.
- The filter below the output chain takes prefixes of what it has and keeps no buffer it has wholly sent; `ngx_chain_writer` and the joining of adjacent file buffers are not modelled.
- Hash.Build: needs every bucket's elements and end word to fit in 16 bits after alignment; `Hash.ChosenFits` says when the size chosen gives that, and `Hash.Init` stops where it does not, while the code goes on with wrapped offsets. Where the buckets are placed in the pool is not modelled beyond their order and distance.
- WildcardPacked.BuildThenFind: the names are without capital letters and of bytes, the data pointers aligned and not null, and the names fit the address space; tables have addresses by their number in a store. Trailing wildcards, the combined lookup and the collecting of keys are not modelled.
- Radix.Tree.Delete: deleting the empty prefix from a tree of one node is excluded, because the code would follow the root's null parent.
- Radix tree: preallocation and failing allocations; masks are contiguous and given as lengths; the two widths share one model.
- HTTP dates: the cookie format, the clock cache of `ngx_times.c` and a 32-bit `time_t`.
- Addresses: ports, URLs, CIDR blocks and socket addresses of `ngx_inet.c`.
- Queue.Queues.Sort: the comparison is a pure function of the two elements.
- Sockets, events, configuration, resolver, logging, regular expressions and start-up: system calls and dispatch.
