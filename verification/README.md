# Ashd, verified

A Dafny model of the parts of the HTTP server suite *ashd* whose correctness is
not plain from reading them, with proofs of what they promise. Everything that
changes state in the C code changes state here: the tables, trees, lists, heaps,
buffers and parsers are classes and arrays updated in place, each proved against
a specification on values, and the theorems are about those specifications: what
a reader or a step does is also stated without it, by what went in and came out.

Verify the project with `dafny verify dfyconfig.toml`.

## What is modelled

* **The request limiter** (`src/ratequeue.c`). An open-addressing hash table with
  backward-shift deletion (`HashTable`), a heap of wake-up times with
  back-pointers (`TimeHeap`, `HeapShape`), the arithmetic of a leaky bucket
  (`LeakyBucket`) and the limiter made of them (`RateQueue`). `PlainLimiter` is
  the reference: a map from source to account that never forgets anyone;
  `Schedule` says which bucket a reading of the clock wakes. The main theorem,
  `RateQueue.Limiter.Drive`, says that over every run eviction and hashing
  cannot be noticed and the bucket due first is woken at every reading at which
  one is due, bounds the rate over every window, and gives order and
  conservation for each source.
* **The balanced tree** (`lib/utils.c`). `BalancedTree` has the rotations, whose
  inner rotation may recurse all the way down, insertion and deletion on trees
  as values; `TreeCells` has the cells that are relinked.
* **The TLS session cache** (`src/ssl-gnutls.c`). `SessionCache`: the tree, a
  doubly linked recency list and a counter, against a recency order.
* **Buffered streams and bodies** (`lib/bufio.c`, `src/htparser.c`). `BufIo` over
  devices that read and write as much as they like and may fail at any call;
  `Chunks` with the chunked coding of section 3.6.1 of RFC 2616; `ConnIds`.
* **The event loop's books** (`lib/mtio-epoll.c`). `EventLoop` over `FdLists`,
  `BlockTimers` and `Blockers`: the list of all blockers, the lists per
  descriptor with the kernel's masks, and the heap of time-outs.
* **The coroutine pipe** (`lib/mtio.c`). `PipeSteps` is a machine whose steps run
  from one coroutine switch to the next; `Pipe` is the code between switches.
* **FastCGI framing** (`src/callfcgi.c`). `FastCgi`, section 3.3 of the FastCGI
  Specification.
* **The indentation parser** (`lib/cf.c`). `IndentRules` and `IndentParser`.
* **Response heads** (`lib/req.c`). `HeadText` and `ResponseHead`, sections 6.1
  and 4.2 of RFC 2616; `HeadGrammar` says which texts are read, and as what,
  without the reader.

## Choices

* Doubles are reals; `& m` on table sizes is the remainder; sizes and counters are
  unbounded, except where the code itself sets a limit.
* The world outside is data: a device is its bytes and a plan that says, call by
  call, how much it takes or whether it fails; the kernel is its masks and a
  plan of refusals; a consumer of tokens is any function of what it has seen.
* Reallocated arrays (`timeheap`, `fdlist`, header lists) are sequence fields; the
  hash table, the byte buffers and the stack of columns are arrays.
* Where the code and a comment in it disagree, the code is followed: the test in
  `biowritesome` marked as never false (lib/bufio.c:273) is false exactly when
  the write failed with nothing pending before, and the bytes then stay
  buffered and are reported as accepted.
* Properties that fail have their exact condition and an input: balance after a
  deletion (`BalancedTree.DelAvl`, with `BalancedTree.DelStale`), the wake-up
  schedule (`LeakyBucket.DueActs` with `LeakyBucket.WakeIdles`,
  `LeakyBucket.EarlyIsIdle` with `LeakyBucket.DrainsEarly`), the round trip of
  heads (`HeadText.RoundTripIff` with `HeadText.BlankLost`), the traversal that
  opens the event loop (`EventLoop.Loop.Refuse` with `EventLoop.NextGone`).
  The early case of `LeakyBucket.EarlyIsIdle` is a fact about `checkbtime` alone:
  the main loop calls it only at or after the root's key (src/ratequeue.c:535).

## Model

| member | source | states |
|---|---|---|
| `RateQueue.Limiter.Drive` | src/ratequeue.c:508-537 | on any requests and non-decreasing clock readings, request by request, what a map from source to account that never forgets anyone does; every arrival is forwarded exactly if its source's level, leaked until then, and the waiters before it leave room, held if brimsize do not wait yet, and else refused, after exactly the waiters for whom there was room; every reading wakes the bucket that is due first, and one that wakes none finds no source that could go; each source gets fewer than size + 1 + rate * time requests through; sent ++ waiting = waited before ++ let in; the refusals are those reported and those still to be |
| `RateQueue.Limiter.Serve` | src/ratequeue.c:353-384 | an arrival has exactly the effect of one step of the reference limiter on the account book and on the log of forwarded, held and refused requests |
| `RateQueue.Limiter.CheckBTime` | src/ratequeue.c:343-351 | a wake-up is one waking step of the reference limiter, whether it frees the bucket or schedules it again |
| `RateQueue.Limiter.WakeDue` | src/ratequeue.c:535-536 | one test of the drain loop wakes the root's bucket, which is the one due first, exactly if it is due; otherwise no bucket is due and waking any source would have sent nothing |
| `RateQueue.Limiter.RootFirst` | src/ratequeue.c:535-536 | the root of the heap is due exactly if any bucket is, and is then due first |
| `RateQueue.Limiter.Quiet` | src/ratequeue.c:535-536 | with the root of the heap not yet due, no source at all, live or forgotten, has a waiter that could go |
| `RateQueue.Limiter.UpdBTime` | src/ratequeue.c:293-312 | a rested bucket is put into the heap or re-keyed at the time `LeakyBucket.Key` gives, and table, heap and account book agree again |
| `RateQueue.Limiter.FreeBucket` | src/ratequeue.c:274-291 | freeing an empty bucket takes it out of table and heap, throws no waiter away, and leaves the account book as it was |
| `RateQueue.Limiter.TickBucket` | src/ratequeue.c:314-341 | the fields become those of `LeakyBucket.Tick`, and exactly the waiters the account lets go are forwarded, in order |
| `RateQueue.Limiter.GetBucket` | src/ratequeue.c:187-207 | the bucket found or made for a source settles to what the source's account settles to, even if the source had been forgotten |
| `RateQueue.Limiter.Rule` | src/ratequeue.c:362-382 | pass, hold or refuse, as the reference limiter admits; a refusal counts, and the first one since the bucket was made also sets the time of the next report |
| `PlainLimiter.Conserved` | src/ratequeue.c:326-335 | over every run from a reachable book: sent ++ queue = queue before ++ let in, for each source; the arrivals are those decided on, in order |
| `PlainLimiter.RateBound` | src/ratequeue.c:314-384 | over every window [s, t] of every run fewer than size + 1 + rate * (t - s) requests of one source reach the child |
| `PlainLimiter.RunBound` | src/ratequeue.c:314-335 | the level at the start plus the requests sent is at most the level at the end plus what time leaked away |
| `PlainLimiter.ForgetRun` | src/ratequeue.c:346-349 | over every run, dropping any idle accounts after any events changes nothing that is done |
| `PlainLimiter.ForgetStep` | src/ratequeue.c:346-349 | a book with idle accounts left out treats every event as the full book does, and stays such a book |
| `PlainLimiter.SettleSound` | src/ratequeue.c:314-335 | settling keeps an account reachable: nobody is left waiting while there is room, and every release is paid for by the level |
| `PlainLimiter.RunSnoc` | src/ratequeue.c:514-536 | running one event more appends that event's actions |
| `PlainLimiter.RunFair` | src/ratequeue.c:353-384 | over every run, each event forwards, of the waiters, just those for whom there is room, first come first; an arrival is passed if then level < size, held if not and fewer than brimsize wait, and else refused; what the account is afterwards |
| `PlainLimiter.StepFair` | src/ratequeue.c:314-384 | so it is for one event, read off the book before, the book after and the log |
| `PlainLimiter.RoomPasses` | src/ratequeue.c:362-366 | an arrival is passed on if and only if the leaked level plus the waiters before it is below the size |
| `LeakyBucket.EarlyIsIdle` | src/ratequeue.c:293-351 | before its key a bucket forwards and reports nothing, and is fit to be freed if and only if it drains to exactly zero at that moment |
| `LeakyBucket.DueActs` | src/ratequeue.c:293-351 | from its key on a check forwards, reports or frees, if and only if it is not exactly the key at which a waiter's room opens with no report due |
| `LeakyBucket.WakeIdles` | src/ratequeue.c:301-302 | a full bucket with one waiter is due at once and, woken then, does nothing |
| `PlainLimiter.FullAtOnce` | src/ratequeue.c:362-371 | two arrivals at one reading of the clock lead to such a bucket |
| `LeakyBucket.DrainsEarly` | src/ratequeue.c:321-325 | a bucket that drains to exactly zero would be fit to be freed before its key |
| `LeakyBucket.Retires` | src/ratequeue.c:293-312 | with nobody waiting, a bucket may be freed from its key on, and before it exactly after an exact drain |
| `LeakyBucket.RoomOpens` | src/ratequeue.c:301-302 | the level has leaked below the size exactly at times later than the one computed for the first waiter |
| `LeakyBucket.TickRests` | src/ratequeue.c:314-341 | a tick leaves no waiter behind while there is room, the level below size + 1 and the queue within brimsize |
| `LeakyBucket.EmptyExact` | src/ratequeue.c:319-325 | `etime` is the very moment at which the level came to zero |
| `LeakyBucket.ReleasedLeast` | src/ratequeue.c:326-335 | the release loop forwards the fewest waiters that fill the bucket, or all |
| `Schedule.AllArrive` | src/ratequeue.c:508-537 | the arrivals of a scheduled run are its requests, in order |
| `Schedule.ReportsCount` | src/ratequeue.c:336-382 | over every run the refusals of a source are those reported and those still to be; none is lost when its bucket is freed |
| `Schedule.ReportsSpaced` | src/ratequeue.c:336-382 | over every run two reports on one source are at least warnrate apart, even with the bucket freed in between |
| `Schedule.ReportDue` | src/ratequeue.c:293-341 | a bucket with refusals is due, and reports them, from warnrate after their first or the last report on |
| `HashTable.Table.HashGet` | src/ratequeue.c:187-207 | the table is the map from source to bucket: the bucket stored for the source, or else a new idle one added under it; nothing else changes; at most half the slots are taken, and more than an eighth, unless the table is the smallest |
| `HashTable.Table.HashDel` | src/ratequeue.c:209-233 | exactly the bucket's source leaves the map; the bounds on the slots taken are kept; both asserts hold |
| `HashTable.Table.Rehash` | src/ratequeue.c:154-185 | the same map in a table of another size, every entry reachable from its home; the assert holds |
| `HashTable.Table.ShiftBack` | src/ratequeue.c:221-230 | shifting back closes the gap: every remaining entry is again reachable over taken slots from its home, once |
| `HashTable.Table.Locate` | src/ratequeue.c:215-220 | the probe for a stored bucket stops at its slot before meeting a free one |
| `HashTable.Table.Find` | src/ratequeue.c:192-197 | the scan finds the source's bucket, or shows that the source has none |
| `HashTable.Table.FreeProbe` | src/ratequeue.c:198 | the second loop ends at the first free slot of the probe sequence |
| `HashTable.Reinsert` | src/ratequeue.c:171-180 | all old entries, and only they, are in the new slots, reachable |
| `HashTable.FreeSlot` | src/ratequeue.c:174-198 | a table with fewer entries than slots has a free slot, so no probe runs forever |
| `HashTable.GapMove` | src/ratequeue.c:222-230 | moving an entry into the gap keeps every entry reachable except over the new gap |
| `HashTable.GapDone` | src/ratequeue.c:221-230 | when the scan meets a free slot the gap breaks no probe |
| `HashTable.RingMod` | src/ratequeue.c:174-225 | the masked differences of the code are distances around the ring |
| `TimeHeap.WakeHeap.ThRaise` | src/ratequeue.c:235-247 | raising from a vacant place restores the heap order and every back-pointer |
| `TimeHeap.WakeHeap.ThLower` | src/ratequeue.c:249-264 | lowering from a vacant place restores the heap order and every back-pointer |
| `TimeHeap.WakeHeap.ThAdjust` | src/ratequeue.c:266-272 | whatever entry fills a vacant place, the heap is in order again |
| `TimeHeap.WakeHeap.Remove` | src/ratequeue.c:280-284 | removal from the middle: exactly that bucket leaves, its place filled from the end |
| `TimeHeap.WakeHeap.Push` | src/ratequeue.c:306-308 | a new bucket joins with its key |
| `TimeHeap.WakeHeap.ReKey` | src/ratequeue.c:309-311 | a bucket's key is replaced in place |
| `TimeHeap.WakeHeap.Earliest` | src/ratequeue.c:535-536 | the root's key is no later than any bucket's |
| `HeapShape.RiseStep` | src/ratequeue.c:239-245 | one step up moves the only possible disorder one level up |
| `HeapShape.SinkStep` | src/ratequeue.c:252-261 | one step down moves the only possible disorder to the smaller child |
| `HeapShape.Rekey` | src/ratequeue.c:266-272 | after any new key, comparing with the parent tells which way to go |
| `BalancedTree.FlipL` | lib/utils.c:351-365 | `bbtrl` turns a balanced tree that is right-heavy by one into a balanced tree of the same height that is left-heavy by one, through the mutual recursion with `bbtrr` |
| `BalancedTree.FlipR` | lib/utils.c:335-349 | `bbtrr` turns a balanced tree that is left-heavy by one into one of the same height that is right-heavy by one |
| `BalancedTree.FixL` | lib/utils.c:412-418 | a right side too high by two is repaired by `bbtrl`, and the height grows by at most one over that side |
| `BalancedTree.FixR` | lib/utils.c:412-418 | a left side too high by two is repaired by `bbtrr`, and the height grows by at most one over that side |
| `BalancedTree.PutAvl` | lib/utils.c:434-458 | insertion keeps the tree balanced with exact stored heights, and grows it by at most one level |
| `BalancedTree.PutInorder` | lib/utils.c:434-458 | the in-order sequence gains the new item at its place, and nothing if an equal item was there |
| `BalancedTree.DelInorder` | lib/utils.c:376-420 | deletion removes the equal item from the in-order sequence and nothing else, through successor splice and rotations |
| `BalancedTree.DelOver` | lib/utils.c:392-418 | deletion keeps every stored height at least one more than each child's |
| `BalancedTree.PutOver` | lib/utils.c:434-458 | insertion keeps every stored height at least one more than each child's; with deletion keeping it, it holds over every run of both |
| `BalancedTree.OverEstimates` | lib/utils.c:326-331 | stored heights at least one more than each child's never under-estimate the real height |
| `BalancedTree.AvlExact` | lib/utils.c:326-331 | in a balanced tree the stored heights are the real ones |
| `BalancedTree.DelAvl` | lib/utils.c:392-402 | deletion from a balanced tree leaves it balanced with exact heights if and only if no successor was spliced in, or the cell above the successor was evenly balanced |
| `BalancedTree.DelStale` | lib/utils.c:392-402 | deleting the root of a balanced tree of four items leaves a leaf with stored height 2 |
| `BalancedTree.RotLInorder` | lib/utils.c:351-365 | `bbtrl` keeps the in-order sequence |
| `BalancedTree.RotROver` | lib/utils.c:335-349 | `bbtrr` on over-estimated heights keeps them so, and meets no missing child |
| `BalancedTree.GetInorder` | lib/utils.c:460-477 | `btreeget` finds a cell exactly if an equal item is in the sequence, and then that one |
| `BalancedTree.PutLookup` | lib/utils.c:434-477 | as a map, the tree changes at the inserted key only |
| `BalancedTree.DelLookup` | lib/utils.c:376-477 | as a map, the tree changes at the deleted key only |
| `BalancedTree.InsertedSorted` | lib/utils.c:434-458 | the sequence stays in order and holds the key |
| `BalancedTree.DeletedSorted` | lib/utils.c:376-420 | the sequence stays in order and no longer holds the key |
| `TreeCells.BbTreePut` | lib/utils.c:434-458 | relinking the cells in place gives exactly the tree of `BalancedTree.Put`; a cell is made exactly if the key was new |
| `TreeCells.BbTreeDel` | lib/utils.c:376-420 | relinking the cells in place gives exactly the tree of `BalancedTree.Del`; 1 exactly if an item was removed |
| `TreeCells.BbTrl` | lib/utils.c:351-365 | the rotation on cells is `BalancedTree.RotL` |
| `TreeCells.BbTrr` | lib/utils.c:335-349 | the rotation on cells is `BalancedTree.RotR` |
| `TreeCells.BbRebalance` | lib/utils.c:412-418 | height, then rotations, on cells |
| `TreeCells.BtreeGet` | lib/utils.c:460-477 | the search on cells finds what the search on the tree finds |
| `TreeCells.UnlinkRight` | lib/utils.c:392-402 | the in-order successor is unlinked through the one link that leads to it |
| `TreeCells.Splice` | lib/utils.c:389-409 | the removed cell is replaced by its only child or by its successor, which takes over both subtrees |
| `TreeCells.DelCells` | lib/utils.c:376-420 | deletion gives up the cell of the item found and no other, and shares none |
| `SessionCache.Cache.Fetch` | src/ssl-gnutls.c:94-105 | the last value stored under the key, if the session has not been evicted or deleted |
| `SessionCache.Cache.SessStore` | src/ssl-gnutls.c:141-186 | the recency order gains the entry in front; an empty value deletes; every 102nd store cuts the order to the newest max(numconn, 1) * 100, so that there are never more than 101 above that |
| `SessionCache.Cache.Drive` | src/ssl-gnutls.c:94-186 | over every run of stores, removals and recalls, a recall gives the value last stored under its key, or nothing if the session was evicted; it gives exactly that value throughout if the sessions would never have been more than the cap; and there are never more than 101 above the cap |
| `SessionCache.Cache.SessDel` | src/ssl-gnutls.c:124-133 | exactly the entry of the key leaves tree, list and counter; -1 exactly if there was none |
| `SessionCache.Cache.CleanSess` | src/ssl-gnutls.c:135-139 | exactly the newest max(numconn, 1) * 100 sessions stay, or all if fewer |
| `SessionCache.Cache.FreeSess` | src/ssl-gnutls.c:107-122 | the session leaves the tree, the list and the counter at once |
| `SessionCache.Cache.Find` | src/ssl-gnutls.c:98-103 | the session the tree finds is the one place of its key in the recency list |
| `SessionCache.Cache.MoveFront` | src/ssl-gnutls.c:148-160 | the list is relinked with the session in front and the rest as before |
| `SessionCache.Cache.AddNew` | src/ssl-gnutls.c:161-178 | a new session in the tree and in front of the list |
| `SessionCache.SessOrdering` | src/ssl-gnutls.c:85-92 | `sesscmp` orders keys totally, and only equal keys compare equal |
| `SessionCache.StoreLook` | src/ssl-gnutls.c:94-186 | after a store, the key gives the value and every other key what it gave before |
| `SessionCache.StorePrefix` | src/ssl-gnutls.c:135-186 | an order cut short by evictions stays a prefix of the order nothing was evicted from |
| `SessionCache.HistoryLook` | src/ssl-gnutls.c:94-186 | the uncut recency order of a run of stores holds every key at most once, with its last stored value |
| `SessionCache.Recency` | src/ssl-gnutls.c:135-186 | the recency order is that of the last stores, latest first, so what is evicted was stored longest ago |
| `SessionCache.LastMeans` | src/ssl-gnutls.c:94-186 | the value last stored under a key is that of the last store for it, none if that was empty |
| `SessionCache.IndexDel` | src/ssl-gnutls.c:107-122 | tree and list still hold the same sessions after a removal from both |
| `BufIo.CharBuf.SizeBuf` | lib/utils.c:50-66 | the allocation is doubled until it is large enough, and so is less than twice what is wanted, the content kept |
| `BufIo.Bufio.MakeRoom` | lib/bufio.c:83-96 | compaction, growth and shrinking keep what is buffered and leave room, so the source is never asked for no bytes |
| `BufIo.Bufio.BioFill` | lib/bufio.c:72-107 | buffered ++ unread is unchanged, by one read at most; 0 only at the end of the source, -1 only on its error |
| `BufIo.Bufio.BioREnsure` | lib/bufio.c:109-118 | so many bytes are buffered, or the stream holds fewer, or the source failed; nothing is read if they were buffered before |
| `BufIo.Bufio.BioGetC` | lib/bufio.c:125-134 | the first byte of what is left, without a read if any is buffered; -1 only when nothing is left or the source failed |
| `BufIo.Bufio.BioReadSome` | lib/bufio.c:136-146 | handed out ++ left = left before, all that is buffered or as much as was asked for, with a read only if nothing is buffered; 0 only at the end |
| `BufIo.Bufio.BioFlush` | lib/bufio.c:160-173 | written ++ pending is unchanged, and all of it is written unless the device fails |
| `BufIo.Bufio.BioFlushSome` | lib/bufio.c:175-190 | written ++ pending is unchanged by its one write; 1 exactly if something was written, 0 if nothing was pending |
| `BufIo.Bufio.BioWEnsure` | lib/bufio.c:192-208 | room for so many bytes with nothing lost, or an error |
| `BufIo.Bufio.BioWrite` | lib/bufio.c:218-252 | exactly the first bytes it reports are accepted, fewer than all only on an error |
| `BufIo.Bufio.BioWriteSome` | lib/bufio.c:254-279 | exactly the bytes it reports are accepted, all that fit, at least one if there is room, with one write at most; a write error is reported if and only if something was pending before |
| `BufIo.Bufio.BioPrintf` | lib/bufio.c:281-299 | the whole text is accepted, or nothing and an error is reported |
| `BufIo.BioCopySome` | lib/bufio.c:301-311 | the bytes that leave one stream are the bytes the other accepts: all that are buffered unless the other's buffer is full, and some if there are any and room |
| `BufIo.BioCopyBuf` | lib/bufio.c:313-327 | the bytes that leave one stream are the bytes added to the other's write buffer: all unless it is full, and some if there are any and room |
| `Chunks.ChunkRoundTrip` | src/htparser.c:152-225 | decoding undoes the coding of any nonempty pieces and leaves what follows |
| `Chunks.SizeLineBack` | src/htparser.c:160-183 | a printed size line is read back as the size |
| `Chunks.ReadHex` | src/htparser.c:160-183 | reading the digits of n shifts them into the size |
| `Chunks.SizeLineValue` | src/htparser.c:158-183 | a size line in any hexadecimal digits, upper or lower case, with any leading zeros and carriage returns, is read as the sum of its digits times their powers of 16 |
| `Chunks.SizeLineMeans` | src/htparser.c:158-183 | whatever is read as a size line is such digits before a line feed |
| `Chunks.BodyBack` | src/htparser.c:152-204 | any chunks with such size lines and data of that size, the last one empty, decode to their data, and what follows is left |
| `Chunks.BodyMeans` | src/htparser.c:152-204 | whatever decodes to anything is made of such chunks |
| `Chunks.HexPrinted` | src/htparser.c:212 | a size is printed in lower-case digits without leading zeros |
| `Chunks.PassData` | src/htparser.c:131-150 | exactly the bytes it reports move from one stream to the other, at most the limit, fewer only at the end of the input; -1 only if a device failed |
| `Chunks.RecvChunks` | src/htparser.c:152-204 | 0 means that the input began with a body that `Chunks.BodyBack` describes, whose data were passed on and after which nothing was read; -1 means that it did not, or a failed device |
| `Chunks.PassChunks` | src/htparser.c:206-225 | unless a device fails, the output accepts the coding of exactly what there was to read |
| `Chunks.RecvChunk` | src/htparser.c:157-198 | one chunk, with its size line and line break |
| `Chunks.RecvSize` | src/htparser.c:158-183 | the size line as `Chunks.SizeLineValue` says, or an error if there is none |
| `Chunks.RecvData` | src/htparser.c:186-195 | exactly the chunk's bytes are passed on, or the input holds fewer, or a device failed |
| `Chunks.PassChunk` | src/htparser.c:211-219 | everything buffered goes out as one chunk |
| `Chunks.Transfer` | src/htparser.c:152-225 | what is sent with `passchunks` and received with `recvchunks` arrives as it was, and what follows stays unread, however the devices cut it up, unless one fails |
| `ConnIds.Counter.ConnId` | src/htparser.c:288-305 | the successor of the last identifier |
| `ConnIds.NeverAgain` | src/htparser.c:288-305 | no two calls give the same identifier |
| `ConnIds.Distinct` | src/htparser.c:288-305 | different words have different places in the count |
| `EventLoop.Loop.AddBlock` | lib/mtio-epoll.c:194-205 | the blocker is on every list it belongs to, or, if the kernel refused it, on none; the books agree again |
| `EventLoop.Loop.RemBlock` | lib/mtio-epoll.c:207-218 | the blocker is off every list and everything else as before |
| `EventLoop.Loop.Enroll` | lib/mtio-epoll.c:226-239 | waiting on several descriptors adds all of its blockers, newest in front, or, if the kernel refuses one, none: the list of blockers is as before |
| `EventLoop.Loop.Withdraw` | lib/mtio-epoll.c:235-236 | removing the blockers just added restores the list of blockers |
| `EventLoop.Loop.OpenLoop` | lib/mtio-epoll.c:275-281 | every blocker with a descriptor that stays is registered; without a refusal all stay; it is safe unless a refused coroutine waits on two blockers |
| `EventLoop.Loop.Refuse` | lib/mtio-epoll.c:277-281 | a refused blocker's coroutine takes all of its blockers off the list; the next one, saved before, is still listed if and only if it is not one of them |
| `EventLoop.Loop.Leave` | lib/mtio-epoll.c:241-242 | all the coroutine's blockers go, and the rest stay in order |
| `EventLoop.NextGone` | lib/mtio-epoll.c:226-242 | with two descriptors waited for, a refusal of the first blocker in the list loses the saved next one |
| `EventLoop.GroupedMore` | lib/mtio-epoll.c:226-239 | when a coroutine has added its blockers, every coroutine's blockers are all listed or none |
| `EventLoop.GroupedLess` | lib/mtio-epoll.c:241-242 | so it is when one has removed them, the others' staying listed |
| `EventLoop.Loop.CloseLoop` | lib/mtio-epoll.c:333-336 | no blocker is registered any more, and all stay listed |
| `EventLoop.Loop.KernelAgrees` | lib/mtio-epoll.c:51-134 | while the loop is open and the kernel has not refused to forget anything, it watches exactly the descriptors some blocker waits for, for exactly the union of their events |
| `EventLoop.Loop.OwnList` | lib/mtio-epoll.c:51-134 | a blocker is on a descriptor's list exactly if it is its own and the loop is open |
| `EventLoop.Loop.NextDue` | lib/mtio-epoll.c:283-289 | the root of the heap is the first time-out to come |
| `FdLists.FdTable.RegFd` | lib/mtio-epoll.c:51-100 | in front of its own descriptor's list, with the kernel's mask the union over the new list; on a refusal nothing changes |
| `FdLists.FdTable.RemFd` | lib/mtio-epoll.c:102-134 | off its list and nothing else; only a refusal leaves the kernel behind |
| `FdLists.FdTable.Scan` | lib/mtio-epoll.c:81-86 | following the links gives the union over the whole list |
| `FdLists.UnionPush` | lib/mtio-epoll.c:81-86 | one blocker more adds its events to the union |
| `FdLists.EventBits` | lib/mtio.h:6-7 | 1 asks to read, 2 to write and 3 to do both, whatever other bits are set |
| `BlockTimers.Timers.ThRaise` | lib/mtio-epoll.c:136-150 | raising from a vacant place restores order and positions |
| `BlockTimers.Timers.ThLower` | lib/mtio-epoll.c:152-170 | lowering from a vacant place restores order and positions |
| `BlockTimers.Timers.AddTimeout` | lib/mtio-epoll.c:172-176 | a blocker joins the ordered heap |
| `BlockTimers.Timers.DelTimeout` | lib/mtio-epoll.c:178-192 | exactly that blocker leaves it, its place filled from the end |
| `Blockers.UnlinkLaw` | lib/mtio-epoll.c:109-114 | bypassing an element in both directions gives the linked list without it |
| `Blockers.PushLaw` | lib/mtio-epoll.c:93-97 | linking a new element in front gives the longer list |
| `PipeSteps.Safe` | lib/mtio.c:229-323 | after any run: read ++ buffered = written, the buffer within its bound, never both sides asleep, and a sleeping side of a live pipe really has nothing to do |
| `PipeSteps.FreedOnce` | lib/mtio.c:266-323 | the pipe is freed once, by the second close, and no step that may follow touches it |
| `PipeSteps.EofMeans` | lib/mtio.c:242-264 | end of file is seen only when the writer has closed and everything was read |
| `PipeSteps.EofStays` | lib/mtio.c:242-323 | after an end of file nothing is accepted or read any more, in any run |
| `PipeSteps.StepKeeps` | lib/mtio.c:229-323 | every step keeps the invariant of the pipe |
| `PipeSteps.WriteWakes` | lib/mtio.c:280-309 | a write hands over to a sleeping reader, which gets the front of what was written |
| `PipeSteps.ReadWakes` | lib/mtio.c:242-264 | reading from a full pipe lets the sleeping writer go on without yielding again |
| `PipeSteps.CloseWakes` | lib/mtio.c:266-323 | closing an end wakes the sleeper at the other: end of file, or a broken pipe |
| `PipeSteps.StepAnswers` | lib/mtio.c:242-323 | every step of every run: a read takes from the front of the buffer exactly the bytes it answers, as many as there are and it asked for; a write adds exactly as many of its bytes as it answers, as many as fit; when they yield, are busy, broken or at the end, nothing moves |
| `PipeSteps.RunAnswers` | lib/mtio.c:242-309 | over any run, what the readers were answered put together is what was read, and what the writers were answered is what was accepted |
| `PipeSteps.Delivered` | lib/mtio.c:242-309 | what the readers got is the front of what the writers were told was taken, all but at most a bufferful |
| `Pipe.CoPipe.PipeRead` | lib/mtio.c:242-264 | the code of a read up to its first switch is the step of a read, and so answers as `PipeSteps.StepAnswers` says |
| `Pipe.CoPipe.ReadResumed` | lib/mtio.c:254-264 | the code after its yield is the step of a resumed read |
| `Pipe.CoPipe.PipeWrite` | lib/mtio.c:280-309 | the code of a write up to its first switch is the step of a write, and so answers as `PipeSteps.StepAnswers` says |
| `Pipe.CoPipe.WriteResumed` | lib/mtio.c:294-309 | the code of a write after its yield is the step of a resumed write |
| `Pipe.CoPipe.PipeRClose` | lib/mtio.c:266-278 | closing the reading end is the step of that close: freed, or marked with a sleeping writer resumed |
| `Pipe.CoPipe.PipeWClose` | lib/mtio.c:311-323 | closing the writing end is the step of that close: freed, or marked with a sleeping reader resumed |
| `FastCgi.SendReceive` | src/callfcgi.c:555-602 | the records of one call are read back with its type and id (as many bits as the header has), their payloads make up the data, and what follows is left alone |
| `FastCgi.CutSound` | src/callfcgi.c:555-579 | payloads of 65535 bytes, the last perhaps fewer, that concatenate to the data, none empty unless there are no data |
| `FastCgi.AllBack` | src/callfcgi.c:555-602 | any records on the wire are multiples of 8 bytes and are read back one by one |
| `FastCgi.RecordBack` | src/callfcgi.c:581-602 | one record is read back whole |
| `FastCgi.FramedBack` | src/callfcgi.c:581-602 | a record of any type, id and payload and any padding of at most 255 arbitrary bytes is read back whole, with what follows its padding left alone |
| `FastCgi.BadMeans` | src/callfcgi.c:581-602 | reading fails if and only if the version is not 1, the reserved byte is in use, or there are fewer bytes than a header or than it announces |
| `FastCgi.AllFramedBack` | src/callfcgi.c:581-602 | any list of such records is read back one by one |
| `FastCgi.WireFramed` | src/callfcgi.c:555-579 | what is sent is such a record, padded with the fewest zeros that make it a multiple of 8 bytes |
| `FastCgi.MineStops` | src/callfcgi.c:633-636 | exactly the records before the first of another request are dealt with |
| `FastCgi.Transmitted` | src/callfcgi.c:611-651 | of any such records of this request, however padded, `outplex` has exactly these to deliver |
| `FastCgi.SendRec` | src/callfcgi.c:555-579 | the wire text of those records, or as much of it as the file took, with -1 |
| `FastCgi.RecvRec` | src/callfcgi.c:581-602 | the record at the front of the input, exactly when there is one, as `FastCgi.FramedBack` and `FastCgi.BadMeans` say |
| `FastCgi.Outplex` | src/callfcgi.c:611-665 | each stream gets the payloads of its type up to the first empty record, out of the records before an error or another request's: exactly those if all streams take them, else a prefix; all are closed |
| `FastCgi.Deliver` | src/callfcgi.c:638-651 | one record reaches the first slot of its type, closes it if empty, and no other |
| `FastCgi.StreamBack` | src/callfcgi.c:555-651 | a stream sent in any number of nonempty calls and ended by an empty one arrives whole, whatever is sent on other streams in between and on this one afterwards |
| `FastCgi.DueSnoc` | src/callfcgi.c:638-651 | one record more adds its payload to the one stream it is for, unless that has ended |
| `IndentRules.FileBalanced` | lib/cf.c:93-192 | for every text and consumer: each line is handed over in as many open blocks as its indentation shows, no end is emitted without an open block, and all blocks are closed at the end of the file, included files too |
| `IndentRules.ConsumersAgree` | lib/cf.c:93-192 | any two consumers of a text see the same lines at the same depths, and one that leaves early has seen no end too many |
| `IndentRules.GapDepth` | lib/cf.c:130-157 | what is emitted between two lines changes the depth to that of the new column, with or without an expected block |
| `IndentRules.DownDepth` | lib/cf.c:147-157 | ends on the way down and the start after the jump back to `reindent` leave the depth at that of the new column, and no end without an open block |
| `IndentRules.Levels` | lib/cf.c:130-157 | the columns open in a line are strictly increasing from 0 and end in the line's own |
| `IndentRules.LevelsExact` | lib/cf.c:147-157 | they are exactly the columns below the line's that were open before, and then its own |
| `IndentRules.GapExact` | lib/cf.c:130-157 | between two lines come an end for an expected block that is empty, an end for each column deeper than the new one, and a start if that one is new; nothing if the expected block begins |
| `IndentRules.OpenMeans` | lib/cf.c:130-157 | the columns open in a line are 0 and those of the lines that enclose it: a column with no line further left since |
| `IndentRules.ShapeByLine` | lib/cf.c:105-190 | a file's structure line by line: blank lines, comments and the words start, end and eof hand over nothing, an include line in no block the files it names, and any other line its words, at the number of lines' columns that enclose it |
| `IndentRules.ColumnOnRuler` | lib/cf.c:118-126 | a space leads to the next column, a tab to the next multiple of 8, and the first other character ends the indentation |
| `IndentRules.SpacesColumn` | lib/cf.c:118-126 | n spaces make column n |
| `IndentRules.SkippedMeans` | lib/cf.c:127-128 | a line is passed over if and only if its first character that is neither space nor tab is #, or there is none |
| `IndentParser.CfState.ParseFile` | lib/cf.c:93-192 | 0 when exactly the output of `IndentRules.FileOut` has been handed over; otherwise a prefix of it after which the consumer left |
| `IndentParser.CfState.ParseLine` | lib/cf.c:105-190 | one turn of the line loop |
| `IndentParser.CfState.Reindent` | lib/cf.c:130-157 | the array of columns becomes the levels of the new line, and exactly the tokens between the lines are handed over |
| `IndentParser.CfState.DoInclude` | lib/cf.c:56-91 | the included files one after another |
| `IndentParser.CfState.Measure` | lib/cf.c:118-126 | the column and the place of the first character that is neither space nor tab, as `IndentRules.ColumnOnRuler` says |
| `HeadText.RoundTripIff` | lib/req.c:296-360 | a head, printed and ended by a blank line, is read back unchanged, with what follows left alone, if and only if it is within the limits |
| `HeadText.RoundTrip` | lib/req.c:422-433 | every head within the limits is read back as it was printed |
| `HeadText.FieldsBack` | lib/req.c:168-228 | the field lines are read back in order |
| `HeadText.FieldBack` | lib/req.c:181-219 | one printed field is read back |
| `HeadText.StartRange` | lib/req.c:168-228 | fields are read without line breaks and zero bytes and do not start with white space, names have no colons, and it takes fewer than 65536 bytes; with no zero byte on the way, no field ends with white space either |
| `HeadText.BlankLost` | lib/req.c:210-219 | a head whose value starts with a blank is not read back |
| `HeadText.TrimRange` | lib/req.c:96-104 | trimming leaves a trimmed text of the same characters |
| `HeadGrammar.RawBack` | lib/req.c:296-360 | every text of a version, digits, a reason and field lines, with or without blanks around the values and with carriage returns anywhere in reason and fields, is read as what it means |
| `HeadGrammar.RawMeans` | lib/req.c:296-360 | every text that is read as a head is one of those |
| `HeadGrammar.LineRead` | lib/req.c:181-219 | a field line is read as what stands before and after its first colon, trimmed, blank or no blank |
| `HeadGrammar.CodeRead` | lib/req.c:319-330 | decimal digits are read as what they stand for if that is below 10000, and refused otherwise |
| `HeadGrammar.TrimExact` | lib/req.c:96-104 | trimming takes spaces, tabs, line, form and vertical feeds and carriage returns from both ends, and nothing else |
| `HeadGrammar.Printed` | lib/req.c:422-433 | version, code and reason one blank apart, the code in decimal without leading zeros; name and value a colon and a blank apart; each line ended by CR and LF |
| `ResponseHead.ParseResponseB` | lib/req.c:296-360 | the head at the front of the input as the reference reader has it, or none |
| `ResponseHead.ParseHeadersB` | lib/req.c:168-228 | the fields up to the blank line, appended in order |
| `ResponseHead.TrimBuf` | lib/req.c:96-104 | white space goes from both ends |
| `ResponseHead.WriteRespB` | lib/req.c:422-433 | the printed head is accepted, or the device failed |

## Left out

- Sockets, processes, descriptor passing, signals, clocks and `poll`: inputs, plans or not modelled; failures that end the process have no model.
- Reloading the configuration of the request limiter, log text and the reading of options: the configuration is fixed.
- IEEE rounding, integer overflow and allocation failure.
- RateQueue.Limiter.Drive: of buckets due at the same time any may be woken first, and when the clock is read is an input.
- LeakyBucket.DueActs: no minimum retention time is claimed, because a drain to exactly zero does not refresh `etime` (src/ratequeue.c:321-325).
- The text of reports of blocked requests; how many there are and when is stated by `Schedule.ReportsCount` and `Schedule.ReportsSpaced`.
- The default comparison of pointers and `freebtree` in lib/utils.c, and its formatting and encoding helpers.
- TLS itself, zlib, libmagic, regular expressions and globbing.
- Chunks.PassChunks: the code does not look at the results of its formatted writes, so the output is stated for devices that have not failed by the end.
- Chunks.RecvChunks: chunk extensions and trailers are errors, as in the code.
- BufIo.Bufio.BioPrintf: the text is given already formatted, with the length of its format.
- EventLoop.Loop.OpenLoop: a coroutine resumed by a refusal removes its blockers; what it does after that, such as waiting again, is not modelled. The dispatch of events to coroutines is left out.
- The other event loops (lib/mtio-kqueue.c, lib/mtio-select.c), which repeat the design.
- Context switching (lib/mt.c) and the stdio wrapping around pipes: a step of the pipe runs from one switch to the next, and a resumed coroutine runs at once.
- FastCgi.Outplex: pipes to the streams are files that take so many bytes and then fail; what the handlers do with the streams is left out.
- IndentParser.CfState.ParseFile: the stack of 80 columns is assumed to suffice, as the code assumes; splitting a line into words is any function, the files an include line opens are given with the line, and line numbers, which are for messages, are left out.
- IndentRules.FileBalanced: consumers that expect a block after anything but a line are excluded; the endless "eof" tokens after the last line are left out.
- HeadText.RoundTripIff: printing takes a field whole; a C string cannot hold the zero byte at which the code would stop.
- Requests' heads, header look-up and editing, handlers, environments, directory mapping, pattern dispatch, access logs and the Python package: plumbing or easy members.
