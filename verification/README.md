# Proofs about the hot page tracker

Dafny proofs about the core of a tracker that finds hot and cold memory pages and moves them between
DRAM and persistent memory. Each core is modelled in its own form: objects with fields are classes,
loops are methods with invariants proved against specification functions, protocols are transition
systems whose runs are all interleavings.

`dafny verify dfyconfig.toml` (Dafny 4.11) verifies the whole project.

## The cores

- **TLB generations** (`TlbFlush`, `TlbProtocol`). A set of CPUs share one address space and one page
  table. Steps: fill and evict TLB entries, change page-table entries, request a flush, start a
  handler, flush one address or everything, publish. Interrupts are delivered in any order and
  handlers interleave with everything else. The main results are `NoStaleEntry`, `RequestCompletes`
  and `ShotDown`.
- **The scan stream** (`IdleStream`, `EptEncoder`, `PageTable`, `PageList`, `EptWalk`, `EptLayout`,
  `EptReports`, `EptRounds`, `EptIdle`, `EptRead`; the reader in `IdleRefs`, `IdleWalk`,
  `MappingWalk`, `ProcIdlePages`). The kernel walks nested guest tables through memory slots and packs
  what it finds into a run-length byte stream with a bounded buffer that is restarted when full; the
  user decodes it. `EptIdleRead` is one read for every layout and buffer size, `WalkVma` the whole scan
  of a mapping with both sides together, `Walk` that of a process. On the reads so specified: how many
  bytes they copy (`EptBytes`, `EptOverrun`), how tightly (`EptPacking`) and how far they go
  (`EptProgress`), which types the pages get (`EptTypes`), which accessed bits one read and several
  clear (`EptBits`, `EptReads`), which pages are passed over (`EptLoss`), and concrete failures
  (`EptExamples`, `IdleExamples`).
- **AddrSequence** (`AddrClusters`, `AddrSequence`, `AddrRuns`; its users in `HotPages`, `HotDrift`).
  Clusters of 8-bit distances in pooled buffers represent a sorted map with two cursors. The class is
  proved against the map; whole runs of walks are proved on the map (`RunPayloads`, `RunBytes`) and
  carried over to the calls on the class (`RunCalls`).
- **The heavy-hitter filter** (`CountMin`, `HotHash`, `Achash`, `Cmsk`, `HotSort`, `StaleTable`,
  `Sampling`). A count-min sketch in front of a chained hash table, for an arbitrary hash function
  (`Sandwich`).
- **The address filter and migration retry** (`RangeLists`, `AddressRangeFilter`, `Migration`,
  `HotGroups`, `HotMigration`). A canonical interval map, which pages of which hot items are submitted,
  and that pages which failed to move are not tried again.
- **Planner and selector** (`Histogram`, `Planner`, `PlanRanges`, `Selector`). Histograms, the period
  limits, the plan of every range, and the selection of pages that must honour it.
- **Worker pool, page walk, move targets, interval fitting** (`WorkerPool`, `PageWalk`, `MovePages`,
  `IntervalFitting`).

`Arith` holds facts about division.

## What the code does not do

Properties one might expect that the code does not have; each has its exact condition.

- A read of 19 bytes, the smallest size the kernel accepts, returns 1 although nothing was written
  (`EptRead.EptIdleRead`).
- The reader's address equals the kernel's next_hva except after an item that continues the stream in
  the middle of its block (`EptEncoder.CursorStaysExactly`). The walk of a slot never makes such a
  call, so reads are not affected (`EptRead.EptIdleRead`).
- A read can copy more than the `count` bytes asked for: with 9 bytes reserved the
  room left may be negative, and it is compared as an unsigned number. This happens exactly if a round
  begins with 1 to 8 bytes left (`EptBytes.ReadFitsExactly`; an input in `EptExamples.ReadCopiesMore`).
- A read passes over pages whose host addresses follow a slot that ends in the middle of an empty 2 MB
  entry, as far as that entry reaches, and over no others (`EptLoss.ListedExactly`,
  `EptLoss.LosesNothingExactly`; an input in `EptExamples.OverhangLosesPage`).
- A page refused by a full buffer has lost its accessed bit and is then reported idle. A read reports
  a page accessed exactly if its bit was set at the start and no round of the read refused it
  (`EptTypes.AccessedExactly`; an input in `EptExamples.RefusedPageLooksIdle`).
- A listed page that does not lie at a multiple of its size in the host is counted nowhere
  (`IdleRefs.CountedOnceExactly`, `ProcIdlePages.SlotCountsExactly`; an input in
  `IdleRefs.UnalignedNotCounted`).
- A run of pages that crosses the end of a mapping makes the decoder end behind it, and the walk of the
  next mapping begins there: the pages passed over are counted nowhere
  (`IdleWalk.ReadPassesExactly`, `MappingWalk.CrossingLost`; an input in
  `IdleExamples.RunLosesPages`).
- A read that goes beyond the end of a mapping clears accessed bits of the next one's pages, which that
  one's walk then counts as idle. A page is counted accessed exactly if its bit was set when the whole
  walk began, no round refused it and no earlier read listed it (`MappingWalk.WholeWalkCalls`; an input
  in `IdleExamples.OverreadCountsIdle`).
- Sorting the hash table moves unused slots too: the first items are the live ones exactly if unused
  slots count less, or hold the same (`HotSort.LiveFirstExactly`, `HotSort.StaleOnTop`). After the cut
  `samples` is the sum of what is kept exactly if no unused slot counts more than a live item
  (`HotSort.CutSumExactly`); `StaleTable.ReachStale` gets to such a table, and `StaleTable.StaleSpoils`
  shows `samples` wrap around.
- Outside the too-much-PMEM case the promote budget is spent once per page type
  (`Planner.TopWithinBudgetExactly`).
- The statistics' key of a move is read back wrongly when the page was not located or had no target
  (`MovePages.UnboxExactly`, `MovePages.MovedReadBackExactly`).

## Model

| member | source | states |
|---|---|---|
| TlbFlush.MakeInfoCovers | kernel_module/tlb_flush.c:248-287 | widening a request to whole strides or to everything never loses a translation the caller asked to drop |
| TlbFlush.PartialExactly | kernel_module/tlb_flush.c:248-287 | a request stays partial, with its own range, if and only if it asks for fewer than 34 strides; a range that ends before it starts counts as the wrapped difference |
| TlbFlush.KeptExactly | kernel_module/tlb_flush.c:88-162 | a handler keeps an entry if and only if it is up to date, or has missed this one partial request only and the entry holds no address of its range |
| TlbFlush.CpuTlb.FlushTlbFuncCommon | kernel_module/tlb_flush.c:30-163 | one handler, nothing beside it: the TLB keeps exactly the entries the chosen partial or full flush does not cover, and the CPU's generation becomes the address space's |
| TlbProtocol.PublishKeepsCpu | kernel_module/tlb_flush.c:138-162 | after its flush a handler may publish the generation it read at its start, although entries were loaded and requests made since |
| TlbProtocol.StepKeepsInv | kernel_module/tlb_flush.c:109-138 | every step of every CPU keeps the invariant the comments spell out, extended to handlers in progress, unhandled interrupts and pending page-table changes |
| TlbProtocol.NoStaleEntry | kernel_module/tlb_flush.c:88-162 | in every reachable state a CPU at generation g caches nothing that a flush of generation at most g covers, and no CPU is ahead of the address space |
| TlbProtocol.HandlerWarningsNeverFire | kernel_module/tlb_flush.c:99-100 | whenever a handler may start, neither of its two warnings can fire |
| TlbProtocol.RequestCompletes | kernel_module/tlb_flush.c:165-245 | once every interrupt of a request has been handled every CPU has reached its generation, whatever the order of delivery |
| TlbProtocol.CaughtUpIsCoherent | kernel_module/tlb_flush.c:103-162 | a CPU that has caught up caches only what the page table holds or what no request has covered yet |
| TlbProtocol.ShotDown | kernel_module/tlb_flush.c:248-287 | a translation removed, covered by a request and not mapped again is in no TLB once the request's interrupts are handled, whatever ran in between |
| TlbProtocol.HandlerRun | kernel_module/tlb_flush.c:30-163 | the three steps of a handler taken without interruption have the effect of the handler method |
| TlbProtocol.PartialFlushSoundExactly | kernel_module/tlb_flush.c:109-141 | flushing one range and publishing a later generation is sound for every TLB if and only if the range covers every flush missed: why the generation test is needed |
| IdleStream.RunByte | kernel_module/ept_idle.h:30-34 | type and size come back from a composed byte, and only the command type with size 0 is the set-address command |
| IdleStream.U64RoundTrip | ProcIdlePages.cc:358-370 | the eight bytes of a word give the word back |
| IdleStream.HighByteFirst | kernel_module/ept_idle.c:112-125 | the word's bytes stand with the high byte first |
| IdleStream.LexSerialize | kernel_module/ept_idle.h:11-34 | every sequence of valid commands and items is read back from its bytes |
| EptEncoder.AddPageMeaning | kernel_module/ept_idle.c:152-209 | an accepted call makes the reader see exactly one more item at the reported address, a merged hole none, a refused call leaves the stream and asks to restart at its address |
| EptEncoder.CursorStaysExactly | kernel_module/ept_idle.c:152-209 | after an accepted call the reader's cursor equals next_hva if and only if the item did not continue the stream in the middle of its block |
| EptEncoder.UnalignedContinuationParts | kernel_module/ept_idle.c:152-209 | such an item exists: a 2 MB hole entered in its middle parts the two cursors |
| EptEncoder.RestartsAtNextExactly | kernel_module/ept_idle.c:152-209 | an accepted call restarts at the end of its piece if and only if the piece ends its block |
| EptEncoder.StreamRoundTrip | kernel_module/ept_idle.c:141-209 | the bytes of any legal sequence of calls are read back, from any reader position, as exactly the non-empty entries of the calls in order, and the reader ends at next_hva |
| EptPacking.AddedBytes | kernel_module/ept_idle.c:152-209 | an accepted call adds no byte where the last run can grow or a hole is merged, one where the reader stands, ten with a command, and a command only where the reader does not stand |
| EptPacking.HolesListed | kernel_module/ept_idle.c:275-325 | empty entries of 4 KB and 2 MB are listed as holes exactly where the reader stands, larger ones never |
| EptIdle.EptIdleCtrl.U64ToU8 | kernel_module/ept_idle.c:112-125 | the word's eight bytes in the buffer, nothing before them changed |
| EptIdle.EptIdleCtrl.ReportAddr | kernel_module/ept_idle.c:141-150 | the buffer's contents grow by one set-address command |
| EptIdle.EptIdleCtrl.AddPage | kernel_module/ept_idle.c:152-209 | the byte buffer is the serialization of the specified token sequence after every call, accepted or refused, and stays within 8000 bytes |
| EptIdle.EptIdleCtrl.VisitEntry | kernel_module/ept_idle.c:275-383 | one page-table entry: its accessed bit is tested and cleared, then it is offered to the stream |
| EptIdle.EptIdleCtrl.EptPteRange | kernel_module/ept_idle.c:275-306 | the walk of a page of ptes is the flat walk of its addresses until the stream is full |
| EptIdle.EptIdleCtrl.EptRange | kernel_module/ept_idle.c:308-455 | the nested walkers of the four upper levels together are the flat walk of the range |
| EptWalk.FlatSplit | kernel_module/ept_idle.c:308-455 | cutting a walk at table boundaries, as the nested walkers do, changes neither the stream nor where it stops |
| EptReports.FlatReports | kernel_module/ept_idle.c:152-455 | the walk of a slot leaves in the stream a list of exactly the pages met so far, and stops where the slot's last reported entry ends, which may be behind the slot, or at the entry refused |
| EptLayout.PagesConsistent | kernel_module/ept_idle.c:551-590 | every host address of a guest page shows that page, across all slots; only pages have to lie inside their slots, not empty entries |
| EptRead.HostIsOk | kernel_module/ept_idle.c:308-455 | the reads ask nothing of a page table but its shape: every well-formed table decides its blocks as a whole |
| EptRead.FindGpa | kernel_module/ept_idle.c:551-590 | the guest address of the slot that holds the host address with what is left of it, or the exact distance to the next slot above |
| EptRead.InitBuffer | kernel_module/ept_idle.c:457-475 | KBUF_FULL exactly with 9 to 19 bytes left: with fewer the limit is negative, compares as a huge unsigned one, and the buffer is set up |
| EptRead.CopyUser | kernel_module/ept_idle.c:490-532 | the round's buffer, ended by a last command exactly when the walk ended in a hole, is what the round's specification sends; the next limit and the result are the specified ones |
| EptRead.WalkRound | kernel_module/ept_idle.c:633-658 | one pass of the loop is one round of the specification, slot or gap, with its restart point and result |
| EptProgress.GapEnds | kernel_module/ept_idle.c:639-647 | a round that begins in no slot moves the position to the least slot address above, or without one to the end of the user's addresses or of the range, and is the last |
| EptProgress.SlotRoundEnds | kernel_module/ept_idle.c:647-656 | a round in a slot walks to where the slot is left, or stops short of its end only with at most 19 bytes of room in kpie or the user's buffer |
| EptProgress.GoesOnExactly | kernel_module/ept_idle.c:490-532 | the loop goes on if and only if the round listed a page and more than 19 bytes, or 1 to 8, are left |
| EptProgress.ReadStopsExactly | kernel_module/ept_idle.c:633-658 | a round is the read's last if and only if the walk has come to the end of the range, the round listed no page, or 9 to 19 bytes or none are left |
| EptPacking.ReadPacks | kernel_module/ept_idle.c:152-209 | in all that a read sends a run is followed by one of its own type only where it has the 15 pages its byte can count |
| EptRead.WalkHvaRange | kernel_module/ept_idle.c:619-663 | the loop ends, and its states are those of a whole read of the specification, whose last state is the bytes copied and the position |
| EptRead.EptIdleRead | kernel_module/ept_idle.c:668-721 | every outcome of a read: refusals; 1 with nothing written for a size of 19; else bytes which decode to exactly the pages examined between the old and the new file position, once each in ascending order, none beyond; the position moves on, from a place in no slot to the next slot; the read goes on until it has to stop; the bytes are at most `count` if and only if no round began with 1 to 8 bytes left |
| EptRounds.RoundReports | kernel_module/ept_idle.c:490-532 | one round, in a slot or between slots: everything sent up to where it stops is a report of every page examined, and a round that goes on has moved on |
| EptRounds.ScansReport | kernel_module/ept_idle.c:619-663 | the same of every state of a read, after any number of rounds |
| EptRounds.ReadUnique | kernel_module/ept_idle.c:619-663 | host, size and position determine the read: two accounts of it agree round by round |
| EptBytes.LimitFailsExactly | kernel_module/ept_idle.c:457-475 | the comparison of int with size_t fails if and only if 9 to 19 bytes are left |
| EptBytes.RoundBytes | kernel_module/ept_idle.c:490-532 | a round copies at least 9 bytes and less than kpie beyond `count`; they fit if and only if it did not begin with 1 to 8 bytes left, and such a round is the last |
| EptBytes.ReadFitsExactly | kernel_module/ept_idle.c:668-721 | a read copies at most `count` bytes if and only if no round begins with 1 to 8 bytes left, and never kpie's size more |
| EptExamples.ReadCopiesMore | kernel_module/ept_idle.c:457-532 | a read of 30 bytes on one slot with four pages, then a hole to its end, and a second slot copies more than 30 bytes, although the host meets every demand |
| EptOverrun.ReadStays | kernel_module/ept_idle.c:152-209 | although the limit test passes in such a round, kpie is never overrun if no slot is longer than 798 GB |
| EptTypes.AccessedExactly | kernel_module/ept_idle.c:275-357 | of the pages one read lists, a page of 4 KB or 2 MB is reported accessed if and only if its bit was set when the read began and no round of the read refused it |
| EptTypes.RefusesOne | kernel_module/ept_idle.c:275-357 | a round refuses at most one page, and that page has lost its accessed bit |
| EptBits.ReadClearsExactly | kernel_module/ept_idle.c:275-357 | a read clears the accessed bits of exactly the pages of 4 KB and 2 MB it lists or refuses |
| EptReads.ReadsList | kernel_module/ept_idle.c:668-721 | reads that follow each other list together what one walk from the first to the last position would: no page lost or listed twice at a seam |
| EptReads.ReadsTypes | kernel_module/ept_idle.c:275-357 | over such reads a page is reported accessed if and only if its bit was set when the first began and no round up to its own read refused it |
| EptReads.ChainTypes | kernel_module/ept_idle.c:275-357 | over reads in any order of places, if and only if besides no earlier one has listed it |
| EptExamples.RefusedPageLooksIdle | kernel_module/ept_idle.c:275-357 | a host with three pages whose third is refused by a read of 20 bytes: every read that goes on from there reports it idle though it had been accessed |
| EptLoss.OverhangsExactly | kernel_module/ept_idle.c:308-357 | the walk leaves a slot behind its end if and only if the slot ends in the middle of an empty 2 MB entry |
| EptLoss.ListedExactly | kernel_module/ept_idle.c:619-663 | of the pages that end between the old and the new position a read lists exactly those that no slot it leaves passes over |
| EptLoss.LosesNothingExactly | kernel_module/ept_idle.c:619-663 | reads lose no page, wherever they begin, if and only if no page ends under an empty 2 MB entry that reaches beyond the end of its slot |
| EptExamples.OverhangLosesPage | kernel_module/ept_idle.c:308-357 | two slots of one page each: every report of a read at 0 passes over the second slot's page |
| PageList.PageListUnique | kernel_module/ept_idle.c:619-663 | the layout determines the reported list: addresses, sizes and order |
| IdleRefs.ParseCounts | ProcIdlePages.cc:372-434 | on any valid stream of rising items the decoder makes exactly the calls of the listed pages below the end, although it may stop early, and ends where the stream does or behind the end |
| IdleRefs.CountedRises | ProcIdlePages.cc:292-321 | for pages that follow each other without overlap the calls come in strictly ascending order, so nothing is counted twice |
| IdleRefs.CountedOnceExactly | ProcIdlePages.cc:292-321 | what each listed page is counted with, in literal numbers: accessed pages of 4 KB and 2 MB 1, dirty ones 3, idle ones 0, in the sequence of their size, and 1 GB pages 1; one call if the page lies below the end at a multiple of its size, else none |
| IdleRefs.SmallPagesCounted | ProcIdlePages.cc:397-424 | an item of 512 idle 4 KB pages makes a call with 0 for each of them below the end if it lies at a multiple of 4 KB, else none |
| IdleRefs.SmallRunCalls | ProcIdlePages.cc:292-321 | a run of 4 KB pages makes one call a page below the end, in order, with 1, 3 or 0 for accessed, dirty and idle pages |
| IdleRefs.LargeRunCalls | ProcIdlePages.cc:292-321 | the same for 2 MB pages |
| IdleRefs.PassedOverExactly | ProcIdlePages.cc:372-434 | the decoder passes over a page behind the end if and only if it is in a run that begins before the end |
| IdleRefs.UnalignedNotCounted | ProcIdlePages.cc:292-321 | a 2 MB page at host address 4096 is never counted |
| ProcIdlePages.Walker.U8ToU64 | ProcIdlePages.cc:358-370 | the word whose bytes stand at the position, the inverse of the kernel's u64_to_u8 |
| ProcIdlePages.Walker.IncPageRefs | ProcIdlePages.cc:292-321 | the calls made for a run are those of SmallRunCalls and LargeRunCalls |
| ProcIdlePages.Walker.ParseIdlepages | ProcIdlePages.cc:372-434 | the loop over bytes counts and advances as the token-level decoder does |
| IdleWalk.ReportCounted | ProcIdlePages.cc:134-207 | decoding one kernel report makes exactly the calls of its pages below the end and leaves va at the file position, or at the end with the file position beyond |
| IdleWalk.ReadPassesExactly | ProcIdlePages.cc:372-434 | behind a read the walk goes on behind a listed page that lies beyond the mapping's end if and only if the page is in a run that begins before that end |
| ProcIdlePages.Walker.ReadAndParse | ProcIdlePages.cc:156-206 | one read and its decoding: as many bytes as the rest needs within the limits, and the calls are those of exactly the pages examined in the piece read |
| ProcIdlePages.Walker.WalkVma | ProcIdlePages.cc:113-212 | end to end over all reads of a mapping: the reads follow each other from the first address not yet walked to the mapping's end or beyond, and the calls made are those of the pages they list; skipped mappings change nothing |
| IdleWalk.DoneLists | ProcIdlePages.cc:141-207 | the reads of such a walk list exactly the pages one walk over the whole range examines |
| IdleWalk.WalkCallsExactly | ProcIdlePages.cc:113-212 | of each listed page the one call made, with 1 if its accessed bit was set when the walk began and no round refused it and 0 otherwise, for 1 GB pages always 1; none beyond the end or off a multiple of the size |
| ProcIdlePages.Walker.Walk | ProcIdlePages.cc:214-255 | the loop over all mappings of the process: each is walked from where the walk before it has come to, up to the first mapping behind the range of interest |
| MappingWalk.CallsRise | ProcIdlePages.cc:214-255 | over all mappings the calls come in strictly ascending order, so an address sequence takes each once |
| MappingWalk.WholeWalkCalls | ProcIdlePages.cc:214-255 | over all mappings a page listed below the end of the mapping walked has one call, with 1 if and only if its bit was set when the whole walk began, no round refused it and no earlier read listed it |
| MappingWalk.CrossingLost | ProcIdlePages.cc:372-434 | a page behind a mapping's end in a run begun before it is counted by no mapping's walk |
| IdleExamples.RunLosesPages | ProcIdlePages.cc:372-434 | two adjacent mappings in one run of accessed pages: the second mapping's pages are never counted |
| IdleExamples.OverreadCountsIdle | ProcIdlePages.cc:156-206 | a read beyond a mapping's end clears the bit of an accessed page of the next mapping, whose walk then counts it 0 |
| ProcIdlePages.SlotCountsExactly | ProcIdlePages.cc:292-321 | an aligned guest page lies at a multiple of its size in the host if and only if guest and host addresses of its slot differ by such a multiple |
| AddrClusters.ReadAt | AddrSequence.cc:215-229 | an iterator at entry n reads entry n, and is at its end exactly behind the last entry |
| AddrClusters.MergeKeeps | AddrSequence.cc:348-369 | an item added to the last cluster represents the sequence with one more entry |
| AddrClusters.CreateKeeps | AddrSequence.cc:294-328 | a new cluster leaves all earlier clusters and buffers representing what they did |
| AddrClusters.CompactAppend | AddrSequence.cc:273-291 | with a new cluster only behind a full buffer or a distance that does not fit, the clusters stay as few as possible |
| AddrClusters.UpdateKeeps | AddrSequence.cc:247-270 | a changed payload, node or location leaves addresses, distances and every cursor alone |
| AddrSequence.AddrSequence.Clear | AddrSequence.cc:35-48 | the empty map |
| AddrSequence.AddrSequence.Rewind | AddrSequence.cc:56-65 | one walk more, the find cursor at the first entry, the byte counts zero |
| AddrSequence.AddrSequence.PrepareUpdate | AddrSequence.cc:68-74 | the find cursor at the first entry, nothing else seen from outside |
| AddrSequence.AddrSequence.DoWalk | AddrSequence.cc:215-229 | the entry under a cursor, or END_OF_SEQUENCE exactly at the end |
| AddrSequence.AddrSequence.DoWalkMoveNext | AddrSequence.cc:231-245 | the cursor at the next entry, across clusters and buffers |
| AddrSequence.AddrSequence.GetFirst | AddrSequence.cc:197-202 | -1 for the empty map, else its first entry |
| AddrSequence.AddrSequence.GetNext | AddrSequence.cc:204-213 | the entries one after the other in ascending order, then END_OF_SEQUENCE |
| AddrSequence.AddrSequence.UpdatePayload | AddrSequence.cc:247-260 | exactly one payload changes and the byte counts follow it |
| AddrSequence.AddrSequence.FindForward | AddrSequence.cc:136-166 | the forward-only search stops at the first entry not below the address and succeeds exactly if that is the address |
| AddrSequence.AddrSequence.UpdateAddr | AddrSequence.cc:136-166 | the step on the abstract map: entries, cursor, byte counts and result |
| AddrSequence.AddrSequence.UpdateNodeid | AddrSequence.cc:98-134 | refused after the first walk; else exactly the found entry's node and location change |
| AddrSequence.AddrSequence.AllocateBuf | AddrSequence.cc:385-408 | one fresh buffer behind the old ones, which keep their contents |
| AddrSequence.AddrSequence.SaveIntoCluster | AddrSequence.cc:348-369 | one item with its 8-bit distance behind the last one, the last cluster one longer |
| AddrSequence.AddrSequence.CreateCluster | AddrSequence.cc:294-316 | the map with one more entry, in a cluster of its own |
| AddrSequence.AddrSequence.CanMergeIntoCluster | AddrSequence.cc:371-383 | yes if and only if the buffer has room and the distance is a whole number of pages, at most 255 |
| AddrSequence.AddrSequence.AppendAddr | AddrSequence.cc:273-291 | a new address goes behind the map, one that is not above the last is refused and changes nothing; no cluster begins where the last one could have gone on |
| AddrSequence.AddrSequence.IncPayload | AddrSequence.cc:76-86 | append in the first walk, update in later ones |
| AddrSequence.AddrSequence.SetPayload | AddrSequence.cc:88-96 | refused while appending, else the update step |
| AddrRuns.ReportFoundExactly | AddrSequence.cc:136-166 | with ascending reports the i-th of a walk succeeds if and only if its address is stored, although the cursor never goes back |
| AddrRuns.WalkCounts | AddrSequence.cc:136-166 | an update walk counts each stored page it saw accessed up by one, changes nothing else, and tallies what it counted |
| AddrRuns.AppendedAll | AddrSequence.cc:273-291 | ascending appends all arrive, in order |
| AddrRuns.PlaceWalkPlaces | AddrSequence.cc:98-134 | ascending update_nodeid calls put every stored page where its call says, ignore the others, change nothing else, and add the bytes of the pages put to both byte counts of their location |
| AddrRuns.RunPayloads | AddrSequence.cc:247-260 | after any run of up to 255 walks, with pages placed after the first, every payload is the number of walks that saw the page accessed |
| AddrRuns.RunBytes | AddrSequence.h:177-185 | after every update walk young_bytes is the page size times the pages this walk saw accessed, top_bytes that of the pages accessed in every walk, and top <= young <= total |
| HotPages.AppendWalk | AddrSequence.cc:273-291 | the calls of a first walk on the clustered structure give the appended map, in as few clusters as possible |
| HotPages.UpdateWalkCalls | AddrSequence.cc:136-166 | the calls of a later walk on the clustered structure give the walk on the map |
| HotPages.PlaceCalls | AddrSequence.cc:68-134 | prepare_update and a loop of update_nodeid calls on the clustered structure give the placement on the map |
| HotPages.FirstCalls | AddrSequence.cc:35-134 | clear, rewind, the appends of the first walk and the placement on the clustered structure give the placed map, with both byte counts those of the pages put |
| HotPages.NextCalls | AddrSequence.cc:136-166 | one more update walk of the run on the structure gives its next state, byte counts included |
| HotPages.RunCalls | AddrSequence.cc:35-166 | a whole run of calls on the clustered structure ends in the map and byte counts of the run's specification, every payload the number of walks that saw its page, in as few clusters as possible |
| HotPages.NormalizeAddrSequence | EPTMigrate.cc:533-561 | a read cursor and a write cursor on one storage turn every payload into the indicator of its old value lying in the band; the flag makes it idempotent |
| HotPages.SecondPassKeepsExactly | EPTMigrate.cc:533-561 | without the flag a second pass would keep the result if and only if the band tells 1 from 0 the way the first result needs |
| HotDrift.HotIsBand | GlobalScan.cc:774-852 | the hot pages of a normalized sequence are those whose payload was in the threshold band |
| HotDrift.CalcPageHotnessDrifting | GlobalScan.cc:774-852 | the stable count is the size of the intersection of the two hot sets; the unstable count is the symmetric difference of what was read of each |
| CountMin.Cms.UpdateCells | pmu-refs/cmsk.cc:103-119 | each row's cell of the key counts up, all others stay, and the result is the smallest new cell |
| CountMin.Cms.Update | pmu-refs/cmsk.cc:103-119 | the sketch stays sound for an arbitrary hash function, and the result is the key's estimate |
| CountMin.Cms.EstimateCovers | pmu-refs/cmsk.cc:103-119 | the estimate is never below the aged count and never above the total |
| CountMin.Cms.ErrorBracket | pmu-refs/cmsk.cc:97-101 | the error times the number of columns is at most twice the samples, and one more would exceed it |
| CountMin.Cms.AloneIsExact | pmu-refs/cmsk.cc:103-119 | a key that shares its column with no other counted key in one of the rows is estimated exactly, through all halvings |
| CountMin.Cms.Age | pmu-refs/cmsk.cc:79-88 | halving all cells keeps every estimate at or above the halved counts |
| HotHash.CountKeeps | pmu-refs/cmsk.cc:200-225 | counting an item up leaves every chain as it is |
| HotHash.NewChain | pmu-refs/cmsk.cc:172-192 | a new item in an empty bucket: chains stay acyclic, disjoint and index-increasing |
| HotHash.LongerChain | pmu-refs/cmsk.cc:200-225 | a new item linked behind the last of its bucket keeps them so |
| HotHash.StoredTouched | pmu-refs/cmsk.cc:200-225 | after an update a key is stored once, counted up or with its first count, and no other key changes |
| Achash.Achash.HistMoves | pmu-refs/cmsk.cc:148-170 | moving a count from one histogram cell to the next follows the item that is counted up |
| Achash.Achash.HistExactly | pmu-refs/cmsk.cc:148-170 | in hash mode each histogram cell is the number of addresses with that count, the last one of those with at least as many |
| Achash.Achash.FindItem | pmu-refs/cmsk.cc:200-225 | the walk through a chain finds the key's item exactly if it is stored, else the chain's last item |
| Achash.Achash.NewItem | pmu-refs/cmsk.cc:172-192 | the next free item with its first count, samples and histogram included |
| Achash.Achash.Update | pmu-refs/cmsk.cc:200-225 | the table denotes the entries with the key touched; samples stays the sum of live counts and, in hash mode, the histogram their clamped counts; true exactly when the last free item was taken |
| Cmsk.Cmsk.Update | pmu-refs/cmsk.cc:341-358 | one sample in either mode: an address enters the hash or counts up exactly when its estimate has reached threshold plus error, the filter's guarantees hold for the counts with this sample, and the result says whether the hash is full |
| Cmsk.Cmsk.Age | pmu-refs/cmsk.cc:360-367 | a new round starts with an empty hash over a halved or a cleared sketch |
| Cmsk.Cmsk.Sandwich | pmu-refs/cmsk.cc:341-358 | since the last ageing of either kind, for any hash function: a key seen at least threshold plus error times is in the hash, its stored count misses at most the error, or one sample where threshold and error are both 0, and is at most its estimate, which is at least its count |
| Cmsk.Cmsk.HeavyIsStored | pmu-refs/cmsk.cc:341-358 | said of total and width: an address is in the hash whose count times the width reaches threshold times the width plus twice the samples, and at most that share of its count is missing |
| Cmsk.Cmsk.AloneAdmitted | pmu-refs/cmsk.cc:341-358 | of an address that shares its column with no other in some row it is the aged count that decides, and the stored count never exceeds it |
| Cmsk.Cmsk.ExactCounts | pmu-refs/cmsk.cc:341-350 | in hash mode every stored count is exact |
| HotSort.LiveFirstExactly | pmu-refs/cmsk.cc:238-241 | every descending order of the whole table begins with the live items if and only if no unused slot counts as much as a live item that it differs from |
| HotSort.StaleOnTop | pmu-refs/cmsk.cc:238-241 | if an unused slot counts more than a live item, no descending order begins with the live items |
| HotSort.Bsearch | pmu-refs/cmsk.cc:243-260 | the first item of a descending table that counts at most the bound |
| HotSort.CutAtThreshold | pmu-refs/cmsk.cc:369-393 | for any sorted table the items kept are exactly those of the first len at or above the threshold, and the counts of those cut are taken off samples in 32 bits |
| HotSort.CutSumExactly | pmu-refs/cmsk.cc:369-393 | after the cut samples is the sum of the kept items if and only if no unused slot counts more than a live item |
| StaleTable.SamplesAreTotal | pmu-refs/cmsk.cc:172-225 | the samples the hash keeps account of are the sum of its live counts |
| HotSort.TopCountsMost | pmu-refs/cmsk.cc:238-241 | the first items of the sorted table never count less than the live items do together |
| StaleTable.ReachStale | pmu-refs/cmsk.cc:341-367 | from cmsk_init on, three samples, one ageing and one sample reach a table with an unused slot that counts more than its live item |
| StaleTable.StaleSpoils | pmu-refs/cmsk.cc:369-393 | no descending order of that table begins with its live item, and with a threshold of 3 the samples left wrap around to 2^32 - 1 |
| Sampling.Sampler.ReadFd | pmu-refs/pmu.cc:144-209 | the usable samples of one buffer in order, up to the one that fills the hash |
| Sampling.SameKeyExactly | pmu-refs/hmd.cc:94-99 | two samples count for the same item if and only if they are of one process and in the same aligned block of 2^order bytes |
| Sampling.Sampler.ReadUnit | pmu-refs/pmu.cc:558-599 | a full hash ends a unit at once and nothing more is read; otherwise the rest of every buffer is |
| Sampling.Sampler.RunInterval | pmu-refs/hmd.cc:532-551 | over a whole interval the hash never has more items than places, and the filter has seen exactly the samples delivered, in order, up to the one that filled it; only what the ageing leaves counts against the cells' width |
| RangeLists.CanonicalUnique | AddressRangeFilter.cc:117-171 | a list of disjoint, non-adjacent ranges is determined by the addresses it covers |
| RangeLists.JoinedCovers | AddressRangeFilter.cc:117-171 | replacing the touched ranges by the joined one covers exactly the new addresses in addition |
| AddressRangeFilter.AddressRangeFilter.SearchRange | AddressRangeFilter.cc:12-62 | the entry that holds the address, or that none does and its neighbours |
| AddressRangeFilter.AddressRangeFilter.SearchAddress | AddressRangeFilter.cc:64-70 | membership |
| AddressRangeFilter.AddressRangeFilter.RemoveRanges | AddressRangeFilter.cc:82-115 | exactly the entries inside the new range are erased, while the iterators advance over the changing map |
| AddressRangeFilter.AddressRangeFilter.InsertRange | AddressRangeFilter.cc:117-171 | the map stays canonical and covers the old addresses and the new range of that pid, no others |
| AddressRangeFilter.ResetArfilter | pmu-refs/hmd.cc:359-365 | the canonical map of the configured ranges |
| AddressRangeFilter.OrderDoesNotMatter | AddressRangeFilter.cc:117-171 | the map depends on the set of inserted ranges only, not on order or repetition |
| Migration.SubmittedAligned | pmu-refs/migration.cc:68-112 | what is submitted is an order-preserving subsequence of the pages, each with its own count and the target of its own node |
| Migration.MoveOutcomeExactly | pmu-refs/migration.cc:114-145 | one call said of the system's answers: which pages are told to move, in which order and where to, and that exactly those fail whose answer is not their target |
| Migration.MigrationState.GetTargetNodes | pmu-refs/migration.cc:68-86 | in-place compaction of three parallel arrays: the pages on PMEM with their targets |
| Migration.MigrationState.Filter | pmu-refs/migration.cc:96-112 | in-place compaction: the pages hot enough for their target |
| Migration.MigrationState.MovePages | pmu-refs/migration.cc:114-161 | the pages whose move failed, and nothing else, are added to the filter of that pid |
| HotMigration.Optimizer.MigratePages | pmu-refs/hmd.cc:113-158 | items are handed over run by run of one pid, each item's pages in order without those the filter holds then; the moved pages add up; the failed ones, and no others, join the filter, and over all calls since it was reset no page is submitted again for a pid after its move failed |
| HotGroups.PageOfExactly | pmu-refs/hmd.cc:116-141 | the pages handed over for an item are exactly those that meet its 2^order bytes, in order from its first page |
| HotGroups.GroupHandsExactly | pmu-refs/hmd.cc:128-153 | a page is handed over with a count if and only if it is a page of an item with that count and the filter does not hold it |
| HotGroups.ItemInOrder | pmu-refs/hmd.cc:139-153 | the pages of an item are handed over in ascending order |
| HotGroups.GroupInOrder | pmu-refs/hmd.cc:128-153 | items are handed over one after the other |
| HotGroups.SubmittedFromRun | pmu-refs/hmd.cc:113-158 | every page submitted is a page of an item of that pid that the filter did not hold |
| Histogram.CountRefsOne | EPTScan.cc:127-175 | the DRAM, PMEM and ALL rows hold the pages by node kind and clamped reference count |
| Planner.AvailableKb | GlobalScan.cc:1040-1078 | the greedy loops find the minimum of the budget and the memory at the levels that count |
| Planner.TopWithinBudgetExactly | GlobalScan.cc:1040-1065 | without too much memory on PMEM the hot memory found stays within the promote budget if and only if one page type alone is hot in every walk or both together fit |
| Planner.BudgetOverrun | GlobalScan.cc:1040-1065 | twice the budget can be found |
| Planner.NeedsMoreCold | GlobalScan.cc:1096-1096 | the ratio test says that more is to be demoted than promoted |
| Planner.BalanceBounds | GlobalScan.cc:1096-1128 | no limit exceeds what is available, and one direction moves alone only in the unbalanced stage that wants it |
| Planner.CalcMigrateCount | GlobalScan.cc:995-1133 | the two budgets share the period limit and differ by what DRAM lacks of its target, by at most seven eighths of the limit; the limits are those of BalanceExactly, and with too much memory on PMEM both stay within their budgets and what is available, their sum within the period limit |
| Planner.BudgetsLean | GlobalScan.cc:1022-1036 | with DRAM above its target at least as much is to be demoted as promoted, below it the reverse |
| Planner.TooManyExactly | GlobalScan.cc:1014-1019 | the unbalanced case is the one with more than its share of all memory on PMEM |
| Planner.BalanceExactly | GlobalScan.cc:1096-1128 | the limits in the ratio of the budgets, rounded down: all that is hot is promoted, or, where more is to be demoted and too little is cold, all that is cold is demoted; without pages on one side the other moves in the unbalanced stage only, towards the side that has too little |
| Planner.HotCounts | GlobalScan.cc:1040-1065 | the hot memory counts every page accessed in some walk with 4 KB or 2 MB, and nothing else |
| Planner.ColdCounts | GlobalScan.cc:1067-1078 | the cold memory counts every page not accessed in every walk |
| PlanRanges.SpendSlot | GlobalScan.cc:1151-1209 | one plan entry keeps the account of KB spent and pages planned in one direction |
| PlanRanges.CalcMigrateParameter | GlobalScan.cc:1135-1209 | every range and type is to move all pages beyond its threshold and `remain` of those at it; the plans stay within the KB limits and use all but less than a page of them as far as there are pages; no range keeps back pages hotter, or colder, than those another one moves, nor pages as hot if it comes first |
| Selector.ChosenCount | EPTMigrate.cc:333-365 | the loop takes at most the pages beyond the threshold and `remain` of those at it, exactly so many if every node has a peer |
| Selector.RangeIsChosen | EPTMigrate.cc:333-365 | every page beyond the threshold whose node has a peer is taken, for that peer |
| Selector.ChosenIsPage | EPTMigrate.cc:333-402 | nothing else is taken |
| Selector.PromotedExactly | EPTMigrate.cc:333-381 | a page is promoted if and only if it is on PMEM, its node has a peer, and its count is above the threshold within its bound, or at the threshold with fewer than promote_remain such pages before it |
| Selector.DemotedExactly | EPTMigrate.cc:333-402 | the same for demotion |
| Selector.ChosenAscend | EPTMigrate.cc:333-402 | the choices come in ascending order of addresses |
| Selector.SelectPages | EPTMigrate.cc:333-402 | the loop with its decreasing counters takes the specified pages in both directions |
| Selector.PromotesAsPlanned | EPTMigrate.cc:304-381 | the selection promotes at most nr_promote pages of the plan, and exactly that many if every page has a peer node and no page was counted more often than there were walks |
| Selector.DemotesAsPlanned | EPTMigrate.cc:304-381 | the same for demotion |
| Selector.SelectedWithinLimits | GlobalScan.cc:1135-1209 | from limits to pages: what is selected over all ranges and page types stays within the promote limit and the demote limit in KB |
| Selector.SelectedAsPlanned | EPTMigrate.cc:304-402 | and it is as many KB as the plans say where no page was counted more often than there were walks and every node has a peer |
| WorkerPool.StepKeepsInv | Queue.h:21-50 | every step of main and workers, spurious wake-ups included, keeps the accounts of jobs and of notifications |
| WorkerPool.BarrierHolds | GlobalScan.cc:380-411 | a round ends only when both queues are empty and no worker holds a job, and main has popped each job exactly as often as it pushed it |
| WorkerPool.QuietBetween | GlobalScan.cc:458-483 | between two rounds nothing is queued or in flight |
| WorkerPool.ExactlyOnce | GlobalScan.cc:444-456 | over every run each job of the rounds gone by has been executed exactly as often as it was asked for, and none of a later round |
| WorkerPool.FirstInFirstOut | Queue.h:21-50 | both queues hand out their jobs in the order they were put in, over every run |
| WorkerPool.StoppedCleanly | GlobalScan.cc:208-218 | when stop_threads returns every worker has left its loop having taken exactly one JOB_QUIT, and the queues are empty |
| WorkerPool.NoDeadlock | Queue.h:21-50 | until then some step other than a spurious wake-up can be taken: no notification is lost |
| WorkerPool.MainFinishes | GlobalScan.cc:380-456 | a run with finitely many spurious wake-ups has bounded length and can always go on to the end: main never blocks for ever |
| PageWalk.UpperIsLookup | kernel_module/ept_idle_native_pagewalk.c:144-292 | a callback is due exactly where the entries down to the pmd are not empty |
| PageWalk.MmWalk.WalkRange | kernel_module/ept_idle_native_pagewalk.c:144-292 | the four nested walkers call the callbacks due in the range in order, up to the first that does not answer 0 |
| PageWalk.MmWalk.WalkPageRange | kernel_module/ept_idle_native_pagewalk.c:418-465 | -EINVAL for an empty range or no address space; else the callbacks due in all accepted areas in order, up to the first that does not answer 0, whose answer is returned |
| PageWalk.DueIsPartition | kernel_module/ept_idle_native_pagewalk.c:144-465 | the callbacks due are ascending, disjoint pieces, each the part of the range in one accepted area and one block of the table, and cover exactly the mapped addresses of areas without a file, or written and private, that are not hugetlb areas |
| PageWalk.HugePudExactly | kernel_module/ept_idle_native_pagewalk.c:215-225 | pud_entry is called exactly for huge pud entries |
| PageWalk.StopsAtFirstError | kernel_module/ept_idle_native_pagewalk.c:388-400 | the calls made are a prefix of those due, all of them when every callback answers 0 |
| MovePages.TargetIsWanted | MovePages.cc:390-414 | a target is an error or a present node of the wanted kind, and a page already on such a node stays |
| MovePages.Mover.FindLastGood | MovePages.cc:439-446 | the last located page behind the position, or the position if there is none |
| MovePages.Mover.CalcTargetNodes | MovePages.cc:360-388 | the located pages come first, pages and statuses stay paired as a multiset, those on their side of the cut stay in place, each located page has the target of its own node, and targets behind the cut are left from the batch before |
| MovePages.UnboxExactly | MovePages.cc:88-101 | a boxed move is unboxed to itself if and only if the page was located and had a target; field by field otherwise |
| MovePages.MovedReadBackExactly | MovePages.cc:71-101 | for which moves the statistics' question whether the page moved survives the boxing |
| IntervalFitting.IntervalFitting.AddPair | IntervalFitting.h:32-51 | the pool keeps no duplicates, its list and map have the same intervals, at most TMaxSample; exactly the oldest sample of a full pool and an older sample of the same interval go |
| IntervalFitting.KeptExactly | IntervalFitting.h:32-51 | which samples stay: a new interval pushes the oldest out of a full pool, an interval that is there leaves its place |
| IntervalFitting.IntervalFitting.FindNearest | IntervalFitting.h:61-76 | the tightest bracket of the target, the later sample where two are equally near |
| IntervalFitting.NearestUnique | IntervalFitting.h:61-76 | the pool determines the bracket |
| IntervalFitting.EstimateOnLine | IntervalFitting.h:94-103 | slope and intercept as computed give the point of the line through both samples, between their intervals |
| IntervalFitting.IntervalFitting.EstimateX | IntervalFitting.h:53-103 | between the two intervals of the tightest bracket when there is one, else the proportional estimate from the nearest sample, else the default |
| IntervalFitting.FallbackBounds | IntervalFitting.h:106-125 | the fallback changes an interval at most by these factors, within its limits |
| IntervalFitting.RatioExactly | IntervalFitting.h:106-125 | between its limits the factor is the target over the last value plus one |
| IntervalFitting.PureLinerExactly | IntervalFitting.h:106-125 | inside all limits the new interval is to the old one as the target to the last value plus one |

## Left out

- TlbProtocol.NoStaleEntry: context switches, lazy TLB mode and address-space identifiers are outside the model; all CPUs have the address space loaded throughout, and a TLB fill is one step.
- TlbProtocol.ShotDown: the requester flushes its own TLB as one more handler; the stride of a request is assumed to fit the translations in use, as its callers choose it.
- EptRead.EptIdleRead: a missing virtual CPU, an unsupported EPT format and a failing copy to the user (-EINVAL, -EFAULT) are not modelled; slots are page aligned, apart in the host and below TASK_SIZE, and guest pages lie inside them.
- EptIdle.EptIdleCtrl.AddPage: a write behind the end of kpie, possible only in a round with a negative limit; the model refuses the item instead and sets the flag `overrun`, after which nothing is said about the code. `EptOverrun.ReadStays` shows that the flag stays off if no slot is longer than 798 GB.
- EptTypes.AccessedExactly: two slots that show the same guest addresses, where clearing a bit through one changes what the other shows; accesses by the guest during a read.
- ProcIdlePages.Walker.ReadAndParse: a read that copies more than the walker's buffer holds; the model keeps the bytes and sets the flag `overrun` of the walker, which stays off for ranges of at most SAFE_RANGE bytes.
- EptIdle.EptIdleCtrl.VisitEntry: the scan flags (huge pages only, skim idle, dirty bits) are off; entries are present or empty.
- ProcIdlePages.Walker.ParseIdlepages: buffers with types of 11 and above or a cut command, on which the loop does not advance; the kernel side never writes them.
- ProcIdlePages.Walker.WalkVma: failing system calls and the ERANGE skip; mappings begin at multiples of 4 KB.
- ProcIdlePages.Walker.Walk: processes placed on DRAM, opening the file, the count of walks and the rewind of the sequences, which HotPages.RunCalls has.
- AddrSequence.AddrSequence.AllocateBuf: allocation failures; buffers are fresh arrays.
- AddrRuns.RunPayloads: runs of more than 255 walks, whose 8-bit payloads wrap around.
- CountMin.Cms.Update: more than 65535 updates between two clears, beyond the 16-bit cells.
- Cmsk.Cmsk.Sandwich: process ids of more than 24 bits; the hash functions themselves are a parameter.
- HotSort.CutAtThreshold: the sort itself; its result is any descending permutation of the table.
- Sampling.Sampler.RunInterval: the perf ring buffers, select and the clock; what they deliver and how many units run are parameters.
- AddressRangeFilter.AddressRangeFilter.SearchRange: the decrement of an iterator at the first entry, undefined for std::map, is read as the code reads it, as "no predecessor"; ranges are not empty and do not wrap around.
- HotMigration.Optimizer.MigratePages: items with pid 0, which the sampling never stores; the sort by pid is a parameter.
- Migration.MigrationState.MovePages: the answers of the move_pages system call are parameters.
- Planner.CalcMigrateCount: float rounding (arithmetic is over reals) and a period limit below 16 KB, whose promote budget rounds to nothing.
- PlanRanges.CalcMigrateParameter: anti_thrashing, whose heuristic changes thresholds afterwards, and exit_on_converged.
- Selector.SelectPages: do_interleave_move_pages, which moves the selected pages in alternating batches.
- WorkerPool.BarrierHolds: the case without worker threads, where main runs the jobs itself; the mutex is the atomicity of a step, and thread scheduling only has to take some enabled step.
- PageWalk.MmWalk.WalkPageRange: bad table entries, which the walk clears and skips, are empty entries; find_vma is its contract; pte_hole, pte_entry and hugetlb_entry are not installed by the scan.
- MovePages.Mover.CalcTargetNodes: the loop over batches; the array is one batch, and located nodes are possible nodes.
- IntervalFitting.IntervalFitting.EstimateX: float rounding.
- The native scan of ordinary processes (mm_idle_*), which skips a repeated pmd by its last address.
- smooth_payloads, option parsing, /proc and sysfs access, statistics printing and bandwidth limits: no logic that would add to the proofs.
