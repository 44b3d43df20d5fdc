# Models of rr and ATTUNE

rr records the execution of a process tree and replays it; ATTUNE (`muplay`) replays a recording
against a modified program. This project models the parts of `rr_muplay` in which a hard invariant
lives, and proves the invariants.

- **The parallel trace compressor.** One producer and N compressor threads share a ring buffer
  under a mutex and a condition variable. `CompressedWriter.dfy` is the protocol, one step for each
  critical section and for each piece of work done outside the mutex; `WriterInvariant.dfy` and
  `WriterSteps.dfy` hold the invariant and its preservation; `WriterTheorems.dfy` and
  `WriterTermination.dfy` what follows from it; `WriterCode.dfy` the code over its fields, each
  section proved to be a step. `BlockFile.dfy` is the file format, `CompressedReader.dfy` the
  reader, and `TraceRoundTrip.dfy` joins the two ends.
- **The address-space interval map.** `MemoryRange.dfy` and `MemoryMap.dfy` are the ordered map in
  which overlap counts as equality; `MappingLists.dfy` the operations on the whole list of mappings;
  `AddressSpace.dfy` the code; `PageTable.dfy` the flat page table it agrees with; `DontFork.dfy` the
  set of ranges that a fork leaves out.
- **Debug registers and breakpoints.** `WatchRegisters.dfy` is the minimal aligned cover,
  `Breakpoints.dfy` the reference-counted overlay over the tracee's memory and `BreakpointRuns.dfy`
  its histories.
- **muplay.** `Muplay.dfy` is the phase machine of `muplay_step`, built on the overlay.
- **gdb.** `Words.dfy`, `AgentMachine.dfy`, `GdbExpression.dfy` and `GdbVariants.dfy` are the
  agent-expression evaluator (GDB manual, Appendix F, section F.2 "Bytecode Descriptions"), and
  `Instructions.dfy` says what each instruction does, by its number; `GdbFraming.dfy` is the packet
  layer (Appendix E, section E.1 "Overview"); `SearchMemory.dfy` the memory search.
- **The rest.** `PackNames.dfy` and `Pack.dfy` are `rr pack` over an abstract disk,
  `FdTables.dfy` and `FdHistory.dfy` the monitored descriptors, `ExtendedJumps.dfy` and
  `Monkeypatcher.dfy` the stub allocator.

Conventions. Positions, addresses and sizes are unbounded integers, so no sum wraps around; the
widths that matter are written out (`int64_t` values in `Words.dfy`, `int8_t` register numbers in
`WatchRegisters.dfy`, header words in `BlockFile.dfy`, signed 32-bit reach in `ExtendedJumps.dfy`).
A failed `ASSERT`, `FATAL` or `exit` is a stop: it appears as a result that says so, or as a
precondition where it guards against the caller. Brotli is a decoder together with a relation: a
compressed block decodes to its input, or compression fails. Memory and register reads, and the
values of operations that C++ leaves undefined, are functions the theorems quantify over. File
hashes are taken to be free of collisions, so contents stand for their hashes.

Where code and documentation disagree the model follows the code. The manual's `rot` turns
`a b c` into `c a b`; the evaluator reverses the three items (`GdbExpressions.RotReverses`).

Some properties one would expect do not hold of the code. For each of them there is an input that
shows it, and the exact condition under which it holds:

- Jump pages are never taken off their list. If the tracee unmaps a jump page, a later page can be
  listed at the same address, and stubs overlap (`ExtendedJumps.PageListedTwice`,
  `Monkeypatching.HandsOutTwice`). The jumps of a run are disjoint if and only if no new
  page takes the place of a listed one (`Monkeypatching.Execute`).
- `is_in_trace_dir` is a string prefix test and not a directory test
  (`PackNames.PrefixIsNotInside`, `PackNames.PrefixExactly`). A record that names a file of a sibling
  directory can be renamed to a file that does not exist (`Pack.PackSibling`). `rr pack` keeps every
  record right if and only if the first plain name of each content is, under its last component, a
  file of the trace directory with the same bytes (`Pack.TraceDirectory.PackTrace`).
- Register numbers are stored as `int8_t`, and a list can lose an entry from number 128 on
  (`WatchRegisters.TooManyEntries`, `WatchRegisters.ListsExactly`).
- `maybe_update_breakpoints` skips the last byte of a write. The saved byte of a breakpoint there goes
  stale unless the write leaves the byte alone (`BreakpointRuns.LastByteMissed`,
  `BreakpointRuns.RunRight`), and the breakpoint is gone from memory even then, unless the byte
  written is the breakpoint byte (`BreakpointRuns.LastByteLost`, `BreakpointRuns.RunArmed`).
- `remove_all_breakpoints` does not end in an address space without tasks that has a breakpoint
  (`Breakpoints.BreakpointTable.RemoveAllRound`).
- A descriptor slot stays disabled after its task has gone, until it is next recomputed
  (`FdTables.SlotStays`, `FdTables.ExitExact`, `FdHistory.Execute`).
- `remove_range` does not see a range that begins before the one to be removed
  (`DontFork.StillLeftOut`), and once ranges overlap, which `add_range` lets them, it can also drop
  what lies behind the one to be removed, because only the end of the last range taken out is put
  back (`DontFork.NoLongerLeftOut`, `DontFork.RemovedExactly`, `DontFork.AddedExactly`).
- A variant of an agent expression can execute bytes that the search has not marked as instructions
  (`GdbVariants.LeavesMarks`, `GdbVariants.MixedExactly`).

`dafny verify dfyconfig.toml` checks the whole project.

## Model

| member | source | states |
|---|---|---|
| BlockFile.WordRoundTrip | rr_muplay/src/CompressedWriter.h:45-48 | a header word read back from its four stored bytes is the word |
| BlockFile.ReadBlock | rr_muplay/src/CompressedReader.cc:128-160 | a successful refill consumes at least the header and stays inside the file |
| BlockFile.RestOfBlocks | rr_muplay/src/CompressedReader.cc:106-160 | reading a file made of whole blocks to its end yields the concatenation of their raw bytes |
| BlockFile.HeaderSumOfBlocks | rr_muplay/src/CompressedReader.cc:202-211 | on such a file the sum of the header lengths is the number of raw bytes |
| BlockFile.WholeFile | rr_muplay/src/CompressedReader.cc:128-160 | a file of whole blocks reads back from its start as all the raw bytes, and its header sum is their number |
| BlockFile.BlocksAreClean | rr_muplay/src/CompressedReader.h:28 | on a file of whole, non-empty blocks no refill fails and the end of the file coincides with the end of the data |
| CompressedReading.CompressedReader.constructor | rr_muplay/src/CompressedReader.cc:23-35 | a new reader has the whole file ahead of it, and is in error exactly if the file could not be opened |
| CompressedReading.CompressedReader.AtEnd | rr_muplay/src/CompressedReader.h:28 | at_end implies nothing is left; on a sound file it holds exactly when nothing is left |
| CompressedReading.CompressedReader.RefillBuffer | rr_muplay/src/CompressedReader.cc:128-160 | a refill succeeds exactly when a block can be parsed at the offset, keeps the bytes still to be delivered, and keeps what the saved position could deliver, including the swap of buffers |
| CompressedReading.CompressedReader.Read | rr_muplay/src/CompressedReader.cc:106-126 | succeeds exactly when enough bytes are left, returns just those bytes and advances past them, on any file, malformed ones included; otherwise the reader is in error |
| CompressedReading.CompressedReader.Skip | rr_muplay/src/CompressedReader.cc:86-104 | advances like read, under the same condition, and fails like read |
| CompressedReading.CompressedReader.GetBuffer | rr_muplay/src/CompressedReader.cc:69-84 | shows a prefix of what is left without consuming it; on a sound file it is empty only at the end |
| CompressedReading.CompressedReader.SaveState | rr_muplay/src/CompressedReader.cc:172-178 | remembers the bytes still to be delivered and changes nothing else |
| CompressedReading.CompressedReader.RestoreState | rr_muplay/src/CompressedReader.cc:180-192 | the bytes still to be delivered are again those of the moment of saving, whatever was read since, with offset, position and end-of-file status |
| CompressedReading.CompressedReader.DiscardState | rr_muplay/src/CompressedReader.cc:194-200 | keeps the advanced position |
| CompressedReading.CompressedReader.UncompressedBytes | rr_muplay/src/CompressedReader.cc:202-211 | the header total of the file, independent of the reading position |
| WriterProtocol.MinPos | rr_muplay/src/CompressedWriter.cc:120-123 | the scan for the completed position yields the least of the limit and all busy positions |
| WriterInvariant.InitInv | rr_muplay/src/CompressedWriter.cc:32-73 | the initial state satisfies the invariant |
| WriterSteps.StartWriteInv | rr_muplay/src/CompressedWriter.cc:81-82 | entering write keeps the invariant |
| WriterSteps.CopyInv | rr_muplay/src/CompressedWriter.cc:89-95 | copying a chunk into the ring keeps the invariant: the ring still holds every unfinished byte |
| WriterSteps.ReserveAndWaitInv | rr_muplay/src/CompressedWriter.cc:83-87 | publishing and reserving, or falling asleep, keeps the invariant |
| WriterSteps.ProducerRecheckInv | rr_muplay/src/CompressedWriter.cc:114-130 | a woken producer that looks again keeps the invariant |
| WriterSteps.FinishWriteInv | rr_muplay/src/CompressedWriter.cc:98-103 | leaving write, with or without a reservation update, keeps the invariant |
| WriterSteps.BeginCloseInv | rr_muplay/src/CompressedWriter.cc:214 | the first section of close keeps the invariant |
| WriterSteps.SetClosingInv | rr_muplay/src/CompressedWriter.cc:216-219 | setting the closing flag and waking everybody keeps the invariant |
| WriterSteps.JoinInv | rr_muplay/src/CompressedWriter.cc:221-235 | the end of close keeps the invariant |
| WriterSteps.TopInv | rr_muplay/src/CompressedWriter.cc:149-204 | taking the next block, leaving the loop or falling asleep keeps the invariant |
| WriterSteps.FeedInv | rr_muplay/src/CompressedWriter.cc:249-260 | giving a piece of the ring to the encoder keeps the invariant: what was fed is the stream |
| WriterSteps.CompressDoneInv | rr_muplay/src/CompressedWriter.cc:164-182 | the end of compression, failed or not, keeps the invariant |
| WriterSteps.TurnCheckInv | rr_muplay/src/CompressedWriter.cc:171-182 | a woken thread that checks whether it is its turn keeps the invariant |
| WriterSteps.WriteSomeInv | rr_muplay/src/CompressedWriter.cc:184-189 | a partial write to the file keeps the invariant: the file grows by the right bytes |
| WriterSteps.WriteDoneInv | rr_muplay/src/CompressedWriter.cc:188-196 | the end of a write keeps the invariant: the block joins the finished ones |
| WriterSteps.StepInv | rr_muplay/src/CompressedWriter.cc:81-269 | every step of the producer or of any thread, spurious wake-ups and error paths included, keeps the invariant |
| WriterTheorems.RunInv | rr_muplay/src/CompressedWriter.cc:81-269 | the invariant holds in every state of every interleaving |
| WriterTheorems.FileIsPrefix | rr_muplay/src/CompressedWriter.cc:136-207 | at every moment of every run at most one thread writes, and the file is a prefix of readable, consecutive, non-empty blocks of the stream, all of them full-sized but the last |
| WriterTheorems.RingBounds | rr_muplay/src/CompressedWriter.cc:105-134 | next_thread_pos <= next_thread_end_pos <= write position <= completed position + buffer size in every reachable state |
| WriterTheorems.CompletedNeverDecreases | rr_muplay/src/CompressedWriter.cc:120-123 | no step moves the completed position back |
| WriterTheorems.CopyHitsNoLiveCell | rr_muplay/src/CompressedWriter.cc:89-95 | the producer never overwrites the ring cell of a byte that a thread has not finished with |
| WriterTheorems.FedIsStream | rr_muplay/src/CompressedWriter.cc:238-269 | what do_compress has given the encoder is exactly its slice of the stream, across wrap-around |
| WriterTheorems.UnopenedTakesNothing | rr_muplay/src/CompressedWriter.cc:55-58 | a writer whose file cannot be opened stays in error and takes no byte, whatever is written to it |
| WriterTheorems.Progress | rr_muplay/src/CompressedWriter.cc:105-236 | in every state of the invariant that is not the end, some step other than a spurious wake-up is possible |
| WriterTermination.NoLostWakeup | rr_muplay/src/CompressedWriter.cc:105-207 | a thread or producer asleep and not signalled has a false guard, in every reachable state |
| WriterTermination.NoDeadlock | rr_muplay/src/CompressedWriter.cc:105-236 | no reachable state is stuck before close has finished |
| WriterTermination.ClosingDecreases | rr_muplay/src/CompressedWriter.cc:209-236 | from the join on, every step that is not a spurious wake-up lowers a lexicographic rank |
| WriterTermination.Follow | rr_muplay/src/CompressedWriter.cc:209-236 | following any schedule that picks an enabled step by the state, close reaches its end with every thread gone |
| WriterTermination.SomeDiligent | rr_muplay/src/CompressedWriter.cc:209-236 | there is such a schedule |
| WriterTermination.CloseEnds | rr_muplay/src/CompressedWriter.cc:209-236 | in every endless run from the join on, whatever rule chooses the steps, with any number of spurious wake-ups up to some moment and none afterwards, close reaches its end |
| WriterTermination.ClosedFile | rr_muplay/src/CompressedWriter.cc:209-236 | when close has ended, the error flag is exactly write_error, and without it the file holds every byte of every call |
| WriterTermination.RoundTrip | rr_muplay/src/CompressedWriter.cc:81-236 | the closed file of an error-free run reads back as the concatenation of the written data, is sound, and its header total is the data size |
| WriterCode.CompressedWriter.constructor | rr_muplay/src/CompressedWriter.cc:32-73 | the fields of a new writer represent the initial state of the protocol, with a ring of block_size * (threads + 2), or, if the file cannot be opened, a writer in error without threads |
| WriterCode.CompressedWriter.CompletedPos | rr_muplay/src/CompressedWriter.cc:120-123 | the loop over thread_pos computes the completed position |
| WriterCode.CompressedWriter.OtherThreadFirst | rr_muplay/src/CompressedWriter.cc:172-177 | the loop says whether some thread holds an earlier block |
| WriterCode.CompressedWriter.CopyChunk | rr_muplay/src/CompressedWriter.cc:89-95 | one turn of the copying loop, in place on the ring, is the protocol's copy step |
| WriterCode.CompressedWriter.ReserveAndWaitSection | rr_muplay/src/CompressedWriter.cc:105-134 | the section is the protocol's reserve-or-sleep step |
| WriterCode.CompressedWriter.ReserveNowSection | rr_muplay/src/CompressedWriter.cc:105-134 | the section with NOWAIT is the protocol's non-waiting reservation |
| WriterCode.CompressedWriter.RecheckSection | rr_muplay/src/CompressedWriter.cc:114-131 | the section after a wake-up is the protocol's recheck step |
| WriterCode.CompressedWriter.TopSection | rr_muplay/src/CompressedWriter.cc:149-158 | the section is the protocol's step through the top of the loop, and yields a length exactly when there is a block to take |
| WriterCode.CompressedWriter.AfterCompressSection | rr_muplay/src/CompressedWriter.cc:164-182 | the section after do_compress is the protocol's compress-done step |
| WriterCode.CompressedWriter.TakeTurnSection | rr_muplay/src/CompressedWriter.cc:171-196 | the waiting loop up to its next unlock or wait is the protocol's take-turn step |
| WriterCode.CompressedWriter.AfterWriteSection | rr_muplay/src/CompressedWriter.cc:188-196 | the section after write_all is the protocol's write-done step |
| WriterCode.CompressedWriter.ClosingSection | rr_muplay/src/CompressedWriter.cc:216-219 | the section is the protocol's set-closing step |
| WriterCode.CompressedWriter.FeedEncoder | rr_muplay/src/CompressedWriter.cc:248-260 | the ring-reading loop of do_compress hands over exactly stream[offset..offset+length] as long as those bytes are live |
| TraceRoundTrip.Perform | rr_muplay/src/CompressedReader.cc:69-126 | any in-bounds sequence of read, skip and get_buffer calls succeeds and is answered from the data in order |
| TraceRoundTrip.ReadBack | rr_muplay/src/CompressedReader.cc:69-160 | end to end: for every error-free run of the writer and every in-bounds sequence of reader calls, the answers are the written bytes, at_end holds exactly when all are consumed, and uncompressed_bytes is the total written |
| TraceRoundTrip.LookAhead | rr_muplay/src/CompressedReader.cc:172-192 | save, any in-bounds calls, restore: position, end-of-file status and future answers are as if nothing had been read |
| MemoryRanges.Range.Intersects | rr_muplay/src/MemoryRange.h:44-48 | true exactly when some address lies in both ranges |
| MemoryRanges.Range.Intersect | rr_muplay/src/MemoryRange.h:50-54 | contains exactly the addresses that lie in both ranges |
| MemoryMaps.CutLooks | rr_muplay/src/AddressSpace.h:107-112 | a subrange shows at every address what the whole mapping showed, file offset included |
| MemoryMaps.SubrangeKeeps | rr_muplay/src/AddressSpace.h:107-112 | a subrange of a kernel mapping is at every address where the whole was in its file, with the same attributes |
| MappingLists.OutsideTwice | rr_muplay/src/AddressSpace.cc:1061-1110 | cutting out one region and then the next is cutting out both at once |
| MappingLists.ProtectedTwice | rr_muplay/src/AddressSpace.cc:694-775 | so is protecting, where no mapping lies across the boundary |
| MappingLists.LongestRun | rr_muplay/src/AddressSpace.cc:1657-1683 | the run that is merged: neighbours meet and have equal protection, flags, device, inode, names and rr flags, with continuing offsets on a real device, as mapped and as recorded; what is beyond its ends does not |
| AddressSpaces.UnmapOneLooks | rr_muplay/src/AddressSpace.cc:1061-1110 | unmapping part of one mapping leaves its remains on both sides showing what they showed |
| AddressSpaces.ProtectOneLooks | rr_muplay/src/AddressSpace.cc:694-775 | changing the protection of part of one mapping, with splits on both sides, changes just that part |
| AddressSpaces.ChainViews | rr_muplay/src/AddressSpace.cc:1182-1205 | along a chain of adjacent mappings every one shows what the first would show if extended over it |
| AddressSpaces.MergeLooks | rr_muplay/src/AddressSpace.cc:1657-1699 | replacing a chain by one extended mapping changes no lookup and keeps the map well formed |
| AddressSpaces.AddressSpace.constructor | rr_muplay/src/AddressSpace.cc:1391-1412 | a new address space maps nothing |
| AddressSpaces.AddressSpace.HasMapping | rr_muplay/src/AddressSpace.cc:678-686 | true exactly when the address is mapped and the page behind it does not wrap around the address space |
| AddressSpaces.AddressSpace.SetMappingFlags | rr_muplay/src/AddressSpace.cc:646-650 | changes rr's own flags on exactly the mapping that holds the address; the list of mappings is otherwise as it was |
| AddressSpaces.AddressSpace.UnmapInternal | rr_muplay/src/AddressSpace.cc:1061-1110 | exactly the pages touched by the region become unmapped; the map stays disjoint, non-empty, page-aligned and keyed by its own ranges; the loop ends; the list is the old one with the region cut out of every mapping |
| AddressSpaces.AddressSpace.ChainAround | rr_muplay/src/AddressSpace.cc:1657-1683 | finds the first and the last mapping of the longest run around the given one |
| AddressSpaces.AddressSpace.CoalesceAround | rr_muplay/src/AddressSpace.cc:1657-1699 | the longest run becomes one mapping from its first start to its last end with the first one's fields, the others stay, and no lookup changes |
| AddressSpaces.AddressSpace.MapAndCoalesce | rr_muplay/src/AddressSpace.cc:1767-1782 | over unmapped addresses, the region shows the new mapping and nothing else changes; the list is the old one with the mapping in its place, merged with the longest run around it |
| AddressSpaces.AddressSpace.Map | rr_muplay/src/AddressSpace.cc:568-606 | the region shows the new protection, flags, device, inode and offset page by page; everything else is as before; the list is the old one with the region cut out and the new mapping put in and merged |
| AddressSpaces.AddressSpace.Unmap | rr_muplay/src/AddressSpace.cc:1049-1059 | exactly the region becomes unmapped; an empty region changes nothing; the list is the old one with the region cut out |
| AddressSpaces.AddressSpace.Remap | rr_muplay/src/AddressSpace.cc:794-828 | the new region shows the old mapping continued from the old address without rr's own flags, the old region is unmapped, everything else is as before; the list is the old one with both regions cut out and the moved mapping put in and merged |
| AddressSpaces.AddressSpace.Protect | rr_muplay/src/AddressSpace.cc:694-775 | the protection changes on exactly the longest mapped run from the region's first page, cut at the region's end and, under PROT_GROWSDOWN, extended down to the first mapping's start; nothing else changes; the list is the old one with the mappings cut at both ends of the run and merged around its last one |
| AddressSpaces.AddressSpace.ProtectEach | rr_muplay/src/AddressSpace.cc:694-765 | the loop over the mappings of the region does that, and ends |
| PageTables.StepKeys | rr_muplay/src/AddressSpace.cc:568-828 | which pages an operation leaves mapped depends on the pages mapped before and not on what they show |
| PageTables.Perform | rr_muplay/src/AddressSpace.cc:568-606 | one operation on the interval map, protect with PROT_GROWSDOWN and a change of rr's own flags included, agrees with the page-by-page update of a flat page table |
| PageTables.Execute | rr_muplay/src/AddressSpace.cc:1061-1110 | throughout every sequence of map, unmap, remap, protect and flag changes the interval map is well formed, is what the operation makes of the list of mappings before, and agrees with the flat page table at every address; where an operation depends on the extent of a mapping, the table is changed at the extent the map has at that moment |
| DontFork.ForkSet.RemoveRange | rr_muplay/src/AddressSpace.cc:539-559 | the set stays in order and is what the reference removal leaves, which never cuts a range that starts earlier |
| DontFork.ForkSet.AddRange | rr_muplay/src/AddressSpace.cc:561-566 | the set stays in order and holds the range besides what the reference removal leaves |
| DontFork.RemovedExactly | rr_muplay/src/AddressSpace.cc:539-559 | on every ordered set, overlapping ranges included, just the addresses of the given range go if and only if no range ordered before it meets it and what the ranges taken out cover behind it is covered by the last of them or by a range that is left |
| DontFork.AddedExactly | rr_muplay/src/AddressSpace.cc:561-566 | on every ordered set, just the addresses of the given range are added if and only if the second of these holds |
| DontFork.SeparateKept | rr_muplay/src/AddressSpace.cc:539-559 | it holds on every set of separate ranges |
| DontFork.AddedSeparate | rr_muplay/src/AddressSpace.cc:561-566 | separate ranges stay separate when one is added if and only if no range ordered before it meets it, which is how overlapping ranges come about |
| DontFork.Execute | rr_muplay/src/AddressSpace.cc:1112-1128 | over any sequence of add_range and remove_range, from any ordered set, the set stands for the addresses it is meant to at every moment if and only if each operation meets its condition in its turn |
| DontFork.StillLeftOut | rr_muplay/src/AddressSpace.cc:539-559 | two pages added, the second removed: it is still in the set |
| DontFork.NoLongerLeftOut | rr_muplay/src/AddressSpace.cc:552-558 | four pages added, the second added again, the first three removed: the fourth is gone too |
| WatchRegisters.First | rr_muplay/src/AddressSpace.cc:1487-1495 | the piece tried first is the widest naturally aligned one that fits |
| WatchRegisters.SplitIsFewest | rr_muplay/src/AddressSpace.cc:1485-1497 | no partition into naturally aligned pieces of 1, 2, 4 or 8 bytes has fewer pieces |
| WatchRegisters.PartitionCovers | rr_muplay/src/AddressSpace.cc:1485-1497 | a partition holds every byte of the range exactly once and no other byte |
| WatchRegisters.SplitRange | rr_muplay/src/AddressSpace.cc:1485-1497 | the loop ends with an exact in-order partition that has the fewest pieces |
| WatchRegisters.Widened | rr_muplay/src/AddressSpace.cc:1510-1520 | the widened range is aligned and exceeds the range by less than one block on each side |
| WatchRegisters.PiecesCover | rr_muplay/src/AddressSpace.cc:1499-1535 | the watched range is always covered, exactly for exec and read-write, by natural pieces, and never with more registers than any exact partition |
| WatchRegisters.ConfigureWatchRegisters | rr_muplay/src/AddressSpace.cc:1499-1535 | the new entries have the type, 1, 2, 4 or 8 bytes at a multiple of their number, and watch every byte of the range once, and no other unless only writes are watched; a write watchpoint goes beyond its range by less than a block, and only if every exact partition has more pieces; it does so whenever the blocks of 2, 4 or 8 bytes that its range meets take fewer; the numbers are kept as int8_t if asked |
| WatchRegisters.WatchTable.GetWatchConfigs | rr_muplay/src/AddressSpace.cc:1537-1558 | every byte of a watchpoint is watched for what the watchpoint asks, and no byte for execution or reading that none asks for; each watchpoint's list is rebuilt from its own entries, or left alone when no task state will be set |
| WatchRegisters.ExactWhenFitting | rr_muplay/src/AddressSpace.cc:1537-1558 | while the numbers fit, a watchpoint lists an entry exactly if it is its own and watches execution or reading |
| WatchRegisters.CountsFitExactly | rr_muplay/src/AddressSpace.cc:1526-1534 | the piece counts of the watchpoints tell in advance whether every entry from number 128 on is a write entry |
| WatchRegisters.ListsExactly | rr_muplay/src/AddressSpace.cc:1526-1534 | the lists are exact for all watchpoints and entries if and only if each watchpoint that has reported pieces has its last one among the first 128 pieces of all |
| WatchRegisters.TooManyEntries | rr_muplay/src/AddressSpace.cc:1526-1534 | 129 one-byte execution watchpoints: the last one does not list its own entry |
| Breakpoints.Breakpoint.Ref | rr_muplay/src/AddressSpace.h:901-904 | raises the count of its type by one and no other |
| Breakpoints.Breakpoint.Unref | rr_muplay/src/AddressSpace.h:905-910 | lowers the count of its type by one and no other |
| Breakpoints.BreakpointTable.Destroy | rr_muplay/src/AddressSpace.cc:1701-1711 | gives the saved byte back and forgets the breakpoint; without a task nothing happens |
| Breakpoints.BreakpointTable.Add | rr_muplay/src/AddressSpace.cc:839-861 | one more reference of the type, a breakpoint byte where there was none; fails without any change where memory cannot be read |
| Breakpoints.BreakpointTable.Remove | rr_muplay/src/AddressSpace.cc:830-837 | one reference less; the last one restores the byte; a remove where there is no breakpoint changes nothing |
| Breakpoints.BreakpointTable.RemoveAllRound | rr_muplay/src/AddressSpace.cc:863-867 | a round of the loop removes a breakpoint if there is a task, and otherwise changes nothing, so that the loop would not end |
| Breakpoints.BreakpointTable.RemoveAll | rr_muplay/src/AddressSpace.cc:863-867 | with a task, or with nothing to remove, the loop ends; no breakpoint and no reference is left and memory is what rr has kept of the program |
| Breakpoints.BreakpointTable.Suspend | rr_muplay/src/AddressSpace.cc:869-875 | the saved byte shows at a suspended breakpoint, which keeps its references |
| Breakpoints.BreakpointTable.Restore | rr_muplay/src/AddressSpace.cc:877-883 | the breakpoint byte shows again |
| Breakpoints.BreakpointTable.ReplaceBreakpointsWithOriginalValues | rr_muplay/src/AddressSpace.cc:520-532 | patches exactly the breakpointed bytes of the window, in place |
| Breakpoints.BreakpointTable.ReadOriginal | rr_muplay/src/AddressSpace.cc:520-532 | a reader of any readable window sees what rr has kept of the program |
| Breakpoints.BreakpointTable.MaybeUpdateBreakpoints | rr_muplay/src/AddressSpace.cc:1713-1726 | the breakpoints in all of a written range but its last byte note the new bytes and are set again |
| Breakpoints.BreakpointTable.WriteRecorded | rr_muplay/src/ReplayTask.cc:122-131 | after a recorded write over any bytes rr has learned all of them but a last one with a breakpoint, and that breakpoint is lost; all breakpoints show if and only if those outside the write did and the last byte has none or is the breakpoint byte |
| BreakpointRuns.OverlayFacts | rr_muplay/src/AddressSpace.h:890-938 | a breakpoint exists exactly where references are held; memory is what rr has kept, with the breakpoint byte at every held address that is neither suspended nor lost; with no references it is just what rr has kept |
| BreakpointRuns.Execute | rr_muplay/src/AddressSpace.cc:830-883 | after every type-balanced sequence of add, remove, remove_all, suspend, restore, program writes and recorded writes, over breakpoints or not, the table and all of memory are what the reference model says |
| BreakpointRuns.WrongAfter | rr_muplay/src/AddressSpace.cc:1713-1726 | where rr is wrong about the program after a write: where it was, outside the write, and at a last byte with a breakpoint whose saved byte differs |
| BreakpointRuns.RunRight | rr_muplay/src/AddressSpace.cc:1713-1726 | rr is right about the program throughout a history if and only if no write in it changes a last byte that has a breakpoint |
| BreakpointRuns.RunArmed | rr_muplay/src/AddressSpace.cc:1713-1726 | every held breakpoint shows throughout a history if and only if no breakpoint with another saved byte than the breakpoint byte is suspended and no write ends on a breakpoint with another byte |
| BreakpointRuns.LastByteMissed | rr_muplay/src/AddressSpace.cc:1713-1726 | a recorded write of one byte over a breakpoint; when the breakpoint is removed the old byte is back |
| BreakpointRuns.LastByteLost | rr_muplay/src/AddressSpace.cc:1713-1726 | a recorded write of the byte that is there anyway: rr is right, but the breakpoint no longer shows |
| Muplay.FindByAddress | rr_muplay/src/MuplayManager.cc:140-146 | finds a mapping with the original or modified address, or there is none |
| Muplay.ModifiedFuncAddr | rr_muplay/src/MuplayManager.cc:73-81 | the modified address of a mapping with the original address, or null if there is none |
| Muplay.AtModifiedFuncBp | rr_muplay/src/MuplayManager.cc:62-71 | true exactly when the tracee stands just behind a set breakpoint of a function other than the entry |
| Muplay.ModFunctionBpsExist | rr_muplay/src/MuplayManager.cc:83-89 | true exactly when some function other than the entry has its breakpoint set |
| Muplay.BaseAre | rr_muplay/src/MuplayManager.h:118 | beside the entry the mappings are exactly the loader's, the first of each name |
| Muplay.MuplaySession.PutEntryBp | rr_muplay/src/MuplayManager.cc:32-47 | sets the entry breakpoint and its mapping; references still match |
| Muplay.MuplaySession.RemoveBreakpoint | rr_muplay/src/MuplayManager.cc:97-101 | one user reference less and just that mapping's status cleared |
| Muplay.MuplaySession.SetFunctionBreakpoints | rr_muplay/src/MuplayManager.cc:49-59 | afterwards every function but the entry has its breakpoint and the references match |
| Muplay.MuplaySession.LoadModifiedCode | rr_muplay/src/MuplaySession.cc:90-112 | the load happens once, after the entry breakpoint, and returns to the entry; every mapping the loader gives that is the first of its name and not the entry is there with its breakpoint set and one user reference; the assertion that function breakpoints exist holds exactly if there is such a mapping; the entry's own breakpoint is gone, and the program and internal references are as before |
| Muplay.MuplaySession.JumpToModifiedCode | rr_muplay/src/MuplayManager.cc:110-131 | goes to the modified address of the function whose breakpoint was hit, takes that breakpoint away, and diverges |
| Muplay.MuplaySession.MuplayStep | rr_muplay/src/MuplaySession.cc:81-136 | which of the phases runs, and whether replay_step or diversion_step follows, for every input; after the load a step diverts exactly if it stands behind a function of the loader that the run has not been diverted from, and it goes to that function's modified address; the session's invariant is kept |
| Muplay.MuplaySession.Elsewhere | rr_muplay/src/AddressSpace.cc:830-883 | internal breakpoints, program writes and recorded writes of replay between two steps, over any memory that is there, do to the table what the reference of `BreakpointRuns` says and keep the session's invariant; user references are not touched |
| Muplay.RunSession | rr_muplay/src/MuplaySession.cc:81-136 | every run takes the steps its inputs call for, up to the first that exits, each decided by the log so far; the table changes only by the session's own breakpoints, which leave the program alone, and by what replay does between the steps; the entry breakpoint precedes the single load, which precedes every jump; each function is jumped to at most once; replay_step is never called after divergence; user references match the set breakpoints |
| Words.ZeroExtendMeaning | rr_muplay/src/GdbExpression.cc:208-216 | the masking formula of zero_ext computes the value modulo 2^n |
| Words.SignExtendMeaning | rr_muplay/src/GdbExpression.cc:198-207 | the sign-bit formula of ext computes the one number congruent modulo 2^n in the signed n-bit range |
| AgentMachine.RoundsTowardZero | rr_muplay/src/GdbExpression.cc:155-163 | signed division truncates: the remainder has the dividend's sign |
| AgentMachine.ExpressionState.Pop | rr_muplay/src/GdbExpression.cc:81-89 | takes the top value, or sets the error flag on an empty stack |
| AgentMachine.ExpressionState.Fetch | rr_muplay/src/GdbExpression.cc:108-119 | the big-endian operand behind the program counter, or an error with all bits set and no advance |
| AgentMachine.ExpressionState.LoadStep | rr_muplay/src/GdbExpression.cc:120-133 | replaces an address by the memory there, or sets the error flag |
| AgentMachine.ExpressionState.Pick | rr_muplay/src/GdbExpression.cc:134-140 | pushes a copy of the value at the depth, or sets the error flag |
| AgentMachine.ExpressionState.Arithmetic | rr_muplay/src/GdbExpression.cc:146-197 | every binary instruction computes the reference operation on the two top values and fails exactly on a short stack or a zero divisor |
| AgentMachine.ExpressionState.Extension | rr_muplay/src/GdbExpression.cc:198-216 | ext and zero_ext as the reference has them, widths 0 and from 64 up included |
| AgentMachine.ExpressionState.Jump | rr_muplay/src/GdbExpression.cc:244-253 | goto and if_goto as the reference has them |
| AgentMachine.ExpressionState.Operand | rr_muplay/src/GdbExpression.cc:234-281 | pick, the constants and reg as the reference has them |
| AgentMachine.ExpressionState.Step | rr_muplay/src/GdbExpression.cc:142-289 | one step of the mutable machine, which goes on after an error with sentinel values, computes one step of the reference, which stops |
| Instructions.Sums | rr_muplay/src/GdbExpression.cc:146-154 | 0x02, 0x03 and 0x04 leave the sum, the difference and the product of the two top values, or what C++ leaves undefined where it does not fit |
| Instructions.SignedDivisions | rr_muplay/src/GdbExpression.cc:155-166 | 0x05 and 0x07 leave the quotient without fraction and the remainder with the sign of the dividend, and fail on zero |
| Instructions.UnsignedDivisions | rr_muplay/src/GdbExpression.cc:158-169 | 0x06 and 0x08 leave quotient and remainder of the unsigned values, and fail on zero |
| Instructions.Shifts | rr_muplay/src/GdbExpression.cc:167-175 | 0x09 leaves the value times 2^b modulo 2^64, 0x0a and 0x0b the floor of the signed and of the unsigned value over 2^b |
| Instructions.Nots | rr_muplay/src/GdbExpression.cc:176-188 | 0x0e leaves 1 for zero and 0 for anything else, 0x12 flips every bit |
| Instructions.BitOperators | rr_muplay/src/GdbExpression.cc:178-186 | 0x0f, 0x10 and 0x11 combine the two top values bit by bit |
| Instructions.Comparisons | rr_muplay/src/GdbExpression.cc:189-197 | 0x13, 0x14 and 0x15 leave 1 if the values are equal, less as signed and less as unsigned numbers, and otherwise 0 |
| Instructions.Extensions | rr_muplay/src/GdbExpression.cc:198-216 | 0x16 and 0x2a leave the number congruent modulo 2^n in the signed and in the unsigned range of n bits; from n = 64 on they change nothing |
| Instructions.Loads | rr_muplay/src/GdbExpression.cc:217-224 | 0x17 to 0x1a read 1, 2, 4 and 8 bytes at the address on top, or fail |
| Instructions.Moves | rr_muplay/src/GdbExpression.cc:225-243 | 0x28 doubles the top, 0x29 drops it, 0x2b swaps two items, 0x33 reverses three, 0x27 ends |
| Instructions.Picks | rr_muplay/src/GdbExpression.cc:234-235 | 0x32 n copies the item n below the top |
| Instructions.Jumps | rr_muplay/src/GdbExpression.cc:244-253 | 0x20 goes to the big-endian two-byte target unless the top is zero, 0x21 always |
| Instructions.Constants | rr_muplay/src/GdbExpression.cc:254-261 | 0x22 to 0x25 push the big-endian number of the 1, 2, 4 or 8 bytes behind them |
| Instructions.Registers | rr_muplay/src/GdbExpression.cc:262-281 | 0x26 pushes the register with the two-byte number, or fails |
| Instructions.Unknown | rr_muplay/src/GdbExpression.cc:285-287 | every other number fails |
| GdbExpressions.NextIsSuccessor | rr_muplay/src/GdbExpression.cc:348-386 | the interpreter goes from an instruction only where the search goes |
| GdbExpressions.ExecutedIsReachable | rr_muplay/src/GdbExpression.cc:332-387 | every instruction any run of the program executes is one the search reaches |
| GdbVariants.MixedExactly | rr_muplay/src/GdbExpression.cc:389-419 | steps of variants, mixed at will, never lead from the marked instructions to others if and only if no single step of a variant does |
| GdbVariants.VariantExecutesMarked | rr_muplay/src/GdbExpression.cc:389-455 | then every variant executes marked instructions only, on every target |
| GdbVariants.ApartIsContained | rr_muplay/src/GdbExpression.cc:389-419 | this is so if no operand that is varied is a marked instruction or part of a marked jump |
| GdbVariants.LeavesMarks | rr_muplay/src/GdbExpression.cc:389-455 | a program with a jump into an operand of which a variant executes an instruction the search has not marked, on every target |
| GdbExpressions.ChoicesAre | rr_muplay/src/GdbExpression.cc:393-414 | the operand widths tried are 8, 16 and 32, as far as they are smaller, and the one that is there |
| GdbExpressions.CountVariants | rr_muplay/src/GdbExpression.cc:306-318 | the number of operand widths gdb may have meant |
| GdbExpressions.Explore | rr_muplay/src/GdbExpression.cc:332-387 | the search ends; it marks exactly the reachable instructions, and gives up exactly when the product of the variant counts over all reachable sites exceeds 64 |
| GdbExpressions.SpreadExactly | rr_muplay/src/GdbExpression.cc:390-419 | one more site turns the exact variant list into the exact list with that operand chosen too |
| GdbExpressions.Generate | rr_muplay/src/GdbExpression.cc:389-419 | the list holds every choice of operands at the marked sites exactly once, has the product as its length, and ends with the program itself |
| GdbExpressions.RunProgram | rr_muplay/src/GdbExpression.cc:435-445 | running the mutable machine for at most 10000 steps yields the program's reference value |
| GdbExpressions.GdbExpression.constructor | rr_muplay/src/GdbExpression.cc:332-420 | no variants if there would be more than 64, otherwise exactly the variants of the reachable sites |
| GdbExpressions.GdbExpression.Evaluate | rr_muplay/src/GdbExpression.cc:427-455 | succeeds exactly when there are variants and all have one common value, and returns it |
| GdbExpressions.EvaluateExpression | rr_muplay/src/GdbExpression.cc:427-455 | construct and evaluate: success is exactly at most 64 variants that all have the original program's value, and that value is returned |
| GdbExpressions.RotReverses | rr_muplay/src/GdbExpression.cc:236-243 | rot reverses the three top items, which is the manual's rotation only when the lower two are equal |
| SearchMemory.MatchIsRead | rr_muplay/src/GdbServer.cc:300-303 | a match that begins on a window's first page is wholly in what the window reads, whatever pages are unreadable |
| SearchMemory.SearchWindow | rr_muplay/src/GdbServer.cc:300-312 | finds the lowest match of the window, or no match begins on its first page |
| SearchMemory.SearchRange | rr_muplay/src/GdbServer.cc:300-312 | window after window, the lowest match in the range or none |
| SearchMemory.Search | rr_muplay/src/GdbServer.cc:286-315 | for a non-empty pattern the result is the lowest address at which a byte-by-byte search finds it within the range, and nothing exactly if that finds nothing |
| PackNames.PrefixIsNotInside | rr_muplay/src/PackCommand.cc:200-202 | the prefix test accepts a file of a sibling directory, whose trace-relative name would then mean another file |
| PackNames.PrefixExactly | rr_muplay/src/PackCommand.cc:200-202 | a path that passes the prefix test is in the directory if and only if one slash, and no other, follows the prefix |
| PackNames.StripIs | rr_muplay/src/PackCommand.cc:211-220 | the name of a hard link loses its prefix with the number, any other stays |
| PackNames.CopyNameInjective | rr_muplay/src/PackCommand.cc:221-236 | different indices give different names for copies |
| PackNames.CopyNameInside | rr_muplay/src/PackCommand.cc:204-236 | a copy lies directly in the trace directory, and its trace-relative name resolves to it |
| Pack.TraceDirectory.GatherFileInfo | rr_muplay/src/PackCommand.cc:88-198 | the files named by the records with their contents; stops exactly if one is missing or has another size than recorded |
| Pack.TraceDirectory.ChooseNames | rr_muplay/src/PackCommand.cc:283-294 | one representative for each content: the first plain in-trace name in the order of names whenever there is one |
| Pack.TraceDirectory.CreateCopy | rr_muplay/src/PackCommand.cc:221-236 | creates an empty file under a free numbered name; the search for one ends |
| Pack.TraceDirectory.CopyIntoTrace | rr_muplay/src/PackCommand.cc:204-268 | a new in-trace file mmap_pack_<number>_<name> with the same bytes, safe after every partial write |
| Pack.TraceDirectory.CopyAll | rr_muplay/src/PackCommand.cc:296-304 | every content gets a home: its plain representative, or else a fresh copy in the directory |
| Pack.TraceDirectory.RewriteMmaps | rr_muplay/src/PackCommand.cc:321-366 | the new mmaps file is switched to in one step, which is safe if and only if every new name is that of a file with the old bytes; a left-over pack_mmaps stops the command without any change |
| Pack.TraceDirectory.DeleteUnnecessaryFiles | rr_muplay/src/PackCommand.cc:369-400 | deletes exactly the unreferenced mmap_ files, and no deletion changes whether the records are right |
| Pack.TraceDirectory.PackTrace | rr_muplay/src/PackCommand.cc:402-426 | up to the switch every moment is safe: each record refers to a file with its original bytes and nothing outside the directory has changed; a completed run is safe at every moment if and only if each first plain name of a content is, under its last component, a file of the directory with the same bytes; then equal contents share one in-trace name and a copy was made exactly when no plain in-trace file had the content; in any case no unreferenced mmap_ file is left and a file is new only if its content needed a copy; no record and no file of the directory has a hard link's name any more, and a content with no other in-trace names has a new file |
| Pack.FiledExactly | rr_muplay/src/PackCommand.cc:306-319 | the new names all lead to files with the right bytes if and only if that condition holds of the trace before the command |
| Pack.PlacedIsSound | rr_muplay/src/PackCommand.cc:200-202 | the condition holds if every named file that passes the prefix test lies directly in the directory |
| Pack.SiblingIsUnsound | rr_muplay/src/PackCommand.cc:200-202 | a readable trace that names a file of a sibling directory and does not meet the condition |
| Pack.PackSibling | rr_muplay/src/PackCommand.cc:402-426 | packing that trace leaves its record with a name under which there is no file |
| GdbFraming.EscapesAre | rr_muplay/src/GdbConnection.cc:186-204 | #, $, * and } become } and 3, 4, 10 and 93; every other byte stays |
| GdbFraming.FrameIs | rr_muplay/src/GdbConnection.cc:150-169 | a frame is $, the payload, # and two hexadecimal digits that read back as the sum of the payload modulo 256 |
| GdbFraming.EscapedIsClean | rr_muplay/src/GdbConnection.cc:186-204 | escaped data contains no raw #, $ or * and is at most twice as long |
| GdbFraming.UnescapeInverts | rr_muplay/src/GdbConnection.cc:342-353 | reading escaped data back yields the data |
| GdbFraming.StreamRecovered | rr_muplay/src/GdbConnection.cc:255-353 | the items of a stream of framed packets and interrupts with noise between them are what was sent |
| GdbFraming.BinaryPacketRecovered | rr_muplay/src/GdbConnection.cc:175-209 | a binary packet with a #-free prefix frames without ambiguity and its data reads back |
| GdbFraming.GdbConnection.ReadDataOnce | rr_muplay/src/GdbConnection.cc:104-118 | moves one read into the buffer, or marks the connection closed |
| GdbFraming.GdbConnection.SkipToPacketStart | rr_muplay/src/GdbConnection.cc:255-277 | discards noise without changing what the next item is |
| GdbFraming.GdbConnection.AwaitHash | rr_muplay/src/GdbConnection.cc:313-327 | stops at the first #, wherever the reads cut the packet, or at the end of a connection that has none |
| GdbFraming.GdbConnection.ReadPacket | rr_muplay/src/GdbConnection.cc:288-340 | ends with the next item of the stream complete in the buffer, or closed exactly if there is none |
| GdbFraming.GdbConnection.ProcessPacket | rr_muplay/src/GdbConnection.cc:1231-1234 | takes the item and leaves the stream behind it |
| GdbFraming.GdbConnection.ReceiveAll | rr_muplay/src/GdbConnection.cc:288-340 | the items received are the items of the stream, in order |
| GdbFraming.GdbConnection.WritePacketBytes | rr_muplay/src/GdbConnection.cc:158-169 | appends the framed payload with its checksum |
| GdbFraming.GdbConnection.WriteBinaryPacket | rr_muplay/src/GdbConnection.cc:175-209 | appends the framed prefix and escaped data; the buffer check never cuts anything off |
| GdbFraming.ReadBinaryData | rr_muplay/src/GdbConnection.cc:342-353 | the loop computes the unescaped data and stops exactly on an unfinished escape |
| GdbFraming.Deliver | rr_muplay/src/GdbConnection.cc:255-353 | for every way the stream is cut into reads, the items received are the items sent |
| FdTables.WatchesExactly | rr_muplay/src/FdTable.cc:125-135 | with an exact count, the test on one table says whether some monitored descriptor has the slot |
| FdTables.WatchedExactly | rr_muplay/src/FdTable.cc:125-135 | with exact counts, the test on an address space says whether some task of it monitors into the slot |
| FdTables.UpdateCovers | rr_muplay/src/FdTable.cc:137-167 | after a change of one table at one descriptor, recomputing the slot restores the cover in all address spaces |
| FdTables.UpdateExact | rr_muplay/src/FdTable.cc:137-167 | if before the change exactly the monitored slots were disabled everywhere, then so they are after it |
| FdTables.ExitExact | rr_muplay/src/FdTable.cc:137-167 | when a task goes, exactness survives if and only if its address space has no array or other tasks of it monitor all its slots |
| FdTables.SlotStays | rr_muplay/src/FdTable.cc:137-167 | a task that monitors leaves one that does not: its slot stays disabled |
| FdTables.ForkExact | rr_muplay/src/FdTable.h:37-41 | when a task is copied with its address space, exactness survives if and only if there is no array or its own table monitors every slot monitored there |
| FdTables.Recorder.IsFdMonitoredInAnyTask | rr_muplay/src/FdTable.cc:125-135 | the loop computes the test over all tasks of the address space |
| FdTables.Recorder.UpdateSyscallbufFdsDisabled | rr_muplay/src/FdTable.cc:137-167 | recomputes the capped slot in every address space that uses the table and changes nothing else |
| FdTables.Recorder.AddMonitor | rr_muplay/src/FdTable.cc:22-32 | adds the monitor, keeps the count, the cover and exactness; refused if already monitored |
| FdTables.Recorder.DidDup | rr_muplay/src/FdTable.cc:93-106 | the duplicate is monitored exactly if the original is; count, cover and exactness are kept |
| FdTables.Recorder.DidClose | rr_muplay/src/FdTable.cc:108-115 | the descriptor is no longer monitored; count, cover and exactness are kept |
| FdTables.Recorder.InitSyscallbufFdsDisabled | rr_muplay/src/FdTable.cc:169-201 | a slot is disabled exactly when some task of the address space monitors into it |
| FdTables.Recorder.CloneTask | rr_muplay/src/FdTable.h:37-41 | sharing or copying a table and an address space keeps counts and cover, and exactness under the condition of ForkExact |
| FdTables.Recorder.Exec | rr_muplay/src/FdTable.h:37-41 | a task that executes a program gets its own table and an address space without an array; counts and cover are kept, and exactness under the condition of ExitExact |
| FdHistory.ChangedTold | rr_muplay/src/FdTable.cc:137-167 | recomputing the slot of a changed descriptor makes it tell what is monitored now, and the other slots what they told |
| FdHistory.CallsHappen | rr_muplay/src/FdTable.cc:22-201 | a history leaves out no call of a task that is there: every one can happen, under some new names where it makes a table, a task or an address space |
| FdHistory.Execute | rr_muplay/src/FdTable.cc:22-201 | after every history over tables, tasks and address spaces the count is the number of monitored descriptors at or above the limit, whatever any task of an address space monitors is disabled there, and a slot is disabled exactly if it was monitored when it was last recomputed, in that address space or in the one it was copied from; while no task leaves an address space or copies one, that is what is monitored now |
| ExtendedJumps.FindFreeMemory | rr_muplay/src/AddressSpace.cc:1964-1983 | the first gap of the required size behind the given mapping, free of all mappings |
| ExtendedJumps.NewPageIsGuarded | rr_muplay/src/Monkeypatcher.cc:178-200 | the place for a new page lies with an unmapped page on each side of it in unmapped memory |
| ExtendedJumps.BumpSound | rr_muplay/src/Monkeypatcher.cc:215-217 | handing out the next piece of a page that fits keeps all jumps on their pages, in reach, and in order on each page |
| ExtendedJumps.OpenSound | rr_muplay/src/Monkeypatcher.cc:178-217 | so does opening a new page with its first jump |
| ExtendedJumps.DisjointExactly | rr_muplay/src/Monkeypatcher.cc:163-218 | in every reachable state all jumps are disjoint if and only if no page is listed twice |
| ExtendedJumps.RunDistinct | rr_muplay/src/Monkeypatcher.cc:163-218 | over any run, whatever the tracee maps and unmaps, no page is listed twice if and only if no patch that needed a page found the place of one already listed |
| ExtendedJumps.KeptIsClear | rr_muplay/src/Monkeypatcher.cc:163-218 | none does as long as the tracee leaves the jump pages mapped |
| ExtendedJumps.PageListedTwice | rr_muplay/src/Monkeypatcher.cc:163-218 | for every stub size a run in which the tracee unmaps a full jump page, the next patch needs a page, and the same page is listed twice |
| Monkeypatching.Monkeypatcher.AddPage | rr_muplay/src/Monkeypatcher.cc:178-213 | a new page in the first three-page gap behind the patch site, listed and mapped, or no change exactly if that is out of reach |
| Monkeypatching.Monkeypatcher.AllocateExtendedJump | rr_muplay/src/Monkeypatcher.cc:163-218 | a jump on the first page that fits or on a new one, in reach; none exactly if no page fits and the gap found is too far |
| Monkeypatching.Monkeypatcher.PatchSyscall | rr_muplay/src/Monkeypatcher.cc:251-300 | the jump is allocated and its stub listed |
| Monkeypatching.Monkeypatcher.IsJumpStubInstruction | rr_muplay/src/Monkeypatcher.cc:220-228 | the nearest stub at or below the address is all it looks at; what it accepts always belongs to a jump |
| Monkeypatching.LookupSound | rr_muplay/src/Monkeypatcher.cc:220-228 | an address in the nearest stub at or below it belongs to a jump, whatever has happened to the pages |
| Monkeypatching.LookupExactly | rr_muplay/src/Monkeypatcher.cc:220-228 | the lookup is right about every address if and only if no jump reaches past a stub that starts in it without another stub following there |
| Monkeypatching.DisjointHasNoTail | rr_muplay/src/Monkeypatcher.cc:220-228 | disjoint jumps meet that condition |
| Monkeypatching.OneSizeHasNoTail | rr_muplay/src/Monkeypatcher.cc:220-228 | jumps of one size, such as those of one architecture, meet it even if they overlap |
| Monkeypatching.Execute | rr_muplay/src/Monkeypatcher.cc:163-228 | whatever is patched and mapped in between, all jumps stay on their pages, in reach and listed; they are disjoint if and only if no patch that needed a page found the place of a listed one, and so always while the tracee leaves the jump pages mapped |
| Monkeypatching.HandsOutTwice | rr_muplay/src/Monkeypatcher.cc:163-218 | for every stub size, a run after which two jumps overlap |

## Left out

- Breakpoints.BreakpointTable.RemoveAll: an address space with breakpoints and no task is excluded, because there the source's loop does not end.
- Muplay.RunSession: mappings are assumed to have distinct original and modified addresses, readable originals and non-null modified addresses; the order of the mapping set by name is not modelled, since with distinct addresses it decides nothing; between the steps writes to unmapped memory, which fail in the source, and removals of internal breakpoints that are not there do not happen.
- GdbVariants.VariantExecutesMarked: the condition is sufficient for each single variant and exact for mixtures of variants; a variant that fails to reach the offending instruction can stay among the marked ones without it.
- Monkeypatching.Execute: a patch of an unmapped site that needs a page, which fails an assertion in the source, leaves the model unchanged.
- fsync, and write(2) failures, which stop rr.
- An encoder that consumes nothing in a round of do_compress.
- CompressedReader::rewind on an empty file, and operator>> into a non-empty string.
- What remap does with dont_fork, and did_fork_into.
- emu_file, local_addr and monitored shared memory of mappings; fsname in the page view; recorded_map offsets after remap.
- The failing path of allocate_watchpoints, and chaos_mode_find_free_memory.
- Address arithmetic that wraps at 2^64, and left shifts of negative numbers, which are taken modulo 2^64.
- The scan of /proc for descriptors closed by exec; recording itself is assumed on, and preload_globals is taken to be uniform per address space.
- The comparison of stat data other than the size while gathering mapped files, truncation of names at PATH_MAX, and the threads that compute hashes.
- gdb request parsing beyond the framing, checksums of received packets, which the source ignores too, and socket errors other than the end of the stream.
- The patch bytes themselves: substitution of stub code, NOP padding and the recording of writes.
- ELF and DWARF readers, the quilter and the Egalito visitors, patch line counting, statistics and metadata.
- ptrace, perf counters, signals, scheduling and checkpointing: foreign calls or I/O.
