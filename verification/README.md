# Verified models of the emulation driver and its test support

This project states and proves, in Dafny, what the algorithmic parts of the
repository do: the video memory allocator, the DMA engine with its virtual
channels, the bare DMA descriptor builder, the JSON library of the test tools,
and three small cores of the test library. `dafny verify dfyconfig.toml` checks
everything.

## How it is organised

Each part has a specification on values and imperative code that is proved
against it; the properties are proved of the specification. `Common` holds the
few definitions that several parts use.

**Video memory (`driver/mm.c`).** `AvlModel` holds the AVL operations on tree
values with balance, order and node-set theorems; `AvlTree` the same operations
on linked nodes, each proved to leave the heap laid out as the value says.
`PageBlocks` describes memory as a list of blocks that tile the pages without
two adjacent free ones; `PageIndex` says when the two trees and the page array
record exactly such a list, and follows it over whole runs; `VideoMemory` is
the allocator object.

**DMA engine (`driver/mt-emu-mtdma-core.c`, `driver/virt-dma.*`,
`driver/dmaengine.h`, `driver/mt-emu-mtdma-test.c`).** `DmaDescriptors` models
descriptors, chunks and bursts, and an allocator that may fail at any time and
knows which objects are live. `DmaTransfer` goes from a user buffer to a
scatterlist to a descriptor. `DmaTable` writes a chunk into the descriptor table
and reads it back the way the hardware does, by following links; its `EndToEnd`
ties a buffer's bytes to the moves of the hardware. `DmaChannel` is the channel
as a state machine whose steps, one for each function that takes the channel
lock, may come in any order; `DmaChannelInvariant` proves what each step keeps,
`DmaChannelRuns` what that means for chunks, callbacks, cookies, status, residues
and memory, `DmaChannelProgress` what is started, finished and stopped when, and
`DmaDriver` is the channel object whose methods are proved to be those steps.

**Bare DMA (`driver/mt-emu-mtdma-bare.c`).** `DmaBare` covers chain mode with
its even and random splits and the table regions of the channels, `DmaBlocks`
the layout and linking of block mode.

**JSON (`test/util/cJSON.c`).** `JsonStrings` and `JsonValues` specify printing
and parsing (section 7 of RFC 8259, section 3 of RFC 3629, section 2.2 of
RFC 2781), `JsonRoundTrip`, `JsonMinify` and `JsonMinified` prove the round trip
and the minifier theorems. `JsonGrammar` is the grammar of RFC 8259 as syntax
trees with a text and a value; `JsonGrammarStrings`, `JsonGrammarParse` and
`JsonGrammarMinify` say what the parser and the minifier make of every such text,
and `JsonLayout` how the formatted printer lays an item out. `JsonParser`,
`JsonPrinter` and the in-place method of `JsonMinify` are the imperative code
over buffers, including how large they must be and how they grow.

**Small cores.** `Crc32` (the table of section 8 of RFC 1952, without the
inversions), `CircularQ` (the overrunning ring buffer), `DmabufPool` (the
bitmap and interval list).

## Where the code differs from what one might expect

Each of these is kept as the code has it, and the exact condition is proved.

- The key of a live block is the low 32 bits of its address, so the allocator
  needs at most 262144 pages (`PageIndex.KeysDistinctIff`); with more, and only
  then, requests lead to two live blocks that one address stands for
  (`PageIndex.AmbiguousIff`).
- A burst of length 0 would make the hardware move 2^32 bytes, and an empty
  buffer that is not page aligned gets one (`DmaTransfer.BuildScatterlist`); a
  buffer is transferred exactly if it is not empty (`DmaTable.EndToEnd`).
- Chain mode announces the number of further descriptors modulo 65536. An even
  split is transferred exactly if at most 65535 further descriptors are asked
  for and there are at least as many bytes as descriptors, a random split
  exactly if there are at most 65536 pieces (`DmaBare.ChainModeTransfers`), which
  holds for all random numbers exactly up to 256 MiB (`DmaBare.FewPiecesIff`);
  `DmaBare.TooManyDescriptors` is an input that fails. In block mode all
  descriptors are reached exactly if a block has at most 65535 of them
  (`DmaBlocks.VisitsAll`).
- An outstanding descriptor looks complete too early in exactly the states with
  2^31 - 1 or more outstanding (`DmaChannelRuns.CompleteIffRetired`), and such
  states are reached (`DmaChannelRuns.TooEarlyReached`). A retired one looks
  incomplete again exactly if its cookie value has come round to an outstanding
  one (`DmaChannelRuns.RetiredReads`); `DmaChannelRuns.AllStatusesRightIff` says
  when every status is right.
- A stop request that was not honoured before the channel is terminated for good
  stays: the channel, configured again, starts nothing
  (`DmaChannelProgress.StopSurvives`); when it does start is
  `DmaChannelProgress.IssueStartsIff`.
- `vmem_init` keeps an even number of pages, and they need not lie inside the
  memory it was given (`VideoMemory.ManagedInside`).
- The error return of `mtdma_device_terminate_all` cannot be taken
  (`DmaDriver.MtdmaChannel.DeviceTerminateAll`).
- `cJSON_Minify` reads on behind the terminating NUL exactly if a literal or a
  slash-star comment is not closed (`JsonMinify.MinifyClosedIff`), which is no
  text that the parser accepts to its end (`JsonMinified.MinifiedParses`).
- An item nested more than 1000 deep is printed, but its text is not parsed
  (`JsonRoundTrip.DocumentRoundTrip`); nor is a text with a number of more than 63
  characters (`JsonGrammarParse.DocumentReads`).
- `cJSON_PrintPreallocated` needs exactly two characters more than the text
  (`JsonPrinter.PrintPreallocated`).
- Without realloc, `cJSON_PrintBuffered` with size 0 copies a character from
  outside its empty buffer (`JsonPrinter.PrintBuffered`).
- When no run of blocks is long enough, `pcief_dmabuf_malloc` grants what is
  free at the very end of the buffer, and records an empty interval when that is
  nothing (`DmabufPool.Pool.Malloc`).

## Assumptions

- The numbers that `Kzalloc` returns name objects and are never used twice;
  whether an allocation fails is left open. Elsewhere (`driver/mm.c`, the JSON
  library, the list items of the buffer pool) allocations succeed.
- Linux library code is taken at its documented behaviour: kernel lists are
  sequences, `dma_map_sg` gives each page one bus address below 2^64 and merges
  nothing, `dma_async_is_complete` compares cookies cyclically, a tasklet does
  not overlap itself.
- Random numbers, the hardware status register and the pages' bus addresses are
  parameters.

## Model

| member | source | states |
|---|---|---|
| AvlModel.AvlLevels | driver/mm.c:62-83 | In a tree whose balance factors are within -1..1 and whose heights are refreshed, every cached height is the real number of levels |
| AvlModel.DoBalanceRestores | driver/mm.c:85-179 | A node whose two subtrees are balanced and differ by at most two levels comes out of do_balance as a balanced tree with exact heights, at most one level lower, and no dead branch is reached |
| AvlModel.DoBalanceInorder | driver/mm.c:85-179 | Rotations and do_balance keep the in-order sequence of entries |
| AvlModel.UnlinkFirst | driver/mm.c:181-221 | Unlinking towards the left takes out the first node in key order and leaves a balanced tree of all others, at most one level lower |
| AvlModel.UnlinkLast | driver/mm.c:181-221 | The same towards the right: the last node is taken out |
| AvlModel.UnlinkNodes | driver/mm.c:181-221 | The node set loses exactly the unlinked node and nothing is shared |
| AvlModel.DoUnlinkSpec | driver/mm.c:247-276 | do_unlink removes exactly the entry of the given node, whichever heir it promotes, and what is left needs at most one do_balance |
| AvlModel.DoUnlinkNodes | driver/mm.c:247-276 | The node set loses exactly that node |
| AvlModel.InsertSpec | driver/mm.c:223-245 | avltree_insert puts the entry at its place in key order, keeps order, balance and exact heights, and grows the tree by at most one level |
| AvlModel.InsertNodes | driver/mm.c:223-245 | The node set grows by exactly the new node |
| AvlModel.RemoveSpec | driver/mm.c:278-353 | avltree_remove takes out the entry with the key if there is one; remove_approx_value the least entry at or above the key; order, balance and heights are kept, and otherwise nothing changes |
| AvlModel.RemoveNodes | driver/mm.c:278-353 | The node set loses exactly the node found |
| AvlTree.RotationLeftOf | driver/mm.c:85-108 | The pointer rotation realises the rotation of the tree value, and null is left alone |
| AvlTree.RotationRightOf | driver/mm.c:120-141 | The mirror image |
| AvlTree.DoBalanceOf | driver/mm.c:143-179 | The heap after do_balance is laid out as the rebalanced tree |
| AvlTree.UnlinkEndNodeOf | driver/mm.c:181-221 | The heap after unlink_end_node is laid out as the remaining tree, and the unlinked node is the one with the least or greatest key |
| AvlTree.DoUnlinkOf | driver/mm.c:247-276 | The heap after do_unlink is laid out as the tree without the node |
| AvlTree.AvltreeInsert | driver/mm.c:223-245 | The heap after avltree_insert is laid out as the tree with one fresh node added |
| AvlTree.AvltreeRemove | driver/mm.c:278-305 | The heap after avltree_remove is laid out as the tree without the key, and the node returned carries the entry it had |
| AvlTree.RemoveApproxValue | driver/mm.c:325-353 | The same for the least key at or above the request |
| PageBlocks.AllocKeeps | driver/mm.c:480-523 | Cutting a free block for an allocation keeps the tiling of the pages and leaves no two free blocks adjacent |
| PageBlocks.AllocCounts | driver/mm.c:480-523 | It moves exactly the requested number of pages from free to used |
| PageBlocks.AllocUses | driver/mm.c:480-523 | It puts exactly the first pages of the block into use |
| PageBlocks.FreeKeeps | driver/mm.c:525-611 | Freeing a block and merging it with its free neighbours keeps the tiling and leaves no two free blocks adjacent |
| PageBlocks.FreeCounts | driver/mm.c:525-611 | It moves exactly the pages of the freed block from used to free |
| PageBlocks.FreeUnuses | driver/mm.c:525-611 | It puts exactly the pages of the freed block out of use |
| PageBlocks.FreeUndoesAlloc | driver/mm.c:480-611 | Freeing the block that was just cut gives back the very same block list |
| PageBlocks.MaximalRunsAreFreeBlocks | driver/mm.c:525-611 | Because blocks are coalesced, the maximal runs of unused pages are exactly the free blocks |
| PageBlocks.BestFitIsShortestRun | driver/mm.c:480-523 | A shortest sufficient free block, lowest on ties, is the shortest sufficient maximal run of unused pages, lowest on ties |
| PageBlocks.RunExistsIffFits | driver/mm.c:480-523 | Some free block fits a request if and only if that many consecutive pages are unused |
| PageBlocks.NothingUsedIsOneBlock | driver/mm.c:525-611 | When no page is in use, coalescing has put everything back into one free block |
| PageIndex.FreeKeyOrder | driver/mm.h:29-30 | Keys of free blocks compare as length first and first page second, are distinct, and give the length back |
| PageIndex.LiveKeyInjective | driver/mm.h:29-30 | Below 262144 pages the keys of live blocks are equal only for the same first page |
| PageIndex.KeysDistinctIff | driver/mm.h:29-30 | The address keys of n pages are distinct if and only if n is at most 262144 (4 GiB) |
| PageIndex.AmbiguousIff | driver/mm.c:422-560 | Some sequence of requests with sizes of the C type leads to two live blocks that both answer to one freed address, if and only if there are more than 262144 pages |
| PageIndex.LeastKeyIsBestFit | driver/mm.c:480-523 | The least free key at or above (n, 0) belongs to the best fit, and there is none exactly if no block fits |
| PageIndex.LiveKeyFrees | driver/mm.c:525-560 | Looking an address up among the live keys finds the block to free, which begins at an address congruent to it modulo 2^32, if there is one |
| PageIndex.RepresentsAlloc | driver/mm.c:355-523 | After the tree and page updates of an allocation, trees and page array again record exactly the blocks |
| PageIndex.RepresentsFree | driver/mm.c:355-611 | After those of a free and its merges, likewise |
| PageIndex.PagesHold | driver/mm.c:500 | The number of pages asked for holds the size, and one page fewer would not |
| PageIndex.RunHolds | driver/mm.c:500 | A run of that many unused pages exists exactly if some run of unused pages holds the size in bytes |
| PageIndex.ServeKeeps | driver/mm.c:480-611 | Every request keeps tiling, coalescing and the total number of pages |
| PageIndex.RunKeeps | driver/mm.c:422-611 | Over every sequence of allocations and frees the blocks tile the pages, no free blocks touch, the counts add up to all pages, and an empty memory is one block |
| PageIndex.AllocThenFree | driver/mm.c:480-611 | A successful allocation followed by the free of its address restores the block list |
| VideoMemory.VideoMm.constructor | driver/mm.c:422-451 | vmem_init sets up trees, page array and counters for one free block over all pages: an even number of pages, from the address rounded up to a page |
| VideoMemory.ManagedInside | driver/mm.c:431-433 | The pages managed lie inside the memory given if and only if what is left out at its end makes up for the alignment |
| VideoMemory.VideoMm.SetBlocksFree | driver/mm.c:355-387 | Only the pages of the block are retagged, with correct boundary tags, and exactly one pair with one fresh node enters the free tree |
| VideoMemory.VideoMm.SetBlocksAlloc | driver/mm.c:389-420 | The same for a live block and the alloc tree |
| VideoMemory.VideoMm.VmemAlloc | driver/mm.c:480-523 | Fails exactly if the size is not positive or no run of unused pages holds that many bytes; otherwise exactly the pages from s on, as few as hold the size, at the start of the shortest maximal run that has so many, lowest on ties, are put into use, and the address is that of page s; trees, page array, counters and blocks stay in agreement |
| VideoMemory.VideoMm.VmemFree | driver/mm.c:525-611 | Succeeds exactly if some live block starts at an address congruent to the argument modulo 2^32; then exactly the pages of that block are put out of use and it is merged, otherwise -1 is returned and page array and trees are unchanged |
| VideoMemory.VideoMm.FindNeighbours | driver/mm.c:553-575 | The boundary tags of the adjacent pages give the free neighbours, and -1 where there is none |
| VideoMemory.VideoMm.TakeNeighbours | driver/mm.c:553-599 | Exactly the free neighbours leave the free tree, and the merged run is computed |
| VideoMemory.VideoMm.InUseIs | driver/mm.c:355-420 | The used flags of the page array are the pages of the live blocks |
| DmaTransfer.BuildScatterlist | driver/mt-emu-mtdma-test.c:144-196 | For every buffer address and size, segment i lies in page i and the segments cover the buffer once and in order; there are as many as touched pages, and none is empty unless the buffer is; an empty buffer that is not page aligned gets one empty segment |
| DmaDescriptors.AllocBurst | driver/mt-emu-mtdma-core.c:132-152 | The first burst becomes the head of a chunk, later ones are appended and counted; a failure changes nothing |
| DmaDescriptors.AllocChunk | driver/mt-emu-mtdma-core.c:154-197 | The first chunk becomes the head, a later one is appended empty with its burst head; on failure the objects allocated so far in it are freed |
| DmaDescriptors.FreeBursts | driver/mt-emu-mtdma-core.c:216-230 | Frees every burst of a chunk and the head once, and nothing else |
| DmaDescriptors.FreeFirstChunk | driver/mt-emu-mtdma-core.c:282-287 | Frees the first chunk with its bursts once, and the counter stays the length of the list |
| DmaDescriptors.FreeDesc | driver/mt-emu-mtdma-core.c:232-256 | Frees every object of a descriptor once, whether or not it was built to the end |
| DmaTransfer.AddEntries | driver/mt-emu-mtdma-core.c:445-482 | The loop puts every scatterlist entry into one burst, in order, with consecutive device addresses modulo 2^64, in chunks that are full except for the last |
| DmaTransfer.MtdmaDeviceTransfer | driver/mt-emu-mtdma-core.c:418-489 | Returns a descriptor that carries every entry to the configured destination or from the configured source, is fully counted and sized, and owns exactly its objects; or, exactly if the channel is not configured, the list is empty or an allocation fails, nothing, with no object left allocated |
| DmaTransfer.ChunkCount | driver/mt-emu-mtdma-core.c:450-454 | The entries take no more chunks than they need |
| DmaTransfer.CarriedSum | driver/mt-emu-mtdma-core.c:463-466 | The burst sizes of a descriptor add up to the scatterlist lengths |
| DmaTable.ChannelMemory.WriteChunk | driver/mt-emu-mtdma-core.c:52-85 | Registers and table hold the bursts in order, each linked to the next slot, only the last with the interrupt bit; the rest of the table is untouched |
| DmaTable.ReadsBack | driver/mt-emu-mtdma-core.c:52-85 | Following the links from the registers while the chain bit is set, the hardware carries out exactly the bursts of the chunk in order and stops; the last one, and no other, raises the interrupt |
| DmaTable.MovesOfSegments | driver/mt-emu-mtdma-core.c:445-482 | Non-empty bursts made from a tiled scatterlist move its bytes in order against consecutive device addresses |
| DmaTable.EndToEnd | driver/mt-emu-mtdma-core.c:418-489 | From user buffer and channel configuration to chunks, tables and link-following hardware: byte k of the buffer goes to dst_addr + k or comes from src_addr + k, each exactly once and in order, if and only if the buffer is not empty |
| DmaTable.SegmentsMoved | driver/mt-emu-mtdma-core.c:52-85 | The same for every list of segments that tiles a buffer, if and only if no segment is empty |
| DmaChannelInvariant.StepKeeps | driver/mt-emu-mtdma-core.c:263-563 | Each entry point, in whatever state it is called, keeps: one list per descriptor, cookie order, the trace of started chunks, callbacks, counters, sizes and object ownership |
| DmaChannelInvariant.RunKeeps | driver/mt-emu-mtdma-core.c:263-563 | The same over every run from the initial state |
| DmaChannelInvariant.SubmitCookies | driver/dmaengine.h:29-40 | Cookies are given out in order, skipping values below 1 after the 32-bit wrap-around |
| DmaChannelInvariant.RetireCookies | driver/dmaengine.h:52-57 | Completing the head of the issued list moves the completed cookie to the next one in order |
| DmaChannelInvariant.StartTrace | driver/mt-emu-mtdma-core.c:263-288 | Starting a transfer extends the trace by the next chunk of the head descriptor and leaves all others whole |
| DmaChannelInvariant.RetireTrace | driver/mt-emu-mtdma-core.c:508-563 | A retired descriptor leaves a prefix of its chunks in the trace, the whole list when it was retired with no chunk left |
| DmaChannelInvariant.AfterStartOk | driver/mt-emu-mtdma-core.c:282-287 | After a chunk is started and freed, the counter is again the list length and the residue the size of what is left |
| DmaChannelInvariant.SubmitOnOneList | driver/virt-dma.c:19-36 | Submitting moves a descriptor from one list to another, and no descriptor is on two |
| DmaChannelInvariant.SpliceInOrder | driver/virt-dma.h:82-86 | Issuing appends the submitted descriptors to the issued ones in cookie order |
| DmaChannelInvariant.CallCallbacks | driver/virt-dma.c:84-112 | Each callback is for the next retired descriptor in cookie order |
| DmaChannelRuns.GivenOnce | driver/mt-emu-mtdma-core.c:263-288 | The chunks started for a retired descriptor stand in the trace as one stretch, in order, and nowhere else; they are all its chunks if it was not stopped or aborted |
| DmaChannelRuns.FinishedDelivers | driver/mt-emu-mtdma-core.c:508-563 | When a descriptor made from a user buffer has finished, its stretch of the trace has moved byte k of the buffer to dst_addr + k or from src_addr + k, each once and in order, if and only if the buffer is not empty |
| DmaChannelRuns.CallbacksOnce | driver/virt-dma.c:84-112 | Callbacks are made in cookie order, at most once each and only for retired descriptors; for all of them once the tasklet has caught up |
| DmaChannelRuns.NothingLeft | driver/mt-emu-mtdma-core.c:232-261 | When every list is empty, no object is left allocated and every descriptor has been called back |
| DmaChannelRuns.FreesWhatIsLive | driver/mt-emu-mtdma-core.c:216-288 | What start_transfer and the tasklet free is allocated at that moment |
| DmaChannelRuns.StatusIs | driver/dmaengine.h:68-82 | In every state, which of the cookies ever given out read as not complete: exactly those that one of the first (outstanding modulo 2^31 - 1) cookies behind the last retired one has too |
| DmaChannelRuns.CompleteIffRetired | driver/dmaengine.h:68-82 | No outstanding descriptor reports complete if and only if fewer than 2^31 - 1 are outstanding |
| DmaChannelRuns.RetiredReads | driver/dmaengine.h:68-82 | With fewer outstanding, a retired cookie reads as not complete exactly if an outstanding descriptor has been given the same value again, its number being congruent modulo 2^31 - 1 |
| DmaChannelRuns.AllStatusesRightIff | driver/dmaengine.h:68-82 | Every cookie ever given out reports complete exactly if its descriptor has been retired, if and only if fewer than 2^31 - 1 are outstanding and none is, or no cookie value has been given out twice |
| DmaChannelRuns.CompleteTooEarly | driver/dmaengine.h:68-82 | In every state with 2^31 - 1 or more outstanding, the descriptor 2^31 - 1 places behind the last retired one waits and yet reports complete |
| DmaChannelRuns.TooEarlyReached | driver/dmaengine.h:29-82 | There is a run from the initial state to such a state |
| DmaChannelRuns.ResidueIsUnstarted | driver/mt-emu-mtdma-core.c:382-416 | The residue of an issued descriptor is the size of its chunks that have not been started, modulo 2^32 |
| DmaChannelRuns.TxStatusIs | driver/mt-emu-mtdma-core.c:382-416 | What tx_status returns for every cookie ever given out: complete exactly if none of the first outstanding modulo 2^31 - 1 descriptors has the cookie, so exactly for retired ones under the condition of AllStatusesRightIff; no residue for complete cookies |
| DmaChannelRuns.SubmittedResidue | driver/mt-emu-mtdma-core.c:382-416 | A submitted descriptor that is not issued is in progress with no residue |
| DmaChannelProgress.NeverPaused | driver/mt-emu-mtdma-core.c:508-563 | In no run is a pause requested or the channel paused |
| DmaChannelProgress.RunCookies | driver/virt-dma.h:94-106 | In every run retired descriptors have cookie 0 and waiting ones a positive one |
| DmaChannelProgress.StartsApart | driver/mt-emu-mtdma-core.c:263-563 | In every run, between two starts of a chunk there is a done interrupt, a reset or a termination |
| DmaChannelProgress.IssueStartsIff | driver/mt-emu-mtdma-core.c:368-380 | In every run, issue_pending starts a chunk exactly on a configured, idle channel without a request whose first waiting descriptor has a chunk left |
| DmaChannelProgress.DoneFinishes | driver/mt-emu-mtdma-core.c:508-547 | The done interrupt that finds no chunk left finishes the head, starts nothing, and leaves a channel on which issuing starts the next descriptor |
| DmaChannelProgress.StopStops | driver/mt-emu-mtdma-core.c:340-366 | A busy channel that is terminated retires its head as stopped at the next done interrupt, starts nothing, and is then ready for the next descriptor |
| DmaChannelProgress.AbortEnds | driver/mt-emu-mtdma-core.c:549-563 | An abort retires the head as aborted whatever was requested, and the channel is then ready for the next descriptor |
| DmaChannelProgress.TerminateEnds | driver/mt-emu-mtdma-core.c:340-366 | Terminating a channel that is not busy, or that the hardware reports as done, ends it: nothing can be prepared or started until it is configured again |
| DmaChannelProgress.StopSurvives | driver/mt-emu-mtdma-core.c:340-366 | A stop request that no interrupt has honoured survives the termination: configured again, the channel starts nothing |
| DmaChannelProgress.QueueWorkedOff | driver/mt-emu-mtdma-core.c:263-547 | From every state of every run in which the channel is ready: one issue_pending for each waiting descriptor and one interrupt for each chunk start all chunks of all of them, each once and in order, and retire them all as finished, in order |
| DmaChannelRuns.RunExtends | driver/mt-emu-mtdma-core.c:263-563 | Continuing a run takes back no started chunk, retirement, cookie or callback |
| DmaDriver.MtdmaChannel.DeviceConfig | driver/mt-emu-mtdma-core.c:290-299 | The configuration is stored and the channel is configured; nothing else changes |
| DmaDriver.MtdmaChannel.PrepSlaveSg | driver/mt-emu-mtdma-core.c:418-506 | A new descriptor carrying the scatterlist is appended to the prepared list, or the state is unchanged |
| DmaDriver.MtdmaChannel.TxPrep | driver/virt-dma.h:56-74 | The descriptor joins the end of the prepared list |
| DmaDriver.MtdmaChannel.TxSubmit | driver/virt-dma.c:19-36 | The descriptor gets the next cookie and moves to the end of the submitted list |
| DmaDriver.MtdmaChannel.VchanIssuePending | driver/virt-dma.h:82-86 | The submitted list is emptied onto the issued list |
| DmaDriver.MtdmaChannel.StartTransfer | driver/mt-emu-mtdma-core.c:263-288 | The first chunk of the first issued descriptor is written to the channel memory, freed with its bursts and accounted for |
| DmaDriver.MtdmaChannel.CookieComplete | driver/virt-dma.h:94-106 | The head of the issued list moves to the completed list with its cookie zeroed, and the completed cookie is its cookie |
| DmaDriver.MtdmaChannel.IssuePending | driver/mt-emu-mtdma-core.c:368-380 | Only an idle, configured channel without a request takes over the submitted descriptors and starts the first; registers and table then hold the chunk that the trace gains, and the rest of the table is untouched |
| DmaDriver.MtdmaChannel.DoneInterrupt | driver/mt-emu-mtdma-core.c:508-547 | Starts the next chunk, retires the head, or honours a stop or pause request; a chunk that is started is the one then held by registers and table, and the rest of the table is untouched |
| DmaDriver.MtdmaChannel.AbortInterrupt | driver/mt-emu-mtdma-core.c:549-560 | Retires the head of the issued list |
| DmaDriver.MtdmaChannel.AbortReset | driver/mt-emu-mtdma-core.c:561-562 | Clears request and status |
| DmaDriver.MtdmaChannel.DeviceTerminateAll | driver/mt-emu-mtdma-core.c:340-366 | Changes status, request and configuration as its branches say, never the lists, and never fails; a channel that stays configured is busy with a stop request |
| DmaDriver.MtdmaChannel.FindDesc | driver/virt-dma.c:66-76 | Finds the first issued descriptor with the cookie |
| DmaDriver.MtdmaChannel.DeviceTxStatus | driver/mt-emu-mtdma-core.c:382-416 | Status and residue as specified for ResidueIsUnstarted |
| DmaDriver.MtdmaChannel.TaskletCall | driver/virt-dma.c:105-111 | Calls back and frees the next completed descriptor with all its objects |
| DmaDriver.MtdmaChannel.VchanComplete | driver/virt-dma.c:84-112 | Calls back and frees all completed descriptors in order |
| DmaDriver.CallAllCalls | driver/virt-dma.c:105-111 | The loop calls back exactly the descriptors taken over, in their order |
| DmaBare.SplitRandom | driver/mt-emu-mtdma-bare.c:402-418 | The loop computes the specified split |
| DmaBare.RandomSplit | driver/mt-emu-mtdma-bare.c:402-418 | The random pieces add up to the size, are positive and below 64 KiB, at least 4 KiB except for the last, and at most ceil(size/4096) in number |
| DmaBare.RandomPieceAt | driver/mt-emu-mtdma-bare.c:402-418 | Piece j is 4096 bytes and the random number modulo 61440 more, or what is left |
| DmaBare.FewPiecesIff | driver/mt-emu-mtdma-bare.c:402-418 | There are at most 65536 pieces whatever the random numbers are, if and only if the size is at most 256 MiB |
| DmaBare.EvenAt | driver/mt-emu-mtdma-bare.c:419-440 | Every even piece but the last is size / (descriptors) bytes, and the last is the rest |
| DmaBare.EvenSplit | driver/mt-emu-mtdma-bare.c:419-440 | The even pieces add up to the size, and none is empty if and only if there are at least as many bytes as descriptors |
| DmaBare.WriteChain | driver/mt-emu-mtdma-bare.c:429-489 | Every descriptor holds its share at the running source and destination addresses and links to the next slot; the announced count is the number of further descriptors modulo 65536 |
| DmaBare.ChainMode | driver/mt-emu-mtdma-bare.c:394-489 | Either split is written as a chain whose pieces add up to the size, and the number of further descriptors is announced modulo 65536 |
| DmaBare.ChainMoves | driver/mt-emu-mtdma-bare.c:429-489 | Following the chain as far as the registers announce moves the bytes straight from the source range to the destination range, each once and in order, if and only if no descriptor reached is empty and every one behind is |
| DmaBare.ChainModeTransfers | driver/mt-emu-mtdma-bare.c:394-489 | What chain mode wrote transfers exactly the bytes asked for: with an even split if and only if at most 65535 further descriptors are asked for and there are at least as many bytes as descriptors; with a random split if and only if there are at most 65536 pieces |
| DmaBare.TooManyDescriptors | driver/mt-emu-mtdma-bare.c:426-489 | 65536 further descriptors for 65537 bytes are announced as none, and one byte is moved |
| DmaBare.BuildDmaInfo | driver/mt-emu-mtdma-bare.c:70-110 | The table addresses of all write and read channels: 2 MiB for each, from 0x80000000 on |
| DmaBare.RegionsApart | driver/mt-emu-mtdma-bare.c:70-110 | No channel's table meets another's; all lie below 4 GiB and start at a multiple of 1024 |
| DmaBlocks.NoSlotTwice | driver/mt-emu-mtdma-bare.c:540-699 | In block mode no table slot is written for two descriptors, and only the very first descriptor is in the registers |
| DmaBlocks.NextStart | driver/mt-emu-mtdma-bare.c:570-577 | Every later block starts at a multiple of 32 slots behind the end of the one before |
| DmaBlocks.BlocksAligned | driver/mt-emu-mtdma-bare.c:570-577 | Every later block starts at an address that is a multiple of 1024 |
| DmaBlocks.BlockTable.FirstBlock | driver/mt-emu-mtdma-bare.c:535-611 | The first block's descriptors and links are in place, and the register announces their number modulo 65536 |
| DmaBlocks.BlockTable.LaterBlock | driver/mt-emu-mtdma-bare.c:613-699 | A later block's descriptors and links are in place |
| DmaBlocks.BlockTable.BlockMode | driver/mt-emu-mtdma-bare.c:502-710 | Every descriptor of every block is in its slot with its link, and the register announces the first block |
| DmaBlocks.VisitsAll | driver/mt-emu-mtdma-bare.c:540-699 | Started on the registers and the number they announce, the hardware visits the descriptors of all blocks in order, each once, and stops behind the last block, if and only if a block has at most 65535 descriptors |
| JsonStrings.Utf8RoundTrip | test/util/cJSON.c:640-690 | The bytes written for a code point decode to it again by the table of RFC 3629, section 3 |
| JsonGrammarStrings.ParseHex4Is | test/util/cJSON.c:540-572 | parse_hex4 on the four digits of a number below 65536, each in either case, gives the number |
| JsonStrings.LiteralSpec | test/util/cJSON.c:577-695 | A \u escape or surrogate pair becomes the UTF-8 encoding of the code point it stands for (RFC 2781, section 2.2), and everything else is rejected |
| JsonStrings.LiteralDecodesBack | test/util/cJSON.c:577-695 | Decoding the bytes of an accepted escape gives the code point back |
| JsonStrings.ParsePrintedString | test/util/cJSON.c:698-946 | parse_string undoes print_string_ptr for every string, wherever the literal stands |
| JsonStrings.PrintedLength | test/util/cJSON.c:851-878 | The precomputed length is the length that is written; without escapes the text is copied unchanged |
| JsonGrammarStrings.PrintedSparingly | test/util/cJSON.c:827-946 | Each character of a printed string is as it is where RFC 8259 (section 7) lets it, else has the short escape if there is one, else its number in lower case |
| JsonGrammarStrings.StringReads | test/util/cJSON.c:698-824 | Every string of the grammar, with every way to write a character, is read as the characters it stands for |
| JsonStrings.EscapeBodyNulFree | test/util/cJSON.c:827-946 | What is printed for a C string is a C string |
| JsonRoundTrip.ParsePrinted | test/util/cJSON.c:1212-1717 | A printed item, anywhere in a text, parses to itself and ends where it was printed, unless it is nested beyond the limit |
| JsonRoundTrip.DocumentRoundTrip | test/util/cJSON.c:1000-1077 | Parsing the output of either printer returns an equal item if and only if it is nested at most 1000 deep |
| JsonRoundTrip.PrintNulFree | test/util/cJSON.c:1267-1717 | The output of the printers is a C string |
| JsonLayout.FormattedLayout | test/util/cJSON.c:1434-1717 | The formatted print is what a one-pass formatter that knows only the open brackets makes of the unformatted print |
| JsonGrammarParse.DocumentReads | test/util/cJSON.c:1000-1077 | The parser returns the value of every document of the grammar of RFC 8259 that has no comma behind a last element, no number longer than 63 characters and at most 1000 levels of nesting, and NULL for every other one |
| JsonGrammarParse.MoreBehind | test/util/cJSON.c:1000-1077 | With more text behind a document it is accepted exactly if the caller does not ask to read to the end |
| JsonMinify.MinifyFormatted | test/util/cJSON.c:2629-2697 | Minifying the formatted print gives the unformatted print, byte for byte |
| JsonGrammarMinify.DocumentMinified | test/util/cJSON.c:2629-2697 | Of every document of the grammar, with comments or without, minifying leaves exactly the tokens, and the result is parsed to the value of the document |
| JsonMinified.MinifiedParses | test/util/cJSON.c:2629-2697 | Every text that the parser accepts to its end is closed, and what minifying leaves of it is accepted to its end with the same item |
| JsonMinify.MinifyClosedIff | test/util/cJSON.c:2629-2697 | The walk stays inside the text if and only if one pass over the text does not end inside a literal or a slash-star comment |
| JsonMinify.MinifyInPlace | test/util/cJSON.c:2629-2697 | For every text: the loop stays inside the buffer exactly if the text is closed, and then leaves the minified text and its NUL at the start |
| JsonParser.WriteUtf8 | test/util/cJSON.c:640-690 | The byte loop writes exactly the UTF-8 encoding |
| JsonParser.Utf16LiteralToUtf8 | test/util/cJSON.c:577-695 | Writes the encoding of the escape and returns the characters consumed, 0 exactly on failure |
| JsonParser.PairsFit | test/util/cJSON.c:711-742 | The first loop counts no more than one escape pair per two characters, so the output size is not negative |
| JsonParser.LiteralFits | test/util/cJSON.c:735-790 | A converted escape needs no more room than its text frees, also after malformed digits |
| JsonParser.ParseBuffer.SkipWhitespace | test/util/cJSON.c:963-981 | Stops at the first character above space, or on the terminating NUL |
| JsonParser.ParseBuffer.FindStringEnd | test/util/cJSON.c:711-733 | Finds the closing quote and the number of escape pairs before it |
| JsonParser.ParseBuffer.Decode | test/util/cJSON.c:744-802 | Unescapes the literal or fails, writing only inside the allocated output |
| JsonParser.ParseBuffer.ParseStringLiteral | test/util/cJSON.c:698-824 | Returns the unescaped text and steps behind the literal, or fails, as specified |
| JsonParser.ParseBuffer.CopyNumber | test/util/cJSON.c:281-313 | Collects the number characters, at most 63 |
| JsonParser.ParseBuffer.ParseNumberText | test/util/cJSON.c:266-340 | Consumes what strtod consumes, or fails |
| JsonParser.ParseBuffer.ParseItem | test/util/cJSON.c:1212-1264 | Every kind of item is recognised as specified |
| JsonParser.ParseBuffer.ParseArrayItems | test/util/cJSON.c:1341-1432 | The loop over elements returns the specified list, and the depth is restored |
| JsonParser.ParseBuffer.ParseObjectMembers | test/util/cJSON.c:1497-1603 | The loop over members likewise |
| JsonParser.ParseWithOpts | test/util/cJSON.c:1000-1077 | The whole document as specified, with or without a required end |
| JsonPrinter.PrintBuffer.Ensure | test/util/cJSON.c:373-458 | Succeeds exactly if the request fits the fixed buffer or INT_MAX, keeps what was written, and grows to twice the room needed, or INT_MAX; copies from outside the buffer exactly if an empty one is grown without realloc |
| JsonPrinter.PrintBuffer.UpdateOffset | test/util/cJSON.c:461-471 | Steps exactly behind the text written last |
| JsonPrinter.PrintBuffer.PrintStringPtr | test/util/cJSON.c:827-946 | Writes exactly the escaped literal and a NUL within the reserved length |
| JsonPrinter.PrintBuffer.PrintNumber | test/util/cJSON.c:474-537 | Copies the rendered number and steps behind it; fails exactly if it is longer than 25 characters or does not fit |
| JsonPrinter.PrintBuffer.PrintValue | test/util/cJSON.c:1267-1338 | Writes the text of the item behind what is there, if and only if the text and two more characters fit |
| JsonPrinter.PrintBuffer.PrintArray | test/util/cJSON.c:1435-1494 | The same for arrays, growing the buffer on the way |
| JsonPrinter.PrintBuffer.PrintObject | test/util/cJSON.c:1606-1717 | The same for objects |
| JsonPrinter.PrintDocument | test/util/cJSON.c:1087-1160 | cJSON_Print and cJSON_PrintUnformatted return the text of the item, or NULL exactly if it is too long for INT_MAX |
| JsonPrinter.PrintBuffered | test/util/cJSON.c:1162-1190 | The same with a given initial size; negative sizes fail; it copies from outside the buffer exactly for size 0 without realloc, if the first request for room is granted |
| JsonPrinter.PrintPreallocated | test/util/cJSON.c:1192-1209 | Succeeds if and only if the buffer holds the text and two more characters |
| Crc32.MakeCrc32Table | test/lib/mt_pcie_f.c:61-77 | Entry i is the remainder of the byte i after eight division steps |
| Crc32.MakeCrc | test/lib/mt_pcie_f.c:1194-1201 | The table-driven checksum is the bit-at-a-time division of the message by the reflected polynomial 0xEDB88320, for every start value |
| Crc32.ByteStep | test/lib/mt_pcie_f.c:1194-1201 | One table look-up does what eight division steps do |
| Crc32.LowByte | test/lib/mt_pcie_f.c:1194-1201 | Dividing eight steps shifts the upper bytes and looks up the low one |
| Crc32.CrcConcat | test/lib/mt_pcie_f.c:1194-1201 | The checksum of a concatenation is that of the second part started with that of the first |
| CircularQ.RunHolds | test/lib/spdlog/details/circular_q.h:19-70 | After any pushes and guarded pops the queue holds the newest pushes that were not popped, in order, and every push was popped, overrun or is still there |
| CircularQ.RingQueue.constructor | test/lib/spdlog/details/circular_q.h:19-23 | A new queue is empty |
| CircularQ.RingQueue.PushBack | test/lib/spdlog/details/circular_q.h:26-36 | Appends the item and overruns the oldest one exactly if the queue is full |
| CircularQ.RingQueue.PopFront | test/lib/spdlog/details/circular_q.h:40-44 | Removes and returns the oldest item |
| CircularQ.RingQueue.Empty | test/lib/spdlog/details/circular_q.h:46-49 | Exactly if there are no items |
| CircularQ.RingQueue.Full | test/lib/spdlog/details/circular_q.h:51-55 | Exactly if the capacity is reached |
| DmabufPool.Search | test/lib/mt_pcie_f.c:504-522 | Finds the lowest run of the needed length across word boundaries; without one, the free run at the very end |
| DmabufPool.Pool.Malloc | test/lib/mt_pcie_f.c:493-548 | Grants as few blocks as hold the size, at the lowest place if there is a run of so many; else what is free at the end, or -1; refuses size 0 and sizes above 2^47; the marks stay the disjoint union of the listed intervals |
| DmabufPool.GrantsApart | test/lib/mt_pcie_f.c:493-581 | Two live grants have no byte in common and lie inside the buffer |
| DmabufPool.Pool.Free | test/lib/mt_pcie_f.c:550-581 | Unmarks and unlists the first interval whose first block holds the address, and changes nothing if there is none |
| DmabufPool.AddItem | test/lib/mt_pcie_f.c:524-538 | Adding a free run keeps marks and intervals in agreement |
| DmabufPool.TakeItem | test/lib/mt_pcie_f.c:560-573 | Taking an interval out keeps them in agreement |
| DmabufPool.FreeUndoesMalloc | test/lib/mt_pcie_f.c:493-581 | Freeing what was just granted restores marks and list |

## Left out

- VideoMemory.VideoMm.constructor: the number of pages must be between 1 and 262144, which `vmem_init` does not check; beyond that address keys collide (`PageIndex.KeysDistinctIff`)
- VideoMemory.VideoMm.VmemAlloc: sizes are those of the C type, at most 2^31 - 1; the process argument is not used by the code either
- JsonMinify.MinifyInPlace: for an unclosed text it stops where the code would read behind the terminating NUL; what the code finds there is not modelled
- JsonGrammarMinify.DocumentMinified: a line comment ends in a line break, not at the end of the text
- DmaTransfer.MtdmaDeviceTransfer: takes a table of at least one descriptor per channel (`ll_max >= 1`), as the channel set-up provides
- JsonPrinter.PrintBuffered: the value of the character copied from outside is left open
- DmaBlocks.BlockTable.BlockMode: the table must hold the blocks, where the code would write behind it; only `desc_op` and `lar` of the descriptors; the counts and addresses of block mode's first block are not advanced by the code, and random sizes in block mode are not modelled
- DmaBare.ChainMode: the table must hold the chain, where the code would write behind it; the scratch array of 262144 sizes for the random split is a sequence of any length
- DmaBare.ChainModeTransfers: speaks of a chain that the table holds, and of a table below 2^64
- DmaDriver.MtdmaChannel.AbortInterrupt: its two assignments after the lock are a step of their own (`AbortReset`), so that other steps may come between
- DmaDriver.MtdmaChannel.DeviceTerminateAll: one atomic step, although the function takes no lock
- Descriptors are objects, but chunks and bursts are records in their lists: pointers from a chunk to its channel or into the middle of a list are not modelled
- The kernel's allocator is modelled for one channel; objects of other channels are not part of its state
- cyclic and reusable descriptors, pause and resume (compiled out), runtime power management, and whether a started transfer ever ends
- The JSON tree is a value: sibling and parent pointers, `cJSON_Delete`, reference and raw items, access and modification functions, hooks, locales and the error position are not modelled
- JSON numbers are the texts that are printed and consumed; the conversion to and from double is not modelled
- A string parsed from a `\u0000` escape keeps the NUL in the model, where C code would see the string end there
- `avltree_free`, `vmem_exit`, `vmem_get_info`, the null-handle checks and the memory of the tree nodes in `driver/mm.c`
- PCI, BAR, interrupt and address-translation register programming, ioctl and mmap plumbing, user-page pinning, completion waits, the shell and test programs
- `driver/mmu_init_pagetable.c`, whose caller is commented out and whose tables are not kept consistent by the code as written
- `build_dma_info_vf` and the single mode of `dma_bare_xfer`
