# Verified models of the FH8620 camera firmware

Dafny models of the parts of this board firmware that are algorithms rather than
register plumbing, with proofs about every run of them. `dafny verify
dfyconfig.toml` checks everything.

| file | models | main result |
|---|---|---|
| `PageWalk.dfy`, `FirstLevel.dfy`, `SecondLevel.dfy`, `Mmu.dfy` | page-table construction for ARMv6 | the hardware walk translates every address as the list asks, and faults everywhere else, if and only if megabytes that are given the same table are to be translated alike; none are given the same one if and only if the tables taken for different descriptors are apart |
| `DescRing.dfy` | the circular descriptor allocator of the DMA driver | every block handed out is contiguous, inside the table and disjoint from all live ones; as written, the allocator books nothing |
| `DmaChain.dfy` | one-shot and cyclic DMA descriptor chains | executing a chain is item for item the unchunked transfer, down to the byte addresses; a cyclic ring turns in step with the audio pointers |
| `Channels.dfy` | DMA channel ownership | one holder per channel in every proper run, and which steps are proper; the SPI driver's channel order |
| `Playback.dfy`, `Capture.dfy` | the audio rings | both are FIFOs over whole runs; exactly which second start of playback does no harm |
| `Spi.dfy`, `I2c.dfy` | interrupt-driven transfers | however interrupts cut them, they are the uncut transfer, and enough interrupts finish it |
| `I2cLevels.dfy` | the I2C handler step by step, at its interrupt thresholds | exactly when a reply can be lost |
| `Calibrate.dfy` | delay-loop calibration | terminates, with an error bound |
| `Gmac.dfy` | Ethernet descriptor rings | frames leave and arrive in order, exactly once |
| `Nal.dfy` | H.264 start-code splitting | cuts at exactly the start codes, and undoes packing |
| `Mmc.dfy` | MMC descriptor chains | the controller accesses exactly the buffer |

`Words.dfy` (32-bit words, bitwise or, division facts), `Bytes.dfy` (memcpy) and
`Common.dfy` hold what the others share.

## How the models are made

Each driver operation is a function on a value that holds the driver's state, and
a method of a class with the source's own fields, proved to compute that
function. The hardware is a small environment: a bus that moves a byte, a DMA
engine that finishes a block, a clock that answers whether a delay crossed a
tick. Runs are arbitrary sequences of driver calls and environment steps. A driver
call or interrupt handler is one step, except that in `I2c.dfy` the bus may also
move between any two register accesses inside one call. A failed `RT_ASSERT` is
modelled as a refusal (`false`, `Stopped`, `Refused`).

The standards behind the models are section B4.7 of the ARM Architecture
Reference Manual (DDI 0100I) for the table walk, and Annex B of ITU-T H.264 for
the byte stream.

## Where the code differs from its intent

The models follow the code. Where a property fails of it, a lemma says exactly
when it holds.

- `get_desc` sets `actual_get_desc` only when it wraps (fh_dma.c:392, 410-428),
  so as written the allocator never moves and any two live blocks overlap
  (`AsWrittenNeverBooks`, `AsWrittenDisjointExact`). The other results are about
  the booking it intends; even that relies on blocks being put back oldest first
  (`YoungerFirstExact`). And it refuses a request that would have to cross the end of
  the array even when every descriptor is free (`GotExact`, `IdleRefusesExact`).
- `build_pte_mem_desc` rounds an inclusive end address up (mmu.c:505), so it sets
  aside one table too few when that address is a multiple of 1 MB, and none for a
  range that spans the address space (`ReservationExact`). No two megabytes
  share a table exactly while the tables actually taken for different descriptors do
  not overlap (`SeparateExact`), and the walk is right exactly while those that do
  share one are to be translated alike (`WalkExact`). Both hold for every list whose
  page-mapped ranges end inside a megabyte, none of them over everything (`InsideIsRoomy`);
  `ShortReservationCollides` shows a translation going wrong.
- `fh_audio_write` omits `* 4` on its first destination when it wraps
  (acw.c:1317). That is harmless exactly when the first part of the copy is empty or
  there is no wrap (`CopyInExact`), which whole-period writes guarantee.
- The capture pointers wrap on `>`, so a full ring reads as empty unless nothing
  was ever read (`AvailExact`).
- A second start of a playback stream that waits for data has already reset the
  pointers and the buffer, but not the counters, when it fails (acw.c:699-711). If the
  new transfer cannot be allocated, what is played afterwards is what is written
  exactly when the DMA stood at the beginning of the ring; otherwise the next period
  is stored in slot 0 and silence is played in its place (`ResetWrites`). If it is
  allocated, the request is refused, since the stream holds its channel itself; by
  then the prepared transfer has been replaced by one without controller
  (acw.c:1531, 1542, 1570), nothing is ever played again and the channel is never
  given back (`OrphanedForEver`). `StartAgainExact` is the condition over both.
- `playback_start_wq_handler` compares frames with bytes (acw.c:662-664), so a start
  of a ring shorter than four periods never returns (`StartExact`).
- The one-shot chain builder advances the destination by blocks counted in source
  items, so widths must agree when there is more than one block
  (`DestinationStartExact`).
- The comment at calibrate.c:91-95 says the restart is only seen on x86_64; it happens
  whenever the first stage has run through many trials per band (`Converge`).
- The DMA interrupt handler does not check that a completed channel is still held;
  "locked, not closed and with memory are the same" is kept exactly by steps that do
  not serve such a completion, and avoid the close below (`StepKeepsExact`,
  `LateCompletionShares`). `RT_DEVICE_CTRL_DMA_CYCLIC_PREPARE` on a free channel stops at
  its descriptor assertion, but the start and resume of a ring set the enable bit
  unchecked: only locked channels run exactly as long as none is started or resumed
  that is no longer held (`OnlyLockedRunExact`).
- A 2048-byte Ethernet frame passes the length check (fh_gmac.c:1128) but its
  length does not fit the 11-bit size field (`Wire`).
- The I2C pump's check of the RX level does not count the requests underway, and it
  looks anew for each message, so replies can be lost. `OneReadExact` says for which
  lengths and FIFO depths one read message is at risk, `AnySplitExact` for which
  number of bytes some way to split them into messages is.
- The SPI pump halves the room it sees and is called at half a TX FIFO, so at most
  three quarters of the TX FIFO are ever underway (`RxFifoExact`).
- `handle_dma_close` takes the channel locks one by one, so that waiting for a held
  channel leaves the channels before it locked and closed (`StepKeepsExact`).
- The search of `send_data_for_channel` skips four bytes even when the frame does
  not begin with a start code (`CutsAreCodesExact`).

## Model

| member | source | states |
|---|---|---|
| Words.OrFields | firmware/armv6/mmu.c:454 | or-ing an attribute into the low bits of a shifted field is adding it |
| PageWalk.SectionCountWraps | firmware/armv6/mmu.c:505 | the 32-bit rounding arithmetic of `nsec`, wrap-around included, counts megabytes modulo 4096 |
| PageWalk.ReservationExact | firmware/armv6/mmu.c:505-507 | the reservation is the number of megabytes of the range if and only if the inclusive end is not 1 MB aligned and the range does not span the whole first level; it is never more |
| FirstLevel.Vacant | firmware/armv6/mmu.c:477 | a megabyte of a descriptor has no entry yet exactly if the descriptor is the first to enter it and has not stored a page there |
| FirstLevel.FreshBounded | firmware/armv6/mmu.c:505-513 | unless a descriptor spans the address space, a list that passes the bound check takes none but the four cleared tables |
| FirstLevel.SeparateExact | firmware/armv6/mmu.c:459-545 | for every list that passes the bound check: tables of distinct megabytes are disjoint 1 KB blocks inside the zeroed memory if and only if the ranges of tables taken for different descriptors are apart and below four |
| SecondLevel.PageStored | firmware/armv6/mmu.c:491 | a second-level store makes its slot the entry of its page and leaves every other slot what it was |
| SecondLevel.WalkReadsPlace | firmware/armv6/mmu.c:480-491 | in the finished tables the walk of a page whose megabyte has a table reads the slot that was given to that page |
| SecondLevel.WalkElsewhere | firmware/armv6/mmu.c:446-457 | a page whose megabyte has no table walks as the section that covers it, or faults |
| SecondLevel.StoredWalks | firmware/armv6/mmu.c:484-491 | the entry found in a shared slot is what the list asks for there, if the megabytes that share it are to be translated alike |
| SecondLevel.WalkExact | firmware/armv6/mmu.c:469-545 | the finished tables translate every page as the list asks if and only if megabytes that are given the same table are to be translated alike |
| SecondLevel.RoomyAgrees | firmware/armv6/mmu.c:469-491 | megabytes with tables of their own have nothing to agree on |
| SecondLevel.InsideIsRoomy | firmware/armv6/mmu.c:505-513 | a list that passes the bound check, whose page-mapped ranges end inside a megabyte and none spans the address space, takes tables that are apart and below four |
| Mmu.PagePlace | firmware/armv6/mmu.c:480-491 | whether its megabyte is new or already entered, a page is stored in the slot given to it |
| Mmu.PagesFilled | firmware/armv6/mmu.c:474-493 | after any number of pages of a descriptor, every second-level entry is that of a page stored there so far, or untouched |
| Mmu.DirectoryPages | firmware/armv6/mmu.c:469-493 | after any number of pages, short reservation or not, every first-level entry points to the table of the first descriptor that entered its megabyte, and `pte_offset` to the next one |
| Mmu.InitialisedDirectory | firmware/armv6/mmu.c:531-545 | the same after any prefix of the list |
| Mmu.InitialisedFilled | firmware/armv6/mmu.c:529-545 | after any prefix of the list, every second-level entry is that of a page stored there so far, or untouched |
| Mmu.InitialisedSlots | firmware/armv6/mmu.c:480-491 | no second-level store leaves the table area, as long as only the four cleared tables are taken |
| Mmu.WalkByPages | firmware/armv6/mmu.c:520-548 | the hardware walk is right at every 32-bit address if and only if it is right page by page |
| Mmu.InitialisedSeparate | firmware/armv6/mmu.c:520-548 | for every well-formed disjoint list that passes the bound check the finished tables are separate if and only if those taken are apart and below four |
| Mmu.InitialisedWalks | firmware/armv6/mmu.c:520-548 | and, as long as only the four are taken, every address walks to what the list intends if and only if megabytes that are given the same table are to be translated alike |
| Mmu.IntendedInside | firmware/armv6/mmu.c:446-494 | what a disjoint list intends for an address covered by a descriptor is `paddr_start + (va - vaddr_start)`, in 32 bits |
| Mmu.IntendedOutside | firmware/armv6/mmu.c:446-494 | an address that no descriptor covers is intended to fault |
| Mmu.ShortReservationCollides | firmware/armv6/mmu.c:505-507 | with an end address on a megabyte boundary, an address of the first range is translated as one of the second |
| Mmu.PageTables.CreatePgd | firmware/armv6/mmu.c:446-457 | the loop over the first-level entries computes `MapSections` |
| Mmu.PageTables.TableFor | firmware/armv6/mmu.c:477-483 | an unused megabyte gets the next table and moves `pte_offset` on, another keeps its own; no other entry changes |
| Mmu.PageTables.StorePage | firmware/armv6/mmu.c:476-492 | one page: a new table for an unused megabyte or the old one, then the second-level store |
| Mmu.PageTables.CreatePte | firmware/armv6/mmu.c:459-494 | the loop over pages, with its moving virtual address and table pointer, computes `MapPages` |
| Mmu.PageTables.SectionCount | firmware/armv6/mmu.c:505 | the rounding macros count `Reserved` tables |
| Mmu.PageTables.BuildPteMemDesc | firmware/armv6/mmu.c:496-517 | succeeds if and only if fewer than four tables are reserved, and then has stamped every descriptor with its first table |
| Mmu.PageTables.InstallAll | firmware/armv6/mmu.c:533-545 | the loop over the stamped list leaves tables for which both equivalences hold: separate, and walking as intended |
| Mmu.PageTables.RtHwMmuInit | firmware/armv6/mmu.c:520-548 | succeeds if and only if fewer than four tables are reserved; then the tables are separate if and only if those taken are apart, and every address translates as the list says, everything else faulting, if and only if megabytes given the same table are to be translated alike |
| Calibrate.FirstStage | firmware/platform/plat-v2/calibrate.c:41-63 | the accelerating stage ends with the tick between `trials` and `trials + band` units, `trials >= band` or `trials == 0`, and the band that so many trials reach when band `b` lasts `2^b` rounds |
| Calibrate.BandIsUnique | firmware/platform/plat-v2/calibrate.c:47-52 | the number of trials decides the band |
| Calibrate.Chop | firmware/platform/plat-v2/calibrate.c:70-90 | every halving is exact except the last one of a search from zero; the result is below the tick or the start, and within twice the last step unless every step was taken |
| Calibrate.RestartStep | firmware/platform/plat-v2/calibrate.c:96-101 | a restart makes progress and keeps the next search well formed |
| Calibrate.Converge | firmware/platform/plat-v2/calibrate.c:63-103 | terminates through any restarts, with error below one part in 128 and no value above five times the tick or the start; from a true first stage it restarts if and only if `0 < trials` and `256 * band <= trials`; a start above the tick is returned as it is |
| Calibrate.CalibrateDelayConverge | firmware/platform/plat-v2/calibrate.c:35-104 | the returned value never exceeds the longer of the first and the later ticks, and falls short of the later ones by less than one part in 128; a first tick too short for one first-stage unit gives at most 8191 |
| Playback.CopyInExact | firmware/drivers/acw.c:1313-1335 | the code's copy equals the intended ring store for all data if and only if it does not wrap or starts at the end of the ring |
| Playback.QueuedFits | firmware/drivers/acw.c:1153-1160 | a ring that is not full always has room for a whole period |
| Playback.PtrAdvances | firmware/drivers/acw.c:789-795 | the wrap on `>` keeps the pointer at the place of the period count |
| Playback.PeriodCopied | firmware/drivers/acw.c:1312-1335 | a one-period write fills exactly its own slot |
| Playback.PeriodLands | firmware/drivers/acw.c:1312-1335 | and leaves every other slot alone |
| Playback.AnyWriteTakes | firmware/drivers/acw.c:1293-1340 | a write of any length takes all it is given or all there is room for, and moves the pointer by as much, around the ring |
| Playback.CopyLies | firmware/drivers/acw.c:1312-1335 | a copy that does not wrap in mid-ring lies behind the last write and changes nothing else |
| Playback.WriteKeeps | firmware/drivers/acw.c:1293-1373 | a write keeps the ring invariant, appends its period if there is room and touches no period still queued or playing |
| Playback.DmaDoneKeeps | firmware/drivers/acw.c:783-817 | a finished block keeps the invariant and has played the oldest period not yet played |
| Playback.RunKeeps | firmware/drivers/acw.c:783-817 | the invariant holds after every sequence of stops, closings, writes, block completions and starts of a stopped or running stream, whatever comes of the starts; with at least four periods, a stream that is not started holds no channel |
| Playback.PlaybackIsFifo | firmware/drivers/acw.c:1293-1373 | over every such run: counters stay within one ring of each other, running and the DMA moving if and only if something is queued, the periods played are the periods written in order, and the rest lie in their slots |
| Playback.StartExact | firmware/drivers/acw.c:655-728 | a start of a stopped stream succeeds if and only if the transfer is allocated, the channel is free and the ring has at least four periods |
| Playback.RestartExact | firmware/drivers/acw.c:230-264 | after every orderly run and a stop or a closing, the stream can be started again, if and only if its ring has at least four periods |
| Playback.StartAgainExact | firmware/drivers/acw.c:684-711 | after a second start of a stream that waits for data, every later run plays what is written, in order, if and only if the start failed for want of memory and a whole number of rings was played before |
| Playback.RefusedOrphans | firmware/drivers/acw.c:1525-1572 | a second start whose transfer is allocated replaces the prepared transfer by one that reaches no channel, the old channel still locked |
| Playback.OrphanedForEver | firmware/drivers/acw.c:230-264 | from then on, in every run, nothing is played and the channel is never given back; once stopped, the stream never starts again |
| Playback.ResetWrites | firmware/drivers/acw.c:699-711 | otherwise, if it failed for want of memory, the next period goes to slot 0 while a whole period of silence waits where the DMA goes on |
| Playback.Device.Start | firmware/drivers/acw.c:680-728 | refused while running; otherwise the pointers are reset and the buffer is cleared, and the transfer, the lock and the state are what allocation, request and waiting loop make of them |
| Playback.Device.Stop | firmware/drivers/acw.c:230-264 | the counters and the state, and the channel given back if the transfer was prepared on it |
| Playback.Device.Disable | firmware/drivers/acw.c:1054-1063 | a stop, and the transfer freed |
| Playback.Device.TxDmaDone | firmware/drivers/acw.c:783-811 | the handler's pointer, counter and state |
| Playback.Device.CopyFrames | firmware/drivers/acw.c:1312-1335 | both copy branches, the byte offset of line 1317 included |
| Playback.Device.AudioWrite | firmware/drivers/acw.c:1293-1373 | the whole new state and the bytes accepted |
| Capture.PtrAdd | firmware/drivers/acw.c:766-773 | the wrap on `>` keeps a pointer at 0 or `((total - 1) mod size) + 1` |
| Capture.AvailExact | firmware/drivers/acw.c:538-549 | the available count is the true lag if and only if the ring is not full or nothing was ever read; a full one reads as empty |
| Capture.AvailCongruent | firmware/drivers/acw.c:538-549 | the available count is the lag modulo the size, in every state |
| Capture.ReadInTime | firmware/drivers/acw.c:1254-1291 | while the lag is at most the size, a read returns the next captured frames and advances by as many |
| Capture.ReadExact | firmware/drivers/acw.c:1254-1291 | it returns all frames it is asked for or all that are acknowledged, except from a ring that is full and was read before, which gives none |
| Capture.ReadKeeps | firmware/drivers/acw.c:1254-1291 | such a read keeps what was delivered a beginning of what was captured |
| Capture.BlockDoneKeeps | firmware/drivers/acw.c:761-773 | a finished block keeps the invariant |
| Capture.CaptureIsFifo | firmware/drivers/acw.c:1254-1291 | over every timely run, reads of arbitrary sizes deliver the captured stream in order, nothing lost or repeated |
| Capture.ReadsDeliver | firmware/drivers/acw.c:1254-1291 | a row of reads delivers what they ask for together, or all that is acknowledged |
| Capture.StuckDelivers | firmware/drivers/acw.c:538-549 | from a full ring that was read before, no reads deliver anything |
| Capture.CaptureCatchesUp | firmware/drivers/acw.c:1254-1291 | after every timely run, reads that together ask for the whole lag bring the reader up to the last acknowledged block if and only if the ring is not such a full one |
| Capture.LagBound | firmware/drivers/acw.c:775-780 | a reader at most size minus one period behind the acknowledged blocks is timely |
| Capture.Device.RxDmaDone | firmware/drivers/acw.c:761-781 | the new pointer, and whether a waiting reader is woken |
| Capture.Device.AudioRead | firmware/drivers/acw.c:1254-1291 | both copy branches return the ring's next frames, and the new pointer |
| DescRing.GotFits | firmware/drivers/fh_dma.c:401-428 | the unsigned subtraction of the wrap test does not underflow, and no more is booked than is left |
| DescRing.GotExact | firmware/drivers/fh_dma.c:401-428 | a request is granted if and only if the free stretch has that many places in a row that do not cross the end of the array |
| DescRing.IdleRefusesExact | firmware/drivers/fh_dma.c:409-428 | with every descriptor free, a request is refused if and only if neither those up to the end nor those before the free index are enough |
| DescRing.GetKeeps | firmware/drivers/fh_dma.c:385-457 | an allocation keeps the live blocks chained around the ring |
| DescRing.PutKeeps | firmware/drivers/fh_dma.c:459-473 | returning the oldest block keeps them chained |
| DescRing.LiveDisjoint | firmware/drivers/fh_dma.c:385-457 | no two live blocks share a cell |
| DescRing.AllocatorIsSound | firmware/drivers/fh_dma.c:385-473 | over every run: nothing leaks, the free index is the used index plus what is in use, and live blocks are contiguous, inside the table and disjoint |
| DescRing.YoungerFirstOverlaps | firmware/drivers/fh_dma.c:459-473 | in every reachable state, if a block before which an older one is live is returned and has more cells than the oldest one skipped, single requests come back to the first descriptor of the oldest |
| DescRing.YoungerFirstExact | firmware/drivers/fh_dma.c:385-473 | in every reachable state, after returning a block before older ones, later requests of any sizes can be granted a cell of the oldest live block if and only if that block holds any and has skipped fewer than were returned |
| DescRing.AsWrittenNeverBooks | firmware/drivers/fh_dma.c:392-457 | as written, in every reachable state the indices are 0 and all descriptors count as left |
| DescRing.AsWrittenDisjointExact | firmware/drivers/fh_dma.c:392-457 | as written, a new block is disjoint from the live ones if and only if it or all of them are empty |
| DescRing.Channel.GetDesc | firmware/drivers/fh_dma.c:385-457 | computes the grant and the new indices, under either booking |
| DmaChain.BlocksSpan | firmware/drivers/fh_dma.c:765-780 | the count of blocks and their sizes sum to the transfer, each at most 4095 items |
| DmaChain.BlockIsSlice | firmware/drivers/fh_dma.c:884-956 | each block performs its own slice of the unchunked accesses |
| DmaChain.ExecuteFrom | firmware/drivers/fh_dma.c:952-956 | from block `i` on, the linked chain performs the rest of them and ends |
| DmaChain.ChainIsFlat | firmware/drivers/fh_dma.c:884-963 | for equal widths, executing the chain is the unchunked transfer in INC, DEC and FIX modes, in exactly `ceil(len / 4095)` blocks |
| DmaChain.ChainReadsFlat | firmware/drivers/fh_dma.c:906-923 | for any widths, the chain reads what the unchunked transfer reads |
| DmaChain.ReadsInBytes | firmware/drivers/fh_dma.c:906-923 | item `k` that an executed chain reads lies `k`, `2 * k` or `4 * k` bytes above the source address, or below it, or at it, for widths of 8, 16 and 32 bits, in 32-bit arithmetic |
| DmaChain.WritesInBytes | firmware/drivers/fh_dma.c:889-904 | and so does item `k` that it writes, for equal widths |
| DmaChain.SendsBuffer | firmware/drivers/fh_dma.c:884-963 | an 8-bit transfer out of a buffer takes each byte once, in order |
| DmaChain.ReceivesBuffer | firmware/drivers/fh_dma.c:884-963 | an 8-bit transfer into a buffer leaves the items there in the order they came |
| DmaChain.DestinationStartExact | firmware/drivers/fh_dma.c:889-904 | every block starts where the source has got to if and only if the widths agree, the destination is fixed or there is one block |
| DmaChain.FillSingle | firmware/drivers/fh_dma.c:884-963 | the loop builds that chain and changes nothing else |
| DmaChain.RingFollows | firmware/drivers/fh_dma.c:1452-1523 | following the links `k` times lands on entry `k mod periods` |
| DmaChain.RingTurns | firmware/drivers/fh_dma.c:1452-1523 | the block done `k`-th is period slot `k mod periods`, with that slot's addresses |
| DmaChain.HwPtrFollowsRing | firmware/drivers/acw.c:789-795 | after `k` callbacks from 0 the playback pointer is at the start of block `k mod count`, 0 possibly written as the size |
| DmaChain.CapturePtrFollowsRing | firmware/drivers/acw.c:766-773 | and so is the capture pointer |
| DmaChain.BlockReadsSlot | firmware/drivers/fh_dma.c:1454-1470 | block `k` of a playback ring reads the bytes of slot `k mod count` |
| DmaChain.FillRing | firmware/drivers/fh_dma.c:1452-1523 | the loop and the closing link build that ring and change nothing else |
| Channels.StepKeepsExact | firmware/drivers/fh_dma.c:525-763 | a control call, completion or interrupt keeps "locked, not closed and with memory are the same" if and only if it neither serves a completion on a free channel nor closes the controller up to a held channel after the first |
| Channels.OnlyLockedRunExact | firmware/drivers/fh_dma.c:1343-1393 | a step keeps "only locked channels run" if and only if it starts or resumes no ring on a channel that is no longer held |
| Channels.RequestExact | firmware/drivers/fh_dma.c:592-674 | while only locked channels run: an automatic request is granted if and only if memory is there and some lock is free, and gets the lowest such channel; a named one if and only if that lock is free and memory is there |
| Channels.OneHolder | firmware/drivers/fh_dma.c:592-763 | over every proper run, a channel is locked exactly while one client holds it, never two; with memory, a request is refused if and only if all channels, or the named one, are held |
| Channels.SingleExact | firmware/drivers/fh_dma.c:798-880 | a one-shot transfer is accepted if and only if its channel is held; once its completion is served the channel is idle and still held |
| Channels.RingExact | firmware/drivers/fh_dma.c:1335-1443 | a ring is prepared if and only if its channel is held, runs from its start, and again from a resume after a pause |
| Channels.ReceiveBelowTransmit | firmware/drivers/ssi.c:722-749 | while only locked channels run, each of the two requests is granted if and only if a channel is free; if none is released in between, the receive channel is the lower one |
| Channels.ProbeGetsBoth | firmware/drivers/ssi.c:722-749 | with two channels free the probe gets the lowest two, in order |
| Channels.ReceiveBelowTransmitExact | firmware/drivers/ssi.c:743-749 | otherwise the second request is still granted if and only if a channel is free, and the assertion holds if and only if no lower channel is free by then |
| Channels.LateCompletionShares | firmware/drivers/fh_dma.c:1245-1266 | a completion served after release lets a channel be released twice and granted twice |
| Channels.Controller.RequestChannel | firmware/drivers/fh_dma.c:592-674 | the search, the locks, the allocation and its failure path |
| Channels.Controller.ReleaseChannel | firmware/drivers/fh_dma.c:722-763 | the new channel state, or a failed assertion |
| Channels.Controller.ServeInterrupt | firmware/drivers/fh_dma.c:1245-1266 | every completed one-shot channel becomes idle |
| Channels.Controller.CloseAll | firmware/drivers/fh_dma.c:525-546 | with no channel held, closes all and restores every lock; otherwise stops at the first held one with those before it taken and closed |
| Spi.StepKeeps | firmware/drivers/ssi.c:458-544 | every interrupt and byte shift keeps the pump's invariant |
| Spi.PumpIsUncut | firmware/drivers/ssi.c:458-544 | for every interleaving: received <= transfered <= length, their difference is what the FIFOs hold, the TX FIFO is never full, and a finished pump sent exactly the message (or all 0xff) and stored exactly the replies |
| Spi.RxFifoExact | firmware/drivers/ssi.c:338-339 | with the interrupts that the TX threshold allows, the RX FIFO holds all replies in every run if and only if it is at least three quarters as deep as the TX FIFO or fits the message |
| Spi.PeakBounds | firmware/drivers/ssi.c:488-491 | no more than three quarters of the TX FIFO's depth are underway in any such run |
| Spi.StepWorks | firmware/drivers/ssi.c:458-544 | no step undoes work, and a byte shift, or an interrupt on an empty TX FIFO, does some |
| Spi.WorkingRunsEnd | firmware/drivers/ssi.c:458-544 | so a run in which every step works is over within `3 * (length - o) + 1` steps |
| Spi.FallThroughIsUncut | firmware/drivers/ssi.c:408-428 | DMA up to a chunk boundary and the pump from there are together one whole transfer |
| Spi.Controller.Interrupt | firmware/drivers/ssi.c:458-544 | the handler computes one pump step |
| Spi.Controller.Drain | firmware/drivers/ssi.c:495-507 | the receive loop moves the FIFO into the buffer |
| Spi.Controller.Fill | firmware/drivers/ssi.c:521-543 | the transmit loop queues the next bytes, or 0xff |
| Spi.Controller.Chunk | firmware/drivers/ssi.c:281-327 | one chunk advances both counters and the cursors of the buffers there are, alike, and lands its replies at the cursor |
| Spi.Controller.XferDataDma | firmware/drivers/ssi.c:270-331 | succeeds if and only if no chunk of the message fails; stops at exactly the length, or at the boundary of the failing chunk in a state the pump can start from; counters and cursors agree and the answers so far are in the buffer |
| I2c.ParseProgram | firmware/drivers/i2c.c:215-239 | the commands determine the messages: the stop bit is on the last command of each and on no other |
| I2c.CutIndependent | firmware/drivers/i2c.c:164-273 | wherever interrupts and FIFO levels cut the transfer, the number of commands emitted decides which they were, where the pump stands and whether it failed |
| I2c.SettledMeans | firmware/drivers/i2c.c:180-272 | outside a message exactly when everything before the first bad message is out; an error exactly if there is one |
| I2c.StandsOn | firmware/drivers/i2c.c:215-254 | sending more of a message leads to the place that many commands further on |
| I2c.PumpOutcome | firmware/drivers/i2c.c:256-272 | between interrupts the commands out are a beginning of the good messages' program; they are the whole program exactly when every message is done without error |
| I2c.ReplyLands | firmware/drivers/i2c.c:311-314 | one more reply goes to the next place of the message being read and nowhere else |
| I2c.UnreadCommands | firmware/drivers/i2c.c:275-333 | what has been read does not show in the commands still to be sent |
| I2c.FilledWhole | firmware/drivers/i2c.c:275-333 | with all replies in, each read buffer holds its own slice of them |
| I2c.ProgramReads | firmware/drivers/i2c.c:217-221 | the program asks for exactly the bytes the read messages take |
| I2c.AllRead | firmware/drivers/i2c.c:275-333 | all sent, none lost and both FIFOs empty means all replies are read |
| I2c.NothingLost | firmware/drivers/i2c.c:210-221 | no reply finds the RX FIFO full, whatever the interrupts do, while the messages read no more bytes than it holds |
| I2c.OpeningsWork | firmware/drivers/i2c.c:367-370 | over every course of a transfer, each TX_EMPTY interrupt that finds and leaves room in both FIFOs has sent a command, unless there was an error |
| I2c.EnoughOpeningsEnd | firmware/drivers/i2c.c:164-273 | so as many of them as commands are left finish the program of acceptable messages, and there are never more without an error |
| I2c.LastReadFills | firmware/drivers/i2c.c:275-333 | with everything sent, nothing lost and the TX FIFO empty, one RX_FULL interrupt fills what is left of the read buffers |
| I2cLevels.DriverAsks | firmware/drivers/i2c.c:210-239 | no step of the handler changes the balance of replies asked for, still to be asked for and still owed |
| I2cLevels.FewNeverLose | firmware/drivers/i2c.c:164-383 | nothing is lost while the bytes to be read fit the RX FIFO, however they are split |
| I2cLevels.ShortNeverLoses | firmware/drivers/i2c.c:164-383 | one read message loses nothing if the TX FIFO is at most half the RX FIFO and one more |
| I2cLevels.BarelyNeverLoses | firmware/drivers/i2c.c:164-383 | nor one of a byte more than the RX FIFO holds, if nothing is written before it and the TX FIFO is no deeper |
| I2cLevels.FullPumpLoses | firmware/drivers/i2c.c:210-239 | replies that arrive between the read and the pump's look at the TX level let it ask for more than there is room for |
| I2cLevels.OneReadExact | firmware/drivers/i2c.c:164-383 | for one read of `n` bytes with any writes before and after it, some order of handler steps and bus loses a reply if and only if `n` exceeds the RX FIFO's depth R and the TX FIFO's T exceeds R, or `2T >= R + 3` and something is written first or `n >= R + 2` |
| I2cLevels.OnesLose | firmware/drivers/i2c.c:180-213 | across several messages in one call the pump never counts the request it has just sent |
| I2cLevels.AnySplitExact | firmware/drivers/i2c.c:164-383 | no way to split `n` bytes into read messages, with any writes in between, can lose a reply if and only if they fit the RX FIFO or the TX FIFO holds one command |
| I2c.Driver.Push | firmware/drivers/i2c.c:210-239 | the inner loop emits the next commands of the message, never overfills the TX FIFO whatever the bus does meanwhile, asks for no more bytes than the RX level seen leaves room for, makes progress if both FIFOs have room, and stops short of the message's end only when it has used up the room of one |
| I2c.Driver.Emit | firmware/drivers/i2c.c:217-238 | one byte's command; the last of a message waits for the TX FIFO to drain |
| I2c.Driver.PumpMessage | firmware/drivers/i2c.c:180-254 | one round of the loop, its two checks included |
| I2c.Driver.XferMsg | firmware/drivers/i2c.c:164-273 | leaves the pump at a settled place with the matching interrupt mask, receive side untouched; with room in both FIFOs it sends or reports an error, and it stops inside a message only with the room of one used up |
| I2c.Driver.Pop | firmware/drivers/i2c.c:304-314 | takes the replies there on entry, in order |
| I2c.Driver.Read | firmware/drivers/i2c.c:275-333 | fills the read buffers in message order, pump side untouched; all replies there on entry are taken, or every read message is complete |
| I2c.Driver.ReadMessage | firmware/drivers/i2c.c:286-329 | one round of the read loop |
| I2c.Driver.Abort | firmware/drivers/i2c.c:350-362 | ends both sides with what was read so far in place |
| I2c.Driver.Interrupt | firmware/drivers/i2c.c:339-383 | keeps both sides' invariants; TX_EMPTY gets done what `XferMsg` promises, RX_FULL what `Read` does, and without its bit either side is untouched; ends the transfer exactly on abort, stop or a bad message |
| I2c.Driver.Transfer | firmware/drivers/i2c.c:78-140 | after any sequence of interrupts and bus activity: a beginning of the program is out, at least one command for each TX_EMPTY interrupt with room, so that enough of them complete it, all of it exactly when TX_EMPTY was switched off without error, every byte read is in its place, and none was lost if the messages read no more than the RX FIFO holds |
| Gmac.InOrderOnce | firmware/drivers/fh_gmac.c:1090-1149 | over every interleaving of the two sides: frames come out in the order put, once each; a frame is admitted exactly while fewer are underway than there are slots, and one leaves with every take while any is; full slots are one cyclic interval |
| Gmac.PutKeeps | firmware/drivers/fh_gmac.c:1135-1148 | handing a slot over keeps the interval, and there is a free slot at the cursor if and only if the ring is not full |
| Gmac.TakeKeeps | firmware/drivers/fh_gmac.c:1107-1114 | taking a slot back keeps the interval, and there is a full slot at the cursor if and only if the ring is not empty |
| Gmac.TakeLeaves | firmware/drivers/fh_gmac.c:1107-1114 | taking gives the oldest frame not yet taken, if there is one |
| Gmac.Wire | firmware/drivers/fh81_gmac_dma.h:104 | the 11-bit size keeps a frame whole if and only if it has at most 2047 bytes |
| Gmac.HandOver | firmware/drivers/fh_gmac.c:968-986 | filling a slot's buffer and giving it away changes no other slot's frame |
| Gmac.HandBack | firmware/drivers/fh_gmac.c:1055 | giving a slot back changes no other slot's frame |
| Gmac.Transmitter.constructor | firmware/drivers/fh_gmac.c:1183-1208 | an empty ring whose descriptors are chained in a circle |
| Gmac.Transmitter.CopyPbufs | firmware/drivers/fh_gmac.c:968-973 | the pieces are copied one behind the other |
| Gmac.Transmitter.Enqueue | firmware/drivers/fh_gmac.c:968-986 | the packet's pieces, joined, become the newest frame; nothing outside the slot changes |
| Gmac.Transmitter.Send | firmware/drivers/fh_gmac.c:940-994 | sends, is busy or refuses, exactly by length and ownership; no descriptor owned by the hardware is written |
| Gmac.Transmitter.HardwareSends | firmware/drivers/fh_gmac.c:981-986 | the hardware sends the oldest frame not yet sent |
| Gmac.Receiver.constructor | firmware/drivers/fh_gmac.c:1210-1236 | an empty ring, every descriptor the hardware's with its own buffer |
| Gmac.Receiver.HardwareReceives | firmware/drivers/fh_gmac.c:1219-1228 | a frame that fits is queued if a descriptor is free |
| Gmac.Receiver.Receive | firmware/drivers/fh_gmac.c:1007-1069 | delivers the oldest frame not yet delivered, if any, and writes no descriptor the hardware owns |
| Nal.PiecesJoin | firmware/applications/audio_video_demo/video_main.c:112-131 | the pieces sent concatenate to the frame |
| Nal.CodesApart | firmware/applications/audio_video_demo/video_main.c:76-92 | start codes cannot overlap |
| Nal.CutsAtCodes | firmware/applications/audio_video_demo/video_main.c:112-131 | the cuts are the beginning and exactly the start codes from its fourth byte on |
| Nal.CutsAreCodesExact | firmware/applications/audio_video_demo/video_main.c:112-131 | the cuts are exactly the start codes if and only if the frame begins with one |
| Nal.Seam | firmware/applications/audio_video_demo/video_main.c:76-92 | no start code arises across the seam of two units |
| Nal.UnitsComeBack | firmware/applications/audio_video_demo/video_main.c:94-138 | splitting a frame packed from units gives the units back |
| Nal.FindStartCode | firmware/applications/audio_video_demo/video_main.c:76-92 | returns the first start code in the range, none if there is none or the length is negative |
| Nal.SendDataForChannel | firmware/applications/audio_video_demo/video_main.c:94-138 | terminates and sends exactly those pieces |
| Mmc.WalkFrom | firmware/Libraries/driverlib/fh_mmc.c:43-60 | from entry `i` on, the controller accesses the rest of the buffer in order |
| Mmc.WalkCutShort | firmware/Libraries/driverlib/fh_mmc.c:43-60 | a stale end flag makes it stop early |
| Mmc.WalkExact | firmware/Libraries/driverlib/fh_mmc.c:34-60 | the controller accesses exactly the buffer, in order, if and only if no end flag was left before the last entry used |
| Mmc.InitDescriptors | firmware/Libraries/driverlib/fh_mmc.c:34-60 | terminates although it subtracts a size read back from 13 bits; the whole new table, with the fewest blocks that hold the size |
| Mmc.PrepareData | firmware/drivers/drv_mmc.c:322-345 | proceeds if and only if both size checks pass; then the walk is exact and just the first and last entries carry their flags |

## Left out

- Register programming, cache and TLB maintenance, interrupt-controller setup, semaphores and wall-clock timeouts: replaced by environment steps or left out.
- Buffers that wrap around the 32-bit address space are modelled only where the source computes the address (`DmaChain`); 32-bit overflow of the running counters (`app_count`, `hw_count`, `lpj`) is not modelled.
- Supersections and 64 KB pages: the table builder's attributes never ask for the former, and the walk of either is defined but not used by any result.
- The first-level entry value 3 and access permissions, domains and cacheability: only the translation is modelled.
- Mmu.PageTables.RtHwMmuInit: assumes attribute words of the descriptor type they should have, disjoint ranges, and no page-mapped range over the whole address space (whose tables would not fit the table area), because the source checks none of these.
- Mmu.PageTables.InstallAll: the same assumptions.
- Mmu.IntendedInside: for virtual and physical start addresses that agree within a page (or a section), since the builder drops their low bits.
- Playback.PlaybackIsFifo: for one-period writes, which is what `FH_AC_AO_SendFrame` sends (firmware/drivers/fh_audio_mpi.c:410-438); what other writes do is stated (`AnyWriteTakes`, `CopyLies`, `CopyInExact`) but not followed over runs.
- Playback.RunKeeps: for starts of a stopped or running stream; what a start of one that waits for data does is `StartAgainExact`. The source's stop frees the buffer (firmware/drivers/acw.c:262-263) and does not allocate it again by itself (961-966); the model keeps it.
- Playback.Device.Start: the size check before it (firmware/drivers/acw.c:690-698) and a missing DMA device (1534-1538). The waiting loop that never ends is modelled as a start that leaves the state alone.
- Playback.Device.Stop: a stop of a stream without a transfer reads through a null pointer in the source; in the model it only resets the stream.
- Playback.OrphanedForEver: a resume through a null controller (firmware/drivers/fh_dma.c:1347) is taken to reach no channel; what else it does to the machine is not modelled.
- Capture.CaptureIsFifo: for runs in which the reader is never more than a ring behind; what the hardware then overwrites is lost.
- DescRing.AllocatorIsSound: for blocks returned oldest first.
- DmaChain.ChainIsFlat: for equal widths; for others the reading side is `ChainReadsFlat` and where the writing side starts `DestinationStartExact`.
- DmaChain.WritesInBytes: for equal widths, likewise.
- DmaChain: the handshake, burst and flow-control fields; queues with more than one pending transfer on a channel.
- Channels: the loops and registers of a transfer's set-up; a prepared ring is taken to find its descriptors on a channel with memory. A requester that waits up to 50 seconds for a named channel is refused at once, and a close that waits for a held channel is not followed further. The probe error path that passes the address of a pointer to the release (firmware/drivers/ssi.c:737-739) is left out.
- Spi.Controller.XferDataDma: bytes that a timed-out chunk may have moved before it was abandoned, and the completion count that such a chunk can leave behind for the next one.
- Spi.RxFifoExact: the interrupt handler is one step. A byte shifted between its two reads of the FIFO levels can put more than three quarters of the TX FIFO underway.
- Spi.PeakBounds: likewise.
- Spi: the FIFO error branch of the interrupt handler, which returns without doing anything.
- I2cLevels.OneReadExact: the bus takes a request and delivers its reply in one step, so that no request is ever out of the TX FIFO with its reply still to come.
- I2cLevels.AnySplitExact: likewise; over all ways to split the bytes; for one given list of several read messages no exact condition is stated. TX_ABRT and STOP_DET interrupts are not among its events.
- I2c.Driver.Transfer: after an abort only what was read so far is stated. A reply that finds the RX FIFO full is recorded as lost, because the pump's check of the RX level does not count replies still owed; completeness is stated for runs in which none is lost, and those include every run that reads no more than the FIFO holds. Whether the first STOP comes before the last message is a matter of bus timing.
- Gmac.Transmitter.Send: the ring reset in the busy branch; every claim is for runs in which no error resets a ring.
- Gmac.Receiver.HardwareReceives: frames longer than a descriptor's 2000 bytes, which take several descriptors.
- Nal.SendDataForChannel: the fixed array of 20 units that the other build variant fills.
- Mmc.PrepareData: a request of no data, for which the source writes before the table.
- SDIO command sequences, UART, PWM, SADC, watchdog, GPIO, the RTSP and PES clients, WAV headers, ISP parameters: straight-line code or wrappers whose members would be easy. The RT-Thread kernel, lwIP and the vendor libraries are not part of this model.
