# Verified models of an RV64 emulator

This project models the parts of the emulator whose correctness is least visible from the code, and
proves what they promise:

* **Soft floating point.** `add`, `sub`, `mul`, `div`, `sqrt`, `fma` and the conversions return the
  correctly rounded result of the exact real value, with exact flags, in every rounding mode. "Correctly
  rounded" is defined without reference to any algorithm (`RoundingSpec`, and for roots, by comparing
  squares, `RootRounding`), as in sections 4.3 and 7 of IEEE 754-2019. No intermediate significand leaves
  128 bits and no exponent leaves 32.
* **Address translation.** The TLB never changes what a translation returns or what it does to memory;
  a store that crosses a page boundary is all or nothing with respect to page faults, and cancels
  exactly the reservations it stores to.
* **The decode cache** returns exactly what a fetch would.
* **LR/SC** across harts: what a successful SC implies, and that increments are not lost.
* **The interrupt controller, virtqueues and the block device**: claim and complete, arbitration,
  in-order exactly-once completion, exactly what every request moves, failing ones included, and a
  copy-on-write overlay that is a flat disk.
* **The user-mode TCP proxy**: streams arrive intact, windows are respected.
* **The scheduler, the clock and hart start**: termination, fairness, time that does not run backwards,
  and every granted hart start answered by exactly one beginning, by the end of the next whole round.
* **The device-tree builder**: its output parses back to the tree that was built.

Code that computes is modelled by functions and lemmas. Code that updates state is modelled by classes
whose methods are proved against those functions: `Mmu`, `DecodeUnit`, `AtomicUnit`, `Plic`,
`SnapshotDisk`, `VirtioBlk`, `TcpFlow`, `Clock`, `Platform`, `FdtBuilder`. What the code does not
decide (the host's sockets, interrupts, instructions, timers) comes in as arguments, so a contract holds
for every environment.

A method that is proved equal to a function says no more than the function. So what each of those functions
answers is stated a second time without it, in the terms of the standard it follows: `FloatDirections`
(which side of the exact value a result lies on, and what patterns are), `PageTables` (what a translation
answers, from the words in memory), `FetchMeaning`, `PlicMap`, `VirtioLayout`, `TcpMeaning`, `SbiMeaning`
and `FdtBytes` (fields at their addresses, numbers and bytes).

## Where the code falls short of its promise

* `KeyCollision`: the TLB key is the ASID shifted by 44, OR-ed with the virtual page number. The comment
  at `src/mmu.rs:49` takes page numbers to be 27 bits wide, but those of the upper half of the address
  space have all 52 bits, so their top bits cover the low half of the ASID. Two canonical pages share a
  key if and only if they are the same page and either the ASIDs are equal, or the page is in the upper
  half and the ASIDs agree in their upper eight bits. It does no harm because every write of satp
  flushes the TLB (`csr_write` in `src/cpu/exec.rs`), which the coherence proof uses.
* `HitIsFetch`: the decode cache's empty marker is itself a matching entry for one odd pc, which a hart
  can be started at because hart_start does not mask its address. A hit equals a fetch if and only if the
  pc is even; `EmptyMarkerHits` is the run that gets there.
* `AckShrinksFlight`: an acknowledgement exactly 2^31 ahead of an idle flow is accepted, because the
  signed comparison of `seq_le` is true in both directions there. In-flight data stays within 65535 if
  and only if that acknowledgement is not taken; `FlightCanJump` is the input.
* `Round`: `quantum` is a public field, and with zero a round retires nothing however many harts could
  run, so the scheduler's loop would go round forever. A round makes progress if and only if some hart
  could run and the quantum is at least one. `Run` requires the latter, as the command line does at
  `src/main.rs:271`; nothing below it does.

## Model

| member | source | states |
|---|---|---|
| `RoundingSpec.IncrementIsCorrect` | src/softfloat.rs:191-202 | the round-up rule for kept bit, half bit and sticky rest picks the neighbour that each rounding mode demands |
| `RoundingSpec.RoundsToUnique` | src/softfloat.rs:22-30 | every mode has at most one correctly rounded value |
| `FloatFormat.FieldsPack` | src/softfloat.rs:107-128 | a pattern is rebuilt from its sign, exponent and fraction fields |
| `FloatFormat.PackFields` | src/softfloat.rs:107-128 | the fields of a packed pattern are those that went in, and it fits the format |
| `FloatFormat.PatternUnique` | src/softfloat.rs:107-128 | sign and magnitude determine the bit pattern of a number |
| `FloatFormat.CorrectResultUnique` | src/softfloat.rs:149-258 | result and flags of a correctly rounded operation are unique |
| `Rounding.RoundPackCorrect` | src/softfloat.rs:149-258 | the packed value is the correct rounding of (sig + epsilon) * 2^exp, with NX iff inexact, OF iff the unbounded rounding exceeds the largest finite value, UF iff inexact and tiny after rounding |
| `Rounding.TininessDecided` | src/softfloat.rs:243-252 | the second rounding at full precision decides tininess after rounding exactly |
| `FloatDirections.StaysOnItsSide` | src/softfloat.rs:229-241 | of every correct result: the sign is kept; towards zero it is a number no larger than the exact one; rounding down it is at most, and up at least, the exact value, infinities at the ends; an overflow to nearest is infinite; a finite one is the largest finite magnitude |
| `FloatDirections.LargestPattern` | src/softfloat.rs:86-88 | the largest finite pattern stands for the largest finite magnitude |
| `FloatDirections.Single` | src/softfloat.rs:53-128 | what every 32-bit pattern stands for, by its bits |
| `FloatDirections.Double` | src/softfloat.rs:54-128 | what every 64-bit pattern stands for, by its bits |
| `FloatAdd.AddExactCorrect` | src/softfloat.rs:277-320 | the exact sum, or a neighbour with a sticky bit that brackets it and is wide enough to round |
| `FloatOps.ExactIsCorrect` | src/softfloat.rs:338-368 | a representable value is its own correct result, without flags |
| `FloatOps.AddCorrect` | src/softfloat.rs:338-368 | sum and difference of any two numbers are the single correct rounding, with the IEEE sign of an exact zero |
| `FloatOps.MulCorrect` | src/softfloat.rs:370-386 | the product of any two numbers, zeros included, is correctly rounded |
| `FloatOps.DivCorrect` | src/softfloat.rs:388-419 | any number over any nonzero number, a zero dividend included, is correctly rounded |
| `FloatOps.FmaCorrect` | src/softfloat.rs:471-519 | a*b+c is rounded once, for all numbers, with the IEEE sign of an exact zero |
| `FloatExceptions.AddExceptions` | src/softfloat.rs:338-368 | addition gives a NaN, always the canonical one, and raises Invalid exactly in the listed cases, for all operands |
| `FloatExceptions.MulExceptions` | src/softfloat.rs:370-386 | the same for multiplication |
| `FloatExceptions.DivExceptions` | src/softfloat.rs:388-419 | the same for division, and Divide-by-zero exactly for a finite nonzero over zero |
| `FloatExceptions.FmaExceptions` | src/softfloat.rs:471-519 | the same for fused multiply-add |
| `FloatExceptions.ProductFitsIn128` | src/softfloat.rs:370-386 | no product leaves 128 bits |
| `FloatExceptions.SumFitsIn128` | src/softfloat.rs:277-320 | neither the normalised operands of an addition, nor the aligned smaller one, nor the sum leave 128 bits |
| `FloatExceptions.QuotientFitsIn128` | src/softfloat.rs:388-419 | no scaled dividend leaves 128 bits |
| `FloatWidths.FiniteExponent` | src/softfloat.rs:107-128 | the exponent of a finite pattern runs from the last subnormal place to that of the largest number |
| `FloatWidths.ProductExponent` | src/softfloat.rs:370-386 | the exponent of a product of finite patterns is within 2200 |
| `FloatWidths.SumExponents` | src/softfloat.rs:277-320 | the exponents of the normalised operands, their distance and that of the sum fit 32 bits |
| `FloatWidths.QuotientExponents` | src/softfloat.rs:388-419 | so do those of the scaled dividend and divisor and the one handed on |
| `FloatWidths.RootExponents` | src/softfloat.rs:438-468 | so do those of the scaled radicand and its root |
| `FloatWidths.RoundPackExponents` | src/softfloat.rs:149-258 | from any exponent a caller hands on, every exponent and shift count round_pack forms fits 32 bits |
| `FloatRoot.NewtonStaysAbove` | src/softfloat.rs:424-436 | a Newton step from at or above the root stays at or above it |
| `FloatRoot.Isqrt` | src/softfloat.rs:424-436 | terminates with the floor of the square root |
| `RootRounding.RootUnique` | src/softfloat.rs:438-468 | rounding a root, defined by comparing squares, has one result in every mode |
| `RootRounding.RootIsReal` | src/softfloat.rs:438-468 | wherever a real root exists it is that root's correct rounding |
| `RootRounding.RootTransfers` | src/softfloat.rs:438-468 | the integer root with its sticky bit rounds exactly where the real root does, and exactly when it does |
| `RootRounding.StandIsRoot` | src/softfloat.rs:438-468 | so its correct rounding, flags included, is the root's |
| `FloatRoot.Sqrt` | src/softfloat.rs:438-468 | the square root of every pattern: NaN and Invalid for negatives, signed zero, infinity, else the correctly rounded root with exact flags |
| `FloatConvert.ConvertCorrect` | src/softfloat.rs:522-530 | conversion of every pattern between formats: numbers correctly rounded, infinities and signed zeros kept, NaN canonical and Invalid exactly when signalling |
| `FloatConvert.WideningIsExact` | src/softfloat.rs:522-530 | conversion of every number and infinity to a wider format keeps its value and raises nothing |
| `FloatConvert.FromIntCorrect` | src/softfloat.rs:533-538 | every integer, zero included, converts to the correctly rounded value |
| `FloatConvert.ToIntCorrect` | src/softfloat.rs:547-612 | rounds to an integer in the given mode, saturates with Invalid exactly outside the range, NX exactly when inexact |
| `FloatConvert.IntegerUnique` | src/softfloat.rs:586-596 | the integer a value rounds to is unique in every mode |
| `FloatConvert.IntegerRanges` | src/softfloat.rs:548-559 | the ranges of the four destinations, as numbers |
| `FloatConvert.EncodesModulo` | src/softfloat.rs:598-611 | results are 64-bit two's complement |
| `FloatConvert.CompareCorrect` | src/softfloat.rs:615-628 | compares as the real values and infinities do, with equal zeros |
| `Sv39.KeyIsOr` | src/mmu.rs:172-176 | the arithmetic form of the TLB key is the source's shift and OR on 64-bit words |
| `Sv39.KeyCollision` | src/mmu.rs:172-176 | two canonical pages share a key if and only if they are equal and so are the ASIDs, or, in the upper half, the ASIDs' upper eight bits |
| `Sv39.KeyCollisionExample` | src/mmu.rs:49-50 | a concrete pair of ASIDs and pages with one key |
| `Sv39.WalkUnderAd` | src/mmu.rs:199-237 | accessed and dirty bits set by any walker do not change where a walk leads |
| `Sv39.CoherentUnderAd` | src/mmu.rs:157-274 | a coherent TLB stays coherent when any walker sets such bits |
| `Sv39.WalkTranslateIsAdStep` | src/mmu.rs:196-274 | a translation changes memory only by setting accessed or dirty bits of one leaf |
| `TlbCoherence.TranslateAgrees` | src/mmu.rs:141-274 | with a coherent TLB, translation returns what a bare walk returns, leaves the same memory, and keeps the TLB coherent |
| `TlbCoherence.StepAgrees` | src/mmu.rs:122-274 | any event of any hart agrees with the machine without TLBs |
| `TlbCoherence.RunAgrees` | src/mmu.rs:122-274 | every run of translations, flushes and data writes by any harts gives the results and memory of the run without TLBs |
| `TlbCoherence.ResetIsCoherent` | src/mmu.rs:117-126 | a machine whose TLBs have just been flushed starts coherent |
| `PageTables.MappedAnswer` | src/mmu.rs:91-274 | with pointers and an aligned leaf for the address in the tables, a translation goes to the leaf's page and marks the leaf if and only if the leaf grants the access (W for a store, X for a fetch, R or with MXR X for a load, U for a user, no U or SUM and no fetch for a supervisor), and otherwise faults |
| `PageTables.UnmappedAnswer` | src/mmu.rs:157-233 | without them, or with an address that is not sign-extended, it faults and changes nothing |
| `PageTables.BareAnswer` | src/mmu.rs:141-155 | machine mode and bare mode do not translate |
| `PageTables.CachedAnswer` | src/mmu.rs:141-274 | the same answers come through a coherent TLB |
| `PageCrossing.CrossingStore` | src/cpu/mod.rs:415-431 | if any byte faults no data byte is written; otherwise the second pass cannot page-fault and writes exactly the addresses found, even over the page tables |
| `PageCrossing.ReservationLost` | src/cpu/mod.rs:383-431 | another hart loses its reservation exactly when a byte actually stored lies in its granule, also when the store then faults |
| `PageCrossing.BytesStored` | src/cpu/mod.rs:424-430 | a completed store leaves byte j of the value, lowest first, at the j-th address |
| `PageCrossing.StoresInRam` | src/cpu/mod.rs:424-430 | the second pass completes exactly when every address is RAM |
| `PageCrossing.BytesKept` | src/cpu/mod.rs:424-430 | every byte of memory it is not sent to is unchanged |
| `PageCrossing.ByteOfIs` | src/cpu/mod.rs:426-426 | byte i of a value is value / 256^i mod 256 |
| `PageCrossing.PassOneWritesOnlyAd` | src/cpu/mod.rs:415-431 | the first pass changes memory only by setting accessed and dirty bits |
| `PageCrossing.BytesApart` | src/mmu.rs:172-177 | the bytes of one store share a page or occupy different TLB slots |
| `Mmu.Mmu.constructor` | src/mmu.rs:117-120 | a new TLB holds nothing |
| `Mmu.Mmu.Flush` | src/mmu.rs:122-126 | empties every slot in place and changes nothing else |
| `Mmu.Mmu.Walk` | src/mmu.rs:199-233 | the three-level loop over the tables in memory is the recursive walk |
| `Mmu.Mmu.Translate` | src/mmu.rs:141-274 | result, memory, TLB and hit and miss counts are those of the specified translation |
| `Mmu.Mmu.StoreAcrossPages` | src/cpu/mod.rs:415-431 | the two loops over bytes are the specified two-pass store, reservations cancelled byte by byte |
| `DecodeCache.WriteOk` | src/dram.rs:110-133 | a write bumps the epoch or leaves every byte of every marked page alone |
| `DecodeCache.NextKeeps` | src/cpu/mod.rs:464-528 | every store, DMA write, image load, fill, fence or remapping keeps all harts' cached entries correct |
| `DecodeCache.RunKeeps` | src/cpu/mod.rs:464-528 | so does every run |
| `DecodeCache.HitIsFetch` | src/cpu/mod.rs:498-528 | in every reachable state a hit equals a fetch if and only if the pc is even |
| `DecodeCache.EmptyMarkerHits` | src/cpu/mod.rs:295-322 | a run from reset after which a hart started at the odd address of all ones hits an empty slot, where a fetch is misaligned |
| `DecodeCache.ResetOk` | src/dram.rs:49-60 | the machine starts in such a state |
| `FetchMeaning.FetchShort` | src/cpu/mod.rs:444-456 | a fetch from an odd pc, an unmapped page or outside RAM, and one of a two-byte instruction, from the bytes in memory |
| `FetchMeaning.FetchLong` | src/cpu/mod.rs:444-456 | a four-byte instruction takes its second half from wherever the page of pc + 2 goes |
| `FetchMeaning.MissFetches` | src/cpu/mod.rs:508-528 | a step that finds nothing cached returns the fetch |
| `FetchMeaning.WriteMeans` | src/dram.rs:110-133 | a write changes exactly the bytes addressed, or nothing if they are not all RAM |
| `FetchMeaning.ImageMeans` | src/dram.rs:172-203 | so does loading an image, which always moves the epoch |
| `FetchMeaning.FenceMeans` | src/cpu/mod.rs:310-322 | a fence empties exactly its hart's cache; a change of mapping changes exactly its hart's mapping |
| `DecodeUnit.Ram.MarkCodePage` | src/dram.rs:212-224 | marks a page in place as specified |
| `DecodeUnit.Ram.InvalidateCode` | src/dram.rs:226-238 | the loop over marked pages clears exactly their flags and bumps the epoch |
| `DecodeUnit.Ram.NoteWriteTo` | src/dram.rs:240-254 | the loop over touched pages finds a marked one exactly when there is one |
| `DecodeUnit.Ram.StoreBytes` | src/dram.rs:110-170 | writes the bytes after noting the write, or refuses |
| `DecodeUnit.DecodeUnit.Flush` | src/cpu/mod.rs:318-322 | empties every slot in place |
| `DecodeUnit.DecodeUnit.Fill` | src/cpu/mod.rs:464-485 | stores the decoded instruction and marks its page, or does nothing, as specified |
| `DecodeUnit.DecodeUnit.Lookup` | src/cpu/mod.rs:508-528 | sync, hit or fetch and fill, with the page-table writes of the fetch, as the specified step |
| `DecodeUnit.DecodeUnit.WalkerWrites` | src/dram.rs:110-170 | the writes of a fetch's page walks, in order, as specified |
| `DecodeUnit.DecodeUnit.Fetch` | src/cpu/mod.rs:444-462 | one or two halfword reads, as specified |
| `Reservations.ReservationLinked` | src/cpu/exec.rs:473-493 | a live reservation goes back to the hart's own LR with nothing disturbing in between |
| `Reservations.SuccessfulSc` | src/cpu/exec.rs:494-512 | a successful SC has an LR since which no other hart stored to the granule and this hart took no trap, in every interleaving |
| `Reservations.ScOutcome` | src/cpu/exec.rs:494-512 | an SC stores its bytes, and only them, if and only if an LR to its address precedes it with nothing disturbing it in between; either way its reservation is gone |
| `Reservations.TouchesMeans` | src/cpu/mod.rs:383-395 | a store touches a granule exactly when it writes one of its bytes |
| `Reservations.ScSeesLrValue` | src/cpu/exec.rs:473-512 | with unchanged translation and no unwatched write, memory still holds the value the LR read |
| `Reservations.NoLostUpdates` | src/cpu/exec.rs:473-512 | a counter incremented only by LR/SC loops grows by exactly the number of successful SCs |
| `AtomicUnit.AtomicUnit.NoteStoreBy` | src/cpu/mod.rs:383-395 | the loop cancels exactly the other harts' reservations the store touches |
| `AtomicUnit.AtomicUnit.MemStore` | src/cpu/mod.rs:365-381 | a store writes its bytes and cancels reservations |
| `AtomicUnit.AtomicUnit.LoadReserved` | src/cpu/exec.rs:473-493 | LR returns memory and records the reservation |
| `AtomicUnit.AtomicUnit.StoreConditional` | src/cpu/exec.rs:494-512 | SC stores exactly when the reservation is held, and consumes it either way |
| `AtomicUnit.AtomicUnit.ClearReservation` | src/cpu/mod.rs:327-330 | clears one hart's reservation |
| `PlicSpec.WinnerUnique` | src/plic.rs:127-151 | highest priority with lowest number on ties determines one winner |
| `PlicSpec.NextValid` | src/plic.rs:82-180 | every event keeps each asserted source pending or in service, and pending within asserted |
| `PlicSpec.AlwaysValid` | src/plic.rs:82-180 | so every reachable state has it |
| `PlicSpec.ClaimsSeparated` | src/plic.rs:153-180 | in every run, two claims returning the same interrupt, from any contexts, have a completion of it between them |
| `PlicSpec.NeverLost` | src/plic.rs:114-180 | an asserted, enabled source above the threshold is in service, or the context is told of one that beats it |
| `PlicSpec.ReofferedOnComplete` | src/plic.rs:165-180 | completing re-offers a source exactly when its line is still up |
| `PlicSpec.WordReadsBack` | src/plic.rs:210-256 | an enable word reads back the bits written, and other words are untouched |
| `PlicMap.LineMeans` | src/plic.rs:82-98 | a line that rises or falls changes exactly its own source |
| `PlicMap.ClaimMeans` | src/plic.rs:153-163 | a claim moves exactly the winner from waiting to service |
| `PlicMap.CompleteMeans` | src/plic.rs:165-180 | a completion ends exactly that source's service |
| `PlicMap.PriorityAt` | src/plic.rs:194-244 | priorities are at four bytes a source from 0 |
| `PlicMap.PendingAt` | src/plic.rs:203-210 | pending bits are at 0x1000 and cannot be written |
| `PlicMap.EnableAt` | src/plic.rs:211-256 | enable bits of a context are at 0x2000 + 0x80 a context, bit by bit |
| `PlicMap.ContextAt` | src/plic.rs:219-271 | threshold and claim registers are at 0x200000 + 0x1000 a context |
| `PlicMap.NothingAt` | src/plic.rs:194-272 | every other word reads as zero and ignores writes |
| `Plic.Plic.constructor` | src/plic.rs:63-74 | two contexts a hart, all priorities zero, nothing pending |
| `Plic.Plic.SetPending` | src/plic.rs:82-98 | the line change as specified; the cache stays right though only real changes dirty it |
| `Plic.Plic.Scan` | src/plic.rs:127-151 | the loop finds the winner |
| `Plic.Plic.BestIrq` | src/plic.rs:114-123 | the cached answer is the winner of a fresh scan |
| `Plic.Plic.Update` | src/plic.rs:101-112 | the machine and supervisor lines are up exactly when some source is eligible for the context |
| `Plic.Plic.Claim` | src/plic.rs:153-163 | returns the winner and puts it in service |
| `Plic.Plic.Complete` | src/plic.rs:165-180 | ends service and re-offers as specified |
| `Plic.Plic.Load` | src/plic.rs:194-232 | register reads, with the fault for a wrong size; only the claim register has an effect |
| `Plic.Plic.Store` | src/plic.rs:234-272 | register writes, with the fault for a wrong size |
| `SnapshotDisk.Disk.Read` | src/virtio/blk.rs:124-157 | memory, persistent file and snapshot: reads see the flat disk, and fail exactly past the end of what backs it |
| `SnapshotDisk.Disk.Write` | src/virtio/blk.rs:159-209 | in all three modes writes change exactly the bytes written; a persistent file grows when written past its end; a snapshot never changes its image |
| `SnapshotDisk.Disk.Seed` | src/virtio/blk.rs:189-201 | a sector brought into the overlay keeps its bytes, even a short last one |
| `Virtqueue.Waiting` | src/virtio/mod.rs:256-268 | the device sees exactly the chains published and not yet completed |
| `Virtqueue.PushPublishes` | src/virtio/mod.rs:294-307 | the new used entry is the pair pushed and the index moves by one, wrapping |
| `Virtqueue.PushOffDriver` | src/virtio/mod.rs:294-307 | nothing outside the used ring changes |
| `Virtqueue.CompleteOne` | src/virtio/mod.rs:256-307 | one request served keeps both rings in order with one more chain completed |
| `Virtqueue.DriverKeepsRing` | src/virtio/mod.rs:256-307 | a driver that publishes within the ring and leaves the device's side alone keeps them in order |
| `VirtioLayout.DescriptorLayout` | src/virtio/mod.rs:270-288 | address, length, flags and next of a descriptor, at their bytes |
| `VirtioLayout.RingLayout` | src/virtio/mod.rs:256-307 | indices and entries of both rings, at their bytes |
| `VirtioLayout.ChainIs` | src/virtio/mod.rs:270-291 | a chain is the buffers of descriptors that name one another, up to one that does not go on or is off the table |
| `VirtioBlkSpec.BoundsCheck` | src/virtio/blk.rs:258-267 | the overflow-free comparisons accept exactly the transfers that lie on the disk |
| `VirtioBlkSpec.GatherScatter` | src/virtio/blk.rs:269-299 | bytes laid over disjoint buffers are read back in order |
| `VirtioBlkSpec.ReadDelivers` | src/virtio/blk.rs:244-305 | after a read the concatenated buffers, as far as they lie in RAM, hold exactly the disk's bytes from sector * 512 |
| `VirtioLayout.ParseMeans` | src/virtio/blk.rs:220-244 | which chains are requests, and where their kind and sector are |
| `VirtioLayout.WriteDelivers` | src/virtio/blk.rs:249-324 | after a write the disk holds the buffers' bytes, as far as they lie in RAM, from sector * 512, and is unchanged elsewhere; only the status byte of memory changes |
| `VirtioLayout.ReadReports` | src/virtio/blk.rs:249-324 | a read leaves the disk alone, answers 0 or 1 and reports the buffers filled whole |
| `VirtioLayout.OtherRequests` | src/virtio/blk.rs:249-324 | misdirected or overlong transfers, flushes and unknown kinds change only the status byte, to 1, 0 and 2 |
| `VirtioLayout.Identifies` | src/virtio/blk.rs:305-318 | identification puts the device's name in the first buffer |
| `VirtioLayout.MovedMeans` | src/virtio/blk.rs:269-299 | a transfer moves the buffers before the first that is not all in RAM |
| `VirtioLayout.ReachedMeans` | src/virtio/blk.rs:278-296 | of that one, the whole chunks of 65536 bytes before the end of RAM |
| `VirtioBlk.Core.PopChain` | src/virtio/mod.rs:256-291 | takes the next head and its chain, or nothing when none waits |
| `VirtioBlk.Core.Walk` | src/virtio/mod.rs:271-289 | the loop over descriptors collects the specified chain |
| `VirtioBlk.Core.PushUsed` | src/virtio/mod.rs:294-307 | publishes as specified |
| `VirtioBlk.Core.SignalUsed` | src/virtio/mod.rs:310-319 | interrupts unless the driver asked not to be |
| `VirtioBlk.VirtioBlk.Fill` | src/virtio/blk.rs:269-299 | chunked copying to the buffers is one scatter over what lies in RAM; it succeeds exactly when all of them do, and reports the buffers filled whole |
| `VirtioBlk.VirtioBlk.Drain` | src/virtio/blk.rs:269-299 | chunked copying from the buffers is one patch of the disk with their concatenation, as far as they lie in RAM |
| `VirtioBlk.VirtioBlk.FillSegment` | src/virtio/blk.rs:279-296 | of one buffer, all of it or exactly the whole chunks before the end of RAM are filled |
| `VirtioBlk.VirtioBlk.DrainSegment` | src/virtio/blk.rs:279-296 | of one buffer, all of it or exactly the whole chunks before the end of RAM reach the disk |
| `VirtioBlk.VirtioBlk.ProcessRequest` | src/virtio/blk.rs:220-325 | every chain is completed; memory, disk, status and reported length are exactly those of the specified request, failing ones included |
| `VirtioBlk.VirtioBlk.Service` | src/virtio/blk.rs:330-345 | a pass completes waiting chains in order, each once, carrying out each request; at least one if any waits; all of them if no backlog is left; it stops at eight requests or the first to make a megabyte; one interrupt unless suppressed |
| `VirtioBlk.VirtioBlk.Notify` | src/virtio/blk.rs:388-390 | the doorbell is such a pass |
| `VirtioBlk.VirtioBlk.Poll` | src/virtio/blk.rs:392-396 | while there is a backlog each poll makes progress, and when it is gone nothing waits |
| `TcpSpec.SeqOrder` | src/net/usernet.rs:98-104 | wrapping comparison is the order of positions within half the number space |
| `TcpMeaning.SeqSigned` | src/net/usernet.rs:98-104 | for all numbers the comparisons are the sign of the wrapped difference, read as 32-bit signed |
| `TcpSpec.AckShrinksFlight` | src/net/usernet.rs:764-770 | an accepted acknowledgement never leaves more in flight if and only if it is not the one 2^31 ahead of an idle flow |
| `TcpSpec.FlightCanJump` | src/net/usernet.rs:764-770 | that acknowledgement takes in-flight data past 65535 |
| `TcpSpec.SliceTaken` | src/net/usernet.rs:776-797 | of a slice of the stream that brings the next wanted byte, with room for it, exactly the part from that byte on is taken; of any other nothing |
| `TcpSpec.SliceFin` | src/net/usernet.rs:799-803 | a FIN is recognised exactly when everything before it has arrived |
| `TcpSpec.StreamTakes` | src/net/usernet.rs:776-797 | taking a slice keeps accepted and held bytes a prefix of the stream ending at rcv_nxt |
| `TcpSpec.WireGrows` | src/net/usernet.rs:272-275 | each segment sent keeps sequence numbers contiguous, at most one FIN after all data, data within the guest's window, and the right window edge from moving left |
| `TcpSpec.EdgeKept` | src/net/usernet.rs:302-305 | neither taking bytes nor passing them on moves the window's right edge left |
| `TcpMeaning.AcceptableMeans` | src/net/usernet.rs:764-766 | an acknowledgement is accepted exactly between what is acknowledged and what is sent |
| `TcpMeaning.WindowMeans` | src/net/usernet.rs:302-305 | the window is all of the room there is, up to 65535 |
| `TcpMeaning.DrainedMeans` | src/net/usernet.rs:860-880 | the host gets as much as it takes before it first takes nothing; the flow breaks exactly at an error with something left |
| `TcpMeaning.HandoversMeans` | src/net/usernet.rs:860-876 | the guest is told of room as often as the host takes something |
| `TcpMeaning.ReadMeans` | src/net/usernet.rs:894-918 | a read passes on as much as socket, window, segment size and host allow, all of one of them |
| `TcpMeaning.ReadsStop` | src/net/usernet.rs:886-920 | when a round of reads stops, and when it ends closed or broken |
| `TcpFlow.TcpFlow.constructor` | src/net/usernet.rs:717-742 | a flow starts with everything in order for any stream |
| `TcpFlow.TcpFlow.HandleSegment` | src/net/usernet.rs:650-809 | a segment from the guest keeps all of it; on an established flow a slice that brings the next byte is held from there on and the next byte wanted is the one after it, a FIN is noted exactly when nothing before it is missing, and the acknowledgement says so |
| `TcpFlow.TcpFlow.TakeAck` | src/net/usernet.rs:759-771 | handshake completion, acknowledgement and window update |
| `TcpFlow.TcpFlow.Deliver` | src/net/usernet.rs:860-876 | the host gets the front of what is held, in order, as much as it takes, and the guest an acknowledgement for each part |
| `TcpFlow.TcpFlow.Forward` | src/net/usernet.rs:886-920 | the guest gets the next bytes of the host, in order, never beyond its window |
| `TcpFlow.TcpFlow.PumpOpen` | src/net/usernet.rs:860-928 | a round of an established flow: how much moves each way, when the host's side is shut, when a reset goes out, and exactly when the flow is over |
| `TcpFlow.TcpFlow.Pump` | src/net/usernet.rs:812-939 | a round for one flow in any state keeps all of it, an established one moving and ending exactly as PumpOpen says; the host's side is shut only after the whole stream |
| `Clock.TicksAdd` | src/clint.rs:92-101 | tick(a) then tick(b) is tick(a+b) |
| `Clock.TickConserves` | src/clint.rs:92-101 | mtime * divisor + subtick grows by exactly the instructions ticked |
| `Clock.NowMoves` | src/clint.rs:72-74 | reads within a round never go back, and the tick for the longest turn covers them |
| `Clock.Clock.Tick` | src/clint.rs:92-101 | in place as specified |
| `Clock.Clock.AdvanceTo` | src/clint.rs:106-111 | forward, never back |
| `Hsm.GrantedStartIsKept` | src/sbi.rs:220-233 | after a granted start the target's next own doing is to begin with that call's arguments; starts meanwhile are refused |
| `Hsm.BeginHasCall` | src/cpu/mod.rs:257-307 | every beginning answers exactly one granted start |
| `Hsm.OneBeginPerGrant` | src/cpu/mod.rs:257-307 | between two beginnings of a hart lies another granted start |
| `HartControl.ActedAgrees` | src/cpu/mod.rs:498-552 | every step of a started hart keeps all harts' flags and the history of calls together |
| `HartControl.ActedKeeps` | src/sbi.rs:164-240 | no step loses or changes a start waiting for another hart |
| `HartControl.EmptiedAgrees` | src/cpu/mod.rs:257-307 | emptying a mailbox keeps them together, a waiting start being a beginning |
| `HartControl.EmptiedMeans` | src/cpu/mod.rs:257-307 | field by field: a start brings the hart up at the call's address, with its own number in a0 and the call's argument in a1, in supervisor mode without translation, interrupts or reservation; an IPI raises SSIP; a fence drops the caches; nothing is left waiting |
| `HartControl.ActedEnters` | src/cpu/mod.rs:498-552 | in every history the first step of a hart after a beginning is from the registers that call asked for |
| `SbiMeaning.SentOther` | src/sbi.rs:164-217 | a signal is in the mailbox of exactly the other harts listed |
| `SbiMeaning.SentSelf` | src/sbi.rs:164-217 | the sender takes it at once |
| `SbiMeaning.OthersMean` | src/sbi.rs:164-240 | what a step does to other harts: a start posted to a stopped one, a signal, or nothing |
| `SbiMeaning.OwnMeans` | src/cpu/mod.rs:498-552 | what it does to its own |
| `SbiMeaning.AnswerMeans` | src/sbi.rs:50-53 | what calls answer: 0, -3 for a hart that does not exist, -6 for one already started |
| `HartControl.RoundDelivers` | src/platform.rs:374-427 | if the starts waiting when a round began have begun, every start granted before it has been answered |
| `Platform.Platform.ApplyMailbox` | src/cpu/mod.rs:257-307 | all of the mailbox is taken, and a beginning is recorded exactly when a start was waiting: the hart then has the registers that call asked for |
| `Platform.Platform.Runnable` | src/cpu/mod.rs:278-290 | exactly a started hart may run, and a waiting one exactly when an enabled interrupt is pending, which ends the wait |
| `Platform.Platform.Start` | src/sbi.rs:220-233 | hart_start is granted exactly to a stopped hart |
| `Platform.Platform.SendAll` | src/sbi.rs:164-217 | an IPI or fence reaches every listed hart, at once or by mailbox, or none if one does not exist |
| `Platform.Platform.StepCore` | src/cpu/mod.rs:498-552 | a step by a started hart leaves all harts, the history and the world exactly as specified, hart_start, hart_stop and signals included, and the time it reads is not earlier than before |
| `Platform.Platform.RunCore` | src/cpu/mod.rs:576-604 | at most the asked steps, at least one unless it waits or faults, and progress whenever a device was touched |
| `Platform.Platform.RunQuantum` | src/platform.rs:382-422 | at most a quantum of steps within the budget, at least one exactly unless the quantum is zero, and no waiting start lost |
| `Platform.Platform.TakeTurn` | src/platform.rs:374-422 | one hart's turn begins the start waiting for it, and leaves those waiting for later harts |
| `Platform.Platform.Round` | src/platform.rs:374-427 | each hart able to run at its turn executes at least one and at most quantum steps; every start waiting for a hart whose turn came has begun; the round retires something exactly if some hart could run and the quantum is not zero |
| `Platform.Platform.RoundAndTick` | src/platform.rs:374-432 | the clock moves by the longest turn of the round, not the sum, and then no hart has been shown a later time; after a whole round every start granted before it has begun |
| `Platform.Platform.FastForwardIdle` | src/platform.rs:330-360 | jumps to the least deadline of an unparked hart inside the horizon, or nowhere when there is none |
| `Platform.Platform.Idle` | src/platform.rs:433-475 | an idle round ticks for device work or input, else moves the clock to the least deadline, else counts towards the stall unless input is awaited |
| `Platform.Platform.Run` | src/platform.rs:365-485 | always terminates, never retires past the budget, keeps every hart's history legal, shows no hart a time earlier than one it has seen; between rounds every hart executes at most a quantum and every start granted before one is answered by its end; every hart's first step after a beginning is from the registers its call asked for; the outcome says which condition ended it |
| `SbiTargets.Targets` | src/sbi.rs:78-97 | selects exactly the named harts, each once, and refuses masks naming one that does not exist |
| `FdtSpec.CStringReads` | src/fdt.rs:113-118 | a NUL-terminated name is read back |
| `FdtSpec.BalancedBuilds` | src/fdt.rs:113-122 | every balanced sequence of calls builds a tree |
| `FdtSpec.ParseBack` | src/fdt.rs:113-187 | the tokens of a tree followed by an end token parse to that tree |
| `FdtBuilder.BlobLaid` | src/fdt.rs:189-220 | the header's offsets and sizes are where the blocks are |
| `FdtBytes.Be4Means` | src/fdt.rs:74-76 | numbers are big-endian |
| `FdtBytes.TokenBytes` | src/fdt.rs:113-131 | magic number, tokens and padding, byte by byte |
| `FdtBytes.CellsMean` | src/fdt.rs:173-178 | cells are four bytes each, in order |
| `FdtBytes.StringListMeans` | src/fdt.rs:157-165 | string lists hold their strings one after another |
| `FdtBuilder.RoundTrip` | src/fdt.rs:189-220 | the blob of a tree parses back to exactly that tree |
| `FdtBuilder.Builder.Intern` | src/fdt.rs:97-111 | the offset names the string, found in place even as the end of another, or added |
| `FdtBuilder.Builder.PadTo4` | src/fdt.rs:82-86 | zeros up to a multiple of four |
| `FdtBuilder.Builder.BeginNode` | src/fdt.rs:113-118 | one more begin token |
| `FdtBuilder.Builder.EndNode` | src/fdt.rs:120-122 | one more end token |
| `FdtBuilder.Builder.PropEmpty` | src/fdt.rs:133-135 | one more property, without value |
| `FdtBuilder.Builder.PropU32` | src/fdt.rs:137-140 | one more property, a 32-bit number |
| `FdtBuilder.Builder.PropU64` | src/fdt.rs:142-145 | one more property, a 64-bit number |
| `FdtBuilder.Builder.PropString` | src/fdt.rs:147-152 | one more property, a string with its NUL |
| `FdtBuilder.Builder.PropStringList` | src/fdt.rs:157-165 | one more property, the strings back to back |
| `FdtBuilder.Builder.PropBytes` | src/fdt.rs:167-171 | one more property, raw bytes |
| `FdtBuilder.Builder.PropCells` | src/fdt.rs:173-178 | one more property, 32-bit cells |
| `FdtBuilder.Builder.PropReg` | src/fdt.rs:183-187 | one more property, an address and a size |
| `FdtBuilder.Builder.Finish` | src/fdt.rs:189-220 | for every balanced sequence of calls with NUL-free names and a blob below 2^32 bytes, parsing gives back the tree |

## Left out

- Instruction decoding, the integer ALU and most of `src/cpu/exec.rs`: single-branch facts about small encodings.
- `src/main.rs`, `src/uart.rs`, `src/rtc.rs`, `src/net/hostnet.rs`: host input and output.
- `src/gdb.rs` and runs of the scheduler under a debugger hook, which return in mid-round without ticking the clock.
- CSR fields beyond satp, the mstatus bits translation uses and interrupt enables; privilege is machine, supervisor or user.
- Page tables, instruction fetches and stores in device memory: tables and code are RAM. The MMU model's RAM is a whole number of 8-byte words.
- Writes to page tables other than accessed and dirty bits: the guest must fence after them, and runs are stated for those that leave the tables of live mappings alone.
- The 32-bit page numbers kept by the decode cache's list of marked pages, which would wrap only beyond 16 TiB of RAM.
- DMA and page-walker writes against reservations: the code cancels reservations only for stores by harts, so the LR/SC results say where such writes are excluded.
- Disk: host file errors, and flushing the persistent file to the host's disk.
- The virtio transport's registers, feature negotiation and reset; virtio-net and virtio-rng with their `read_from_segments` and `write_to_segments`. The model's device has the one queue a block device has.
- ARP, DHCP, ICMP, UDP, checksums, and the table of flows: one TCP flow is modelled, and a segment and the pump that follows it are two calls.
- Clock: `mtime` does not wrap at 2^64; guest writes to `mtime` are not modelled.
- Platform: `check_stop`, device polling and interrupt delivery are answers from outside; SBI calls other than hart_start, hart_stop, IPIs and remote fences are not modelled. What a fence drops is in the models of the TLB and the decode cache; here fences are counted.
- The concrete tree built by `build` in `src/fdt.rs`.
