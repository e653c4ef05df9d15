# Hailo driver: verified model of the vDMA engine and the device-loading code

A Dafny 4.11 model of the hardest parts of the Hailo kernel driver, with machine-checked proofs. `dafny verify
dfyconfig.toml` checks everything.

## What is modelled

**The vDMA channel engine** (`common/vdma_common.c`, driven by `linux/vdma/`). Scatter-gather buffers become hardware
descriptors on a circular list; transfers wait in a 128-slot ring; a wrapping hardware counter says which are complete;
an interrupt bitmap connects the interrupt handler with waiters.

- `Descriptors`, `DescriptorLists`: the descriptor list as a value, and the routines that program it in place.
- `Binding`, `Programming`: what programmed descriptors mean (the memory they name), and that binding keeps it.
- `FastPath`, `Requests`, `Batches`: programming only the last descriptor against a full rebind; several buffers one behind
  the other; batches.
- `Transfers`: the ring of transfers in flight.
- `ChannelModel`, `Channels`: a channel as a value, and the class that updates it in place.
- `Geometry`, `Launches`: where transfers lie on the list, what a launch returns and queues, and what launches and
  completions do to the geometry.
- `LaunchWords`, `DirtyDescriptors`, `LaunchExamples`: the descriptors a launch leaves, word by word, and exactly when every
  control word that is not the default is on the list of a transfer in flight.
- `Integrity`: the descriptors of a transfer in flight name the bytes of its buffers as long as nothing writes over them.
- `ChannelRuns`, `EngineRuns`: the state machine of a whole engine (hardware progress, interrupts, waits, launches,
  enabling, disabling, in every interleaving) and the properties of all its reachable states.
- `RunExamples`: a transfer from launch to completion, as such a run.
- `Ownership`: which open file owns which enabled channels.

**Device access and loading.**

- `Mmio`, `Resources`: byte and buffer accesses built on aligned 32-bit reads and writes (`common/hailo_resource.c`).
- `DeviceMemory`: copies through the 4 KiB window positioned by the address translation table (`common/pcie_common.c`).
- `FirmwareLog`: the log ring shared with the firmware (`common/fw_operation.c`).
- `FirmwareImage`, `FirmwareLoad`: image validation and writing an accepted image to the device.
- `BootSplit`, `Boards`: boot files over eight channels, and board indices (`linux/pcie/src/pcie.c`).
- `Bits`, `Cyclic`, `Results`: machine words, masks and powers of two; positions around a ring; error codes.

In-place code is modelled in place: classes for descriptor lists, rings, channels, controllers, regions, the bridge, the
boot state and the board list, with loops where the source loops. Each such method is tied to a function on values, and the
properties are proved of that function.

## Reading the model

- u8, u16 and u32 are naturals; wrap-around and truncation are written out (`U32`, `S32`, `% TWO_16`) where the code relies
  on them or can reach them. `FitsU32` names the buffer sizes for which no u32 sum of the programming code wraps.
- Bitmaps of channels are sets of channel numbers; bit tricks on counters, masks and register fields are modelled bit by bit
  (`Bits.And`, `Bits.Or`).
- `List.Valid` is a list that creation accepts, with a page size above zero and at most 64K descriptors: the counters are u16.
- A launch that the driver accepts although it cannot be programmed, and other departures, are kept as the code has them;
  see "Where the code departs from what it promises".
- The length of a transfer is what it records: from its first descriptor to its last. A launch records the number of
  descriptors it programmed exactly when they go round the list at most once (`Launches.LengthRecorded`).
- Runs of an engine admit every launch that starts inside its list, whatever it does, and a list being reprogrammed while
  attached. Conservation holds over all of them.
  Geometry, exact completion and no lost completion hold of a channel while its launches are `Sound`: refused, or with buffers
  that can be programmed, wherever the pieces of their tables end, and then failing on a full ring or leaving a descriptor free.
  Tracking of control words needs launches that are tidy as well (`LeavesNone`), and integrity of what is in flight launches
  that fit into the free descriptors (`LeavesAlone`); both need the list not to be reprogrammed. These are history fields of a
  channel, each condition can be checked before the launch, and `EngineRuns.SoundRunKeeps` ties them to the steps of a run.
- The hardware is the environment: it processes descriptors in order and never beyond what was made available, its counter
  shows the number processed modulo the list (or the descriptor count in place of zero), and it restarts at zero when a list
  is attached (`common/vdma_common.h:114-115`). An attached list belongs to one channel.
- The board mutex serialises the ioctls: a waiter holds it from clearing interrupt bits to the end of the completion pass
  (`linux/vdma/ioctl.c:160-180`), a disable from resetting channels to clearing their bits. Between those two steps only the
  hardware and the interrupt handler act.

## Where the code departs from what it promises

Each has an exact condition or an exact description for all inputs.

- A completely filled list reads as completed at once: completion is exact if and only if a descriptor is free
  (`Geometry.ExactIffNotFull`); launch does not check this, and keeps the geometry if and only if one stays free
  (`Launches.LaunchGeometric`).
- Launch ignores programming errors: they are added into the count. A bound request returns the number of its descriptors if
  and only if every buffer can be bound; either way one transfer is queued and num_avail moves by the sum
  (`Launches.LaunchReturns`). A single bad buffer shows as its error (`Launches.UnboundLaunch`), but a bad buffer beside a
  longer good one shows as a positive count (`Launches.HiddenError`).
- A request without buffers is queued, and num_avail becomes 0 (`Launches.LaunchWithoutBuffers`).
- A launch returns ECONNRESET if and only if the channel is not active or the errors of its buffers happen to add up to that
  code (`Launches.ResetIff`; `LaunchExamples.ErrorsLookLikeReset` has such buffers).
- Only 16 bits of the starting descriptor are compared: a request that passes the checks starts inside the list if and only if
  its starting descriptor is below 65536 (`Launches.StartsInside`); beyond that the launch writes outside the list.
- With a full ring the launch fails after it has programmed the descriptors. Every unusual control word is still listed if and
  only if the request has whole pages, no interrupts, and, when bound, pieces that end on page boundaries
  (`DirtyDescriptors.FullRingLaunch`; `LaunchExamples.FullRingLosesTrack` is an input where it is not).
- A launch that fails on a full ring may also have written over descriptors in flight. It leaves them alone if and only if what
  it programs past the free descriptors was there before, and so always if the request fits (`Integrity.FullRingLeavesAlone`).
- A debug request without buffers leaves the completion loop a descriptor to look up that does not exist, unless the list has
  64K of them (`Launches.LaunchInBounds`).
- An accepted launch lists every control word it makes unusual if and only if the pieces of its tables but the last of each
  buffer end on page boundaries; a first piece shorter than a page does no harm (`DirtyDescriptors.LaunchLists`;
  `LaunchExamples.ResidueIsNotListed` is an input where it does not).
- A launch refused for naming another list has already replaced the counter mask; that is harmless if and only if both lists
  have the same length (`Launches.OtherListKeeps`).
- Only the last descriptor of a bound buffer has a control word of its own, and the fast path equals a rebind, if and only if
  every piece of the table but the last ends on a page boundary (`FastPath.ResidueOnlyAtTheEnd`, `FastPath.FastPathIsRebind`).
- Descriptors keep no address bits below 64: a bound buffer is named exactly if and only if all its descriptors are aligned,
  which takes aligned pieces and, for pieces longer than a page, pages of a multiple of 64 bytes (`Programming.BindMeaning`).
- A batch moves on by the descriptors a transfer took, not by its pages. It takes the documented number of descriptors if and
  only if the pieces of every transfer take ceil(size / page) of them (`Batches.BatchTotal`), and is laid out as documented if
  and only if, besides, pieces but the last end on page boundaries and descriptors are aligned (`Batches.BatchPattern`).
  `Batches.UnevenBatch` is a batch that fits and takes 7 descriptors in place of 6.
- Binding an empty buffer sets interrupt bits in the descriptor in front (`Programming.EmptyBufferTouchesPrevious`).
- List creation accepts a page size of zero (`DescriptorLists.CreateList`).
- `write_memory` and `read_memory` take the upper half off the first window address: the accesses are the requested range if
  and only if the address is below 2^32 (`DeviceMemory.PlanIsTheRange`). They restore the translation address of the ATR
  entry, not its other fields (`DeviceMemory.Bridge.WriteMemory`).
- A boot channel raises its interrupt if and only if it takes the last chunk of a last file that is not empty, or is filled
  and no file ends on its last descriptor with part of a page (`BootSplit.ChannelInterruptIff`;
  `BootSplit.PartialPageIsSilent` has file sizes that leave a full channel silent).
- Behind 8 * 65535 boot descriptors the next chunk goes to channel 8, which does not exist
  (`BootSplit.BootState.NextIfFull`).
- With a stride, the descriptors name the first bytes of every page of the buffer if and only if they are aligned and all pieces
  of the table end on page boundaries (`Programming.BindMeaningStrided`).
- Contexts may disable channels of others; the ownership bitmaps stay exact if and only if they do not
  (`Ownership.DisableKeepsExact`).

## Model

| member | source | states |
|---|---|---|
| Bits.NearestPowerOf2 | common/driver_utils.h:45-56 | returns the least power of two that is at least the argument, and the error value exactly above 2^31 |
| Bits.IsPowerOf2Exact | common/driver_utils.h:30-33 | the bit trick accepts zero and the powers of two, and nothing else |
| Bits.DivUpIsQuotient | common/driver_utils.h:58-60 | counting pages one by one is the rounded-up quotient of the macro |
| DescriptorLists.CreateList | linux/vdma/memory.c:395-431 | which requests are accepted, and that every accepted non-empty list has a mask one below a power of two, equal to the count on a circular list |
| DescriptorLists.MaskIsPosition | common/vdma_common.h:44-50 | masking an index is the remainder modulo the count on a circular list, and the identity below the count on any list |
| DescriptorLists.ProgramChunk | common/vdma_common.c:154-201 | writes exactly the chunk's descriptors at consecutive cyclic positions, or refuses and writes nothing when they pass the limit |
| DescriptorLists.ProgramWalk | common/vdma_common.c:267-311 | the walk over the table programs the longest run of chunks that fits, each once and in order, and reports too little room or too little data |
| DescriptorLists.BindAndProgram | common/vdma_common.c:225-317 | return value and complete new list, on every success and error path, agree with the specification whose meaning `Programming` proves |
| DescriptorLists.ProgramLastDesc | common/vdma_common.c:319-336 | return value and complete new list of the fast path |
| DescriptorLists.ProgramList | common/vdma_common.c:338-354 | either path, as selected |
| DescriptorLists.ProgramBatch | common/vdma_common.c:356-398 | return value and complete new list after a batch, stopping at the first error |
| Binding.ChunksAreTheBytes | common/vdma_common.c:267-306 | the chunks, laid end to end, are bytes [offset, offset + size) of the table if it holds them, and fewer bytes otherwise |
| Binding.ProgrammedBytes | common/vdma_common.c:139-147 | a programmed descriptor decodes to exactly its memory if and only if the address is 64-byte aligned |
| Binding.ChunkMeaning | common/vdma_common.c:183-200 | the descriptors of a chunk decode to the first `stride` bytes of each page, a final partial page whole, if and only if they are aligned |
| Programming.BindMeaning | common/vdma_common.c:225-317 | binding succeeds exactly when offset, position, table and room allow it; then the descriptors decode to exactly the requested bytes in order if and only if all of them are 64-byte aligned, and all others are unchanged |
| Programming.BindMeaningStrided | common/vdma_common.c:252-260 | with a stride, the descriptors decode to the first `stride` bytes of every page of every piece if and only if they are aligned, and to those of every page of the buffer if and only if all pieces end on page boundaries as well |
| Binding.ProgrammedFields | common/vdma_common.c:139-147 | a programmed descriptor has no status, the data id in its low address bits, and control byte 2 |
| Requests.BindFields | common/vdma_common.c:225-317 | so has every descriptor of a bound buffer on the list, with interrupt bits added to the last one |
| Requests.TaggedAddress | common/vdma_common.c:183 | a channel tag above the address bits is added to the address of every descriptor |
| Requests.BindRefuses | common/vdma_common.c:244-260 | binding is refused, and the list left alone, exactly for a bad offset, position or stride |
| Requests.FailedBind | common/vdma_common.c:288-311 | a bind that runs out of room or of table has programmed exactly the pieces in front that fit |
| Requests.FittingIsLongest | common/vdma_common.c:173-180 | those are the longest run of pieces that fits |
| Programming.EmptyBufferTouchesPrevious | common/vdma_common.c:308-316 | what binding an empty buffer does instead |
| Programming.PcieInterruptBits | common/vdma_common.c:203-223 | the interrupt bits for every domain on the PCIe hardware parameters |
| FastPath.ResidueOnlyAtTheEnd | common/vdma_common.c:194-198 | only the last descriptor gets a control word of its own if and only if all pieces but the last end on page boundaries |
| FastPath.PagedCount | common/vdma_common.c:327-334 | then the descriptors count the pages of the buffer and the last one carries the last page |
| FastPath.FastPathIsRebind | common/vdma_common.h:175-176 | on a bound list, the fast path gives the same addresses, control words and count as a rebind, if and only if pieces end on page boundaries |
| Batches.BatchTotal | common/vdma_common.c:356-398 | a batch that fits returns batch * ceil(size / page) if and only if the pieces of every documented transfer take ceil(size / page) descriptors, for any stride and on circular and straight lists |
| Batches.BatchPart | common/vdma_common.c:376-395 | then the k-th transfer, at offset + k * ceil(size / page) * page, is programmed on the k-th part of the descriptors, only the final one with interrupt bits |
| Batches.BatchLeaves | common/vdma_common.c:356-398 | then no other descriptor is touched |
| Batches.BatchNames | common/hailo_ioctl_common.h:162-183 | then the k-th part names the documented bytes, strided or not, if and only if its descriptors are aligned |
| Batches.BatchPattern | common/hailo_ioctl_common.h:162-183 | the batch is laid out as documented, sizes and interrupts included, if and only if all pieces of every transfer but the last end on page boundaries and descriptors are aligned |
| Batches.FastBatch | common/vdma_common.c:356-398 | without binding, the total is always as documented and only the last control word of every transfer changes |
| Batches.UnevenBatch | common/vdma_common.c:389-395 | a batch whose documented 6 descriptors fit and that takes 7 |
| Transfers.CircIs | common/vdma_common.c:62-65 | the masked unsigned differences are the occupied and the free slots, one slot always staying free |
| Transfers.TransferRing.Push | common/vdma_common.c:72-87 | appends to the queue unless 127 transfers are in it |
| Transfers.TransferRing.Pop | common/vdma_common.c:89-102 | takes the oldest off the queue, if there is one |
| Transfers.TransferRing.Count | common/vdma_common.c:64-65 | the length of the queue |
| ChannelModel.DoneIsPrefix | common/vdma_common.c:765-784 | the loop retires a prefix of the transfers in flight and leaves the rest |
| ChannelModel.ActiveIsOdd | common/vdma_common.c:402-405 | a channel is active exactly while the lowest bit of its control register is set |
| ChannelModel.StatusIs | common/vdma_common.c:121-137 | a status is good exactly if the done bit is set and the error bit is not |
| ChannelModel.ReportIs | common/vdma_common.c:798-805 | the reported byte is 0xFF exactly for an even control register, 0xFE exactly if a transfer that left the ring failed its status check, and otherwise the number of transfers that left, at most 127 |
| Geometry.CounterReads | common/vdma_common.c:756-763 | a counter showing the descriptor count in place of zero is masked to zero, every other value to itself |
| Geometry.CompleteIffProcessed | common/vdma_common.c:710-734 | the completion test holds of the oldest transfer exactly when all its descriptors are processed |
| Geometry.ProcessedIsLongest | common/vdma_common.c:765-784 | the number of completed transfers is that of the longest prefix that lies in the processed descriptors |
| Geometry.ExactCompletion | common/vdma_common.c:743-784 | for every counter in the window the loop retires precisely that prefix, and keeps the geometry |
| Geometry.ReportsTheLongest | common/vdma_common.c:743-805 | on an active channel without errors the byte is the length of the longest prefix of transfers that lies in the processed descriptors |
| Geometry.ExactIffNotFull | common/vdma_common.c:726-734 | exactness for all counters holds if and only if the list is not full |
| Geometry.IntervalsConsecutive | common/vdma_common.c:487-518 | the intervals the transfers record start at num_proc, follow one another, and end at num_avail |
| Geometry.IntervalsDisjoint | common/vdma_common.c:487-518 | no descriptor belongs to two transfers in flight |
| Launches.LaunchChecks | common/vdma_common.c:458-483 | which check fails with which error, from the registers alone, and that a refused launch changes nothing but the attachment |
| Launches.ResetIff | common/vdma_common.c:407-425 | ECONNRESET is returned if and only if the control register is even, or the buffers' errors add up to it |
| Launches.LaunchReturns | common/vdma_common.c:490-520 | whatever its buffers, a request that passes the checks queues one transfer, moves num_avail by the sum of what programming returned and returns that sum; bound, it is the number of descriptors if and only if every buffer can be bound |
| Launches.UnboundLaunch | common/vdma_common.c:490-520 | a single buffer that cannot be bound: its error is returned, the transfer is queued, num_avail moves back by the error code |
| Launches.HiddenError | common/vdma_common.c:490-520 | a misaligned buffer in front of a good one: the count of the good one less 22 is returned |
| Launches.StartsInside | common/vdma_common.c:474-478 | a request that passes the checks starts inside the list if and only if its starting descriptor is below 65536 |
| Launches.LaunchQueues | common/vdma_common.c:487-520 | an accepted launch queues one transfer on the descriptors from num_avail on, as many as the pieces of its tables take, wherever they end, and returns their number |
| Launches.LengthRecorded | common/vdma_common.c:497-510 | the recorded interval has that length if and only if the descriptors go round the list at most once |
| Launches.LaunchGeometric | common/vdma_common.c:438-521 | it keeps the channel geometry if and only if a descriptor stays free, and leaves a full list consecutive with num_avail at num_proc |
| Launches.LaunchWithoutBuffers | common/vdma_common.c:490-517 | a launch without buffers resets num_avail to zero, and exactly when the geometry survives it |
| Launches.OtherListKeeps | common/vdma_common.c:458-467 | a refused launch on another list keeps the geometry if and only if the lists have equal length |
| Launches.LaunchInBounds | common/vdma_common.c:121-137 | every launch leaves the completion loop existing descriptors to look up, but for a debug request without buffers on a list of less than 64K |
| LaunchWords.LaunchInterrupts | common/vdma_common.c:490-506 | a bound launch requests interrupts at its first and at its last descriptor, as told, and nowhere in between |
| Integrity.LaunchClearsStatus | common/vdma_common.c:139-147 | a bound launch clears the status of all descriptors of its transfer |
| Integrity.UnwrittenStatusIsAnError | common/vdma_common.c:771-804 | so a debug transfer whose status the hardware never wrote is reported as an error |
| Integrity.LaunchDecodes | common/vdma_common.c:490-503 | the transfer a bound launch queues names exactly the bytes of its buffers, one behind the other, if and only if its descriptors are aligned |
| Integrity.ReapIntact | common/vdma_common.c:765-784 | completing transfers leaves those still in flight naming their bytes |
| Integrity.LaunchIntact | common/vdma_common.c:487-520 | so does a launch on free descriptors, and the new transfer names its own |
| Integrity.FullRingLeavesAlone | common/vdma_common.c:505-514 | a launch on a full ring leaves the descriptors in flight alone if and only if what it programs past the free ones was there before |
| LaunchWords.LaunchWrites | common/vdma_common.c:490-514 | the complete list a launch leaves, the same whether the transfer is then queued or refused by a full ring |
| LaunchWords.BoundInsideFirst | common/vdma_common.c:194-198 | which bound buffers leave the default control word everywhere but where the transfer lists it |
| DirtyDescriptors.LaunchTracked | common/vdma_common.c:487-508 | a launch of tidy buffers lists every descriptor it gives a control word of its own |
| DirtyDescriptors.LaunchLists | common/vdma_common.c:487-508 | after an accepted launch every unusual control word is listed if and only if the buffers are tidy and the words it keeps were listed |
| DirtyDescriptors.FullRingLaunch | common/vdma_common.c:505-514 | on a full ring the launch fails with the descriptors programmed; every unusual control word is still listed if and only if the request is plain and the words it keeps were listed |
| DirtyDescriptors.FullRingTracked | common/vdma_common.c:505-514 | a plain request on a full ring keeps the tracking, whatever control words the list came with |
| LaunchExamples.ResidueIsNotListed | common/vdma_common.c:194-198 | an accepted launch with pieces of 96 bytes that leaves a control word nobody lists |
| LaunchExamples.ErrorsLookLikeReset | common/vdma_common.c:490-520 | four bad buffers for which an active channel returns ECONNRESET and queues the transfer |
| LaunchExamples.FullRingLosesTrack | common/vdma_common.c:505-514 | 127 launches from an idle channel, and then one on the full ring that leaves a control word nobody lists |
| DirtyDescriptors.ReapTracked | common/vdma_common.c:104-119 | completion keeps every unusual control word on the list of a transfer in flight |
| DirtyDescriptors.ReapLeavesOthers | common/vdma_common.c:778-782 | retiring a transfer leaves the descriptors of the others as they were |
| DirtyDescriptors.ReapOnlyClears | common/vdma_common.c:104-119 | completion changes nothing on the list but the control words of transfers that left; addresses and status words stay |
| DirtyDescriptors.DropOnlyClears | common/vdma_common.c:656-666 | neither does dropping |
| DirtyDescriptors.DroppedIsClean | common/vdma_common.c:656-666 | dropping all transfers leaves default or original control words everywhere |
| DirtyDescriptors.EmptyRingIsDefault | common/vdma_common.h:81-85 | with nothing in flight, a list that came with default control words has them all |
| Channels.ProgramBuffers | common/vdma_common.c:490-503 | the loop over the buffers, errors included, agrees with its specification |
| Channels.VdmaChannel.constructor | common/vdma_common.c:589-612 | a new channel is idle |
| Channels.VdmaChannel.ClearDirtyDescs | common/vdma_common.c:110-119 | exactly the listed descriptors get the default control word, all else is unchanged |
| Channels.VdmaChannel.LaunchTransfer | common/vdma_common.c:438-521 | return value and complete new channel state on every path, with the attached or another list |
| Channels.VdmaChannel.FillIrqData | common/vdma_common.c:743-806 | new channel state, transfers handed to the done callback, and reported byte |
| Channels.VdmaChannel.Disable | common/vdma_common.c:645-671 | the channel is idle, everything in flight dropped in order, the list cleaned |
| ChannelRuns.FillKeeps | common/vdma_common.c:743-784 | a completion pass keeps the channel invariant and leaves nothing in flight that was finished at the last interrupt |
| ChannelRuns.LaunchKeeps | common/vdma_common.c:438-521 | any launch keeps conservation, and a sound one, refused, accepted or failing on a full ring, the whole channel invariant |
| EngineRuns.StepKeeps | linux/vdma/ioctl.c:72-180 | every step of every party keeps the engine invariant |
| EngineRuns.NoLostCompletion | linux/vdma/vdma.c:155-178 | in every reachable state, on a channel with sound launches, a transfer finished at the last interrupt has its bit pending or is about to be completed |
| EngineRuns.InterruptMarks | linux/vdma/vdma.c:155-178 | an interrupt makes exactly its channels pending |
| EngineRuns.WaitTakes | common/vdma_common.h:290-300 | a wait takes exactly the channels that were asked for, are enabled and are pending, and clears only their bits |
| EngineRuns.WaitLeavesOthers | linux/vdma/ioctl.c:166-180 | a whole wait leaves the bit, the transfers and the completions of every channel it was not asked for as they were |
| EngineRuns.EnableAdds | linux/vdma/ioctl.c:27-46 | enabling adds exactly the given channels, if none of them is enabled |
| EngineRuns.DisableTakes | linux/vdma/ioctl.c:64-86 | disabling takes exactly the given channels and their bits, and drops what they had in flight |
| EngineRuns.HistoryIsKept | common/vdma_common.c:438-521 | what was launched and retired stays on record over every step, and a launch is recorded exactly if it queued a transfer |
| EngineRuns.LaunchIsNoted | common/vdma_common.c:487-520 | which launches count as bound to aligned memory |
| RunExamples.OneTransferCompletes | linux/vdma/ioctl.c:105-190 | a run from the start in which a transfer is launched, processed, signalled, waited for and completed |
| EngineRuns.WakesIff | common/vdma_common.h:276-284 | a waiter wakes exactly if one of its channels is pending or not enabled |
| EngineRuns.DisableAndInterruptWake | common/vdma_common.h:276-284 | so disabling a channel, or an interrupt on it, wakes whoever waits for it |
| EngineRuns.EverythingCompletes | linux/vdma/ioctl.c:105-190 | from every reachable state, once the hardware is done and has raised its interrupt, a wait completes every transfer in flight |
| EngineRuns.WaiterWakes | common/vdma_common.h:276-300 | then no waiter on that channel sleeps, and a wait on an enabled channel completes it |
| EngineRuns.WaitDelivers | linux/vdma/ioctl.c:166-180 | a wait retires as completed exactly the transfers finished by then, in launch order |
| EngineRuns.ReachableGeometry | common/vdma_common.c:97-119 | in every reachable state the geometry holds if the launches on the list were sound, and every unusual control word is listed if they were tidy too |
| EngineRuns.SoundRunTracks | common/vdma_common.c:97-119 | in runs whose launches are sound and tidy, every channel keeps its geometry, every unusual control word of every list is listed, and what is in flight names its bytes |
| EngineRuns.ReachableIntegrity | common/vdma_common.c:97-119 | in every reachable state, as long as launches fit into the free descriptors, a transfer in flight that was bound to aligned memory names exactly the bytes of its buffers |
| EngineRuns.ReachableConservation | common/vdma_common.c:656-784 | in every reachable state, whatever was launched, launched is retired followed by in flight, in order, with at most 127 in flight |
| EngineRuns.DisabledListIsClean | common/vdma_common.c:645-671 | disabling in any reachable state, after sound and tidy launches, hands the list back clean |
| Ownership.Controller.EnableChannels | linux/vdma/ioctl.c:15-49 | all or nothing: refused exactly when a channel is enabled already |
| Ownership.Controller.DisableChannels | linux/vdma/ioctl.c:51-92 | new bitmaps of engines and context |
| Ownership.Controller.Finalize | linux/vdma/vdma.c:120-143 | the context's channels, and no others, are disabled and their interrupts cleared |
| Ownership.StepEffect | linux/vdma/ioctl.c:15-92 | what opening, enabling, disabling and closing do to one channel and its owner, and when enabling is refused |
| Ownership.OpenEnableClose | linux/vdma/vdma.c:120-143 | a file that enables free channels owns them, and its close leaves the world as it was |
| Ownership.DisableKeepsExact | linux/vdma/ioctl.c:72-86 | a disable keeps the bitmaps disjoint and exact if and only if it names no channel of another context |
| Ownership.OwnershipOverRuns | linux/vdma/vdma.c:120-143 | over all runs every enabled channel has an open owner, none is enabled after the last close, and bitmaps are exact if contexts keep to their own |
| Mmio.ReadBitsIsPick | common/driver_utils.h:19-20 | reading eight bits at a byte offset picks that byte |
| Mmio.WriteBitsIsPut | common/driver_utils.h:21-23 | writing eight bits at a byte offset replaces that byte only |
| Resources.Region.Read8 | common/hailo_resource.c:17-22 | the byte at the offset |
| Resources.Region.Write8 | common/hailo_resource.c:36-42 | changes that byte only, although it rewrites a word |
| Resources.Region.ReadBuffer | common/hailo_resource.c:57-81 | exactly the requested bytes, for every alignment of both sides |
| Resources.Region.WriteBuffer | common/hailo_resource.c:83-119 | changes exactly the given bytes; over a broken link changes nothing and fails unless all bytes are 0xFF |
| DeviceMemory.PlanIsTheRange | common/pcie_common.c:578-604 | the accesses are the requested addresses in order if and only if the address is below 2^32 |
| DeviceMemory.PlanWindowed | common/pcie_common.c:589-600 | every window lies on a 4 KiB boundary and no chunk leaves it |
| DeviceMemory.PlanStores | common/pcie_common.c:578-604 | the windowed writes together are a plain copy |
| DeviceMemory.PlanLoads | common/pcie_common.c:608-634 | the windowed reads together are the bytes at the address |
| DeviceMemory.ConfiguredEntry | common/pcie_common.c:529-544 | the five words of the entry as the bridge reads them |
| DeviceMemory.Bridge.ConfigureAtr | common/pcie_common.c:529-544 | the window moves to the given address, and the entry's words are these |
| DeviceMemory.Bridge.ReadAtr | common/pcie_common.c:546-554 | the translation address in force |
| DeviceMemory.Bridge.WriteMemory | common/pcie_common.c:578-604 | device memory changes exactly as by a plain copy, and the window is back where it was |
| DeviceMemory.Bridge.ReadMemory | common/pcie_common.c:608-634 | the bytes at the address, memory unchanged, and the window back where it was |
| FirmwareLog.ReadFirmwareLog | common/fw_operation.c:71-121 | the ready bytes up to the buffer size, the host offset advanced by as many modulo the data size, the rest of the region unchanged |
| FirmwareLog.ReadAround | common/fw_operation.c:95-112 | the one or two reads give the cyclic slice |
| FirmwareLog.ReadIsTwoSteps | common/fw_operation.c:71-121 | a call of the read function does what the two read steps of the stream do, to the bytes handed out and to the region |
| FirmwareLog.AppendKeeps | common/fw_operation.c:56-69 | an append that does not overrun keeps the ring equal to what is written and not read |
| FirmwareLog.LogStream | common/fw_operation.c:56-121 | for every interleaving of appends and reads, what was read is a prefix of what was written and the rest is in the ring |
| FirmwareImage.ValidateFwHeader | common/fw_validation.c:23-88 | accepts exactly acceptable firmware at the offset, and returns the offset behind it |
| FirmwareImage.ValidateCertHeader | common/fw_validation.c:90-116 | accepts exactly acceptable certificates at the offset, and returns the offset behind them |
| FirmwareImage.ValidateFwHeaders | common/pcie_common.c:698-753 | accepts exactly the images whose parts fill them |
| FirmwareImage.AcceptedFields | common/fw_validation.c:23-116 | the header words of an accepted image: magic number by board, version, size limits, and that the parts fill it |
| FirmwareImage.AcceptedIsPartitioned | common/pcie_common.c:698-753 | an accepted image is its parts put together again |
| FirmwareImage.FormatIsAccepted | common/fw_validation.h:24-40 | every image in the format and within the limits is accepted, and its parts are found again |
| FirmwareLoad.WriteAppFirmware | common/pcie_common.c:648-662 | the parts, all taken from inside the image, are written to their addresses and the window is restored |
| FirmwareLoad.WriteCoreFirmware | common/pcie_common.c:664-671 | the same for the two parts of the core firmware |
| FirmwareLoad.WriteImage | common/pcie_common.c:755-792 | an image is written if and only if it is accepted; with destinations that do not overlap, header, code, key, content, core header and core code are afterwards in memory, each at its own address |
| FirmwareLoad.PiecesAreTheImage | common/pcie_common.c:648-671 | all parts handed to write_memory come from inside the image, and together are the image but for the header of the certificate |
| FirmwareLoad.DepositBoth | common/pcie_common.c:648-671 | both calls together are one sequence of writes |
| FirmwareLoad.AllDeposited | common/pcie_common.c:656-661 | parts with disjoint destinations are all in device memory afterwards |
| BootSplit.IndexInRange | linux/pcie/src/pcie.c:409-414 | the channel that holds the last descriptor stays in range if and only if all pages fit in eight channels |
| BootSplit.BootState.NextIfFull | linux/pcie/src/pcie.c:409-414 | where the next chunk goes; the index becomes 8 exactly behind 8 * 65535 descriptors |
| BootSplit.FullBeforeEmptyAfter | linux/pcie/src/pcie.c:409-417 | channels before the current one are full, later ones empty |
| BootSplit.BootState.ProgramChunk | linux/pcie/src/pcie.c:401-456 | one iteration: where the chunk goes, how large it is, when it raises an interrupt, and the state after it |
| BootSplit.BootState.ProgramOneFile | linux/pcie/src/pcie.c:380-463 | the chunks cover the file without gap or overlap on consecutive descriptors, all but the last fill their channels, each raises an interrupt exactly when it should, and the used-channel bitmap is 2^(current + 1) - 1 |
| BootSplit.BootState.ProgramEntireBatch | linux/pcie/src/pcie.c:474-504 | the same for every file of a batch, the last chunk of the last file raising an interrupt |
| BootSplit.LastOfChannel | linux/pcie/src/pcie.c:426-429 | the rounded-down test holds exactly of chunks that fill their channel with whole pages |
| BootSplit.ChunksDisjoint | linux/pcie/src/pcie.c:416-424 | no two chunks of a file share a descriptor or a part of a channel buffer |
| BootSplit.FilesDisjoint | linux/pcie/src/pcie.c:485-501 | neither do chunks of different files |
| BootSplit.ChannelInterruptIff | linux/pcie/src/pcie.c:426-431 | from the file sizes alone, exactly which channels raise an interrupt |
| BootSplit.PartialPageIsSilent | linux/pcie/src/pcie.c:426-431 | file sizes for which a full channel raises none |
| Boards.BoardList.Insert | linux/pcie/src/pcie.c:253-293 | the smallest index not in use, inserted so that the list stays sorted |
| Boards.BoardList.Remove | linux/pcie/src/pcie.c:295-303 | exactly that board is gone and the list stays sorted |
| Boards.AlwaysSorted | linux/pcie/src/pcie.c:253-303 | over every sequence of inserts and removes the list is strictly sorted |

## Left out

- Kernel services (page pinning, dma-buf, DMA mapping and sync, wait queues, mmap, reference counts): foreign calls, abstracted as steps or inputs.
- Copying to and from user space, ioctl dispatch and handle lookup: plumbing.
- Interrupt timestamps: a second ring of the same kind as the ring of transfers.
- Starting, stopping and polling channels: register sequences against device behaviour the code does not define.
- hailo_vdma_engine_fill_irq_data: the loop over the channels of a bitmap is a sequence of single-channel completions in any order; the bound on the result array is not modelled.
- Several engines: the engine model has one; engines share nothing but the mutex.
- Sharing one descriptor list between channels, and several contexts launching on one channel: an attached list belongs to one channel.
- Lists with more than 65536 descriptors, which creation accepts: the u16 counters cannot address them.
- DescriptorLists.ProgramChunk: a chunk is not empty (its caller skips empty ones) and its end does not wrap a u32.
- DescriptorLists.ProgramWalk: buffers close to 4 GiB, for which u32 page arithmetic wraps, are left out (`FitsU32`).
- DescriptorLists.BindAndProgram: likewise.
- DescriptorLists.ProgramLastDesc: likewise.
- DescriptorLists.ProgramList: likewise.
- DescriptorLists.ProgramBatch: likewise.
- Channels.ProgramBuffers: likewise.
- Channels.VdmaChannel.LaunchTransfer: likewise; and a request that passes the checks starts inside the list, since the write behind its end has no place in the model (`Launches.StartsInside` says when that is).
- Launches.LaunchQueues: stated for requests of at most as many descriptors as the list has; `Launches.LaunchReturns` has no such bound.
- LaunchWords.LaunchWrites: stated for buffers that can be programmed and requests of at most as many descriptors as the list has.
- DirtyDescriptors.FullRingLaunch: stated for requests that fit into the free descriptors; `Integrity.FullRingLeavesAlone` speaks of the others.
- Launches.LaunchGeometric: stated for requests of at most as many descriptors as the list has; `Launches.LengthRecorded` says what a longer one records.
- EngineRuns.StepKeeps: says nothing of the geometry once a launch was not sound; `Launches` says what such a launch does.
- A channel identifier in descriptor addresses: beyond `Requests.TaggedAddress`, the meaning of descriptors is stated for the PCIe hardware, which has none.
- 16-bit register accesses and single-register control exchanges.
- Probe, removal and board lifetime; firmware control, notification and SoC requests; sysfs and logging.
- FirmwareLog.ReadFirmwareLog: the offsets in the header are below the data size, as the firmware keeps them; the source does not check this.
- DeviceMemory.Bridge.ReadMemory: the link is up, as for writing.
- DeviceMemory.Bridge.WriteMemory: memory is faithful and the link up; a broken link is modelled for single buffers only.
- FirmwareImage.ValidateCertHeader: stated for offsets at which no u32 sum wraps, which holds for all offsets validation reaches.
- FirmwareImage.ValidateFwHeader: stated for offsets at which no u32 sum wraps, which holds for all offsets validation reaches.
